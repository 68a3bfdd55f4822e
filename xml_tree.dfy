/** The value of an XmlNode subtree (its tag, value, attributes and children,
    recursively) and the read-only queries of XmlNode stated on that value. */
module XmlTree {

  datatype Option<+T> = None | Some(value: T)

  /** Attribute values are strings or Java `null` (`None`). */
  type Attrs = map<string, Option<string>>

  /** A snapshot of an XmlNode subtree. A missing tag or value is Java `null`. */
  datatype Tree = Tree(tag: Option<string>, value: Option<string>, attrs: Attrs, kids: seq<Tree>)

  /** A node as `new XmlNode()` followed by `setTag(tag)` leaves it. */
  function Leaf(tag: Option<string>): Tree {
    Tree(tag, None, map[], [])
  }

  // ---------------------------------------------------------------------
  // Attributes
  // ---------------------------------------------------------------------

  /** `getAttribute(key)`: Java answers `null` both for a missing key and for
      a key stored with a `null` value. */
  function GetAttribute(a: Attrs, key: string): (r: Option<string>)
    ensures r.Some? <==> key in a && a[key].Some?
    ensures r.Some? ==> a[key] == r
  {
    if key in a then a[key] else None
  }

  /** `String.valueOf` of an attribute value: `null` prints as "null". */
  function StringForm(v: Option<string>): (r: string)
    ensures v.Some? ==> r == v.value
    ensures v.None? ==> r == "null"
  {
    match v
    case Some(s) => s
    case None => "null"
  }

  /** `getAttributeString(key)`. */
  function GetAttributeString(a: Attrs, key: string): (r: string)
    ensures (key !in a || a[key].None?) ==> r == "null"
    ensures key in a && a[key].Some? ==> r == a[key].value
  {
    StringForm(GetAttribute(a, key))
  }

  /** After an upsert the key reads back the new value and every other key
      reads back what it did before. */
  lemma SetAttributeThenGet(a: Attrs, key: string, v: Option<string>, other: string)
    requires other != key
    ensures GetAttribute(a[key := v], key) == v
    ensures GetAttribute(a[key := v], other) == GetAttribute(a, other)
    ensures GetAttributeString(a[key := v], other) == GetAttributeString(a, other)
  {
  }

  /** The sentinel is ambiguous: an absent key and a stored "null" string
      read back alike through `getAttributeString`. */
  lemma AttributeStringSentinel(a: Attrs, key: string)
    requires key !in a
    ensures GetAttributeString(a, key) == GetAttributeString(a[key := Some("null")], key)
    ensures GetAttribute(a, key) != GetAttribute(a[key := Some("null")], key)
  {
  }

  // ---------------------------------------------------------------------
  // Immediate children by tag
  // ---------------------------------------------------------------------

  /** `tag.equals(node.getTag())`: a node without a tag never matches. */
  predicate HasTag(t: Tree, tag: string) {
    t.tag == Some(tag)
  }

  /** The nodes of `ts` carrying `tag`, in order: `getChildrenByTagName` on
      the node whose children are `ts`. */
  function TaggedIn(ts: seq<Tree>, tag: string): (r: seq<Tree>)
    ensures |r| <= |ts|
    ensures forall x :: x in r <==> x in ts && HasTag(x, tag)
  {
    if ts == [] then []
    else (if HasTag(ts[0], tag) then [ts[0]] else []) + TaggedIn(ts[1..], tag)
  }

  /** Selecting by tag distributes over concatenation; with `TaggedOne`
      this determines `TaggedIn` completely. */
  lemma {:induction false} TaggedInAppend(a: seq<Tree>, b: seq<Tree>, tag: string)
    ensures TaggedIn(a + b, tag) == TaggedIn(a, tag) + TaggedIn(b, tag)
  {
    if a == [] {
      assert a + b == b;
    } else {
      assert (a + b)[1..] == a[1..] + b;
      TaggedInAppend(a[1..], b, tag);
    }
  }

  lemma TaggedOne(t: Tree, tag: string)
    ensures TaggedIn([t], tag) == if HasTag(t, tag) then [t] else []
  {
    assert [t][1..] == [];
  }

  /** Nothing carries the tag, so nothing is selected. */
  lemma NoneTagged(ts: seq<Tree>, tag: string)
    requires forall x :: x in ts ==> !HasTag(x, tag)
    ensures TaggedIn(ts, tag) == []
  {
    if TaggedIn(ts, tag) != [] {
      assert TaggedIn(ts, tag)[0] in TaggedIn(ts, tag);
    }
  }

  /** `getFirstChildByTagName`: the first node carrying `tag`, if any. */
  function FirstTagged(ts: seq<Tree>, tag: string): (r: Option<Tree>)
    ensures r.Some? ==> r.value in ts && HasTag(r.value, tag)
    ensures r.None? <==> forall x :: x in ts ==> !HasTag(x, tag)
  {
    if ts == [] then None
    else if HasTag(ts[0], tag) then Some(ts[0])
    else FirstTagged(ts[1..], tag)
  }

  /** The first match is the head of the list of all matches. */
  lemma {:induction false} FirstTaggedIsHead(ts: seq<Tree>, tag: string)
    ensures FirstTagged(ts, tag) == if TaggedIn(ts, tag) == [] then None else Some(TaggedIn(ts, tag)[0])
  {
    if ts != [] && !HasTag(ts[0], tag) {
      FirstTaggedIsHead(ts[1..], tag);
    }
  }

  /** `addChild(tag, value)` followed by `getFirstChildByTagName(tag)` finds
      the new node when no earlier child carries the tag. */
  lemma AddedChildIsFound(ts: seq<Tree>, tag: string, value: Option<string>)
    requires forall x :: x in ts ==> !HasTag(x, tag)
    ensures FirstTagged(ts + [Tree(Some(tag), value, map[], [])], tag) == Some(Tree(Some(tag), value, map[], []))
  {
    var n := Tree(Some(tag), value, map[], []);
    TaggedInAppend(ts, [n], tag);
    TaggedOne(n, tag);
    FirstTaggedIsHead(ts + [n], tag);
  }

  // ---------------------------------------------------------------------
  // Descendants by tag
  // ---------------------------------------------------------------------

  /** The forest `ts` in pre-order: each node before its own descendants,
      siblings left to right. */
  function PreOrder(ts: seq<Tree>): (r: seq<Tree>)
    ensures |r| >= |ts|
    ensures ts != [] ==> r[0] == ts[0]
  {
    if ts == [] then [] else [ts[0]] + PreOrder(ts[0].kids) + PreOrder(ts[1..])
  }

  /** What `getChildrenRecurisveByTagName` adds to its output list for the
      children `ts` of a parent: each matching child, then the matches below
      it, then those of the next sibling. */
  function DescendantsIn(ts: seq<Tree>, tag: string): (r: seq<Tree>)
    ensures forall x :: x in r ==> HasTag(x, tag)
  {
    if ts == [] then []
    else (if HasTag(ts[0], tag) then [ts[0]] else [])
         + DescendantsIn(ts[0].kids, tag) + DescendantsIn(ts[1..], tag)
  }

  /** `getChildrenRecursiveByTagName(tag)`: searching below `t` only. */
  function DescendantsByTag(t: Tree, tag: string): (r: seq<Tree>)
    ensures r == TaggedIn(PreOrder(t.kids), tag)
  {
    DescendantsArePreOrder(t.kids, tag);
    DescendantsIn(t.kids, tag)
  }

  /** The recursive search selects exactly the tagged nodes of the pre-order
      walk below the receiver, in that order. */
  lemma {:induction false} DescendantsArePreOrder(ts: seq<Tree>, tag: string)
    ensures DescendantsIn(ts, tag) == TaggedIn(PreOrder(ts), tag)
  {
    if ts != [] {
      DescendantsArePreOrder(ts[0].kids, tag);
      DescendantsArePreOrder(ts[1..], tag);
      TaggedInAppend([ts[0]] + PreOrder(ts[0].kids), PreOrder(ts[1..]), tag);
      TaggedInAppend([ts[0]], PreOrder(ts[0].kids), tag);
      TaggedOne(ts[0], tag);
    }
  }

  /** Searching a forest is searching each part and concatenating. */
  lemma {:induction false} DescendantsAppend(a: seq<Tree>, b: seq<Tree>, tag: string)
    ensures DescendantsIn(a + b, tag) == DescendantsIn(a, tag) + DescendantsIn(b, tag)
  {
    if a == [] {
      assert a + b == b;
    } else {
      assert (a + b)[0] == a[0];
      assert (a + b)[1..] == a[1..] + b;
      DescendantsAppend(a[1..], b, tag);
    }
  }

  /** The contribution of a single child: itself if it matches, then its
      own matching descendants. */
  lemma DescendantsOne(t: Tree, tag: string)
    ensures DescendantsIn([t], tag) == (if HasTag(t, tag) then [t] else []) + DescendantsIn(t.kids, tag)
  {
    assert [t][1..] == [];
  }

  /** Every immediate match is found by the recursive search too. */
  lemma {:induction false} ImmediateMatchesAreDescendants(ts: seq<Tree>, tag: string)
    ensures forall x :: x in TaggedIn(ts, tag) ==> x in DescendantsIn(ts, tag)
  {
    if ts != [] {
      ImmediateMatchesAreDescendants(ts[1..], tag);
    }
  }
}
