/** `XmlNode`: a mutable tree node whose children list and attribute map are
    updated in place. The ghost field `model` is the value of the subtree
    rooted here and `Repr` the objects it is made of; `Valid()` keeps the
    tree acyclic and unshared. */
module XmlNodes {
  import opened JavaString
  import opened XmlTree
  import opened XmlPath

  /** The position of the first occurrence of `x` in `s`. */
  function IndexOf<T(==)>(s: seq<T>, x: T): (i: nat)
    requires x in s
    ensures i < |s| && s[i] == x && x !in s[..i]
  {
    if s[0] == x then 0
    else
      var j := IndexOf(s[1..], x);
      assert s[..j + 1] == [s[0]] + s[1..][..j];
      j + 1
  }

  /** `List.remove(Object)`: drops the first occurrence of `x`, if any, and
      keeps everything else in order. */
  function RemoveFirst<T(==)>(s: seq<T>, x: T): (r: seq<T>)
    ensures x !in s ==> r == s
    ensures x in s ==> r == s[..IndexOf(s, x)] + s[IndexOf(s, x) + 1..]
  {
    if s == [] then []
    else if s[0] == x then s[1..]
    else
      var r := [s[0]] + RemoveFirst(s[1..], x);
      assert x in s[1..] ==> r == s[..IndexOf(s, x)] + s[IndexOf(s, x) + 1..] by {
        if x in s[1..] {
          var j := IndexOf(s[1..], x);
          assert IndexOf(s, x) == j + 1;
          assert s[..j + 1] == [s[0]] + s[1..][..j];
          assert s[j + 2..] == s[1..][j + 1..];
        }
      }
      assert x !in s[1..] ==> s == [s[0]] + s[1..];
      r
  }

  /** The values of a list of nodes. */
  ghost function Models(ns: seq<XmlNode>): (r: seq<Tree>)
    reads ns
    ensures |r| == |ns|
    ensures forall i :: 0 <= i < |ns| ==> r[i] == ns[i].model
  {
    seq(|ns|, i requires 0 <= i < |ns| reads ns => ns[i].model)
  }

  lemma TakeNext<T>(s: seq<T>, i: nat)
    requires i < |s|
    ensures s[..i + 1] == s[..i] + [s[i]]
  {
  }

  lemma TakeAll<T>(s: seq<T>)
    ensures s[..|s|] == s
  {
  }

  lemma ModelsAppend(a: seq<XmlNode>, b: seq<XmlNode>)
    ensures Models(a + b) == Models(a) + Models(b)
  {
  }

  lemma ModelsOne(n: XmlNode)
    ensures Models([n]) == [n.model]
  {
  }

  /** Each node's tag field is the tag of its value. */
  ghost predicate TagsAgree(ns: seq<XmlNode>)
    reads ns
  {
    forall n :: n in ns ==> n.model.tag == n.tag
  }

  /** No object occurs twice. */
  ghost predicate NoDuplicates(ns: seq<XmlNode>) {
    forall i, j :: 0 <= i < j < |ns| ==> ns[i] != ns[j]
  }

  lemma NoDuplicatesAppend(a: seq<XmlNode>, b: seq<XmlNode>, sa: set<object>, sb: set<object>)
    requires NoDuplicates(a) && NoDuplicates(b) && sa !! sb
    requires forall n :: n in a ==> n in sa
    requires forall n :: n in b ==> n in sb
    ensures NoDuplicates(a + b)
  {
    forall i, j | 0 <= i < j < |a + b| ensures (a + b)[i] != (a + b)[j] {
      if j < |a| {
        assert (a + b)[i] == a[i] && (a + b)[j] == a[j];
      } else if i >= |a| {
        assert (a + b)[i] == b[i - |a|] && (a + b)[j] == b[j - |a|];
      } else {
        assert (a + b)[i] in a && (a + b)[j] in b;
      }
    }
  }

  /** The objects making up the subtrees of `ns`. */
  ghost function Footprints(ns: seq<XmlNode>): set<object>
    reads ns
  {
    if ns == [] then {} else Footprints(ns[..|ns| - 1]) + ns[|ns| - 1].Repr
  }

  lemma FootprintsAppend(ns: seq<XmlNode>, n: XmlNode)
    ensures Footprints(ns + [n]) == Footprints(ns) + n.Repr
  {
    assert (ns + [n])[..|ns|] == ns;
  }

  /** The nodes of `ns` carrying `tag`, as objects, in order. */
  ghost function NodesTagged(ns: seq<XmlNode>, tag: string): seq<XmlNode>
    reads ns
  {
    if ns == [] then []
    else
      var c := ns[|ns| - 1];
      NodesTagged(ns[..|ns| - 1], tag) + (if c.tag == Some(tag) then [c] else [])
  }

  /** The lists of `ps` concatenated in order. */
  function Flat<T>(ps: seq<seq<T>>): seq<T> {
    if ps == [] then [] else Flat(ps[..|ps| - 1]) + ps[|ps| - 1]
  }

  lemma FlatNext<T>(ps: seq<seq<T>>, k: nat)
    requires k < |ps|
    ensures Flat(ps[..k + 1]) == Flat(ps[..k]) + ps[k]
  {
    assert ps[..k + 1][..k] == ps[..k];
  }

  class XmlNode {
    var tag: Option<string>
    var value: Option<string>
    var attributes: Attrs
    var children: seq<XmlNode>

    ghost var model: Tree
    ghost var Repr: set<object>

    ghost predicate Valid()
      reads this, Repr
      decreases Repr
    {
      && this in Repr
      && model == Tree(tag, value, attributes, model.kids)
      && |model.kids| == |children|
      && (forall i :: 0 <= i < |children| ==>
            && children[i] in Repr
            && children[i].Repr <= Repr
            && this !in children[i].Repr
            && children[i].model == model.kids[i]
            && children[i].Valid())
      && (forall i, j :: 0 <= i < j < |children| ==> children[i].Repr !! children[j].Repr)
    }

    /** `new XmlNode()`: no tag, no value, no attributes, no children. */
    constructor ()
      ensures Valid() && fresh(Repr) && Repr == {this}
      ensures model == Leaf(None)
    {
      tag, value, attributes, children := None, None, map[], [];
      model := Leaf(None);
      Repr := {this};
    }

    /** The value of the list of children. */
    lemma ChildModels()
      requires Valid()
      ensures Models(children) == model.kids
    {
    }

    method SetTag(t: Option<string>)
      requires Valid()
      modifies this
      ensures Valid() && Repr == old(Repr) && children == old(children)
      ensures model == old(model).(tag := t)
    {
      tag := t;
      model := model.(tag := t);
    }

    method SetValue(v: Option<string>)
      requires Valid()
      modifies this
      ensures Valid() && Repr == old(Repr) && children == old(children)
      ensures model == old(model).(value := v)
    {
      value := v;
      model := model.(value := v);
    }

    /** `getAttribute(key)`. */
    function GetAttribute(key: string): (r: Option<string>)
      reads this
      ensures r.Some? <==> key in attributes && attributes[key].Some?
      ensures r.Some? ==> attributes[key] == r
    {
      XmlTree.GetAttribute(attributes, key)
    }

    /** `getAttributeString(key)`: "null" when the key is absent or null. */
    function GetAttributeString(key: string): (r: string)
      reads this
      ensures (key !in attributes || attributes[key].None?) ==> r == "null"
      ensures key in attributes && attributes[key].Some? ==> r == attributes[key].value
    {
      XmlTree.GetAttributeString(attributes, key)
    }

    /** `setAttribute(key, value)`: an upsert that leaves the other keys alone. */
    method SetAttribute(key: string, v: Option<string>)
      requires Valid()
      modifies this
      ensures Valid() && Repr == old(Repr) && children == old(children)
      ensures model == old(model).(attrs := old(model.attrs)[key := v])
      ensures GetAttribute(key) == v
      ensures forall k :: k != key ==> GetAttribute(k) == old(GetAttribute(k))
    {
      attributes := attributes[key := v];
      model := model.(attrs := attributes);
    }

    /** The loops that call `setAttribute` once per entry of `a`: the entries
        are upserted, in any order since the keys are distinct. */
    method SetAttributes(a: Attrs)
      requires Valid()
      modifies this
      ensures Valid() && Repr == old(Repr) && children == old(children)
      ensures model == old(model).(attrs := old(model.attrs) + a)
    {
      var keys := a.Keys;
      while keys != {}
        invariant Valid() && Repr == old(Repr) && children == old(children)
        invariant keys <= a.Keys
        invariant model == old(model).(attrs := old(model.attrs) + (a - keys))
        decreases keys
      {
        var k :| k in keys;
        SetAttribute(k, a[k]);
        assert a - (keys - {k}) == (a - keys)[k := a[k]];
        keys := keys - {k};
      }
      assert a - keys == a;
    }

    /** `addChild(XmlNode)`: takes `n` over as the last child, without a copy.
        The tree stays unshared only if `n` is not already part of it. */
    method AddChildNode(n: XmlNode)
      requires Valid() && n.Valid() && n.Repr !! Repr
      modifies this
      ensures Valid() && Repr == old(Repr) + n.Repr
      ensures children == old(children) + [n]
      ensures model == old(model).(kids := old(model.kids) + [n.model])
    {
      children := children + [n];
      model := model.(kids := model.kids + [n.model]);
      Repr := Repr + n.Repr;
    }

    /** `addChild(tag)`: a fresh node with that tag, appended and returned. */
    method AddChild(t: Option<string>) returns (n: XmlNode)
      requires Valid()
      modifies this
      ensures Valid() && fresh(n) && n.Valid() && n.Repr == {n} && Repr == old(Repr) + {n}
      ensures children == old(children) + [n]
      ensures n.model == Leaf(t)
      ensures model == old(model).(kids := old(model.kids) + [Leaf(t)])
    {
      n := new XmlNode();
      n.SetTag(t);
      AddChildNode(n);
    }

    /** `addChild(tag, value)`. */
    method AddChildWithValue(t: Option<string>, v: Option<string>) returns (n: XmlNode)
      requires Valid()
      modifies this
      ensures Valid() && fresh(n) && n.Valid() && n.Repr == {n} && Repr == old(Repr) + {n}
      ensures children == old(children) + [n]
      ensures n.model == Tree(t, v, map[], [])
      ensures model == old(model).(kids := old(model.kids) + [Tree(t, v, map[], [])])
    {
      n := AddChild(t);
      n.SetValue(v);
      model := model.(kids := model.kids[|model.kids| - 1 := n.model]);
    }

    /** `getChildrenByTagName(tag)`: the children carrying `tag`, in order. */
    method GetChildrenByTagName(t: string) returns (r: seq<XmlNode>)
      requires Valid()
      ensures r == NodesTagged(children, t)
      ensures Models(r) == TaggedIn(model.kids, t)
      ensures forall n :: n in r <==> n in children && n.tag == Some(t)
    {
      ChildTags();
      r := FilterByTag(children, t);
    }

    /** Child `i` is a valid subtree strictly inside this one, with the
        value this node records for it. */
    lemma ChildAt(i: nat)
      requires Valid() && i < |children|
      ensures children[i].Valid() && children[i].Repr < Repr
      ensures children[i].model == model.kids[i] && children[i].tag == model.kids[i].tag
    {
      assert children[i].Valid();
    }

    /** Every child's tag is the tag of its value. */
    lemma ChildTags()
      requires Valid()
      ensures Models(children) == model.kids
      ensures TagsAgree(children)
    {
      forall n | n in children ensures n.model.tag == n.tag {
        var k :| 0 <= k < |children| && children[k] == n;
        assert children[k].Valid();
      }
    }

    /** The loop of `getChildrenByTagName` over the nodes `ns`. */
    static method FilterByTag(ns: seq<XmlNode>, t: string) returns (r: seq<XmlNode>)
      requires TagsAgree(ns)
      ensures r == NodesTagged(ns, t)
      ensures Models(r) == TaggedIn(Models(ns), t)
      ensures forall n :: n in r <==> n in ns && n.tag == Some(t)
    {
      r := [];
      var i := 0;
      while i < |ns|
        invariant 0 <= i <= |ns|
        invariant r == NodesTagged(ns[..i], t)
        invariant Models(r) == TaggedIn(Models(ns[..i]), t)
        invariant forall n :: n in r <==> n in ns[..i] && n.tag == Some(t)
      {
        var c := ns[i];
        FilterStep(ns, i, t);
        if c.tag == Some(t) {
          ModelsAppend(r, [c]);
          r := r + [c];
        }
        i := i + 1;
      }
      TakeAll(ns);
    }

    /** Selecting from one more node adds it exactly when it carries `t`. */
    static lemma FilterStep(ns: seq<XmlNode>, i: nat, t: string)
      requires i < |ns| && ns[i].model.tag == ns[i].tag
      ensures ns[..i + 1] == ns[..i] + [ns[i]] && ns[..i + 1][..i] == ns[..i]
      ensures TaggedIn(Models(ns[..i + 1]), t)
              == TaggedIn(Models(ns[..i]), t) + (if ns[i].tag == Some(t) then [ns[i].model] else [])
    {
      var c := ns[i];
      TakeNext(ns, i);
      ModelsAppend(ns[..i], [c]);
      ModelsOne(c);
      TaggedInAppend(Models(ns[..i]), [c.model], t);
      TaggedOne(c.model, t);
    }

    /** `getFirstChildByTagName(tag)`: the first child carrying `tag`, or null. */
    method GetFirstChildByTagName(t: string) returns (r: XmlNode?)
      requires Valid()
      ensures r == null <==> TaggedIn(model.kids, t) == []
      ensures r != null ==> r.model == TaggedIn(model.kids, t)[0]
      ensures r != null ==> exists i :: 0 <= i < |children| && children[i] == r && r.tag == Some(t)
                                      && forall j :: 0 <= j < i ==> children[j].tag != Some(t)
    {
      var i := 0;
      while i < |children|
        invariant 0 <= i <= |children|
        invariant forall j :: 0 <= j < i ==> children[j].tag != Some(t)
      {
        if children[i].tag == Some(t) {
          r := children[i];
          NoneTaggedBefore(i, t);
          return;
        }
        i := i + 1;
      }
      r := null;
      NoneTaggedBefore(i, t);
      assert model.kids[..i] == model.kids;
    }

    /** Up to the first child carrying `tag`, the selection is empty; that
        child, if there is one, heads it. */
    lemma NoneTaggedBefore(i: nat, t: string)
      requires Valid() && i <= |children|
      requires forall j :: 0 <= j < i ==> children[j].tag != Some(t)
      ensures TaggedIn(model.kids[..i], t) == []
      ensures i < |children| && children[i].tag == Some(t) ==>
                TaggedIn(model.kids, t) != [] && TaggedIn(model.kids, t)[0] == children[i].model
    {
      var pre := model.kids[..i];
      forall x | x in pre ensures !HasTag(x, t) {
        var k :| 0 <= k < i && pre[k] == x;
        assert children[k].Valid();
      }
      NoneTagged(pre, t);
      if i < |children| {
        assert model.kids == pre + model.kids[i..];
        TaggedInAppend(pre, model.kids[i..], t);
      }
    }

    /** `getFirstChildByTagAndAttribute(tag, key, value)`: the first child
        carrying `tag` whose attribute `key` equals `value`; a child without
        that attribute, or with a null one, never matches. */
    method GetFirstChildByTagAndAttribute(t: string, key: string, v: string) returns (r: XmlNode?)
      requires Valid()
      ensures r == null <==> forall j :: 0 <= j < |children| ==>
                !(children[j].tag == Some(t) && children[j].GetAttribute(key) == Some(v))
      ensures r != null ==>
                exists i :: && 0 <= i < |children| && children[i] == r
                            && r.tag == Some(t) && r.GetAttribute(key) == Some(v)
                            && forall j :: 0 <= j < i ==> !(children[j].tag == Some(t) && children[j].GetAttribute(key) == Some(v))
    {
      var i := 0;
      while i < |children|
        invariant 0 <= i <= |children|
        invariant forall j :: 0 <= j < i ==> !(children[j].tag == Some(t) && children[j].GetAttribute(key) == Some(v))
      {
        var c := children[i];
        if c.tag == Some(t) && key in c.attributes && c.attributes[key] == Some(v) {
          return c;
        }
        i := i + 1;
      }
      r := null;
    }

    /** `remove(node)`: true iff `n` was a child; drops it and keeps the other
        children in order. `n` is then no longer a child, so a second call
        answers false. */
    method Remove(n: XmlNode) returns (removed: bool)
      requires Valid()
      modifies this
      ensures Valid()
      ensures removed == (n in old(children))
      ensures children == RemoveFirst(old(children), n)
      ensures n !in children
      ensures model == old(model).(kids := Models(children))
      ensures Repr == if removed then old(Repr) - n.Repr else old(Repr)
    {
      var i := 0;
      while i < |children| && children[i] != n
        invariant 0 <= i <= |children|
        invariant n !in children[..i]
      {
        assert children[..i + 1] == children[..i] + [children[i]];
        i := i + 1;
      }
      removed := i < |children|;
      if removed {
        RemoveChildAt(i);
      } else {
        assert children[..i] == children;
      }
    }

    /** Drops the child at position `i`, the first and only place `n` occurs. */
    method RemoveChildAt(i: nat)
      requires Valid() && i < |children|
      requires children[i] !in children[..i]
      modifies this
      ensures Valid()
      ensures old(children[i]) in old(children)
      ensures children == RemoveFirst(old(children), old(children[i]))
      ensures old(children[i]) !in children
      ensures model == old(model).(kids := Models(children))
      ensures Repr == old(Repr) - old(children[i].Repr)
    {
      var n := children[i];
      ChildOccursOnce(i);
      assert IndexOf(children, n) == i;
      var rest := children[..i] + children[i + 1..];
      ghost var kids := model.kids[..i] + model.kids[i + 1..];
      OtherChildrenStay(i);
      children := rest;
      model := model.(kids := kids);
      Repr := Repr - n.Repr;
    }

    /** Without child `i`, the other children still satisfy `Valid`'s
        conditions inside the footprint that child `i` leaves. */
    lemma OtherChildrenStay(i: nat)
      requires Valid() && i < |children|
      ensures var rest, kids, n := children[..i] + children[i + 1..], model.kids[..i] + model.kids[i + 1..], children[i];
        && |rest| == |kids|
        && (forall j :: 0 <= j < |rest| ==>
              && rest[j] in Repr - n.Repr && rest[j].Repr <= Repr - n.Repr
              && this !in rest[j].Repr && rest[j].model == kids[j] && rest[j].Valid())
        && (forall a, b :: 0 <= a < b < |rest| ==> rest[a].Repr !! rest[b].Repr)
    {
      var rest, kids, n := children[..i] + children[i + 1..], model.kids[..i] + model.kids[i + 1..], children[i];
      forall j | 0 <= j < |rest|
        ensures rest[j] in Repr - n.Repr && rest[j].Repr <= Repr - n.Repr
        ensures this !in rest[j].Repr && rest[j].model == kids[j] && rest[j].Valid()
      {
        var jj := if j < i then j else j + 1;
        assert rest[j] == children[jj] && kids[j] == model.kids[jj];
        if jj < i {
          assert children[jj].Repr !! children[i].Repr;
        } else {
          assert children[i].Repr !! children[jj].Repr;
        }
        assert rest[j] in rest[j].Repr;
      }
      forall a, b | 0 <= a < b < |rest| ensures rest[a].Repr !! rest[b].Repr {
        var aa := if a < i then a else a + 1;
        var bb := if b < i then b else b + 1;
        assert rest[a] == children[aa] && rest[b] == children[bb];
      }
    }

    /** The subtrees of the children before position `i` share nothing with
        the subtree of child `i`. */
    lemma EarlierChildrenDisjoint(i: nat)
      requires Valid() && i < |children|
      ensures Footprints(children[..i]) !! children[i].Repr
    {
      var k := i;
      while k > 0
        invariant 0 <= k <= i
        invariant Footprints(children[..i]) == Footprints(children[..k]) + FootprintsBetween(k, i)
        invariant FootprintsBetween(k, i) !! children[i].Repr
      {
        assert children[..k][..k - 1] == children[..k - 1];
        assert children[k - 1].Repr !! children[i].Repr;
        k := k - 1;
      }
    }

    /** The union of the subtrees of children `k` up to `i`, exclusive. */
    ghost function FootprintsBetween(k: nat, i: nat): set<object>
      reads this, children
      requires k <= i <= |children|
      decreases i - k
    {
      if k == i then {} else children[k].Repr + FootprintsBetween(k + 1, i)
    }

    /** Distinct children have disjoint footprints, so a child occurs once. */
    lemma ChildOccursOnce(i: nat)
      requires Valid() && i < |children|
      ensures children[i] !in children[..i] + children[i + 1..]
    {
      var c := children[i];
      forall j | 0 <= j < |children| && j != i
        ensures children[j] != c
      {
        assert c in c.Repr by { assert c.Valid(); }
        if j < i {
          assert children[j].Repr !! children[i].Repr;
        } else {
          assert children[i].Repr !! children[j].Repr;
        }
      }
    }

    /** `copy(src)`: appends a deep copy of `src` built from fresh objects;
        `src` itself is not changed. */
    method Copy(src: XmlNode)
      requires Valid() && src.Valid() && this !in src.Repr
      modifies this
      ensures Valid() && fresh(Repr - old(Repr)) && Repr >= old(Repr)
      ensures |children| == |old(children)| + 1 && children[..|children| - 1] == old(children)
      ensures fresh(children[|children| - 1].Repr)
      ensures model == old(model).(kids := old(model.kids) + [src.model])
      ensures src.model == old(src.model)
      decreases src.Repr, 1
    {
      var n := Clone(src);
      AddChildNode(n);
    }

    /** The new node that `copy` fills in: same tag, value and attributes as
        `src`, and a copy of each child of `src`, in order. */
    static method Clone(src: XmlNode) returns (n: XmlNode)
      requires src.Valid()
      ensures n.Valid() && fresh(n.Repr)
      ensures n.model == src.model
      decreases src.Repr, 0
    {
      n := CopyFields(src.tag, src.value, src.attributes);
      ghost var kids := src.model.kids;
      var i := 0;
      while i < |src.children|
        invariant 0 <= i <= |src.children| == |kids|
        invariant n.Valid() && fresh(n.Repr)
        invariant n.model == Tree(src.tag, src.value, src.attributes, kids[..i])
      {
        src.ChildAt(i);
        n.Copy(src.children[i]);
        TakeNext(kids, i);
        i := i + 1;
      }
      TakeAll(kids);
    }

    /** The start of `copy`: a new node given the tag, value and attributes
        of the source, and no children yet. */
    static method CopyFields(t: Option<string>, v: Option<string>, a: Attrs) returns (n: XmlNode)
      ensures n.Valid() && fresh(n.Repr) && n.Repr == {n}
      ensures n.model == Tree(t, v, a, [])
    {
      n := new XmlNode();
      n.SetTag(t);
      n.SetValue(v);
      n.SetAttributes(a);
      assert map[] + a == a;
    }

    // -------------------------------------------------------------------
    // Recursive search by tag
    // -------------------------------------------------------------------

    /** The objects the recursive search by tag returns for this node as a
        child of the node searched: itself if it carries `t`, then the
        matching objects below it. */
    ghost function TaggedFrom(t: string): seq<XmlNode>
      requires Valid()
      reads this, Repr
      decreases Repr, |children| + 1
    {
      (if tag == Some(t) then [this] else []) + TaggedWithin(|children|, t)
    }

    /** The objects the recursive search by tag returns below the first `k`
        children, child by child. */
    ghost function TaggedWithin(k: nat, t: string): seq<XmlNode>
      requires Valid() && k <= |children|
      reads this, Repr
      decreases Repr, k
    {
      if k == 0 then [] else TaggedWithin(k - 1, t) + children[k - 1].TaggedFrom(t)
    }

    /** What the search returns for this node as a child has the values
        `DescendantsIn` gives for its own value. */
    lemma {:induction false} TaggedFromValues(t: string)
      requires Valid()
      ensures Models(TaggedFrom(t)) == DescendantsIn([model], t)
      decreases Repr, |children| + 1
    {
      TaggedWithinValues(|children|, t);
      assert model.kids[..|children|] == model.kids;
      DescendantsOne(model, t);
      if tag == Some(t) {
        ModelsAppend([this], TaggedWithin(|children|, t));
      }
    }

    /** The same for the first `k` children together. */
    lemma {:induction false} TaggedWithinValues(k: nat, t: string)
      requires Valid() && k <= |children|
      ensures Models(TaggedWithin(k, t)) == DescendantsIn(model.kids[..k], t)
      decreases Repr, k
    {
      if k == 0 {
        assert model.kids[..0] == [];
      } else {
        var c := children[k - 1];
        TaggedWithinValues(k - 1, t);
        ChildAt(k - 1);
        c.TaggedFromValues(t);
        ModelsAppend(TaggedWithin(k - 1, t), c.TaggedFrom(t));
        TakeNext(model.kids, k - 1);
        DescendantsAppend(model.kids[..k - 1], [model.kids[k - 1]], t);
      }
    }

    /** What the search returns for this node as a child: the values are
        `DescendantsIn` of its own value, the objects lie in this subtree and
        none occurs twice. */
    lemma {:induction false} TaggedFromFacts(t: string)
      requires Valid()
      ensures Models(TaggedFrom(t)) == DescendantsIn([model], t)
      ensures NoDuplicates(TaggedFrom(t))
      ensures forall n :: n in TaggedFrom(t) ==> n in Repr
      decreases Repr, |children| + 1
    {
      TaggedFromValues(t);
      TaggedWithinFacts(|children|, t);
      if tag == Some(t) {
        NoDuplicatesAppend([this], TaggedWithin(|children|, t), {this}, Repr - {this});
      }
    }

    /** The same for the first `k` children together: their contributions
        come from disjoint subtrees, so no object is returned twice. */
    lemma {:induction false} TaggedWithinFacts(k: nat, t: string)
      requires Valid() && k <= |children|
      ensures Models(TaggedWithin(k, t)) == DescendantsIn(model.kids[..k], t)
      ensures NoDuplicates(TaggedWithin(k, t))
      ensures forall n :: n in TaggedWithin(k, t) ==> n in Footprints(children[..k]) && n in Repr && n != this
      decreases Repr, k
    {
      TaggedWithinValues(k, t);
      if k > 0 {
        var c := children[k - 1];
        var pre, part := TaggedWithin(k - 1, t), c.TaggedFrom(t);
        TaggedWithinFacts(k - 1, t);
        ChildAt(k - 1);
        c.TaggedFromFacts(t);
        EarlierChildrenDisjoint(k - 1);
        NoDuplicatesAppend(pre, part, Footprints(children[..k - 1]), c.Repr);
        TakeNext(children, k - 1);
        FootprintsAppend(children[..k - 1], c);
      }
    }

    /** `getChildrenRecursiveByTagName(tag)`: every node strictly below this
        one carrying `tag`, in pre-order, each once. */
    method GetChildrenRecursiveByTagName(t: string) returns (r: seq<XmlNode>)
      requires Valid()
      ensures r == TaggedWithin(|children|, t)
      ensures Models(r) == DescendantsByTag(model, t)
      ensures Models(r) == TaggedIn(PreOrder(model.kids), t)
      ensures forall n :: n in r ==> n in Repr && n != this
      ensures NoDuplicates(r)
    {
      r := CollectRecursiveByTag(this, t);
      TaggedWithinFacts(|children|, t);
      assert model.kids[..|children|] == model.kids;
      DescendantsArePreOrder(model.kids, t);
    }

    /** The helper `getChildrenRecurisveByTagName(outList, parent, tag)`:
        returns what it appends to `outList`, child by child. */
    static method CollectRecursiveByTag(parent: XmlNode, t: string) returns (r: seq<XmlNode>)
      requires parent.Valid()
      ensures r == parent.TaggedWithin(|parent.children|, t)
      decreases parent.Repr, 0
    {
      r := [];
      var i := 0;
      while i < |parent.children|
        invariant 0 <= i <= |parent.children|
        invariant r == parent.TaggedWithin(i, t)
      {
        parent.ChildAt(i);
        var step := CollectFromChild(parent.children[i], t);
        r := r + step;
        i := i + 1;
      }
    }

    /** One turn of the helper's loop: the child itself if it matches, then
        the matches below it. */
    static method CollectFromChild(c: XmlNode, t: string) returns (step: seq<XmlNode>)
      requires c.Valid()
      ensures step == c.TaggedFrom(t)
      decreases c.Repr, 1
    {
      var below := CollectRecursiveByTag(c, t);
      if c.tag == Some(t) {
        step := [c] + below;
      } else {
        step := below;
      }
    }

    // -------------------------------------------------------------------
    // Path query
    // -------------------------------------------------------------------

    /** The objects the path helper outputs for this node as a candidate at
        segment `i`: nothing if it does not match the segment, itself at the
        last segment, otherwise what its children output at the next one. */
    ghost function PathStep(segs: seq<string>, i: nat): seq<XmlNode>
      requires Valid() && i < |segs|
      reads this, Repr
      decreases Repr, |children| + 1
    {
      if !(segs[i] == "*" || tag == Some(segs[i])) then []
      else if i == |segs| - 1 then [this]
      else PathWithin(|children|, segs, i + 1)
    }

    /** The objects the path helper outputs for the first `k` children as
        candidates at segment `i`, child by child. */
    ghost function PathWithin(k: nat, segs: seq<string>, i: nat): seq<XmlNode>
      requires Valid() && k <= |children| && i < |segs|
      reads this, Repr
      decreases Repr, k
    {
      if k == 0 then [] else PathWithin(k - 1, segs, i) + children[k - 1].PathStep(segs, i)
    }

    /** The objects a parsed alternative selects: the receiver alone as
        candidate for an absolute one, its children for a relative one. */
    ghost function PlanMatches(p: Plan): seq<XmlNode>
      requires Valid() && PlanOk(p)
      reads this, Repr
    {
      match p
      case Blank => []
      case Absolute(segs) => PathStep(segs, 0)
      case Relative(segs) => PathWithin(|children|, segs, 0)
    }

    /** What each alternative of `alts` selects, alternative by alternative. */
    ghost function Outputs(alts: seq<string>): (r: seq<seq<XmlNode>>)
      requires Valid() && AlternativesOk(alts)
      reads this, Repr
      ensures |r| == |alts|
    {
      seq(|alts|, j reads this, Repr requires 0 <= j < |alts| && Valid() && AlternativesOk(alts) =>
        PlanMatches(PlanOf(alts[j])))
    }

    /** The candidate's output has the values `MatchPath` gives for its
        value, and lies in its subtree. */
    lemma {:induction false} PathStepFacts(segs: seq<string>, i: nat)
      requires Valid() && i < |segs|
      ensures Models(PathStep(segs, i)) == MatchPath([model], segs, i)
      ensures forall n :: n in PathStep(segs, i) ==> n in Repr
      decreases Repr, |children| + 1
    {
      MatchPathOne(model, segs, i);
      if (segs[i] == "*" || tag == Some(segs[i])) && i < |segs| - 1 {
        PathWithinFacts(|children|, segs, i + 1);
        assert model.kids[..|children|] == model.kids;
      }
    }

    /** The children's output has the values `MatchPath` gives for their
        values, and lies strictly below this node. */
    lemma {:induction false} PathWithinFacts(k: nat, segs: seq<string>, i: nat)
      requires Valid() && k <= |children| && i < |segs|
      ensures Models(PathWithin(k, segs, i)) == MatchPath(model.kids[..k], segs, i)
      ensures forall n :: n in PathWithin(k, segs, i) ==> n in Repr && n != this
      decreases Repr, k
    {
      if k == 0 {
        assert model.kids[..0] == [];
      } else {
        var c := children[k - 1];
        var pre, part := PathWithin(k - 1, segs, i), c.PathStep(segs, i);
        PathWithinFacts(k - 1, segs, i);
        ChildAt(k - 1);
        c.PathStepFacts(segs, i);
        ModelsAppend(pre, part);
        TakeNext(model.kids, k - 1);
        MatchPathAppend(model.kids[..k - 1], [model.kids[k - 1]], segs, i);
      }
    }

    /** A parsed alternative's output has the values `EvalPlan` gives. */
    lemma PlanMatchesFacts(p: Plan)
      requires Valid() && PlanOk(p)
      ensures Models(PlanMatches(p)) == EvalPlan(model, p)
      ensures forall n :: n in PlanMatches(p) ==> n in Repr
    {
      match p
      case Blank =>
      case Absolute(segs) => PathStepFacts(segs, 0);
      case Relative(segs) =>
        PathWithinFacts(|children|, segs, 0);
        assert model.kids[..|children|] == model.kids;
    }

    /** What alternative `j` selects has the values `EvalAlternative`
        gives for it, and lies in this subtree. */
    lemma OutputAt(alts: seq<string>, j: nat)
      requires Valid() && AlternativesOk(alts) && j < |alts|
      ensures Outputs(alts)[j] == PlanMatches(PlanOf(alts[j]))
      ensures Models(Outputs(alts)[j]) == EvalAlternative(model, alts[j])
      ensures forall n :: n in Outputs(alts)[j] ==> n in Repr
    {
      PlanMatchesFacts(PlanOf(alts[j]));
    }

    /** The output of the first `k` alternatives has the values
        `EvalAlternatives` gives for them, and lies in this subtree. */
    lemma {:induction false} OutputsFacts(alts: seq<string>, k: nat)
      requires Valid() && AlternativesOk(alts) && k <= |alts|
      ensures AlternativesOk(alts[..k])
      ensures Models(Flat(Outputs(alts)[..k])) == EvalAlternatives(model, alts[..k])
      ensures forall n :: n in Flat(Outputs(alts)[..k]) ==> n in Repr
    {
      var outs := Outputs(alts);
      if k == 0 {
        assert alts[..0] == [] && outs[..0] == [];
      } else {
        OutputsFacts(alts, k - 1);
        FlatNext(outs, k - 1);
        OutputAt(alts, k - 1);
        ModelsAppend(Flat(outs[..k - 1]), outs[k - 1]);
        EvalAlternativesSnoc(model, alts, k - 1);
      }
    }

    /** `getChildrenByPath(xpath)`: each alternative parsed and matched,
        the outputs concatenated in order. */
    method GetChildrenByPath(xpath: string) returns (r: seq<XmlNode>)
      requires Valid() && WellFormedQuery(xpath)
      ensures r == Flat(Outputs(Split(xpath, '|')))
      ensures Models(r) == PathQuery(model, xpath)
      ensures forall n :: n in r ==> n in Repr
    {
      var alts := Split(xpath, '|');
      r := AlternativesNodes(alts);
      OutputsFacts(alts, |alts|);
      assert alts[..|alts|] == alts && Outputs(alts)[..|alts|] == Outputs(alts);
    }

    /** The loop over the alternatives, concatenating what each one finds. */
    method AlternativesNodes(alts: seq<string>) returns (r: seq<XmlNode>)
      requires Valid() && AlternativesOk(alts)
      ensures r == Flat(Outputs(alts))
    {
      ghost var outs := Outputs(alts);
      r := [];
      var k := 0;
      while k < |alts|
        invariant 0 <= k <= |alts|
        invariant r == Flat(outs[..k])
      {
        var found := AlternativeNodes(alts[k]);
        FlatNext(outs, k);
        r := r + found;
        k := k + 1;
      }
      assert outs[..k] == outs;
    }

    /** One turn of the loop over the alternatives: an absolute alternative
        offers the receiver alone as candidate, a relative one its children. */
    method AlternativeNodes(alt: string) returns (found: seq<XmlNode>)
      requires Valid() && AlternativeOk(alt)
      ensures found == PlanMatches(PlanOf(alt))
    {
      var a := Trim(alt);
      found := [];
      if a != [] {
        if a[0] == '/' {
          found := MatchOne(this, Split(a[1..], '/'), 0);
        } else {
          SplitNonEmpty(a, '/');
          found := MatchNodes(this, Split(a, '/'), 0);
        }
      }
    }

    /** The helper `getChildrenByPath(nodeList, outList, xpathArr, index)`
        over the children of `parent`: returns what it appends to `outList`. */
    static method MatchNodes(parent: XmlNode, segs: seq<string>, i: nat) returns (r: seq<XmlNode>)
      requires parent.Valid() && i < |segs|
      ensures r == parent.PathWithin(|parent.children|, segs, i)
      decreases parent.Repr, 0
    {
      r := [];
      var k := 0;
      while k < |parent.children|
        invariant 0 <= k <= |parent.children|
        invariant r == parent.PathWithin(k, segs, i)
      {
        parent.ChildAt(k);
        var step := MatchOne(parent.children[k], segs, i);
        r := r + step;
        k := k + 1;
      }
    }

    /** One turn of the helper's loop: a candidate that matches segment `i`
        is output at the last segment, and otherwise hands its children on. */
    static method MatchOne(x: XmlNode, segs: seq<string>, i: nat) returns (step: seq<XmlNode>)
      requires i < |segs| && x.Valid()
      ensures step == x.PathStep(segs, i)
      decreases x.Repr, 1
    {
      step := [];
      if segs[i] == "*" || (x.tag.Some? && segs[i] == x.tag.value) {
        if i == |segs| - 1 {
          step := [x];
        } else {
          step := MatchNodes(x, segs, i + 1);
        }
      }
    }
  }
}
