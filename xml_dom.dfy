/** The conversion between XmlNode trees and a W3C DOM, stated on values.
    The DOM is reduced to what `XmlRoot` looks at: elements with a name,
    string attributes and children; text; CDATA; and every other kind of
    node, which the reader skips. */
module XmlDom {
  import opened JavaString
  import opened XmlTree

  datatype Dom =
    | Element(name: string, attrs: map<string, string>, kids: seq<Dom>)
    | Text(data: string)
    | CData(data: string)
    | Other

  /** Writing either yields a value or throws "Xml tag not set for root". */
  datatype Outcome<+T> = Written(value: T) | TagNotSet

  // ---------------------------------------------------------------------
  // Reading: `readNode`
  // ---------------------------------------------------------------------

  /** DOM attribute values are strings, never null. */
  function FromDomAttrs(m: map<string, string>): (r: Attrs)
    ensures r.Keys == m.Keys
    ensures forall k :: k in m ==> r[k] == Some(m[k])
  {
    map k | k in m :: Some(m[k])
  }

  /** A text child whose trimmed data is not empty, or any CDATA child,
      replaces the value. */
  predicate SetsValue(k: Dom) {
    (k.Text? && Trim(k.data) != []) || k.CData?
  }

  /** The value such a child stores: trimmed text, verbatim CDATA. */
  function StoredValue(k: Dom): string
    requires SetsValue(k)
  {
    if k.Text? then Trim(k.data) else k.data
  }

  /** The value after a child that is not an element has been read. */
  function NextValue(k: Dom, v: Option<string>): (r: Option<string>)
    ensures SetsValue(k) ==> r == Some(StoredValue(k))
    ensures !SetsValue(k) ==> r == v
  {
    match k
    case Text(s) => var s' := Trim(s); if s' != [] then Some(s') else v
    case CData(s) => Some(s)
    case _ => v
  }

  /** `readNode(d, x)` on a node whose value is `t`: the attributes of `d`
      are upserted, then the children of `d` are read in document order. */
  function ReadInto(d: Dom, t: Tree): (r: Tree)
    requires d.Element?
    ensures r.tag == t.tag
    ensures r.attrs == t.attrs + FromDomAttrs(d.attrs)
    decreases d, 1
  {
    ReadChildren(d, |d.kids|, t.(attrs := t.attrs + FromDomAttrs(d.attrs)))
  }

  /** The loop of `readNode` over the first `n` children of `d`. */
  function ReadChildren(d: Dom, n: nat, t: Tree): (r: Tree)
    requires d.Element? && n <= |d.kids|
    ensures r.tag == t.tag && r.attrs == t.attrs
    decreases d, 0, n
  {
    if n == 0 then t else ReadChild(d.kids[n - 1], ReadChildren(d, n - 1, t))
  }

  /** One turn of that loop: an element child becomes a new last child
      carrying its name, read recursively; any other child may only change
      the value. */
  function ReadChild(k: Dom, t: Tree): (r: Tree)
    ensures r.tag == t.tag && r.attrs == t.attrs
    ensures k.Element? ==> r.value == t.value && r.kids == t.kids + [ReadInto(k, Leaf(Some(k.name)))]
    ensures !k.Element? ==> r.kids == t.kids
    decreases k, 2
  {
    if k.Element? then t.(kids := t.kids + [ReadInto(k, Leaf(Some(k.name)))])
    else t.(value := NextValue(k, t.value))
  }

  /** The element children among `ks`, in order. */
  function Elements(ks: seq<Dom>): (r: seq<Dom>)
    ensures |r| <= |ks|
    ensures forall e :: e in r <==> e in ks && e.Element?
  {
    if ks == [] then []
    else Elements(ks[..|ks| - 1]) + (if ks[|ks| - 1].Element? then [ks[|ks| - 1]] else [])
  }

  /** Each element read into a fresh node carrying its name. */
  function ReadElements(es: seq<Dom>): (r: seq<Tree>)
    requires forall e :: e in es ==> e.Element?
    ensures |r| == |es|
    ensures forall i :: 0 <= i < |es| ==> r[i].tag == Some(es[i].name)
  {
    seq(|es|, i requires 0 <= i < |es| => ReadInto(es[i], Leaf(Some(es[i].name))))
  }

  /** The value after the children `ks` have been read, starting from `v`. */
  function ValueAfter(ks: seq<Dom>, v: Option<string>): Option<string> {
    if ks == [] then v else NextValue(ks[|ks| - 1], ValueAfter(ks[..|ks| - 1], v))
  }

  /** Reading children splits into two independent parts: the element
      children are appended after the existing children, in order, and the
      value is whatever the other children leave. */
  lemma {:induction false} ReadChildrenSplits(d: Dom, n: nat, t: Tree)
    requires d.Element? && n <= |d.kids|
    ensures ReadChildren(d, n, t)
      == t.(kids := t.kids + ReadElements(Elements(d.kids[..n])), value := ValueAfter(d.kids[..n], t.value))
  {
    if n == 0 {
      assert t.kids + [] == t.kids;
    } else {
      ReadChildrenSplits(d, n - 1, t);
      var pre, k := d.kids[..n - 1], d.kids[n - 1];
      var re, v := ReadElements(Elements(pre)), ValueAfter(pre, t.value);
      assert d.kids[..n] == pre + [k];
      ElementsSnoc(pre, k);
      ValueAfterSnoc(pre, k, t.value);
      assert ReadChildren(d, n, t) == ReadChild(k, Tree(t.tag, v, t.attrs, t.kids + re));
      if k.Element? {
        var x := ReadInto(k, Leaf(Some(k.name)));
        ReadElementsSnoc(Elements(pre), k);
        AppendAssoc(t.kids, re, [x]);
      }
    }
  }

  lemma AppendAssoc<T>(a: seq<T>, b: seq<T>, c: seq<T>)
    ensures a + b + c == a + (b + c)
  {
  }

  /** Reading never disturbs the children a node already has: the new
      ones come after them, one per element child. */
  lemma ReadIntoKeepsChildren(d: Dom, t: Tree)
    requires d.Element?
    ensures var r := ReadInto(d, t);
      |r.kids| == |t.kids| + |Elements(d.kids)| && r.kids[..|t.kids|] == t.kids
  {
    var t' := t.(attrs := t.attrs + FromDomAttrs(d.attrs));
    ReadChildrenSplits(d, |d.kids|, t');
    assert d.kids[..|d.kids|] == d.kids;
    var r := ReadInto(d, t);
    assert r.kids == t.kids + ReadElements(Elements(d.kids));
    assert r.kids[..|t.kids|] == t.kids;
  }

  lemma ElementsSnoc(ks: seq<Dom>, k: Dom)
    ensures Elements(ks + [k]) == Elements(ks) + if k.Element? then [k] else []
  {
    assert (ks + [k])[..|ks|] == ks;
  }

  lemma ValueAfterSnoc(ks: seq<Dom>, k: Dom, v: Option<string>)
    ensures ValueAfter(ks + [k], v) == NextValue(k, ValueAfter(ks, v))
  {
    assert (ks + [k])[..|ks|] == ks;
  }

  lemma ReadElementsSnoc(es: seq<Dom>, k: Dom)
    requires k.Element? && forall e :: e in es ==> e.Element?
    ensures ReadElements(es + [k]) == ReadElements(es) + [ReadInto(k, Leaf(Some(k.name)))]
  {
  }

  /** The children of an element, read into a node: its value is that of the
      last child that sets one, or is left alone when no child does. */
  lemma {:induction false} LastValueWins(ks: seq<Dom>, v: Option<string>, i: nat)
    requires i < |ks| && SetsValue(ks[i])
    requires forall j :: i < j < |ks| ==> !SetsValue(ks[j])
    ensures ValueAfter(ks, v) == Some(StoredValue(ks[i]))
  {
    var m := |ks| - 1;
    if i < m {
      assert ks[..m][i] == ks[i];
      LastValueWins(ks[..m], v, i);
    }
  }

  lemma {:induction false} NoValueKept(ks: seq<Dom>, v: Option<string>)
    requires forall j :: 0 <= j < |ks| ==> !SetsValue(ks[j])
    ensures ValueAfter(ks, v) == v
  {
    if ks != [] {
      NoValueKept(ks[..|ks| - 1], v);
    }
  }

  /** Whitespace-only text never replaces a value, while CDATA does even
      when it is blank. */
  lemma BlankTextIgnored(d: Dom, t: Tree, s: string)
    requires d.Element? && d.kids == [Text(s)] && Trim(s) == []
    ensures ReadInto(d, t).value == t.value
    ensures ReadInto(d.(kids := [CData(s)]), t).value == Some(s)
  {
    var t' := t.(attrs := t.attrs + FromDomAttrs(d.attrs));
    assert ReadChildren(d, 1, t') == ReadChild(Text(s), t');
    assert ReadChildren(d.(kids := [CData(s)]), 1, t') == ReadChild(CData(s), t');
  }

  // ---------------------------------------------------------------------
  // Writing: `writeXmlElements` and `toXmlDocument`
  // ---------------------------------------------------------------------

  /** `String.valueOf` of every attribute value. */
  function StringForms(a: Attrs): (r: map<string, string>)
    ensures r.Keys == a.Keys
    ensures forall k :: k in a ==> r[k] == StringForm(a[k])
  {
    map k | k in a :: StringForm(a[k])
  }

  /** `null != value && !value.isEmpty()`. */
  predicate HasText(v: Option<string>) {
    v.Some? && v.value != []
  }

  /** The one child written for a value: CDATA wrapped in newlines when the
      value spans lines, plain text otherwise. */
  function ValueNode(v: string): (r: Dom)
    ensures '\n' in v ==> r == CData("\n" + v + "\n")
    ensures '\n' !in v ==> r == Text(v)
  {
    if '\n' in v then CData("\n" + v + "\n") else Text(v)
  }

  /** `writeXmlElements` on a fresh element named `name` for the node `t`. */
  function WriteElement(name: string, t: Tree): (r: Outcome<Dom>)
    ensures r.Written? ==> r.value.Element? && r.value.name == name && r.value.attrs == StringForms(t.attrs)
    ensures r.Written? && HasText(t.value) ==> r.value.kids == [ValueNode(t.value.value)]
    ensures HasText(t.value) ==> r.Written?
    ensures r.Written? && !HasText(t.value) ==> |r.value.kids| == |t.kids|
    decreases t, |t.kids| + 1
  {
    var attrs := StringForms(t.attrs);
    if HasText(t.value) then Written(Element(name, attrs, [ValueNode(t.value.value)]))
    else
      match WriteChildren(t, |t.kids|)
      case Written(ks) => Written(Element(name, attrs, ks))
      case TagNotSet => TagNotSet
  }

  /** The loop of `writeXmlElements` over the first `n` children: each
      becomes an element named by its tag, written recursively; a child
      without a tag throws. */
  function WriteChildren(t: Tree, n: nat): (r: Outcome<seq<Dom>>)
    requires n <= |t.kids|
    ensures r.Written? ==> |r.value| == n
    ensures r.Written? ==> forall i :: 0 <= i < n ==>
              t.kids[i].tag.Some? && r.value[i].Element? && r.value[i].name == t.kids[i].tag.value
    decreases t, n
  {
    if n == 0 then Written([])
    else
      match WriteChildren(t, n - 1)
      case TagNotSet => TagNotSet
      case Written(ks) =>
        var c := t.kids[n - 1];
        if c.tag.None? then TagNotSet
        else
          match WriteElement(c.tag.value, c)
          case TagNotSet => TagNotSet
          case Written(e) => Written(ks + [e])
  }

  /** `toXmlDocument()`: the document element, named by the root's tag. */
  function ToDocument(t: Tree): (r: Outcome<Dom>)
    ensures r.Written? ==> r.value.Element? && t.tag == Some(r.value.name)
  {
    if t.tag.None? then TagNotSet else WriteElement(t.tag.value, t)
  }

  /** Writing the content of `t` reaches a child without a tag: only the
      children of a node without text are visited. */
  predicate TagMissingBelow(t: Tree)
    decreases t
  {
    && !HasText(t.value)
    && exists i :: 0 <= i < |t.kids| && (t.kids[i].tag.None? || TagMissingBelow(t.kids[i]))
  }

  predicate TagMissingAmong(t: Tree, n: nat)
    requires n <= |t.kids|
  {
    exists i :: 0 <= i < n && (t.kids[i].tag.None? || TagMissingBelow(t.kids[i]))
  }

  /** Writing fails exactly when a missing tag is reached. */
  lemma {:induction false} WriteFailsIff(name: string, t: Tree)
    ensures WriteElement(name, t).TagNotSet? <==> TagMissingBelow(t)
    decreases t, |t.kids| + 1
  {
    if !HasText(t.value) {
      WriteChildrenFailsIff(t, |t.kids|);
    }
  }

  lemma {:induction false} WriteChildrenFailsIff(t: Tree, n: nat)
    requires n <= |t.kids|
    ensures WriteChildren(t, n).TagNotSet? <==> TagMissingAmong(t, n)
    decreases t, n
  {
    if n > 0 {
      WriteChildrenFailsIff(t, n - 1);
      var c := t.kids[n - 1];
      if c.tag.Some? {
        WriteFailsIff(c.tag.value, c);
      }
      if TagMissingAmong(t, n) && !TagMissingAmong(t, n - 1) {
        assert c.tag.None? || TagMissingBelow(c);
      }
    }
  }

  /** The whole conversion fails exactly when the root has no tag or a
      missing tag is reached below it. */
  lemma ToDocumentFailsIff(t: Tree)
    ensures ToDocument(t).TagNotSet? <==> t.tag.None? || TagMissingBelow(t)
  {
    if t.tag.Some? {
      WriteFailsIff(t.tag.value, t);
    }
  }

  /** A node with text is written without looking at its children, so
      their tags never cause a failure. */
  lemma TextHidesChildren(name: string, t: Tree, ks: seq<Tree>)
    requires HasText(t.value)
    ensures WriteElement(name, t).Written?
    ensures WriteElement(name, t) == WriteElement(name, t.(kids := ks))
  {
  }

  /** Each child that is written is the element for that child. */
  lemma {:induction false} WrittenChildren(t: Tree, n: nat)
    requires n <= |t.kids| && WriteChildren(t, n).Written?
    ensures forall i :: 0 <= i < n ==>
              t.kids[i].tag.Some? && WriteElement(t.kids[i].tag.value, t.kids[i]) == Written(WriteChildren(t, n).value[i])
  {
    if n > 0 {
      WrittenChildren(t, n - 1);
    }
  }

  // ---------------------------------------------------------------------
  // Round trip
  // ---------------------------------------------------------------------

  /** What reading back the written text of a value stores in a fresh node:
      nothing for a null or empty value, the CDATA wrapped in newlines for a
      value spanning lines, and otherwise the trimmed text unless it is blank. */
  function ReadBackValue(v: Option<string>): Option<string> {
    if !HasText(v) then None
    else if '\n' in v.value then Some("\n" + v.value + "\n")
    else if Trim(v.value) == [] then None
    else Some(Trim(v.value))
  }

  /** The node that writing `t` and reading the element back builds: the
      attributes turn into their string forms, and a node with text loses
      its children. */
  function ReadBack(t: Tree): (r: Tree)
    ensures r.tag == t.tag
    decreases t
  {
    Tree(t.tag, ReadBackValue(t.value), FromDomAttrs(StringForms(t.attrs)),
         if HasText(t.value) then [] else ReadBackKids(t, |t.kids|))
  }

  function ReadBackKids(t: Tree, n: nat): (r: seq<Tree>)
    requires n <= |t.kids|
    ensures |r| == n
    decreases t, n
  {
    if n == 0 then [] else ReadBackKids(t, n - 1) + [ReadBack(t.kids[n - 1])]
  }

  /** Writing a node and reading the element back into a fresh node named
      like it yields `ReadBack` of the node, for every node that can be
      written. */
  lemma {:induction false} RoundTrip(name: string, t: Tree)
    requires WriteElement(name, t).Written?
    ensures ReadInto(WriteElement(name, t).value, Leaf(Some(name))) == ReadBack(t).(tag := Some(name))
    decreases t, |t.kids| + 1
  {
    if HasText(t.value) {
      ValueRoundTrip(name, t);
    } else {
      var e := WriteElement(name, t).value;
      var start := Leaf(Some(name)).(attrs := map[] + FromDomAttrs(e.attrs));
      assert map[] + FromDomAttrs(e.attrs) == FromDomAttrs(StringForms(t.attrs));
      WrittenChildren(t, |t.kids|);
      RoundTripChildren(e, t, |t.kids|, start);
      assert start.kids + ReadBackKids(t, |t.kids|) == ReadBackKids(t, |t.kids|);
    }
  }

  /** `RoundTrip` for a node with text: the one text or CDATA child read back. */
  lemma ValueRoundTrip(name: string, t: Tree)
    requires HasText(t.value)
    ensures WriteElement(name, t).Written?
    ensures ReadInto(WriteElement(name, t).value, Leaf(Some(name))) == ReadBack(t).(tag := Some(name))
  {
    var e := WriteElement(name, t).value;
    var start := Leaf(Some(name)).(attrs := map[] + FromDomAttrs(e.attrs));
    assert map[] + FromDomAttrs(e.attrs) == FromDomAttrs(StringForms(t.attrs));
    assert ReadChildren(e, 1, start) == ReadChild(e.kids[0], start);
  }

  lemma {:induction false} RoundTripChildren(d: Dom, t: Tree, n: nat, base: Tree)
    requires d.Element? && n <= |d.kids| && n <= |t.kids|
    requires forall i :: 0 <= i < n ==>
               t.kids[i].tag.Some? && WriteElement(t.kids[i].tag.value, t.kids[i]) == Written(d.kids[i])
    ensures ReadChildren(d, n, base) == base.(kids := base.kids + ReadBackKids(t, n))
    decreases t, n
  {
    if n > 0 {
      RoundTripChildren(d, t, n - 1, base);
      var c := t.kids[n - 1];
      RoundTrip(c.tag.value, c);
      assert base.kids + ReadBackKids(t, n - 1) + [ReadBack(c)] == base.kids + ReadBackKids(t, n);
    }
  }

  /** A node the conversion reproduces exactly: every tag is set, every
      attribute value is a string, and a value is null, or a single line
      that `trim` leaves alone, in which case the node has no children. */
  predicate Canonical(t: Tree)
    decreases t
  {
    && t.tag.Some?
    && (forall k :: k in t.attrs ==> t.attrs[k].Some?)
    && (t.value.None? || ('\n' !in t.value.value && t.value.value != [] && Trim(t.value.value) == t.value.value))
    && (t.value.Some? ==> t.kids == [])
    && forall i :: 0 <= i < |t.kids| ==> Canonical(t.kids[i])
  }

  /** A canonical node is what reading back its own output gives. */
  lemma {:induction false} CanonicalReadsBack(t: Tree)
    requires Canonical(t)
    ensures ReadBack(t) == t
    decreases t, 2
  {
    assert FromDomAttrs(StringForms(t.attrs)) == t.attrs;
    if t.value.None? {
      CanonicalKidsReadBack(t, |t.kids|);
      assert t.kids[..|t.kids|] == t.kids;
    }
  }

  lemma {:induction false} CanonicalKidsReadBack(t: Tree, n: nat)
    requires Canonical(t) && n <= |t.kids|
    ensures ReadBackKids(t, n) == t.kids[..n]
    decreases t, 1, n
  {
    if n > 0 {
      var c := t.kids[n - 1];
      assert Canonical(c);
      CanonicalKidsReadBack(t, n - 1);
      CanonicalReadsBack(c);
      assert t.kids[..n] == t.kids[..n - 1] + [c];
    }
  }

  /** `read(toXmlDocument())` on a fresh root gives back a canonical tree. */
  lemma DocumentRoundTrip(t: Tree)
    requires Canonical(t)
    ensures ToDocument(t).Written?
    ensures ReadInto(ToDocument(t).value, Leaf(t.tag)) == t
  {
    CanonicalHasAllTags(t);
    WriteFailsIff(t.tag.value, t);
    RoundTrip(t.tag.value, t);
    CanonicalReadsBack(t);
  }

  lemma {:induction false} CanonicalHasAllTags(t: Tree)
    requires Canonical(t)
    ensures !TagMissingBelow(t)
    decreases t
  {
    forall i | 0 <= i < |t.kids| ensures t.kids[i].tag.Some? && !TagMissingBelow(t.kids[i]) {
      CanonicalHasAllTags(t.kids[i]);
    }
  }

  /** A value spanning lines does not survive: it comes back with a newline
      added at each end. */
  lemma MultiLineValueGrows(name: string, v: string)
    requires '\n' in v
    ensures ReadInto(WriteElement(name, Tree(Some(name), Some(v), map[], [])).value, Leaf(Some(name))).value
            == Some("\n" + v + "\n")
  {
    RoundTrip(name, Tree(Some(name), Some(v), map[], []));
  }

  /** An empty value comes back as null. */
  lemma EmptyValueBecomesNull(name: string)
    ensures WriteElement(name, Tree(Some(name), Some([]), map[], [])).Written?
    ensures ReadInto(WriteElement(name, Tree(Some(name), Some([]), map[], [])).value, Leaf(Some(name))).value == None
  {
    RoundTrip(name, Tree(Some(name), Some([]), map[], []));
  }
}
