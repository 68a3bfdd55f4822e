/** `XmlRoot`: an XmlNode that can be read from and written to a DOM.
    The Java class extends XmlNode; here it holds the node it extends as
    `root`, and every XmlNode operation on an XmlRoot is one on `root`. */
module XmlRoots {
  import opened JavaString
  import opened XmlTree
  import opened XmlDom
  import opened XmlNodes

  /** Once writing has failed, writing more children cannot succeed. */
  lemma {:induction false} FailureSticks(t: Tree, i: nat, n: nat)
    requires i <= n <= |t.kids| && WriteChildren(t, i).TagNotSet?
    ensures WriteChildren(t, n).TagNotSet?
    decreases n
  {
    if i < n {
      FailureSticks(t, i, n - 1);
    }
  }

  class XmlRoot {
    /** Only identifies the root; it is never written to XML. */
    var name: Option<string>
    var root: XmlNode

    ghost predicate Valid()
      reads this, root, root.Repr
    {
      root.Valid() && this !in root.Repr
    }

    /** `new XmlRoot()`: no name, and an empty node. */
    constructor ()
      ensures Valid() && fresh(root) && root.Repr == {root}
      ensures name == None && root.model == Leaf(None)
    {
      name := None;
      root := new XmlNode();
    }

    method SetName(n: Option<string>)
      requires Valid()
      modifies this
      ensures Valid() && name == n && root == old(root)
    {
      name := n;
    }

    /** `read(Node)`: reads the element into this root. */
    method Read(d: Dom)
      requires Valid() && d.Element?
      modifies root
      ensures Valid() && root == old(root) && name == old(name)
      ensures root.model == ReadInto(d, old(root.model))
    {
      ReadNode(d, root);
    }

    /** `read(in, name)` once the parser has produced the document element
        `d`: the tag becomes the element's name, the name is set, and the
        element is read. */
    method ReadDocument(d: Dom, n: Option<string>)
      requires Valid() && d.Element?
      modifies this, root
      ensures Valid() && root == old(root) && name == n
      ensures root.model == ReadInto(d, old(root.model).(tag := Some(d.name)))
    {
      root.SetTag(Some(d.name));
      name := n;
      ReadNode(d, root);
    }

    /** `readNode(w3cNode, xmlNode)`. */
    static method ReadNode(d: Dom, x: XmlNode)
      requires d.Element? && x.Valid()
      modifies x
      ensures x.Valid() && fresh(x.Repr - old(x.Repr)) && x.Repr >= old(x.Repr)
      ensures x.model == ReadInto(d, old(x.model))
      decreases d, 1
    {
      x.SetAttributes(FromDomAttrs(d.attrs));
      ghost var t1 := x.model;
      var i := 0;
      while i < |d.kids|
        invariant 0 <= i <= |d.kids|
        invariant x.Valid() && fresh(x.Repr - old(x.Repr)) && x.Repr >= old(x.Repr)
        invariant x.model == ReadChildren(d, i, t1)
      {
        ReadChildNode(d.kids[i], x);
        i := i + 1;
      }
    }

    /** One turn of the child loop of `readNode`. */
    static method ReadChildNode(k: Dom, x: XmlNode)
      requires x.Valid()
      modifies x
      ensures x.Valid() && fresh(x.Repr - old(x.Repr)) && x.Repr >= old(x.Repr)
      ensures x.model == ReadChild(k, old(x.model))
      decreases k, 2
    {
      match k {
        case Element(nm, _, _) =>
          var c := new XmlNode();
          c.SetTag(Some(nm));
          ReadNode(k, c);
          x.AddChildNode(c);
        case Text(s) =>
          var v := Trim(s);
          if v != [] {
            x.SetValue(Some(v));
          }
        case CData(s) =>
          x.SetValue(Some(s));
        case Other =>
      }
    }

    /** `toXmlDocument(document)` on an empty document: fails when the
        root has no tag, otherwise writes the document element. */
    method ToXmlDocument() returns (r: Outcome<Dom>)
      requires Valid()
      ensures r == ToDocument(root.model)
    {
      if root.tag.None? {
        r := TagNotSet;
      } else {
        r := WriteXmlElements(root.tag.value, root);
      }
    }

    /** `writeXmlElements(document, w3cElm, xmlNode)` with `w3cElm` the
        fresh element named `name`: returns that element once filled in. */
    static method WriteXmlElements(name: string, x: XmlNode) returns (r: Outcome<Dom>)
      requires x.Valid()
      ensures r == WriteElement(name, x.model)
      decreases x.Repr, 1
    {
      var attrs := AttributeStrings(x.attributes);
      var v := x.value;
      if v.Some? && v.value != [] {
        if '\n' in v.value {
          r := Written(Element(name, attrs, [CData("\n" + v.value + "\n")]));
        } else {
          r := Written(Element(name, attrs, [Text(v.value)]));
        }
      } else {
        var kids := WriteChildElements(x);
        match kids {
          case Written(ks) => r := Written(Element(name, attrs, ks));
          case TagNotSet => r := TagNotSet;
        }
      }
    }

    /** The attribute loop of `writeXmlElements`: each value in its string form. */
    static method AttributeStrings(a: Attrs) returns (m: map<string, string>)
      ensures m == StringForms(a)
    {
      m := map[];
      var keys := a.Keys;
      while keys != {}
        invariant keys <= a.Keys
        invariant m == StringForms(a - keys)
        decreases keys
      {
        var k :| k in keys;
        m := m[k := StringForm(a[k])];
        keys := keys - {k};
      }
      assert a - keys == a;
    }

    /** The child loop of `writeXmlElements`, for a node without text. */
    static method WriteChildElements(x: XmlNode) returns (r: Outcome<seq<Dom>>)
      requires x.Valid()
      ensures r == WriteChildren(x.model, |x.model.kids|)
      decreases x.Repr, 0
    {
      ghost var m := x.model;
      var kids: seq<Dom> := [];
      var i := 0;
      while i < |x.children|
        invariant 0 <= i <= |x.children| == |m.kids|
        invariant WriteChildren(m, i) == Written(kids)
      {
        var c := x.children[i];
        x.ChildAt(i);
        if c.tag.None? {
          FailureSticks(m, i + 1, |m.kids|);
          r := TagNotSet;
          return;
        }
        var e := WriteXmlElements(c.tag.value, c);
        if e.TagNotSet? {
          FailureSticks(m, i + 1, |m.kids|);
          r := TagNotSet;
          return;
        }
        kids := kids + [e.value];
        i := i + 1;
      }
      r := Written(kids);
    }
  }
}
