# simple-xml, modelled in Dafny

This project models the core of `simple-xml`, a small Java library that holds
an XML document as a mutable tree of `XmlNode` objects and converts that tree
to and from a W3C DOM (`XmlRoot`).

- `XmlNode` is a node with an optional tag, an optional value, an attribute
  map and an ordered list of children. Its operations are:
  - the setters, `setAttribute` (an upsert) and the three `addChild`
    overloads;
  - the child lookups by tag, by tag and attribute, and recursively by tag
    in pre-order;
  - `remove`, which drops the first occurrence of a node;
  - `copy`, which appends a deep clone;
  - the path query `getChildrenByPath`. Alternatives are separated by `|`,
    each is trimmed, a leading `/` anchors it at the node itself, segments
    are separated by `/`, and `*` matches any tag.
- `XmlRoot` reads a DOM element into a node. Attributes are upserted,
  element children are appended and read recursively, trimmed non-blank text
  or verbatim CDATA sets the value, and the last such child wins. It writes a
  node back as a DOM element. Attributes are written in their string form. A
  non-empty value is written instead of the children, as CDATA wrapped in
  newlines when it spans lines. A missing tag aborts the conversion.

Files and modules:

| file | module | contents |
|---|---|---|
| `java_string.dfy` | `JavaString` | `String.trim` and single-character `String.split`, with the dropping of trailing empty strings |
| `xml_tree.dfy` | `XmlTree` | `Tree`, the value of a node's subtree, and the read-only queries stated on it |
| `xml_path.dfy` | `XmlPath` | the path query stated on `Tree` values |
| `xml_node.dfy` | `XmlNodes` | `class XmlNode` with fields updated in place. The ghost `model` is the subtree's value and the ghost `Repr` its objects. `Valid()` keeps the tree acyclic and unshared, and every list query is proved against the `XmlTree`/`XmlPath` function it implements, both for the values it returns and for which node objects come back in which order. The first-match lookups state their results directly on the children, and the attribute getters are the `XmlTree` getters applied to the node's map. |
| `xml_dom.dfy` | `XmlDom` | the DOM as a datatype; reading and writing stated as functions; the failure condition and the round trip |
| `xml_root.dfy` | `XmlRoots` | `class XmlRoot` and the imperative `readNode` / `writeXmlElements`, proved equal to the `XmlDom` functions |

Java `null` tags, values and attribute values are `Option.None`. The Java
`XmlRoot extends XmlNode`. Here an `XmlRoot` holds the node it extends in its
field `root`, and an inherited operation on an `XmlRoot` is that operation on
`root`. The getters (`getTag`, `getValue`, `getName`, `getChildren`,
`getAttributes`) are plain field reads.

## Model

| member | source | states |
|---|---|---|
| `JavaString.Trim` | src/main/java/io/github/codesakshi/simplexml/XmlNode.java:294 | the result is a slice of the input; every character cut from either end is at most U+0020; the result is empty or starts and ends with a character above U+0020 |
| `JavaString.TrimIdempotent` | src/main/java/io/github/codesakshi/simplexml/XmlNode.java:294 | trimming twice is trimming once |
| `JavaString.Split` | src/main/java/io/github/codesakshi/simplexml/XmlNode.java:290 | without the separator the result is `[s]`; otherwise it is the raw pieces with exactly the trailing empty ones dropped, ending in a non-empty piece; no piece contains the separator |
| `JavaString.JoinPieces` | src/main/java/io/github/codesakshi/simplexml/XmlNode.java:290 | gluing the raw pieces back with the separator gives the original string |
| `JavaString.PiecesJoin` | src/main/java/io/github/codesakshi/simplexml/XmlNode.java:290 | separator-free strings glued with the separator split back into exactly those strings |
| `JavaString.PiecesConcat` | src/main/java/io/github/codesakshi/simplexml/XmlNode.java:290 | the pieces of `s1 + sep + s2` are the pieces of `s1` followed by those of `s2` |
| `JavaString.SplitAllSeparators` | src/main/java/io/github/codesakshi/simplexml/XmlNode.java:306 | a non-empty string made only of separators splits into the empty array |
| `JavaString.SplitNonEmpty` | src/main/java/io/github/codesakshi/simplexml/XmlNode.java:310 | a string not starting with the separator splits into at least one piece, the first non-empty |
| `XmlTree.GetAttribute` | src/main/java/io/github/codesakshi/simplexml/XmlNode.java:76-79 | a value comes back iff the key is present with a non-null value, and it is the stored one |
| `XmlTree.GetAttributeString` | src/main/java/io/github/codesakshi/simplexml/XmlNode.java:87-90 | "null" for an absent key or a null value, the stored string otherwise |
| `XmlTree.SetAttributeThenGet` | src/main/java/io/github/codesakshi/simplexml/XmlNode.java:105-107 | after an upsert the key reads back the new value and every other key reads back its old value, in both getters |
| `XmlTree.AttributeStringSentinel` | src/main/java/io/github/codesakshi/simplexml/XmlNode.java:87-90 | an absent key and a key holding the string "null" read alike through `getAttributeString` but differently through `getAttribute` |
| `XmlTree.TaggedIn` | src/main/java/io/github/codesakshi/simplexml/XmlNode.java:157-170 | the selection is no longer than the input and holds exactly the input nodes carrying the tag |
| `XmlTree.TaggedInAppend` | src/main/java/io/github/codesakshi/simplexml/XmlNode.java:161-167 | selecting by tag distributes over concatenation, so order is kept |
| `XmlTree.FirstTagged` | src/main/java/io/github/codesakshi/simplexml/XmlNode.java:212-223 | a result is an input node carrying the tag; there is none iff no input node carries it |
| `XmlTree.FirstTaggedIsHead` | src/main/java/io/github/codesakshi/simplexml/XmlNode.java:212-223 | the first match is the head of `getChildrenByTagName`, or none when that is empty |
| `XmlTree.AddedChildIsFound` | src/main/java/io/github/codesakshi/simplexml/XmlNode.java:144-149 | after `addChild(tag, value)` with no earlier child carrying the tag, `getFirstChildByTagName(tag)` finds the new child |
| `XmlTree.DescendantsIn` | src/main/java/io/github/codesakshi/simplexml/XmlNode.java:194-205 | everything the recursive search collects carries the tag |
| `XmlTree.DescendantsArePreOrder` | src/main/java/io/github/codesakshi/simplexml/XmlNode.java:178-205 | the recursive search is exactly the tagged nodes of the pre-order walk below the receiver, in that order |
| `XmlTree.DescendantsAppend` | src/main/java/io/github/codesakshi/simplexml/XmlNode.java:196-204 | searching a list of siblings is searching each part and concatenating |
| `XmlTree.DescendantsByTag` | src/main/java/io/github/codesakshi/simplexml/XmlNode.java:178-185 | the recursive search below a node is exactly the tagged nodes of the pre-order walk of its children, in that order |
| `XmlTree.ImmediateMatchesAreDescendants` | src/main/java/io/github/codesakshi/simplexml/XmlNode.java:157-205 | every node `getChildrenByTagName` finds is also found by the recursive search |
| `XmlPath.MatchPath` | src/main/java/io/github/codesakshi/simplexml/XmlNode.java:326-346 | every node output matches the last segment; `MatchPathIsLevelWise` pins the whole output |
| `XmlPath.MatchPathAppend` | src/main/java/io/github/codesakshi/simplexml/XmlNode.java:331-345 | matching a list of candidates is matching each part in turn, concatenated |
| `XmlPath.Keep` | src/main/java/io/github/codesakshi/simplexml/XmlNode.java:333-334 | the candidates kept at one segment are no more than the input and are exactly the input nodes matching the segment |
| `XmlPath.MatchPathIsLevelWise` | src/main/java/io/github/codesakshi/simplexml/XmlNode.java:326-346 | for every input, the depth-first helper outputs exactly `LevelWise`: keep the candidates matching the segment; at the last segment they are the answer, otherwise all their children, in order, are the candidates for the next segment |
| `XmlPath.MatchPathWithin` | src/main/java/io/github/codesakshi/simplexml/XmlNode.java:326-346 | every node output is one of the candidates or lies below one of them |
| `XmlPath.SingleSegmentIsTagged` | src/main/java/io/github/codesakshi/simplexml/XmlNode.java:333-338 | a one-segment path with a literal tag is exactly the tag selection |
| `XmlPath.SingleWildcardKeepsAll` | src/main/java/io/github/codesakshi/simplexml/XmlNode.java:333-338 | the one-segment path `*` keeps every candidate |
| `XmlPath.MatchLastIsTagged` | src/main/java/io/github/codesakshi/simplexml/XmlNode.java:329-338 | at the last segment a literal tag is exactly the tag selection |
| `XmlPath.WildcardThenTag` | src/main/java/io/github/codesakshi/simplexml/XmlNode.java:326-346 | `*/tag` yields, candidate by candidate, each one's children carrying `tag` |
| `XmlPath.PlanOf` | src/main/java/io/github/codesakshi/simplexml/XmlNode.java:294-311 | a non-blank trimmed alternative parses to at least one segment (the helper indexes segment 0) |
| `XmlPath.EvalPlan` | src/main/java/io/github/codesakshi/simplexml/XmlNode.java:296-311 | what a parsed alternative selects is the receiver or lies below it |
| `XmlPath.EvalAlternative` | src/main/java/io/github/codesakshi/simplexml/XmlNode.java:294-311 | what one alternative contributes is the receiver or lies below it |
| `XmlPath.EvalAlternatives` | src/main/java/io/github/codesakshi/simplexml/XmlNode.java:292-314 | what the loop over the alternatives collects is the receiver or lies below it |
| `XmlPath.PathQuery` | src/main/java/io/github/codesakshi/simplexml/XmlNode.java:286-317 | every result is the receiver or lies below it; a query without `|` is that single alternative |
| `XmlPath.SingleAlternative` | src/main/java/io/github/codesakshi/simplexml/XmlNode.java:290-314 | a query with one alternative returns exactly that alternative's output |
| `XmlPath.EvalAlternativesAppend` | src/main/java/io/github/codesakshi/simplexml/XmlNode.java:292-314 | the alternatives' results are concatenated in order |
| `XmlPath.EvalAlternativesSnoc` | src/main/java/io/github/codesakshi/simplexml/XmlNode.java:292-314 | one more turn of the loop appends that alternative's result |
| `XmlPath.EmptyAlternatives` | src/main/java/io/github/codesakshi/simplexml/XmlNode.java:294-296 | alternatives that are blank once trimmed, such as `" "`, are skipped and contribute nothing |
| `XmlPath.TrailingEmptyAlternatives` | src/main/java/io/github/codesakshi/simplexml/XmlNode.java:290-296 | empty alternatives at the end change neither whether the query can run nor its result |
| `XmlPath.QueryOverPieces` | src/main/java/io/github/codesakshi/simplexml/XmlNode.java:286-317 | the query over `split`'s result equals the query over all raw pieces, so dropping trailing empties is harmless |
| `XmlPath.PathQueryConcat` | src/main/java/io/github/codesakshi/simplexml/XmlNode.java:286-317 | `q1|q2` returns the result of `q1` followed by that of `q2`, duplicates kept |
| `XmlPath.RelativeTagQuery` | src/main/java/io/github/codesakshi/simplexml/XmlNode.java:308-311 | a plain tag as the whole query is `getChildrenByTagName(tag)` |
| `XmlPath.AbsoluteTagQuery` | src/main/java/io/github/codesakshi/simplexml/XmlNode.java:298-306 | `/tag` yields `[this]` when the receiver carries the tag and `[]` otherwise |
| `XmlPath.SlashesOnlyRejected` | src/main/java/io/github/codesakshi/simplexml/XmlNode.java:298-306 | a query of two or more slashes is outside the queries that can run (the helper would index an empty segment array) |
| `XmlNodes.RemoveFirst` | src/main/java/io/github/codesakshi/simplexml/XmlNode.java:255-258 | an absent element leaves the list alone; otherwise exactly its first occurrence is cut out and the rest keep their order |
| `XmlNodes.XmlNode.constructor` | src/main/java/io/github/codesakshi/simplexml/XmlNode.java:19-34 | a new node has no tag, no value, no attributes and no children |
| `XmlNodes.XmlNode.SetTag` | src/main/java/io/github/codesakshi/simplexml/XmlNode.java:48-50 | only the tag changes |
| `XmlNodes.XmlNode.SetValue` | src/main/java/io/github/codesakshi/simplexml/XmlNode.java:65-67 | only the value changes |
| `XmlNodes.XmlNode.GetAttribute` | src/main/java/io/github/codesakshi/simplexml/XmlNode.java:76-79 | defined as `XmlTree.GetAttribute` of the node's map: a value iff the key is present with a non-null value, and it is the stored one |
| `XmlNodes.XmlNode.GetAttributeString` | src/main/java/io/github/codesakshi/simplexml/XmlNode.java:87-90 | defined as `XmlTree.GetAttributeString` of the node's map: "null" for an absent key or a null value, the stored string otherwise |
| `XmlNodes.XmlNode.SetAttribute` | src/main/java/io/github/codesakshi/simplexml/XmlNode.java:105-107 | the map is upserted at `key`; `getAttribute(key)` then returns the new value and every other key its old one; nothing else changes |
| `XmlNodes.XmlNode.SetAttributes` | src/main/java/io/github/codesakshi/simplexml/XmlNode.java:270-273 | one `setAttribute` per entry leaves the old map overridden by the given one; nothing else changes |
| `XmlNodes.XmlNode.AddChildNode` | src/main/java/io/github/codesakshi/simplexml/XmlNode.java:121-123 | the node becomes the one new last child; earlier children are unchanged |
| `XmlNodes.XmlNode.AddChild` | src/main/java/io/github/codesakshi/simplexml/XmlNode.java:130-136 | exactly one fresh node with the tag and nothing else is appended and returned; earlier children are unchanged |
| `XmlNodes.XmlNode.AddChildWithValue` | src/main/java/io/github/codesakshi/simplexml/XmlNode.java:144-149 | as `addChild(tag)`, and the new node carries the value |
| `XmlNodes.XmlNode.GetChildrenByTagName` | src/main/java/io/github/codesakshi/simplexml/XmlNode.java:157-170 | the result is exactly the child objects carrying the tag, in child order (`NodesTagged`); their values are `TaggedIn` of the children's values; a node is in the result iff it is a child with that tag |
| `XmlNodes.XmlNode.FilterByTag` | src/main/java/io/github/codesakshi/simplexml/XmlNode.java:161-167 | the loop keeps, in order, exactly the node objects carrying the tag (`NodesTagged` of its input) |
| `XmlNodes.XmlNode.GetFirstChildByTagName` | src/main/java/io/github/codesakshi/simplexml/XmlNode.java:212-223 | null iff no child carries the tag; otherwise the child carrying it with no earlier child carrying it, whose value heads `TaggedIn` |
| `XmlNodes.XmlNode.NoneTaggedBefore` | src/main/java/io/github/codesakshi/simplexml/XmlNode.java:214-220 | the selection over the children before the first match is empty, and the first match heads the whole selection |
| `XmlNodes.XmlNode.GetFirstChildByTagAndAttribute` | src/main/java/io/github/codesakshi/simplexml/XmlNode.java:233-248 | null iff no child carries both the tag and the attribute value; otherwise the first child that does; a child without the attribute, or with a null one, never matches |
| `XmlNodes.XmlNode.Remove` | src/main/java/io/github/codesakshi/simplexml/XmlNode.java:255-258 | returns whether the node was a child; the children become `RemoveFirst` of the old ones; the node is no longer a child, so a second call returns false; the value drops that subtree |
| `XmlNodes.XmlNode.RemoveChildAt` | src/main/java/io/github/codesakshi/simplexml/XmlNode.java:257 | dropping the first occurrence keeps the tree valid and releases exactly that child's subtree |
| `XmlNodes.XmlNode.Copy` | src/main/java/io/github/codesakshi/simplexml/XmlNode.java:264-279 | exactly one child is appended, built from fresh objects, whose value equals the source's; the earlier children and the source are unchanged |
| `XmlNodes.XmlNode.Clone` | src/main/java/io/github/codesakshi/simplexml/XmlNode.java:266-278 | a fresh subtree structurally equal to the source: same tag, value and attributes, and equal children in order |
| `XmlNodes.XmlNode.CopyFields` | src/main/java/io/github/codesakshi/simplexml/XmlNode.java:266-273 | a fresh node with the given tag, value and attributes and no children |
| `XmlNodes.XmlNode.GetChildrenRecursiveByTagName` | src/main/java/io/github/codesakshi/simplexml/XmlNode.java:178-185 | the result is the object list `TaggedWithin` gives: each child, if tagged, followed by its own matches, child by child; its values are the tagged nodes of the pre-order walk below the receiver; each object occurs once; the receiver is never included |
| `XmlNodes.XmlNode.CollectRecursiveByTag` | src/main/java/io/github/codesakshi/simplexml/XmlNode.java:194-205 | what the helper appends for a parent is the object list `TaggedWithin` over all of the parent's children |
| `XmlNodes.XmlNode.CollectFromChild` | src/main/java/io/github/codesakshi/simplexml/XmlNode.java:198-203 | one child contributes the object list `TaggedFrom`: itself if tagged, then its own matches |
| `XmlNodes.XmlNode.TaggedFromValues` | src/main/java/io/github/codesakshi/simplexml/XmlNode.java:198-203 | the objects one child contributes have the values `DescendantsIn` gives for that child's value |
| `XmlNodes.XmlNode.TaggedWithinValues` | src/main/java/io/github/codesakshi/simplexml/XmlNode.java:196-204 | the objects the first `k` children contribute have the values `DescendantsIn` gives for their values |
| `XmlNodes.XmlNode.TaggedFromFacts` | src/main/java/io/github/codesakshi/simplexml/XmlNode.java:198-203 | one child's contribution also lies in that child's subtree and repeats no object |
| `XmlNodes.XmlNode.TaggedWithinFacts` | src/main/java/io/github/codesakshi/simplexml/XmlNode.java:196-204 | the first `k` children's contributions come from disjoint subtrees, so no object occurs twice, and none is the parent |
| `XmlNodes.XmlNode.GetChildrenByPath` | src/main/java/io/github/codesakshi/simplexml/XmlNode.java:286-317 | the result is the concatenation, alternative by alternative, of the node objects each one selects (`Outputs`); its values are `PathQuery` of the node's value; every result lies in the subtree |
| `XmlNodes.XmlNode.AlternativesNodes` | src/main/java/io/github/codesakshi/simplexml/XmlNode.java:292-314 | the loop concatenates, in order, the node objects each alternative selects |
| `XmlNodes.XmlNode.AlternativeNodes` | src/main/java/io/github/codesakshi/simplexml/XmlNode.java:294-311 | one alternative yields the objects `PlanMatches` gives for its parse: nothing when blank, the match from the receiver alone when absolute, from its children otherwise |
| `XmlNodes.XmlNode.MatchNodes` | src/main/java/io/github/codesakshi/simplexml/XmlNode.java:326-346 | over the children of a parent, what the helper appends is the object list `PathWithin`: each child's output, child by child |
| `XmlNodes.XmlNode.MatchOne` | src/main/java/io/github/codesakshi/simplexml/XmlNode.java:333-344 | one candidate yields the object list `PathStep`: nothing when it does not match the segment, itself at the last segment, otherwise its children's output at the next segment |
| `XmlNodes.XmlNode.PathStepFacts` | src/main/java/io/github/codesakshi/simplexml/XmlNode.java:333-344 | one candidate's output has the values `MatchPath` gives for its value and lies in its subtree |
| `XmlNodes.XmlNode.PathWithinFacts` | src/main/java/io/github/codesakshi/simplexml/XmlNode.java:331-345 | the first `k` children's output has the values `MatchPath` gives for their values and lies strictly below the parent |
| `XmlNodes.XmlNode.PlanMatchesFacts` | src/main/java/io/github/codesakshi/simplexml/XmlNode.java:296-311 | a parsed alternative's objects have the values `EvalPlan` gives and lie in the subtree |
| `XmlNodes.XmlNode.OutputAt` | src/main/java/io/github/codesakshi/simplexml/XmlNode.java:294-311 | alternative `j`'s objects are `PlanMatches` of its parse and have the values `EvalAlternative` gives |
| `XmlNodes.XmlNode.OutputsFacts` | src/main/java/io/github/codesakshi/simplexml/XmlNode.java:292-314 | the first `k` alternatives' objects, concatenated, have the values `EvalAlternatives` gives and lie in the subtree |
| `XmlDom.FromDomAttrs` | src/main/java/io/github/codesakshi/simplexml/XmlRoot.java:123-130 | the same keys, each holding its DOM string |
| `XmlDom.NextValue` | src/main/java/io/github/codesakshi/simplexml/XmlRoot.java:146-171 | non-blank text stores its trim, CDATA its data verbatim, anything else leaves the value alone |
| `XmlDom.ReadInto` | src/main/java/io/github/codesakshi/simplexml/XmlRoot.java:121-174 | the tag is kept and the attributes are the old ones upserted with the DOM's |
| `XmlDom.ReadChildren` | src/main/java/io/github/codesakshi/simplexml/XmlRoot.java:132-173 | the loop over the first `n` DOM children keeps the tag and the attributes |
| `XmlDom.ReadChild` | src/main/java/io/github/codesakshi/simplexml/XmlRoot.java:134-171 | one DOM child keeps the tag and the attributes; an element leaves the value alone and appends exactly one new child, the element read into a node carrying its name; any other child leaves the children alone and may only change the value |
| `XmlDom.ReadChildrenSplits` | src/main/java/io/github/codesakshi/simplexml/XmlRoot.java:132-173 | after the child loop, the element children have been read and appended after the existing children in document order, and the value is whatever the other children leave |
| `XmlDom.ReadIntoKeepsChildren` | src/main/java/io/github/codesakshi/simplexml/XmlRoot.java:140-144 | the existing children stay in front and one new child follows per element child |
| `XmlDom.LastValueWins` | src/main/java/io/github/codesakshi/simplexml/XmlRoot.java:146-171 | the value is the one stored by the last text or CDATA child that sets one |
| `XmlDom.NoValueKept` | src/main/java/io/github/codesakshi/simplexml/XmlRoot.java:146-171 | when no child sets a value the old value stays |
| `XmlDom.BlankTextIgnored` | src/main/java/io/github/codesakshi/simplexml/XmlRoot.java:146-171 | whitespace-only text leaves the value unchanged, while the same characters as CDATA are stored |
| `XmlDom.StringForms` | src/main/java/io/github/codesakshi/simplexml/XmlRoot.java:222-225 | the same keys, each holding `String.valueOf` of its value |
| `XmlDom.ValueNode` | src/main/java/io/github/codesakshi/simplexml/XmlRoot.java:231-238 | CDATA wrapped in newlines for a value with a newline, plain text otherwise |
| `XmlDom.WriteElement` | src/main/java/io/github/codesakshi/simplexml/XmlRoot.java:220-257 | a written element has the given name and the attributes' string forms; with text it has exactly the one value node and always succeeds; without text it has one child per node child |
| `XmlDom.WriteChildren` | src/main/java/io/github/codesakshi/simplexml/XmlRoot.java:242-255 | once written, there is one element per child, in order, named by that child's non-null tag |
| `XmlDom.ToDocument` | src/main/java/io/github/codesakshi/simplexml/XmlRoot.java:196-211 | the document element is named by the root's tag |
| `XmlDom.WriteFailsIff` | src/main/java/io/github/codesakshi/simplexml/XmlRoot.java:227-256 | writing a node fails iff a child without a tag is reached below a node without text |
| `XmlDom.WriteChildrenFailsIff` | src/main/java/io/github/codesakshi/simplexml/XmlRoot.java:242-255 | the child loop fails iff one of the children visited lacks a tag or fails below |
| `XmlDom.ToDocumentFailsIff` | src/main/java/io/github/codesakshi/simplexml/XmlRoot.java:196-211 | the conversion fails iff the root has no tag or a missing tag is reached below it |
| `XmlDom.TextHidesChildren` | src/main/java/io/github/codesakshi/simplexml/XmlRoot.java:229-240 | a node with text is always written, and replacing its children by any others does not change what is written |
| `XmlDom.WrittenChildren` | src/main/java/io/github/codesakshi/simplexml/XmlRoot.java:242-255 | each written child element is the written form of the corresponding child |
| `XmlDom.RoundTrip` | src/main/java/io/github/codesakshi/simplexml/XmlRoot.java:121-257 | reading back any writable node gives `ReadBack` of it: string-form attributes, the value as the text round trip leaves it, and the children read back in order |
| `XmlDom.ValueRoundTrip` | src/main/java/io/github/codesakshi/simplexml/XmlRoot.java:229-239 | a node with text reads back with its value as the written text leaves it and no children |
| `XmlDom.RoundTripChildren` | src/main/java/io/github/codesakshi/simplexml/XmlRoot.java:242-255 | reading back the written children appends each one's read-back, in order |
| `XmlDom.CanonicalReadsBack` | src/main/java/io/github/codesakshi/simplexml/XmlRoot.java:121-257 | a canonical tree is its own read-back |
| `XmlDom.DocumentRoundTrip` | src/main/java/io/github/codesakshi/simplexml/XmlRoot.java:196-257 | a canonical tree can be written, and reading the document element back into a node named like the root gives the tree again |
| `XmlDom.CanonicalHasAllTags` | src/main/java/io/github/codesakshi/simplexml/XmlRoot.java:244-247 | a canonical tree never reaches a missing tag |
| `XmlDom.MultiLineValueGrows` | src/main/java/io/github/codesakshi/simplexml/XmlRoot.java:231-233 | a value spanning lines comes back with a newline added at each end |
| `XmlDom.EmptyValueBecomesNull` | src/main/java/io/github/codesakshi/simplexml/XmlRoot.java:229 | an empty value is written and comes back as null |
| `XmlRoots.FailureSticks` | src/main/java/io/github/codesakshi/simplexml/XmlRoot.java:244-247 | once a child fails, the whole child loop fails |
| `XmlRoots.XmlRoot.constructor` | src/main/java/io/github/codesakshi/simplexml/XmlRoot.java:31-40 | no name, and an empty node |
| `XmlRoots.XmlRoot.SetName` | src/main/java/io/github/codesakshi/simplexml/XmlRoot.java:54-56 | only the name changes |
| `XmlRoots.XmlRoot.Read` | src/main/java/io/github/codesakshi/simplexml/XmlRoot.java:62-65 | the node's new value is `ReadInto` of the element and its old value; the name is unchanged |
| `XmlRoots.XmlRoot.ReadDocument` | src/main/java/io/github/codesakshi/simplexml/XmlRoot.java:108-112 | the tag becomes the element's name, the name is set, then the element is read |
| `XmlRoots.XmlRoot.ReadNode` | src/main/java/io/github/codesakshi/simplexml/XmlRoot.java:121-174 | the node's new value is `ReadInto` of the element and its old value; all new objects are fresh |
| `XmlRoots.XmlRoot.ReadChildNode` | src/main/java/io/github/codesakshi/simplexml/XmlRoot.java:134-171 | one DOM child changes the node as `ReadChild` says |
| `XmlRoots.XmlRoot.ToXmlDocument` | src/main/java/io/github/codesakshi/simplexml/XmlRoot.java:196-211 | the outcome is `ToDocument` of the root's value |
| `XmlRoots.XmlRoot.WriteXmlElements` | src/main/java/io/github/codesakshi/simplexml/XmlRoot.java:220-257 | the outcome is `WriteElement` of the node's value |
| `XmlRoots.XmlRoot.AttributeStrings` | src/main/java/io/github/codesakshi/simplexml/XmlRoot.java:222-225 | the attribute loop yields `StringForms` of the map |
| `XmlRoots.XmlRoot.WriteChildElements` | src/main/java/io/github/codesakshi/simplexml/XmlRoot.java:242-255 | the child loop yields `WriteChildren` of the node's value, failing at the first child that fails |

A canonical tree (`XmlDom.Canonical`) is one that the conversion reproduces
exactly:
- every tag is set and every attribute value is a string;
- a value is null, or a non-empty single line equal to its own trim;
- a node with a value has no children.

## Left out

- Parsing and serialising bytes are left out: `read(InputStream…)`,
  `readXmlFromString`, `toXmlDocument()` building a `DocumentBuilder`,
  `write(OutputStream…)` and `toXmlString`. These belong to the JAXP library
  (parser, `Transformer`, indentation, encoding). The model starts and ends
  at the `Dom` datatype; `ReadDocument` takes the already-parsed document
  element.
- The DOM is a pure datatype. `createElement` rejecting invalid names, the
  `CharacterData` instanceof check (always true for CDATA), and a text node
  with a null value (never produced by a parser) are not modelled.
- Attribute values are `Option<string>`, not Java `Object`. `equals` and
  `String.valueOf` on other object types are not modelled.
- Aliasing through the live lists returned by `getChildren()` and
  `getAttributes()` is left out. Only mutation through the class's own
  methods is modelled.
- Attribute iteration order is left out. The loops that copy or write
  attributes visit keys in an arbitrary order, which cannot matter because
  keys are distinct.
- `XmlNodes.XmlNode.AddChildNode`: requires the added node's subtree to be
  disjoint from this tree. Java lets a node be added twice or under its own
  descendant; that produces a shared or cyclic tree the model does not
  represent.
- Filling a child in after it has been appended is not modelled. Java's
  `copy` and `readNode` append the new child first and then fill it in. The
  model's `Copy` and `ReadChildNode` build the child first and append it
  afterwards. Nothing reads the child in between, so the resulting tree is
  the same.
- `XmlNodes.XmlNode.Copy`: requires that the receiver is not inside the
  source's subtree. In Java, `x.copy(x)` first appends the new node to
  `x`'s children. The loop over the source's children then reaches that new
  node and calls `newNode.copy(newNode)`, which does the same one level
  down, without end. A copy into a descendant of the source behaves alike.
  The recursion is unbounded and ends in `StackOverflowError`, which is not
  modelled.
- A `null` node argument is not modelled: node parameters are non-null
  references here. In Java, `addChild((XmlNode) null)` stores a null child,
  and the later queries then throw `NullPointerException` when they read
  its tag (XmlNode.java lines 163, 198, 216, 237). `copy(null)` throws at
  line 266.
- `XmlNodes.XmlNode.GetChildrenByPath`: requires `WellFormedQuery`. An
  absolute alternative made only of slashes (`"//"`) splits into no segment,
  and the helper then throws `ArrayIndexOutOfBoundsException` at
  `xpathArr[0]`. That exception is not modelled.
- `XmlNodes.XmlNode.GetFirstChildByTagAndAttribute`: the searched value is a
  string, so the `NullPointerException` on a null value is ruled out by its
  type.
- `XmlNodes.XmlNode.MatchNodes`, `XmlNodes.XmlNode.CollectRecursiveByTag`:
  the Java helpers append to a caller's `outList`. Here they return what
  they append, and the caller concatenates.
- `XmlNodes.XmlNode.MatchNodes`: the Java helper takes any node list. Every
  call passes either a node's children or the one-element list holding the
  receiver. The model takes the parent whose children form the list, and
  handles the one-element list of an absolute alternative with `MatchOne`
  on the receiver.
- `XmlNodes.XmlNode.AddChild`, `XmlNodes.XmlNode.AddChildWithValue`,
  `XmlNodes.XmlNode.AddChildNode`: changing a node through a reference the
  caller keeps is not modelled once that node sits inside another node's
  tree. Java lets a caller call `addChild(tag)` and then fill in the
  returned node, and the parent sees the change. Here the ancestors' ghost
  `model` is not updated by a change made on a descendant, so the
  ancestors' `Valid()` no longer holds. The model covers trees built bottom
  up: a node is filled in before it is appended with `AddChildNode`, or
  through `Copy` and `ReadNode`.
- A `null` tag passed to `getChildrenByTagName`,
  `getChildrenRecursiveByTagName`, `getFirstChildByTagName` or
  `getFirstChildByTagAndAttribute` throws `NullPointerException`
  (XmlNode.java lines 163, 198, 216, 237). So does a `null` query passed to
  `getChildrenByPath` (line 290). These arguments are `string`s here, so
  the exception is not modelled.
- `XmlRoots.XmlRoot.Read`: requires an element. `readNode` on any other
  node kind dereferences the null attribute map that the DOM returns for it.
- `XmlRoots.XmlRoot.ToXmlDocument`: models `toXmlDocument(document)` on an
  empty document and returns the document element. On failure Java leaves
  the elements written so far in the caller's document; the model reports
  only the failure.
