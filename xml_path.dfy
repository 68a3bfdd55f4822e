/** The path query of `XmlNode.getChildrenByPath`, stated on tree values.
    A query is `|`-separated alternatives; each alternative, once trimmed,
    is a `/`-separated list of segments, a segment being a tag or `*`.
    A leading `/` starts the match at the receiver itself, otherwise at its
    children. */
module XmlPath {
  import opened JavaString
  import opened XmlTree

  /** `"*".equals(seg) || seg.equals(node.getTag())`. */
  predicate SegmentMatches(seg: string, t: Tree) {
    seg == "*" || t.tag == Some(seg)
  }

  /** The recursive helper `getChildrenByPath(nodeList, outList, xpathArr, index)`:
      what it appends for candidates `ts` at segment `i`. A candidate that
      matches the last segment is output; one that matches an earlier
      segment passes its children on to the next segment. */
  function MatchPath(ts: seq<Tree>, segs: seq<string>, i: nat): (r: seq<Tree>)
    requires i < |segs|
    ensures forall x :: x in r ==> SegmentMatches(segs[|segs| - 1], x)
    decreases |segs| - i, |ts|
  {
    if ts == [] then []
    else
      (if !SegmentMatches(segs[i], ts[0]) then []
       else if i == |segs| - 1 then [ts[0]]
       else MatchPath(ts[0].kids, segs, i + 1))
      + MatchPath(ts[1..], segs, i)
  }

  /** Matching a list of candidates is matching each part in turn. */
  lemma {:induction false} MatchPathAppend(a: seq<Tree>, b: seq<Tree>, segs: seq<string>, i: nat)
    requires i < |segs|
    ensures MatchPath(a + b, segs, i) == MatchPath(a, segs, i) + MatchPath(b, segs, i)
    decreases |a|
  {
    if a == [] {
      assert a + b == b;
    } else {
      assert (a + b)[0] == a[0];
      assert (a + b)[1..] == a[1..] + b;
      MatchPathAppend(a[1..], b, segs, i);
    }
  }

  /** Everything the helper outputs is one of the candidates or lies below
      one of them. */
  lemma {:induction false} MatchPathWithin(ts: seq<Tree>, segs: seq<string>, i: nat)
    requires i < |segs|
    ensures forall x :: x in MatchPath(ts, segs, i) ==> x in PreOrder(ts)
    decreases |segs| - i, |ts|
  {
    if ts != [] {
      MatchPathWithin(ts[1..], segs, i);
      if i < |segs| - 1 {
        MatchPathWithin(ts[0].kids, segs, i + 1);
      }
    }
  }

  /** One candidate alone: dropped, output, or replaced by its children's matches. */
  lemma MatchPathOne(t: Tree, segs: seq<string>, i: nat)
    requires i < |segs|
    ensures MatchPath([t], segs, i) ==
      if !SegmentMatches(segs[i], t) then []
      else if i == |segs| - 1 then [t]
      else MatchPath(t.kids, segs, i + 1)
  {
    assert [t][1..] == [];
  }

  // ---------------------------------------------------------------------
  // Level-by-level reference for the matcher
  // ---------------------------------------------------------------------

  /** The candidates matching segment `seg`, in order. */
  function Keep(ts: seq<Tree>, seg: string): (r: seq<Tree>)
    ensures |r| <= |ts|
    ensures forall x :: x in r <==> x in ts && SegmentMatches(seg, x)
  {
    if ts == [] then []
    else (if SegmentMatches(seg, ts[0]) then [ts[0]] else []) + Keep(ts[1..], seg)
  }

  /** The children of every candidate, candidate by candidate. */
  function KidsOf(ts: seq<Tree>): seq<Tree> {
    if ts == [] then [] else ts[0].kids + KidsOf(ts[1..])
  }

  /** The design of the path query read level by level: keep the candidates
      matching segment `i`; at the last segment they are the answer,
      otherwise their children, in order, are the candidates for segment
      `i + 1`. */
  function LevelWise(ts: seq<Tree>, segs: seq<string>, i: nat): seq<Tree>
    requires i < |segs|
    decreases |segs| - i
  {
    var kept := Keep(ts, segs[i]);
    if i == |segs| - 1 then kept else LevelWise(KidsOf(kept), segs, i + 1)
  }

  lemma {:induction false} KeepAppend(a: seq<Tree>, b: seq<Tree>, seg: string)
    ensures Keep(a + b, seg) == Keep(a, seg) + Keep(b, seg)
  {
    if a == [] {
      assert a + b == b;
    } else {
      assert (a + b)[0] == a[0];
      assert (a + b)[1..] == a[1..] + b;
      KeepAppend(a[1..], b, seg);
    }
  }

  lemma {:induction false} KidsOfAppend(a: seq<Tree>, b: seq<Tree>)
    ensures KidsOf(a + b) == KidsOf(a) + KidsOf(b)
  {
    if a == [] {
      assert a + b == b;
    } else {
      assert (a + b)[0] == a[0];
      assert (a + b)[1..] == a[1..] + b;
      KidsOfAppend(a[1..], b);
    }
  }

  lemma {:induction false} LevelWiseEmpty(segs: seq<string>, i: nat)
    requires i < |segs|
    ensures LevelWise([], segs, i) == []
    decreases |segs| - i
  {
    if i < |segs| - 1 {
      LevelWiseEmpty(segs, i + 1);
    }
  }

  lemma {:induction false} LevelWiseAppend(a: seq<Tree>, b: seq<Tree>, segs: seq<string>, i: nat)
    requires i < |segs|
    ensures LevelWise(a + b, segs, i) == LevelWise(a, segs, i) + LevelWise(b, segs, i)
    decreases |segs| - i
  {
    var ka, kb := Keep(a, segs[i]), Keep(b, segs[i]);
    KeepAppend(a, b, segs[i]);
    if i < |segs| - 1 {
      KidsOfAppend(ka, kb);
      LevelWiseAppend(KidsOf(ka), KidsOf(kb), segs, i + 1);
    }
  }

  /** The depth-first helper and the level-by-level reading agree on every
      input: a node is output exactly when it matches the last segment and
      its ancestors below the start match the earlier segments, and the
      output keeps document order. */
  lemma {:induction false} MatchPathIsLevelWise(ts: seq<Tree>, segs: seq<string>, i: nat)
    requires i < |segs|
    ensures MatchPath(ts, segs, i) == LevelWise(ts, segs, i)
    decreases |segs| - i, |ts|
  {
    if ts == [] {
      LevelWiseEmpty(segs, i);
    } else {
      var t, rest := ts[0], ts[1..];
      assert ts == [t] + rest;
      LevelWiseAppend([t], rest, segs, i);
      MatchPathIsLevelWise(rest, segs, i);
      assert [t][1..] == [];
      if !SegmentMatches(segs[i], t) {
        assert Keep([t], segs[i]) == [];
        LevelWiseEmpty(segs, i);
      } else if i < |segs| - 1 {
        assert Keep([t], segs[i]) == [t];
        assert KidsOf([t]) == t.kids + KidsOf([]);
        assert t.kids + [] == t.kids;
        MatchPathIsLevelWise(t.kids, segs, i + 1);
      } else {
        assert Keep([t], segs[i]) == [t];
      }
    }
  }

  /** A one-segment path with a literal tag selects exactly the candidates
      carrying that tag, in order. */
  lemma {:induction false} SingleSegmentIsTagged(ts: seq<Tree>, tag: string)
    requires tag != "*"
    ensures MatchPath(ts, [tag], 0) == TaggedIn(ts, tag)
  {
    if ts != [] {
      SingleSegmentIsTagged(ts[1..], tag);
    }
  }

  /** `*` alone keeps every candidate. */
  lemma {:induction false} SingleWildcardKeepsAll(ts: seq<Tree>)
    ensures MatchPath(ts, ["*"], 0) == ts
  {
    if ts != [] {
      SingleWildcardKeepsAll(ts[1..]);
      assert [ts[0]] + ts[1..] == ts;
    }
  }

  /** The children carrying `tag` of every node of `ts`, node by node. */
  function GrandchildrenTagged(ts: seq<Tree>, tag: string): (r: seq<Tree>)
    ensures forall x :: x in r ==> HasTag(x, tag)
  {
    if ts == [] then [] else TaggedIn(ts[0].kids, tag) + GrandchildrenTagged(ts[1..], tag)
  }

  // The path `*` then `tag` keeps, for each candidate in order, its children carrying `tag`.
  lemma {:induction false} WildcardThenTag(ts: seq<Tree>, tag: string)
    requires tag != "*"
    ensures MatchPath(ts, ["*", tag], 0) == GrandchildrenTagged(ts, tag)
  {
    if ts != [] {
      WildcardThenTag(ts[1..], tag);
      MatchLastIsTagged(ts[0].kids, ["*", tag], tag);
    }
  }

  /** At the last segment a literal tag filters the candidates. */
  lemma {:induction false} MatchLastIsTagged(ts: seq<Tree>, segs: seq<string>, tag: string)
    requires |segs| >= 1 && segs[|segs| - 1] == tag && tag != "*"
    ensures MatchPath(ts, segs, |segs| - 1) == TaggedIn(ts, tag)
  {
    if ts != [] {
      MatchLastIsTagged(ts[1..], segs, tag);
    }
  }

  // ---------------------------------------------------------------------
  // Alternatives
  // ---------------------------------------------------------------------

  /** An alternative is usable unless it is absolute and splits into no
      segment at all (`//`, `///`, ...), where the helper would index
      `xpathArr[0]` of an empty array. */
  predicate AlternativeOk(alt: string) {
    var a := Trim(alt);
    a != [] && a[0] == '/' ==> |Split(a[1..], '/')| >= 1
  }

  /** An alternative once trimmed and split: blank, absolute (the match
      starts at the receiver) or relative (it starts at its children). */
  datatype Plan = Blank | Absolute(segs: seq<string>) | Relative(segs: seq<string>)

  predicate PlanOk(p: Plan) {
    !p.Blank? ==> |p.segs| >= 1
  }

  /** How `getChildrenByPath` reads one alternative. */
  function PlanOf(alt: string): (p: Plan)
    requires AlternativeOk(alt)
    ensures PlanOk(p)
  {
    var a := Trim(alt);
    if a == [] then Blank
    else if a[0] == '/' then Absolute(Split(a[1..], '/'))
    else
      SplitNonEmpty(a, '/');
      Relative(Split(a, '/'))
  }

  /** What a parsed alternative selects below `t`. */
  function EvalPlan(t: Tree, p: Plan): (r: seq<Tree>)
    requires PlanOk(p)
    ensures forall x :: x in r ==> x in PreOrder([t])
  {
    assert PreOrder([t]) == [t] + PreOrder(t.kids) + PreOrder([]) by { assert [t][1..] == []; }
    match p
    case Blank => []
    case Absolute(segs) => MatchPathWithin([t], segs, 0); MatchPath([t], segs, 0)
    case Relative(segs) => MatchPathWithin(t.kids, segs, 0); MatchPath(t.kids, segs, 0)
  }

  /** What one alternative contributes to the output list. */
  function EvalAlternative(t: Tree, alt: string): (r: seq<Tree>)
    requires AlternativeOk(alt)
    ensures forall x :: x in r ==> x in PreOrder([t])
  {
    EvalPlan(t, PlanOf(alt))
  }

  predicate AlternativesOk(alts: seq<string>) {
    forall k {:trigger AlternativeOk(alts[k])} :: 0 <= k < |alts| ==> AlternativeOk(alts[k])
  }

  /** The outputs of the alternatives, concatenated in order. */
  function EvalAlternatives(t: Tree, alts: seq<string>): (r: seq<Tree>)
    requires AlternativesOk(alts)
    ensures forall x :: x in r ==> x in PreOrder([t])
  {
    if alts == [] then [] else EvalAlternative(t, alts[0]) + EvalAlternatives(t, alts[1..])
  }

  /** A lone alternative is evaluated on its own. */
  lemma SingleAlternative(t: Tree, alt: string)
    requires AlternativeOk(alt)
    ensures AlternativesOk([alt])
    ensures EvalAlternatives(t, [alt]) == EvalAlternative(t, alt)
  {
    assert [alt][1..] == [];
  }

  /** The queries `getChildrenByPath` can answer without an exception. */
  predicate WellFormedQuery(xpath: string) {
    AlternativesOk(Split(xpath, '|'))
  }

  /** `getChildrenByPath(xpath)` on the node whose value is `t`. */
  function PathQuery(t: Tree, xpath: string): (r: seq<Tree>)
    requires WellFormedQuery(xpath)
    ensures forall x :: x in r ==> x in PreOrder([t])
    ensures '|' !in xpath ==> AlternativeOk(xpath) && r == EvalAlternative(t, xpath)
  {
    if '|' in xpath then EvalAlternatives(t, Split(xpath, '|'))
    else
      assert AlternativeOk([xpath][0]);
      SingleAlternative(t, xpath);
      EvalAlternatives(t, Split(xpath, '|'))
  }

  lemma {:induction false} EvalAlternativesAppend(t: Tree, a: seq<string>, b: seq<string>)
    requires AlternativesOk(a) && AlternativesOk(b)
    ensures AlternativesOk(a + b)
    ensures EvalAlternatives(t, a + b) == EvalAlternatives(t, a) + EvalAlternatives(t, b)
  {
    forall k | 0 <= k < |a + b| ensures AlternativeOk((a + b)[k]) {
      if k < |a| {
        assert (a + b)[k] == a[k];
      } else {
        assert (a + b)[k] == b[k - |a|];
      }
    }
    if a == [] {
      assert a + b == b;
    } else {
      assert (a + b)[0] == a[0];
      assert (a + b)[1..] == a[1..] + b;
      EvalAlternativesAppend(t, a[1..], b);
    }
  }

  lemma EvalAlternativesSnoc(t: Tree, alts: seq<string>, k: nat)
    requires k < |alts| && AlternativesOk(alts)
    ensures AlternativesOk(alts[..k]) && AlternativesOk(alts[..k + 1])
    ensures EvalAlternatives(t, alts[..k + 1]) == EvalAlternatives(t, alts[..k]) + EvalAlternative(t, alts[k])
  {
    var pre, pre1 := alts[..k], alts[..k + 1];
    forall j | 0 <= j < k + 1 ensures AlternativeOk(pre1[j]) {
      assert pre1[j] == alts[j];
    }
    forall j | 0 <= j < k ensures AlternativeOk(pre[j]) {
      assert pre[j] == alts[j];
    }
    var one := [alts[k]];
    assert AlternativeOk(one[0]);
    assert alts[..k + 1] == alts[..k] + one;
    EvalAlternativesAppend(t, alts[..k], one);
    assert one[1..] == [];
    assert EvalAlternatives(t, one) == EvalAlternative(t, alts[k]) + EvalAlternatives(t, []);
  }

  /** Alternatives that are blank once trimmed are skipped and contribute
      nothing. */
  lemma {:induction false} EmptyAlternatives(t: Tree, alts: seq<string>)
    requires forall k :: 0 <= k < |alts| ==> Trim(alts[k]) == []
    ensures AlternativesOk(alts) && EvalAlternatives(t, alts) == []
  {
    if alts != [] {
      EmptyAlternatives(t, alts[1..]);
    }
  }

  /** Empty alternatives after the others change nothing. */
  lemma TrailingEmptyAlternatives(t: Tree, a: seq<string>, e: seq<string>)
    requires forall k :: 0 <= k < |e| ==> e[k] == []
    ensures AlternativesOk(a + e) <==> AlternativesOk(a)
    ensures AlternativesOk(a) ==> EvalAlternatives(t, a + e) == EvalAlternatives(t, a)
  {
    TrimOfTrimmed([]);
    EmptyAlternatives(t, e);
    if AlternativesOk(a) {
      EvalAlternativesAppend(t, a, e);
    }
    if AlternativesOk(a + e) {
      forall k | 0 <= k < |a| ensures AlternativeOk(a[k]) {
        assert (a + e)[k] == a[k];
      }
    }
  }

  /** The trailing empty strings that `split` drops would have contributed
      nothing: the query may be read over the raw pieces. */
  lemma QueryOverPieces(t: Tree, xpath: string)
    ensures WellFormedQuery(xpath) <==> AlternativesOk(Pieces(xpath, '|'))
    ensures WellFormedQuery(xpath) ==> PathQuery(t, xpath) == EvalAlternatives(t, Pieces(xpath, '|'))
  {
    var ps := Pieces(xpath, '|');
    var sp := Split(xpath, '|');
    var e := ps[|sp|..];
    assert ps == sp + e;
    TrailingEmptyAlternatives(t, sp, e);
  }

  /** Joining two queries with `|` concatenates their results, in order and
      without removing duplicates. */
  lemma PathQueryConcat(t: Tree, x1: string, x2: string)
    requires WellFormedQuery(x1) && WellFormedQuery(x2)
    ensures WellFormedQuery(x1 + "|" + x2)
    ensures PathQuery(t, x1 + "|" + x2) == PathQuery(t, x1) + PathQuery(t, x2)
  {
    QueryOverPieces(t, x1);
    QueryOverPieces(t, x2);
    PiecesConcat(x1, '|', x2);
    EvalAlternativesAppend(t, Pieces(x1, '|'), Pieces(x2, '|'));
    QueryOverPieces(t, x1 + "|" + x2);
  }

  /** A plain tag as the whole query is `getChildrenByTagName`. */
  lemma RelativeTagQuery(t: Tree, tag: string)
    requires tag != [] && tag != "*" && Trim(tag) == tag
    requires '|' !in tag && '/' !in tag
    ensures WellFormedQuery(tag)
    ensures PathQuery(t, tag) == TaggedIn(t.kids, tag)
  {
    assert tag[0] in tag;
    assert Split(tag, '|') == [tag];
    assert Split(tag, '/') == [tag];
    assert AlternativeOk(tag);
    assert EvalAlternative(t, tag) == MatchPath(t.kids, [tag], 0);
    assert [tag][1..] == [];
    assert EvalAlternatives(t, [tag]) == EvalAlternative(t, tag) + EvalAlternatives(t, []);
    SingleSegmentIsTagged(t.kids, tag);
  }

  /** `/tag` tests the receiver itself. */
  lemma AbsoluteTagQuery(t: Tree, tag: string)
    requires tag != "*" && Trim(tag) == tag
    requires '|' !in tag && '/' !in tag
    ensures WellFormedQuery("/" + tag)
    ensures PathQuery(t, "/" + tag) == if HasTag(t, tag) then [t] else []
  {
    var q := "/" + tag;
    assert '|' !in q;
    assert Split(q, '|') == [q];
    assert tag != [] ==> q[|q| - 1] == tag[|tag| - 1];
    TrimOfTrimmed(q);
    assert q[1..] == tag;
    assert Split(tag, '/') == [tag];
    assert AlternativeOk(q);
    assert EvalAlternative(t, q) == MatchPath([t], [tag], 0);
    assert [q][1..] == [];
    assert EvalAlternatives(t, [q]) == EvalAlternative(t, q) + EvalAlternatives(t, []);
    SingleSegmentIsTagged([t], tag);
    TaggedOne(t, tag);
  }

  /** An absolute alternative made only of slashes is refused. */
  lemma SlashesOnlyRejected(n: nat)
    requires n >= 2
    ensures !WellFormedQuery(seq(n, _ => '/'))
  {
    var q := seq(n, _ => '/');
    assert '|' !in q;
    assert Split(q, '|') == [q];
    assert q[0] == '/' && q[n - 1] == '/';
    TrimOfTrimmed(q);
    SplitAllSeparators(q[1..], '/');
    assert !AlternativeOk(q);
    assert Split(q, '|')[0] == q;
  }
}
