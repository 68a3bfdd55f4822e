/** The two pieces of java.lang.String that the path query relies on:
    `trim` and single-character `split`. */
module JavaString {

  /** `String.trim` treats every character up to U+0020 as removable. */
  predicate TrimRemoves(c: char) {
    c <= ' '
  }

  /** Drops the removable characters at the front. */
  function TrimStart(s: string): (r: string)
    ensures |r| <= |s| && r == s[|s| - |r|..]
    ensures r == [] || !TrimRemoves(r[0])
    ensures forall i :: 0 <= i < |s| - |r| ==> TrimRemoves(s[i])
  {
    if s != [] && TrimRemoves(s[0]) then TrimStart(s[1..]) else s
  }

  /** Drops the removable characters at the back. */
  function TrimEnd(s: string): (r: string)
    ensures |r| <= |s| && r == s[..|r|]
    ensures r == [] || !TrimRemoves(r[|r| - 1])
    ensures forall i :: |r| <= i < |s| ==> TrimRemoves(s[i])
  {
    if s != [] && TrimRemoves(s[|s| - 1]) then TrimEnd(s[..|s| - 1]) else s
  }

  /** `String.trim`: the longest slice of `s` that neither starts nor ends
      with a removable character, everything cut away being removable. */
  function Trim(s: string): (r: string)
    ensures exists a {:trigger s[a..]} :: 0 <= a <= |s| - |r| && r == s[a..][..|r|]
                        && (forall i :: 0 <= i < a ==> TrimRemoves(s[i]))
                        && (forall i :: a + |r| <= i < |s| ==> TrimRemoves(s[i]))
    ensures r == [] || (!TrimRemoves(r[0]) && !TrimRemoves(r[|r| - 1]))
  {
    var t := TrimStart(s);
    var r := TrimEnd(t);
    var a := |s| - |t|;
    assert r == s[a..][..|r|];
    r
  }

  /** A string that already starts and ends with a kept character is its own trim. */
  lemma TrimOfTrimmed(s: string)
    requires s == [] || (!TrimRemoves(s[0]) && !TrimRemoves(s[|s| - 1]))
    ensures Trim(s) == s
  {
    if s != [] {
      assert TrimStart(s) == s;
      assert TrimEnd(s) == s;
    }
  }

  /** `trim` is idempotent. */
  lemma TrimIdempotent(s: string)
    ensures Trim(Trim(s)) == Trim(s)
  {
    TrimOfTrimmed(Trim(s));
  }

  /** Every piece of `s` between occurrences of `sep`, including the empty
      ones: the raw split before Java drops anything. */
  function Pieces(s: string, sep: char): (r: seq<string>)
    ensures |r| >= 1
    ensures forall i :: 0 <= i < |r| ==> sep !in r[i]
    ensures sep !in s ==> r == [s]
  {
    if s == [] then [[]]
    else
      var rest := Pieces(s[1..], sep);
      assert [s[0]] + s[1..] == s;
      if s[0] == sep then [[]] + rest
      else [[s[0]] + rest[0]] + rest[1..]
  }

  /** The inverse of `Pieces`: the pieces glued back with `sep`. */
  function Join(ps: seq<string>, sep: char): string
    requires |ps| >= 1
  {
    if |ps| == 1 then ps[0] else ps[0] + [sep] + Join(ps[1..], sep)
  }

  lemma {:induction false} JoinPieces(s: string, sep: char)
    ensures Join(Pieces(s, sep), sep) == s
  {
    if s != [] {
      var rest := Pieces(s[1..], sep);
      JoinPieces(s[1..], sep);
      if s[0] == sep {
        assert Pieces(s, sep)[1..] == rest;
      } else {
        var ps := Pieces(s, sep);
        if |rest| == 1 {
          assert ps == [[s[0]] + rest[0]];
        } else {
          assert ps[1..] == rest[1..];
          assert Join(rest, sep) == rest[0] + [sep] + Join(rest[1..], sep);
        }
      }
    }
  }

  lemma {:induction false} PiecesJoin(ps: seq<string>, sep: char)
    requires |ps| >= 1
    requires forall i :: 0 <= i < |ps| ==> sep !in ps[i]
    ensures Pieces(Join(ps, sep), sep) == ps
  {
    if |ps| == 1 {
      assert sep !in Join(ps, sep);
    } else {
      PiecesJoin(ps[1..], sep);
      PiecesPrefix(ps[0], sep, Join(ps[1..], sep));
      assert ps[0] + [sep] + Join(ps[1..], sep) == ps[0] + ([sep] + Join(ps[1..], sep));
      assert [ps[0]] + ps[1..] == ps;
    }
  }

  /** A separator-free head becomes the first piece on its own. */
  lemma {:induction false} PiecesPrefix(head: string, sep: char, tail: string)
    requires sep !in head
    ensures Pieces(head + ([sep] + tail), sep) == [head] + Pieces(tail, sep)
  {
    if head == [] {
      assert head + ([sep] + tail) == [sep] + tail;
      assert ([sep] + tail)[1..] == tail;
    } else {
      var s := head + ([sep] + tail);
      assert s[1..] == head[1..] + ([sep] + tail);
      PiecesPrefix(head[1..], sep, tail);
      assert [s[0]] + head[1..] == head;
    }
  }

  /** Pieces of two strings glued with `sep` are the pieces of each, in order. */
  lemma {:induction false} PiecesConcat(s1: string, sep: char, s2: string)
    ensures Pieces(s1 + [sep] + s2, sep) == Pieces(s1, sep) + Pieces(s2, sep)
  {
    var s := s1 + [sep] + s2;
    if s1 == [] {
      assert s == [sep] + s2;
      assert s[1..] == s2;
    } else {
      assert s[1..] == s1[1..] + [sep] + s2;
      PiecesConcat(s1[1..], sep, s2);
      if s1[0] != sep {
        var rest := Pieces(s1[1..], sep);
        assert Pieces(s[1..], sep) == rest + Pieces(s2, sep);
        assert [[s1[0]] + rest[0]] + rest[1..] == Pieces(s1, sep);
      }
    }
  }

  /** Java drops trailing empty strings from a split result. */
  function DropTrailingEmpty(ps: seq<string>): (r: seq<string>)
    ensures |r| <= |ps| && r == ps[..|r|]
    ensures r == [] || r[|r| - 1] != []
    ensures forall i :: |r| <= i < |ps| ==> ps[i] == []
  {
    if ps != [] && ps[|ps| - 1] == [] then DropTrailingEmpty(ps[..|ps| - 1]) else ps
  }

  /** `s.split(sep)` for a separator that is a single literal character:
      with no separator present the result is `[s]` (so `""` gives `[""]`),
      otherwise the pieces with trailing empty ones dropped (`"a/"` gives
      `["a"]`, `"/"` gives `[]`). */
  function Split(s: string, sep: char): (r: seq<string>)
    ensures |r| <= |Pieces(s, sep)| && r == Pieces(s, sep)[..|r|]
    ensures forall i :: |r| <= i < |Pieces(s, sep)| ==> Pieces(s, sep)[i] == []
    ensures forall i :: 0 <= i < |r| ==> sep !in r[i]
    ensures sep !in s ==> r == [s]
    ensures sep in s ==> r == [] || r[|r| - 1] != []
  {
    if sep !in s then [s] else DropTrailingEmpty(Pieces(s, sep))
  }

  /** A string made only of separators (at least one) splits into nothing. */
  lemma {:induction false} SplitAllSeparators(s: string, sep: char)
    requires s != [] && forall i :: 0 <= i < |s| ==> s[i] == sep
    ensures Split(s, sep) == []
  {
    OnlySeparatorsPiecesEmpty(s, sep);
  }

  lemma {:induction false} OnlySeparatorsPiecesEmpty(s: string, sep: char)
    requires forall i :: 0 <= i < |s| ==> s[i] == sep
    ensures forall i :: 0 <= i < |Pieces(s, sep)| ==> Pieces(s, sep)[i] == []
  {
    if s != [] {
      OnlySeparatorsPiecesEmpty(s[1..], sep);
    }
  }

  /** A string that does not start with the separator keeps a first piece. */
  lemma {:induction false} SplitNonEmpty(s: string, sep: char)
    requires s != [] && s[0] != sep
    ensures |Split(s, sep)| >= 1 && Split(s, sep)[0] != []
  {
    var ps := Pieces(s, sep);
    assert ps[0] == [s[0]] + Pieces(s[1..], sep)[0];
  }
}
