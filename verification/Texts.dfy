/**
  Searching, replacing, splitting and joining on character sequences.
 */
module Texts {
  type Text = seq<char>

  predicate OccursAt(s: Text, d: Text, i: int) {
    0 <= i && i + |d| <= |s| && s[i..i + |d|] == d
  }

  /** The first position from `i` on where `d` occurs, or -1. */
  function IndexFrom(s: Text, d: Text, i: nat): (r: int)
    ensures r == -1 || i <= r <= |s| - |d|
    decreases |s| - i
  {
    if i + |d| > |s| then -1 else if s[i..i + |d|] == d then i else IndexFrom(s, d, i + 1)
  }

  lemma {:induction false} IndexIsFirst(s: Text, d: Text, i: nat)
    ensures var r := IndexFrom(s, d, i);
      && (r == -1 || OccursAt(s, d, r))
      && (forall j :: i <= j && (r == -1 || j < r) ==> !OccursAt(s, d, j))
    decreases |s| - i
  {
    if i + |d| <= |s| && s[i..i + |d|] != d {
      IndexIsFirst(s, d, i + 1);
    }
  }

  lemma IndexUnique(s: Text, d: Text, i: nat, r: int)
    requires r == -1 || (r >= i && OccursAt(s, d, r))
    requires forall j :: i <= j && (r == -1 || j < r) ==> !OccursAt(s, d, j)
    ensures IndexFrom(s, d, i) == r
  {
    var q := IndexFrom(s, d, i);
    IndexIsFirst(s, d, i);
    assert q == -1 || OccursAt(s, d, q);
    assert r == -1 || OccursAt(s, d, r);
  }

  /** Searching from `i` is searching the rest of the text. */
  lemma IndexShift(s: Text, d: Text, i: nat)
    requires i <= |s|
    ensures IndexFrom(s, d, i) == (var r := IndexFrom(s[i..], d, 0); if r == -1 then -1 else r + i)
  {
    var r := IndexFrom(s[i..], d, 0);
    var q := if r == -1 then -1 else r + i;
    forall j: int | i <= j
      ensures OccursAt(s, d, j) <==> OccursAt(s[i..], d, j - i)
    {
      if j + |d| <= |s| {
        assert s[j..j + |d|] == s[i..][j - i..j - i + |d|];
      }
    }
    IndexIsFirst(s[i..], d, 0);
    IndexUnique(s, d, i, q);
  }

  /** A first occurrence from `from` on, as seen on the rest of the text. */
  lemma SearchRest(s: Text, from: nat, pos: nat, d: Text)
    requires from <= |s| && pos == IndexFrom(s, d, from)
    ensures from <= pos && pos + |d| <= |s|
    ensures var t, r := s[from..], pos - from;
      IndexFrom(t, d, 0) == r && t[..r] == s[from..pos] && t[r + |d|..] == s[pos + |d|..]
  {
    IndexShift(s, d, from);
  }

  /** Replace every occurrence, from the left, without overlaps. */
  function Replace(s: Text, o: Text, n: Text): Text
    requires o != []
    decreases |s|
  {
    var p := IndexFrom(s, o, 0);
    if p == -1 then s else s[..p] + n + Replace(s[p + |o|..], o, n)
  }

  /** How many occurrences that replaces. */
  function Count(s: Text, o: Text): nat
    requires o != []
    decreases |s|
  {
    var p := IndexFrom(s, o, 0);
    if p == -1 then 0 else 1 + Count(s[p + |o|..], o)
  }

  lemma ReplaceFirst(s: Text, o: Text, n: Text)
    requires o != [] && IndexFrom(s, o, 0) != -1
    ensures var p := IndexFrom(s, o, 0); Replace(s, o, n) == s[..p] + n + Replace(s[p + |o|..], o, n)
  {
  }

  lemma CountFirst(s: Text, o: Text)
    requires o != [] && IndexFrom(s, o, 0) != -1
    ensures Count(s, o) == 1 + Count(s[IndexFrom(s, o, 0) + |o|..], o)
  {
  }

  lemma CountNone(s: Text, o: Text)
    requires o != [] && IndexFrom(s, o, 0) == -1
    ensures Count(s, o) == 0
  {
  }

  lemma ReplaceNone(s: Text, o: Text, n: Text)
    requires o != [] && IndexFrom(s, o, 0) == -1
    ensures Replace(s, o, n) == s
  {
  }

  function Split(s: Text, d: Text): (ps: seq<Text>)
    requires d != []
    ensures ps != []
    decreases |s|
  {
    var p := IndexFrom(s, d, 0);
    if p == -1 then [s] else [s[..p]] + Split(s[p + |d|..], d)
  }

  function JoinWith(ps: seq<Text>, d: Text): Text {
    if ps == [] then [] else if |ps| == 1 then ps[0] else ps[0] + d + JoinWith(ps[1..], d)
  }

  lemma {:induction false} ReplaceLength(s: Text, o: Text, n: Text)
    requires o != []
    ensures |Replace(s, o, n)| == |s| + Count(s, o) * (|n| - |o|)
    decreases |s|
  {
    var p := IndexFrom(s, o, 0);
    if p != -1 {
      var rest := s[p + |o|..];
      ReplaceLength(rest, o, n);
      OneMore(Count(rest, o), |n| - |o|);
      assert |Replace(s, o, n)| == p + |n| + |Replace(rest, o, n)|;
    }
  }

  lemma OneMore(c: nat, k: int)
    ensures (1 + c) * k == k + c * k
  {
  }

  /** Splitting and joining with the same delimiter gives the text back. */
  lemma {:induction false} JoinSplit(s: Text, d: Text)
    requires d != []
    ensures JoinWith(Split(s, d), d) == s
    decreases |s|
  {
    var p := IndexFrom(s, d, 0);
    if p != -1 {
      JoinSplit(s[p + |d|..], d);
      var ps := Split(s, d);
      assert ps[1..] == Split(s[p + |d|..], d);
      IndexIsFirst(s, d, 0);
      assert s == s[..p] + d + s[p + |d|..];
    }
  }

  /** Replacing is splitting at the old text and joining with the new one. */
  lemma {:induction false} ReplaceIsSplitJoin(s: Text, o: Text, n: Text)
    requires o != []
    ensures Replace(s, o, n) == JoinWith(Split(s, o), n) && |Split(s, o)| == Count(s, o) + 1
    decreases |s|
  {
    var p := IndexFrom(s, o, 0);
    if p != -1 {
      ReplaceIsSplitJoin(s[p + |o|..], o, n);
      assert Split(s, o)[1..] == Split(s[p + |o|..], o);
    }
  }

  /** No piece contains the delimiter, not even together with the delimiter that follows it. */
  predicate Clean(ps: seq<Text>, d: Text) {
    && (forall i :: 0 <= i < |ps| - 1 ==> IndexFrom(ps[i] + d, d, 0) == |ps[i]|)
    && (ps != [] ==> IndexFrom(ps[|ps| - 1], d, 0) == -1)
  }

  /** The first delimiter of a joined text is after the first piece exactly when that piece is clean. */
  lemma FirstDelimiter(p: Text, d: Text, rest: Text)
    requires d != []
    ensures IndexFrom(p + d + rest, d, 0) == |p| <==> IndexFrom(p + d, d, 0) == |p|
    ensures 0 <= IndexFrom(p + d + rest, d, 0) <= |p|
  {
    var s, t := p + d + rest, p + d;
    IndexIsFirst(s, d, 0);
    IndexIsFirst(t, d, 0);
    assert s[|p|..|p| + |d|] == d && t[|p|..|p| + |d|] == d;
    assert OccursAt(s, d, |p|) && OccursAt(t, d, |p|);
    forall j | 0 <= j <= |p|
      ensures OccursAt(s, d, j) <==> OccursAt(t, d, j)
    {
      assert s[j..j + |d|] == t[j..j + |d|];
    }
  }

  /** Joining and splitting gives the pieces back exactly when they are clean. */
  lemma {:induction false} SplitJoin(ps: seq<Text>, d: Text)
    requires d != [] && ps != []
    ensures Split(JoinWith(ps, d), d) == ps <==> Clean(ps, d)
  {
    if |ps| == 1 {
      if IndexFrom(ps[0], d, 0) != -1 {
        assert |Split(ps[0], d)| > 1;
      }
    } else {
      SplitJoin(ps[1..], d);
      CleanTail(ps, d);
      hide Clean;
      SplitFirst(ps, d);
    }
  }

  lemma SplitFirst(ps: seq<Text>, d: Text)
    requires d != [] && |ps| > 1
    ensures Split(JoinWith(ps, d), d) == ps <==>
      IndexFrom(ps[0] + d, d, 0) == |ps[0]| && Split(JoinWith(ps[1..], d), d) == ps[1..]
  {
    var p, rest := ps[0], JoinWith(ps[1..], d);
    var s := p + d + rest;
    FirstDelimiter(p, d, rest);
    var q := IndexFrom(s, d, 0);
    assert Split(s, d) == [s[..q]] + Split(s[q + |d|..], d);
    assert ps == [p] + ps[1..];
    if q == |p| {
      assert s[..q] == p && s[q + |d|..] == rest;
      assert ([p] + Split(rest, d))[1..] == Split(rest, d);
    } else {
      assert Split(s, d)[0] == s[..q] && |s[..q]| != |p|;
    }
  }

  lemma CleanTail(ps: seq<Text>, d: Text)
    requires |ps| > 1
    ensures Clean(ps, d) <==> IndexFrom(ps[0] + d, d, 0) == |ps[0]| && Clean(ps[1..], d)
  {
    var t := ps[1..];
    assert forall i :: 0 <= i < |t| ==> t[i] == ps[i + 1];
    if Clean(t, d) && IndexFrom(ps[0] + d, d, 0) == |ps[0]| {
      forall i | 0 <= i < |ps| - 1
        ensures IndexFrom(ps[i] + d, d, 0) == |ps[i]|
      {
        if i > 0 {
          assert ps[i] == t[i - 1];
        }
      }
    }
  }

  /** When the new text is no shorter, neither is the result. */
  lemma {:induction false} ReplaceGrows(s: Text, o: Text, n: Text)
    requires o != [] && |n| >= |o|
    ensures |Replace(s, o, n)| >= |s|
    decreases |s|
  {
    var p := IndexFrom(s, o, 0);
    if p != -1 {
      ReplaceGrows(s[p + |o|..], o, n);
    }
  }
}
