/**
  Length-prefixed, NUL-terminated strings in a buffer with spare room: concatenation,
  in-place replacement, splitting and joining.
 */
module CStrings {
  import opened Machine
  import opened Texts

  const NUL: char := '\0'

  predicate NoNul(s: Text) {
    forall i :: 0 <= i < |s| ==> s[i] != NUL
  }

  /** Index of the first NUL from `i` on. */
  function Terminator(s: Text, i: nat): (r: nat)
    requires i <= |s| && exists j :: i <= j < |s| && s[j] == NUL
    ensures i <= r < |s| && s[r] == NUL && forall j :: i <= j < r ==> s[j] != NUL
    decreases |s| - i
  {
    if s[i] == NUL then i else Terminator(s, i + 1)
  }

  /**
    What the C library's search returns for the string that starts at `from`: the first
    occurrence of `pat` before the terminator, or -1.
   */
  function StrStr(buffer: Text, from: nat, pat: Text): int
    requires from <= |buffer| && exists j :: from <= j < |buffer| && buffer[j] == NUL
  {
    IndexFrom(buffer[..Terminator(buffer, from)], pat, from)
  }

  lemma MoveSlices(s: Text, dest: nat, src: nat, amount: nat, k: nat)
    requires dest + amount <= |s| && src + amount <= |s| && k <= amount
    ensures Moved(s, dest, src, amount)[..dest] == s[..dest]
    ensures Moved(s, dest, src, amount)[dest + k..dest + amount] == s[src + k..src + amount]
  {
  }

  /** What follows the `o` characters at `pos` moved to `n` characters after `pos`. */
  function Shifted(s: Text, pos: nat, o: nat, n: nat, len: nat): (t: Text)
    requires pos + o <= len < |s| && len + n - o < |s|
    ensures |t| == |s|
  {
    if n < o then Moved(s, pos, pos + o - n, len - pos - o + n) else Moved(s, pos + n - o, pos, len - pos)
  }

  /** Shifting and then writing the new text replaces the `o` characters at `pos`. */
  lemma ShiftReplaces(s: Text, pos: nat, o: nat, new_: Text, len: nat)
    requires pos + o <= len < |s| && len + |new_| - o < |s|
    ensures var t := Shifted(s, pos, o, |new_|, len);
      (t[..pos] + new_ + t[pos + |new_|..])[..len + |new_| - o] == s[..len][..pos] + new_ + s[..len][pos + o..]
  {
    var n := |new_|;
    var t := Shifted(s, pos, o, n, len);
    if n < o {
      MoveSlices(s, pos, pos + o - n, len - pos - o + n, n);
    } else {
      MoveSlices(s, pos + n - o, pos, len - pos, o);
      assert t[..pos] == t[..pos + n - o][..pos];
    }
    assert t[..pos] == s[..pos] && t[pos + n..len + n - o] == s[pos + o..len];
    assert s[..len][..pos] == s[..pos] && s[..len][pos + o..] == s[pos + o..len];
  }

  function Max(a: nat, b: nat): nat {
    if a > b then a else b
  }

  class CString {
    /** The characters and the terminator; `chars.Length - 1` characters fit. */
    var chars: array<char>
    var length: nat

    ghost predicate Valid()
      reads this, chars
    {
      length < chars.Length && chars[length] == NUL && NoNul(chars[..length])
    }

    ghost function Contents(): Text
      requires length <= chars.Length
      reads this, chars
    {
      chars[..length]
    }

    function Room(): nat
      requires chars.Length > 0
      reads this
    {
      chars.Length - 1
    }

    constructor ()
      ensures Valid() && Contents() == [] && fresh(chars)
    {
      chars, length := new char[1](_ => NUL), 0;
    }

    /** Move to a larger buffer whose added part is zero. */
    method Grow(room: nat)
      requires chars.Length > 0 && room >= Room()
      modifies this`chars
      ensures fresh(chars) && chars.Length == room + 1
      ensures chars[..old(chars.Length) - 1] == old(chars[..chars.Length - 1])
      ensures forall i :: old(chars.Length) - 1 <= i < chars.Length ==> chars[i] == NUL
    {
      var old_ := chars;
      var larger := new char[room + 1](_ => NUL);
      forall i | 0 <= i < old_.Length - 1 {
        larger[i] := old_[i];
      }
      chars := larger;
    }

    method CleanUp(len: nat)
      requires len < chars.Length
      modifies this`length, chars
      ensures length == len && chars[len] == NUL && chars[..len] == old(chars[..len])
    {
      length := len;
      chars[len] := NUL;
    }

    /** Append `src`, making room by at least doubling. */
    method Concatenate(src: Text)
      requires Valid() && NoNul(src)
      modifies this, chars
      ensures Valid() && Contents() == old(Contents()) + src
      ensures if old(Room()) - old(length) >= |src| then chars == old(chars)
        else fresh(chars) && Room() == Max(old(length) + |src|, old(Room()) * 2)
    {
      var n := |src|;
      var room, len := Room(), length;
      if room - len < n {
        Grow(Max(len + n, room * 2));
      }
      MemCopy(chars, len, src);
      assert chars[..len + n] == old(Contents()) + src;
      CleanUp(len + n);
    }

    /** The buffer holds `len` characters and then a terminator. */
    ghost predicate Terminated(len: nat)
      reads this, chars
    {
      len < chars.Length && chars[len] == NUL && NoNul(chars[..len])
    }

    /** Search from an offset, as the library does, and as seen on the characters. */
    method FindFrom(from: nat, pat: Text, ghost len: nat) returns (pos: int)
      requires Terminated(len) && from <= len
      ensures pos == IndexFrom(chars[..len], pat, from)
    {
      assert Terminator(chars[..], from) == len by {
        assert chars[..][len] == NUL;
        assert forall j :: from <= j < len ==> chars[..len][j] != NUL;
      }
      assert chars[..][..len] == chars[..len];
      pos := StrStr(chars[..], from, pat);
    }

    /** Count the occurrences that a replacement will touch. */
    method CountOccurrences(old_: Text) returns (count: nat)
      requires Valid() && old_ != []
      ensures count == Count(Contents(), old_)
    {
      hide Count, IndexFrom;
      ghost var s := Contents();
      count := 0;
      var substr := 0;
      var pos := FindFrom(substr, old_, length);
      assert s[0..] == s;
      while pos != -1
        invariant 0 <= substr <= length && pos == IndexFrom(s, old_, substr)
        invariant count + Count(s[substr..], old_) == Count(s, old_)
        decreases length - substr
      {
        SearchRest(s, substr, pos, old_);
        CountFirst(s[substr..], old_);
        count := count + 1;
        substr := pos + |old_|;
        pos := FindFrom(substr, old_, length);
      }
      IndexShift(s, old_, substr);
      CountNone(s[substr..], old_);
    }

    /** Move what follows the `o` characters at `pos` to `n` characters after `pos`. */
    method ShiftTail(pos: nat, o: nat, n: nat, len: nat)
      requires pos + o <= len < chars.Length && len + n - o < chars.Length
      modifies chars
      ensures chars[..] == Shifted(old(chars[..]), pos, o, n, len)
    {
      hide Moved;
      var diff := n - o;
      if diff < 0 {
        assert diff * -1 == o - n;
        MemMove(chars, pos, pos + (diff * -1), len - pos - (diff * -1));
      } else {
        MemMove(chars, pos + diff, pos, len - pos);
      }
    }

    /** Put `new_` in the place of the `o` characters at `pos`, shifting the rest. */
    method ReplaceAt(pos: nat, o: nat, new_: Text, len: nat) returns (newLen: nat)
      requires Terminated(len) && pos + o <= len && len + |new_| - o < chars.Length && NoNul(new_)
      modifies chars
      ensures newLen == len + |new_| - o && Terminated(newLen)
      ensures chars[..newLen] == old(chars[..len][..pos]) + new_ + old(chars[..len][pos + o..])
    {
      hide Shifted;
      ghost var s, t := chars[..], chars[..len];
      ShiftReplaces(s, pos, o, new_, len);
      ShiftTail(pos, o, |new_|, len);
      MemCopy(chars, pos, new_);
      newLen := len + (|new_| - o);
      assert s[..len] == t;
      assert chars[..newLen] == chars[..][..newLen] == t[..pos] + new_ + t[pos + o..];
      assert NoNul(t[..pos] + new_ + t[pos + o..]);
      chars[newLen] := NUL;
      assert chars[..newLen] == t[..pos] + new_ + t[pos + o..];
    }

    /** Replace every occurrence of `old_` by `new_`, shifting the rest in place. */
    method Substitute(old_: Text, new_: Text)
      requires Valid() && old_ != [] && NoNul(new_)
      modifies this, chars
      ensures Valid() && Contents() == Replace(old(Contents()), old_, new_)
      ensures var extra := length - old(length);
        if old(Room()) - old(length) >= extra then chars == old(chars)
        else fresh(chars) && Room() == Max(old(Room()) + extra, old(Room()) * 2)
    {
      ghost var s := Contents();
      MakeRoom(old_, new_);
      var len := ReplaceLoop(old_, new_);
      CleanUp(len);
    }

    /** Grow the buffer if the result is longer than what fits. */
    method MakeRoom(old_: Text, new_: Text)
      requires Valid() && old_ != []
      modifies this`chars
      ensures Valid() && Contents() == old(Contents()) && length == old(length)
      ensures |Replace(Contents(), old_, new_)| < chars.Length
      ensures var extra := |Replace(Contents(), old_, new_)| - length;
        if old(Room()) - length >= extra then chars == old(chars)
        else fresh(chars) && Room() == Max(old(Room()) + extra, old(Room()) * 2)
    {
      ghost var s := Contents();
      var n, o := |new_|, |old_|;
      var diff := n - o;
      ReplaceLength(s, old_, new_);
      if diff > 0 {
        var count := CountOccurrences(old_);
        var extra := count * diff;
        var room := Room();
        if room - length < extra {
          Grow(Max(room + extra, room * 2));
          assert chars[..length] == s;
        }
      } else {
        NoLonger(Count(s, old_), diff);
      }
    }

    /** Every write stays inside the buffer: the text never gets longer than the result. */
    method ReplaceLoop(old_: Text, new_: Text) returns (len: nat)
      requires Valid() && old_ != [] && NoNul(new_)
      requires |Replace(Contents(), old_, new_)| < chars.Length
      modifies chars
      ensures Terminated(len) && chars[..len] == Replace(old(Contents()), old_, new_)
    {
      hide Replace, IndexFrom;
      ghost var s := Contents();
      len := length;
      var substr := 0;
      assert chars[..len][0..] == s && chars[..len][..0] == [];
      assert Partly(chars[..len], 0, old_, new_) == Replace(s, old_, new_);
      var pos := FindFrom(substr, old_, len);
      while pos != -1
        invariant Terminated(len) && 0 <= substr <= len && pos == IndexFrom(chars[..len], old_, substr)
        invariant Partly(chars[..len], substr, old_, new_) == Replace(s, old_, new_)
        decreases len - substr
      {
        hide Partly;
        ghost var t := chars[..len];
        NextOccurrence(t, substr, pos, old_, new_);
        len := ReplaceAt(pos, |old_|, new_, len);
        assert chars[..len] == t[..pos] + new_ + t[pos + |old_|..];
        substr := pos + |new_|;
        pos := FindFrom(substr, old_, len);
      }
      IndexShift(chars[..len], old_, substr);
      ReplaceNone(chars[..len][substr..], old_, new_);
      assert chars[..len] == chars[..len][..substr] + chars[..len][substr..];
    }
  }

  /** The final text when `from` characters of `s` are done and the rest still to be searched. */
  function Partly(s: Text, from: nat, o: Text, n: Text): Text
    requires o != [] && from <= |s|
  {
    s[..from] + Replace(s[from..], o, n)
  }

  /** A new string with the given text. */
  method Duplicate(text: Text) returns (str: CString)
    requires NoNul(text)
    ensures fresh(str) && fresh(str.chars) && str.Valid() && str.Contents() == text
  {
    str := new CString();
    str.Concatenate(text);
    assert [] + text == text;
  }

  ghost function Buffers(strings: seq<CString>): set<array<char>>
    reads strings
  {
    set str | str in strings :: str.chars
  }

  /** Separate strings with the given texts. */
  ghost predicate Copies(strings: seq<CString>, pieces: seq<Text>)
    reads strings, Buffers(strings)
  {
    && |strings| == |pieces|
    && (forall i :: 0 <= i < |strings| ==> strings[i].Valid() && strings[i].Contents() == pieces[i])
    && (forall i, j :: 0 <= i < j < |strings| ==> strings[i] != strings[j] && strings[i].chars != strings[j].chars)
  }

  /** Add a new string with the given text. */
  method AddCopy(strings: seq<CString>, ghost pieces: seq<Text>, text: Text) returns (more: seq<CString>)
    requires Copies(strings, pieces) && NoNul(text)
    ensures Copies(more, pieces + [text]) && |more| == |strings| + 1 && more[..|strings|] == strings
    ensures fresh(more[|strings|]) && fresh(more[|strings|].chars) && allocated(Buffers(more))
  {
    hide NoNul;
    var str := Duplicate(text);
    more := strings + [str];
  }

  /** New strings for the pieces between the delimiters, the last one running to the end. */
  method SplitString(str: CString, delim: Text) returns (strings: seq<CString>)
    requires str.Valid() && delim != []
    ensures Copies(strings, Split(str.Contents(), delim)) && fresh(strings) && fresh(Buffers(strings))
  {
    hide Split, IndexFrom, Terminator, NoNul, SplitSoFar, Copies;
    var s := str.chars[..str.length];
    strings := [];
    ghost var pieces: seq<Text> := [];
    var cursor := 0;
    SplitStart(s, delim);
    var sub := str.FindFrom(cursor, delim, str.length);
    NoCopies();
    while sub != -1
      invariant 0 <= cursor <= |s| && sub == IndexFrom(s, delim, cursor)
      invariant SplitSoFar(s, cursor, pieces, delim) && Copies(strings, pieces)
      invariant forall i :: 0 <= i < |strings| ==> fresh(strings[i]) && fresh(strings[i].chars)
      decreases |s| - cursor
    {
      SplitProgress(s, cursor, sub, delim, pieces);
      NoNulPart(s, cursor, sub);
      strings := AddCopy(strings, pieces, s[cursor..sub]);
      pieces := pieces + [s[cursor..sub]];
      cursor := sub + |delim|;
      sub := str.FindFrom(cursor, delim, str.length);
    }
    SplitEnd(s, cursor, delim, pieces);
    NoNulPart(s, cursor, |s|);
    if cursor != 0 {
      strings := AddCopy(strings, pieces, s[cursor..]);
    } else {
      strings := AddCopy(strings, pieces, s);
    }
  }

  lemma NoCopies()
    ensures Copies([], [])
  {
  }

  lemma NoNulPart(s: Text, i: nat, j: nat)
    requires NoNul(s) && i <= j <= |s|
    ensures NoNul(s[i..j]) && s[i..|s|] == s[i..] && (i == 0 ==> s[i..] == s)
  {
  }

  /** The pieces found before `cursor` are those of the whole text. */
  ghost predicate SplitSoFar(s: Text, cursor: nat, pieces: seq<Text>, d: Text)
    requires cursor <= |s| && d != []
  {
    pieces + Split(s[cursor..], d) == Split(s, d)
  }

  lemma SplitStart(s: Text, d: Text)
    requires d != []
    ensures SplitSoFar(s, 0, [], d)
  {
    assert s[0..] == s;
  }

  lemma SplitEnd(s: Text, cursor: nat, d: Text, pieces: seq<Text>)
    requires cursor <= |s| && d != [] && SplitSoFar(s, cursor, pieces, d) && IndexFrom(s, d, cursor) == -1
    ensures pieces + [s[cursor..]] == Split(s, d)
  {
    IndexShift(s, d, cursor);
    SplitNone(s[cursor..], d);
  }

  /** All of `strings` in a row, with `delim` between neighbours. */
  method JoinStrings(strings: seq<Text>, delim: Text) returns (str: CString)
    requires NoNul(delim) && forall i :: 0 <= i < |strings| ==> NoNul(strings[i])
    ensures fresh(str) && fresh(str.chars) && str.Valid() && str.Contents() == JoinWith(strings, delim)
  {
    hide JoinWith, NoNul;
    str := new CString();
    var c := |strings|;
    JoinFrom(strings, delim);
    for i := 0 to c
      invariant fresh(str) && fresh(str.chars) && str.Valid()
      invariant str.Contents() + JoinWith(strings[i..], delim) == JoinWith(strings, delim)
    {
      JoinProgress(str.Contents(), strings, i, delim);
      str.Concatenate(strings[i]);
      if i < c - 1 {
        str.Concatenate(delim);
      }
    }
  }

  lemma SplitProgress(s: Text, cursor: nat, sub: nat, d: Text, done: seq<Text>)
    requires d != [] && cursor <= |s| && sub == IndexFrom(s, d, cursor)
    ensures cursor <= sub && sub + |d| <= |s|
    ensures SplitSoFar(s, cursor, done, d) ==> SplitSoFar(s, sub + |d|, done + [s[cursor..sub]], d)
  {
    hide Split, IndexFrom;
    SearchRest(s, cursor, sub, d);
    SplitStep(s[cursor..], d);
    AppendPiece(done, s[cursor..sub], Split(s[sub + |d|..], d));
  }

  lemma AppendPiece(done: seq<Text>, piece: Text, rest: seq<Text>)
    ensures (done + [piece]) + rest == done + ([piece] + rest)
  {
  }

  lemma SplitStep(s: Text, d: Text)
    requires d != [] && IndexFrom(s, d, 0) != -1
    ensures var p := IndexFrom(s, d, 0); Split(s, d) == [s[..p]] + Split(s[p + |d|..], d)
  {
  }

  lemma SplitNone(s: Text, d: Text)
    requires d != [] && IndexFrom(s, d, 0) == -1
    ensures Split(s, d) == [s]
  {
  }

  lemma JoinFrom(ps: seq<Text>, d: Text)
    ensures [] + JoinWith(ps[0..], d) == JoinWith(ps, d) && JoinWith(ps[|ps|..], d) == []
  {
    assert ps[0..] == ps;
  }

  /** One turn of the join loop. */
  lemma JoinProgress(done: Text, ps: seq<Text>, i: nat, d: Text)
    requires i < |ps|
    ensures i < |ps| - 1 ==>
      ((done + ps[i]) + d) + JoinWith(ps[i + 1..], d) == done + JoinWith(ps[i..], d)
    ensures i == |ps| - 1 ==> (done + ps[i]) + JoinWith(ps[i + 1..], d) == done + JoinWith(ps[i..], d)
  {
    JoinStep(ps[i..], d);
    assert ps[i..][1..] == ps[i + 1..];
  }

  lemma JoinStep(ps: seq<Text>, d: Text)
    requires ps != []
    ensures JoinWith(ps, d) == if |ps| == 1 then ps[0] else ps[0] + d + JoinWith(ps[1..], d)
    ensures |ps| == 1 ==> JoinWith(ps[1..], d) == []
  {
  }

  lemma NoLonger(c: nat, k: int)
    requires k <= 0
    ensures c * k <= 0
  {
  }

  /** One replacement keeps the final text, and the text gets no longer than that. */
  lemma NextOccurrence(s: Text, from: nat, pos: nat, o: Text, n: Text)
    requires from <= |s| && o != [] && pos == IndexFrom(s, o, from)
    ensures from <= pos && pos + |o| <= |s|
    ensures var s' := s[..pos] + n + s[pos + |o|..];
      Partly(s', pos + |n|, o, n) == Partly(s, from, o, n)
    ensures |n| >= |o| ==> |s| + |n| - |o| <= |Partly(s, from, o, n)|
  {
    hide Replace, IndexFrom;
    ReplaceFrom(s, from, pos, o, n);
    var rest := s[pos + |o|..];
    if |n| >= |o| {
      ReplaceGrows(rest, o, n);
    }
    Regroup(s, from, pos, |o|, n, Replace(rest, o, n));
  }

  /** The first occurrence from `from` on is the first one that is replaced. */
  lemma ReplaceFrom(s: Text, from: nat, pos: nat, o: Text, n: Text)
    requires from <= |s| && o != [] && pos == IndexFrom(s, o, from)
    ensures from <= pos && pos + |o| <= |s|
    ensures Replace(s[from..], o, n) == s[from..pos] + n + Replace(s[pos + |o|..], o, n)
  {
    hide Replace, IndexFrom;
    SearchRest(s, from, pos, o);
    ReplaceAround(s[from..], pos - from, s[from..pos], s[pos + |o|..], o, n);
  }

  lemma ReplaceAround(s: Text, p: nat, before: Text, after: Text, o: Text, n: Text)
    requires o != [] && p == IndexFrom(s, o, 0) && p + |o| <= |s|
    requires before == s[..p] && after == s[p + |o|..]
    ensures Replace(s, o, n) == before + n + Replace(after, o, n)
  {
    hide Replace, IndexFrom;
    ReplaceFirst(s, o, n);
  }

  lemma Regroup(s: Text, from: nat, pos: nat, o: nat, n: Text, r: Text)
    requires from <= pos && pos + o <= |s|
    ensures var s' := s[..pos] + n + s[pos + o..];
      && s'[pos + |n|..] == s[pos + o..]
      && s'[..pos + |n|] + r == s[..from] + (s[from..pos] + n + r)
  {
    assert s[..from] + s[from..pos] == s[..pos];
    assert (s[..pos] + n + s[pos + o..])[..pos + |n|] == s[..pos] + n;
  }
}
