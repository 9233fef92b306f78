/**
  What several components take from the machine: unsigned arithmetic and copying within
  an array.
 */
module Machine {
  /** Number of values of the unsigned index type. */
  const WORD: nat := 0x1_0000_0000_0000_0000

  /** `i - 1` in unsigned arithmetic. */
  function Decrement(i: nat): nat {
    if i == 0 then WORD - 1 else i - 1
  }

  function Pow2(n: nat): (r: nat)
    ensures r > 0
  {
    if n == 0 then 1 else 2 * Pow2(n - 1)
  }

  lemma ModSmall(x: nat, n: nat)
    requires x < n
    ensures x % n == x
  {
  }

  /** `s` with the `n` elements from `src` on copied to `dest`. */
  function Moved<T>(s: seq<T>, dest: nat, src: nat, n: nat): (r: seq<T>)
    requires dest + n <= |s| && src + n <= |s|
    ensures |r| == |s|
  {
    s[..dest] + s[src..src + n] + s[dest + n..]
  }

  method MemMove<T>(data: array<T>, dest: nat, src: nat, n: nat)
    requires dest + n <= data.Length && src + n <= data.Length
    modifies data
    ensures data[..] == Moved(old(data[..]), dest, src, n)
  {
    forall k | 0 <= k < n {
      data[dest + k] := data[src + k];
    }
  }

  /** `s` with `src` written over what starts at `dest`. */
  function Copied<T>(s: seq<T>, dest: nat, src: seq<T>): (r: seq<T>)
    requires dest + |src| <= |s|
    ensures |r| == |s|
  {
    s[..dest] + src + s[dest + |src|..]
  }

  method MemCopy<T>(data: array<T>, dest: nat, src: seq<T>)
    requires dest + |src| <= data.Length
    modifies data
    ensures data[..] == Copied(old(data[..]), dest, src)
  {
    forall k | 0 <= k < |src| {
      data[dest + k] := src[k];
    }
  }
}
