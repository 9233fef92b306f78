/**
  The control array of a blocked deque, on values: where each block of the ring lies,
  and what stepping, shrinking and unrolling do to that.
 */
module DequeRing {
  import opened Machine

  /** The slot `j` steps after `front` on a ring of `capacity` slots. */
  function Slot(front: nat, j: nat, capacity: nat): (r: nat)
    requires front < capacity && j < capacity
    ensures r < capacity
  {
    if front + j < capacity then front + j else front + j - capacity
  }

  lemma StepForward(i: nat, capacity: nat)
    requires i < capacity
    ensures (i + 1) % capacity == if i + 1 == capacity then 0 else i + 1
  {
    if i + 1 < capacity {
      ModSmall(i + 1, capacity);
    }
  }

  lemma NextSlot(front: nat, j: nat, capacity: nat)
    requires front < capacity && j + 1 < capacity
    ensures (Slot(front, j, capacity) + 1) % capacity == Slot(front, j + 1, capacity)
  {
    StepForward(Slot(front, j, capacity), capacity);
  }

  lemma {:induction false} Pow2Product(a: nat, b: nat)
    ensures Pow2(a) * Pow2(b) == Pow2(a + b)
  {
    if a > 0 {
      Pow2Product(a - 1, b);
      DoubleProduct(Pow2(a - 1), Pow2(b));
    }
  }

  lemma DoubleProduct(x: nat, y: nat)
    ensures (2 * x) * y == 2 * (x * y)
  {
  }

  lemma Pow2Word()
    ensures Pow2(64) == WORD
  {
    hide Pow2;
    Pow2Sixteen();
    Pow2Product(16, 16);
    Pow2Product(32, 32);
  }

  lemma Pow2Two()
    ensures Pow2(2) == 4
  {
  }

  lemma Pow2Sixteen()
    ensures Pow2(16) == 0x1_0000
  {
    hide Pow2;
    Pow2Two();
    Pow2Product(2, 2);
    Pow2Product(4, 4);
    Pow2Product(8, 8);
  }

  lemma MulMod(q: nat, n: nat, r: nat)
    requires r < n
    ensures (q * n + r) % n == r
  {
    var x := q * n + r;
    var d, m := x / n, x % n;
    assert x == d * n + m;
    Quotients(d, m, q, r, n);
  }

  lemma Quotients(d: int, m: nat, q: int, r: nat, n: nat)
    requires m < n && r < n && d * n + m == q * n + r
    ensures m == r
  {
    Multiples(d - q, n);
    assert (d - q) * n == r - m;
  }

  lemma Multiples(k: int, n: nat)
    ensures k > 0 ==> k * n >= n
    ensures k < 0 ==> k * n <= 0 - n
  {
    if k > 0 {
      assert (k - 1) * n >= 0;
    } else if k < 0 {
      assert (-1 - k) * n >= 0;
    }
  }

  /**
    Stepping backwards wraps through the largest unsigned number; that lands on the last
    slot because the capacity is a power of two.
   */
  lemma StepBackward(i: nat, capacity: nat, k: nat)
    requires capacity == Pow2(k) && k <= 64 && i < capacity
    ensures Decrement(i) % capacity == if i == 0 then capacity - 1 else i - 1
  {
    if i == 0 {
      Pow2Word();
      Pow2Product(64 - k, k);
      var q := Pow2(64 - k);
      assert WORD - 1 == (q - 1) * capacity + (capacity - 1) by {
        assert q * capacity == WORD;
      }
      MulMod(q - 1, capacity, capacity - 1);
    } else {
      ModSmall(i - 1, capacity);
    }
  }

  // ---------- Rings ----------

  /** Slots `front`, `front + 1`, and so on around the ring hold `ring` in order. */
  predicate Holds<B(==)>(slots: seq<B>, front: nat, capacity: nat, ring: seq<B>) {
    && front < capacity <= |slots| && |ring| <= capacity
    && forall j :: 0 <= j < |ring| ==> slots[Slot(front, j, capacity)] == ring[j]
  }

  /** Stepping the front back and writing there puts a block before all others. */
  lemma HoldsPushFront<B>(slots: seq<B>, front: nat, capacity: nat, ring: seq<B>, b: B)
    requires Holds(slots, front, capacity, ring) && |ring| < capacity
    ensures var f := if front == 0 then capacity - 1 else front - 1;
      Holds(slots[f := b], f, capacity, [b] + ring)
  {
    var f := if front == 0 then capacity - 1 else front - 1;
    forall j | 0 <= j < |ring| + 1
      ensures slots[f := b][Slot(f, j, capacity)] == ([b] + ring)[j]
    {
      if j > 0 {
        assert Slot(f, j, capacity) == Slot(front, j - 1, capacity);
      }
    }
  }

  lemma HoldsPushBack<B>(slots: seq<B>, front: nat, capacity: nat, ring: seq<B>, b: B)
    requires Holds(slots, front, capacity, ring) && |ring| < capacity
    ensures Holds(slots[Slot(front, |ring|, capacity) := b], front, capacity, ring + [b])
  {
  }

  /** Changing one block of the ring. */
  lemma HoldsUpdate<B>(slots: seq<B>, front: nat, capacity: nat, ring: seq<B>, i: nat, b: B)
    requires Holds(slots, front, capacity, ring) && i < |ring|
    ensures Holds(slots[Slot(front, i, capacity) := b], front, capacity, ring[i := b])
  {
  }

  lemma HoldsPopFront<B>(slots: seq<B>, front: nat, capacity: nat, ring: seq<B>)
    requires Holds(slots, front, capacity, ring) && ring != []
    ensures Holds(slots, if front + 1 == capacity then 0 else front + 1, capacity, ring[1..])
  {
    var f := if front + 1 == capacity then 0 else front + 1;
    forall j | 0 <= j < |ring| - 1
      ensures slots[Slot(f, j, capacity)] == ring[1..][j]
    {
      assert Slot(f, j, capacity) == Slot(front, j + 1, capacity);
    }
  }

  lemma HoldsPopBack<B>(slots: seq<B>, front: nat, capacity: nat, ring: seq<B>, b: B)
    requires Holds(slots, front, capacity, ring) && |ring| > 1
    ensures Holds(slots[Slot(front, |ring| - 1, capacity) := b], front, capacity, ring[..|ring| - 1])
    ensures var back := Slot(front, |ring| - 1, capacity);
      Slot(front, |ring| - 2, capacity) == if back == 0 then capacity - 1 else back - 1
  {
  }

  /** The control array after doubling: the old ring lies in consecutive middle slots. */
  function Unrolled<B>(slots: seq<B>, front: nat, back: nat, count: nat, empty: B): (r: seq<B>)
    requires front < count <= |slots|
    ensures |r| == 2 * count
  {
    var f := count - count / 2;
    var body := if front > back then slots[front..count] + slots[..front] else slots[..count];
    seq(f, _ => empty) + body + seq(count - f, _ => empty)
  }

  /** Unrolling as copies into an empty control array. */
  lemma UnrolledIs<B>(slots: seq<B>, front: nat, back: nat, count: nat, empty: B)
    requires front < count <= |slots|
    ensures var f, none := count - count / 2, seq(2 * count, _ => empty);
      Unrolled(slots, front, back, count, empty) ==
        if front > back then Copied(Copied(none, f, slots[front..count]), f + count - front, slots[..front])
        else Copied(none, f, slots[..count])
  {
  }

  /** A full ring is unrolled without losing, repeating or reordering a block. */
  lemma UnrollHolds<B>(slots: seq<B>, front: nat, back: nat, ring: seq<B>, empty: B)
    requires |ring| > 1 && Holds(slots, front, |ring|, ring) && back == Slot(front, |ring| - 1, |ring|)
    ensures var count := |ring|;
      var f := count - count / 2;
      && Holds(Unrolled(slots, front, back, count, empty), f, 2 * count, ring)
      && Slot(f, count - 1, 2 * count) == f + count - 1
      && 0 < f && f + count - 1 < 2 * count - 1
  {
    var count := |ring|;
    var f := count - count / 2;
    var r := Unrolled(slots, front, back, count, empty);
    forall j | 0 <= j < count
      ensures r[Slot(f, j, 2 * count)] == ring[j]
    {
      assert Slot(f, j, 2 * count) == f + j;
      assert slots[Slot(front, j, count)] == ring[j];
    }
  }

  // ---------- Contents ----------

  function Flat<T>(ring: seq<seq<T>>): seq<T> {
    if ring == [] then [] else ring[0] + Flat(ring[1..])
  }

  lemma {:induction false} FlatConcat<T>(a: seq<seq<T>>, b: seq<seq<T>>)
    ensures Flat(a + b) == Flat(a) + Flat(b)
  {
    if a == [] {
      assert a + b == b;
    } else {
      assert (a + b)[1..] == a[1..] + b;
      FlatConcat(a[1..], b);
    }
  }

  lemma FlatOne<T>(x: seq<T>)
    ensures Flat([x]) == x
  {
    assert [x][1..] == [];
    assert x + [] == x;
  }

  lemma FlatFront<T>(x: seq<T>, rest: seq<seq<T>>)
    ensures Flat([x] + rest) == x + Flat(rest)
  {
    assert ([x] + rest)[1..] == rest;
  }

  lemma FlatBack<T>(rest: seq<seq<T>>, x: seq<T>)
    ensures Flat(rest + [x]) == Flat(rest) + x
  {
    FlatConcat(rest, [x]);
    FlatOne(x);
  }
}
