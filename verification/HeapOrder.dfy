/**
  Binary heaps as sequences: sifting up, sifting down, building, pushing and popping,
  with the heap order and the multiset of elements they keep.
 */
module HeapOrder {
  /** The comparator orders any two elements, transitively; zero means equivalent. */
  ghost predicate TotalPreorder<T(!new)>(fnc: (T, T) -> int) {
    && (forall a, b :: fnc(a, b) < 0 <==> fnc(b, a) > 0)
    && (forall a, b, c :: fnc(a, b) <= 0 && fnc(b, c) <= 0 ==> fnc(a, c) <= 0)
  }

  function Parent(i: nat): (p: nat)
    requires i > 0
    ensures p < i
  {
    (i - 1) / 2
  }

  function LeftChild(i: nat): nat {
    2 * i + 1
  }

  function RightChild(i: nat): nat {
    2 * i + 2
  }

  function Swap<T>(s: seq<T>, i: nat, j: nat): (r: seq<T>)
    requires i < |s| && j < |s|
    ensures |r| == |s|
  {
    s[i := s[j]][j := s[i]]
  }

  function BubbleUp<T>(s: seq<T>, i: nat, fnc: (T, T) -> int): (r: seq<T>)
    requires i < |s|
    ensures |r| == |s|
    decreases i
  {
    if i > 0 && fnc(s[i], s[Parent(i)]) < 0 then BubbleUp(Swap(s, i, Parent(i)), Parent(i), fnc) else s
  }

  /** The child that a sift down compares with: the right one only if it is smaller. */
  function SmallerChild<T>(s: seq<T>, i: nat, fnc: (T, T) -> int): (c: nat)
    requires LeftChild(i) < |s|
    ensures i < c < |s| && c > 0 && Parent(c) == i
  {
    var l, r := LeftChild(i), RightChild(i);
    if r >= |s| then l else if fnc(s[l], s[r]) > 0 then r else l
  }

  function BubbleDown<T>(s: seq<T>, i: nat, fnc: (T, T) -> int): (r: seq<T>)
    ensures |r| == |s|
    decreases |s| - i
  {
    if LeftChild(i) >= |s| then s
    else
      var c := SmallerChild(s, i, fnc);
      if fnc(s[i], s[c]) > 0 then BubbleDown(Swap(s, i, c), c, fnc) else s
  }

  /** Sift down at `k - 1`, `k - 2`, and so on to 0. */
  function MakeHeap<T>(s: seq<T>, k: nat, fnc: (T, T) -> int): (r: seq<T>)
    ensures |r| == |s|
    decreases k
  {
    if k == 0 then s else MakeHeap(BubbleDown(s, k - 1, fnc), k - 1, fnc)
  }

  lemma MakeHeapStep<T>(s: seq<T>, k: nat, fnc: (T, T) -> int)
    requires k > 0
    ensures MakeHeap(s, k, fnc) == MakeHeap(BubbleDown(s, k - 1, fnc), k - 1, fnc)
  {
  }

  lemma MakeHeapDone<T>(s: seq<T>, fnc: (T, T) -> int)
    ensures MakeHeap(s, 0, fnc) == s
  {
  }

  /** Every parent from `lo` on comes before its children. */
  ghost predicate HeapFrom<T>(s: seq<T>, lo: nat, fnc: (T, T) -> int) {
    forall j :: 0 < j < |s| && Parent(j) >= lo ==> fnc(s[Parent(j)], s[j]) <= 0
  }

  ghost predicate IsHeap<T>(s: seq<T>, fnc: (T, T) -> int) {
    HeapFrom(s, 0, fnc)
  }

  /** A heap but for the link from `i` to its parent. */
  ghost predicate HeapButUp<T>(s: seq<T>, i: nat, fnc: (T, T) -> int)
    requires i < |s|
  {
    && (forall j :: 0 < j < |s| && j != i ==> fnc(s[Parent(j)], s[j]) <= 0)
    && (i > 0 ==> forall j :: 0 < j < |s| && Parent(j) == i ==> fnc(s[Parent(i)], s[j]) <= 0)
  }

  /** A heap from `lo` on but for the links from `i` to its children. */
  ghost predicate HeapButDown<T>(s: seq<T>, i: nat, lo: nat, fnc: (T, T) -> int) {
    && (forall j :: 0 < j < |s| && Parent(j) >= lo && Parent(j) != i ==> fnc(s[Parent(j)], s[j]) <= 0)
    && (0 < i < |s| && Parent(i) >= lo ==>
          forall j :: 0 < j < |s| && Parent(j) == i ==> fnc(s[Parent(i)], s[j]) <= 0)
  }

  lemma {:induction false} BubbleUpHeap<T(!new)>(s: seq<T>, i: nat, fnc: (T, T) -> int)
    requires TotalPreorder(fnc) && i < |s| && HeapButUp(s, i, fnc)
    ensures IsHeap(BubbleUp(s, i, fnc), fnc)
    decreases i
  {
    if i > 0 && fnc(s[i], s[Parent(i)]) < 0 {
      var t := Swap(s, i, Parent(i));
      BubbleUpStep(s, i, fnc);
      BubbleUpHeap(t, Parent(i), fnc);
    } else {
      Flips(fnc);
    }
  }

  lemma Flips<T(!new)>(fnc: (T, T) -> int)
    requires TotalPreorder(fnc)
    ensures forall a, b :: fnc(a, b) >= 0 ==> fnc(b, a) <= 0
  {
  }

  lemma BubbleUpStep<T(!new)>(s: seq<T>, i: nat, fnc: (T, T) -> int)
    requires TotalPreorder(fnc) && 0 < i < |s| && HeapButUp(s, i, fnc) && fnc(s[i], s[Parent(i)]) < 0
    ensures HeapButUp(Swap(s, i, Parent(i)), Parent(i), fnc)
  {
    var p := Parent(i);
    var t := Swap(s, i, p);
    forall j | 0 < j < |t| && j != p
      ensures fnc(t[Parent(j)], t[j]) <= 0
    {
      assert fnc(s[i], s[p]) <= 0;
      if j != i && Parent(j) == p {
        assert fnc(s[p], s[j]) <= 0;
      }
    }
    if p > 0 {
      forall j | 0 < j < |t| && Parent(j) == p
        ensures fnc(t[Parent(p)], t[j]) <= 0
      {
        assert fnc(s[Parent(p)], s[p]) <= 0;
        if j != i {
          assert fnc(s[p], s[j]) <= 0;
        }
      }
    }
  }

  lemma {:induction false} BubbleDownHeap<T(!new)>(s: seq<T>, i: nat, lo: nat, fnc: (T, T) -> int)
    requires TotalPreorder(fnc) && lo <= i && HeapButDown(s, i, lo, fnc)
    ensures HeapFrom(BubbleDown(s, i, fnc), lo, fnc)
    decreases |s| - i
  {
    if LeftChild(i) < |s| {
      var c := SmallerChild(s, i, fnc);
      if fnc(s[i], s[c]) > 0 {
        BubbleDownStep(s, i, lo, fnc);
        BubbleDownHeap(Swap(s, i, c), c, lo, fnc);
      } else {
        ChildrenLater(s, i, fnc);
      }
    }
  }

  /** Nothing below `i` comes before the smaller child. */
  lemma ChildrenLater<T(!new)>(s: seq<T>, i: nat, fnc: (T, T) -> int)
    requires TotalPreorder(fnc) && LeftChild(i) < |s|
    ensures forall j :: 0 < j < |s| && Parent(j) == i ==> fnc(s[SmallerChild(s, i, fnc)], s[j]) <= 0
    ensures fnc(s[i], s[SmallerChild(s, i, fnc)]) <= 0 ==>
      forall j :: 0 < j < |s| && Parent(j) == i ==> fnc(s[i], s[j]) <= 0
  {
    var c := SmallerChild(s, i, fnc);
    forall j | 0 < j < |s| && Parent(j) == i
      ensures fnc(s[c], s[j]) <= 0
    {
      assert j == LeftChild(i) || j == RightChild(i);
      Flips(fnc);
      assert fnc(s[c], s[c]) <= 0;
    }
  }

  lemma BubbleDownStep<T(!new)>(s: seq<T>, i: nat, lo: nat, fnc: (T, T) -> int)
    requires TotalPreorder(fnc) && lo <= i && HeapButDown(s, i, lo, fnc) && LeftChild(i) < |s|
    requires fnc(s[i], s[SmallerChild(s, i, fnc)]) > 0
    ensures HeapButDown(Swap(s, i, SmallerChild(s, i, fnc)), SmallerChild(s, i, fnc), lo, fnc)
  {
    var c := SmallerChild(s, i, fnc);
    var t := Swap(s, i, c);
    ChildrenLater(s, i, fnc);
    forall j | 0 < j < |t| && Parent(j) >= lo && Parent(j) != c
      ensures fnc(t[Parent(j)], t[j]) <= 0
    {
      if Parent(j) == i {
        assert j == c || t[j] == s[j];
      } else if j == i {
        assert fnc(s[Parent(i)], s[c]) <= 0;
      } else {
        assert t[j] == s[j] && t[Parent(j)] == s[Parent(j)];
      }
    }
  }

  lemma {:induction false} MakeHeapHeap<T(!new)>(s: seq<T>, k: nat, fnc: (T, T) -> int)
    requires TotalPreorder(fnc) && HeapFrom(s, k, fnc)
    ensures IsHeap(MakeHeap(s, k, fnc), fnc)
    decreases k
  {
    if k > 0 {
      assert HeapButDown(s, k - 1, k - 1, fnc);
      hide TotalPreorder;
      hide BubbleDown;
      hide HeapFrom;
      hide HeapButDown;
      BubbleDownHeap(s, k - 1, k - 1, fnc);
      MakeHeapHeap(BubbleDown(s, k - 1, fnc), k - 1, fnc);
    }
  }

  // ---------- Nothing is lost or duplicated ----------

  lemma SwapPermutes<T>(s: seq<T>, i: nat, j: nat)
    requires i < |s| && j < |s|
    ensures multiset(Swap(s, i, j)) == multiset(s)
  {
  }

  lemma {:induction false} BubbleUpPermutes<T>(s: seq<T>, i: nat, fnc: (T, T) -> int)
    requires i < |s|
    ensures multiset(BubbleUp(s, i, fnc)) == multiset(s)
    decreases i
  {
    if i > 0 && fnc(s[i], s[Parent(i)]) < 0 {
      SwapPermutes(s, i, Parent(i));
      BubbleUpPermutes(Swap(s, i, Parent(i)), Parent(i), fnc);
    }
  }

  lemma {:induction false} BubbleDownPermutes<T>(s: seq<T>, i: nat, fnc: (T, T) -> int)
    ensures multiset(BubbleDown(s, i, fnc)) == multiset(s)
    decreases |s| - i
  {
    if LeftChild(i) < |s| {
      var c := SmallerChild(s, i, fnc);
      if fnc(s[i], s[c]) > 0 {
        SwapPermutes(s, i, c);
        BubbleDownPermutes(Swap(s, i, c), c, fnc);
      }
    }
  }

  lemma {:induction false} MakeHeapPermutes<T>(s: seq<T>, k: nat, fnc: (T, T) -> int)
    ensures multiset(MakeHeap(s, k, fnc)) == multiset(s)
    decreases k
  {
    if k > 0 {
      BubbleDownPermutes(s, k - 1, fnc);
      MakeHeapPermutes(BubbleDown(s, k - 1, fnc), k - 1, fnc);
    }
  }

  // ---------- The priority queue ----------

  function Push<T>(s: seq<T>, x: T, fnc: (T, T) -> int): seq<T> {
    BubbleUp(s + [x], |s|, fnc)
  }

  /** Append all of `xs`, then rebuild from the last parent down. */
  function PushRange<T>(s: seq<T>, xs: seq<T>, fnc: (T, T) -> int): seq<T> {
    var t := s + xs;
    MakeHeap(t, |t| / 2, fnc)
  }

  /** Swap the first and last elements, drop the last, sift the first down. */
  function Pop<T>(s: seq<T>, fnc: (T, T) -> int): seq<T>
    requires s != []
  {
    BubbleDown(Swap(s, 0, |s| - 1)[..|s| - 1], 0, fnc)
  }

  lemma PushHeap<T(!new)>(s: seq<T>, x: T, fnc: (T, T) -> int)
    requires TotalPreorder(fnc) && IsHeap(s, fnc)
    ensures IsHeap(Push(s, x, fnc), fnc) && multiset(Push(s, x, fnc)) == multiset(s) + multiset{x}
  {
    var t := s + [x];
    BubbleUpPermutes(t, |s|, fnc);
    assert forall j :: 0 < j < |s| ==> t[j] == s[j] && t[Parent(j)] == s[Parent(j)];
    BubbleUpHeap(t, |s|, fnc);
  }

  lemma PushRangeHeap<T(!new)>(s: seq<T>, xs: seq<T>, fnc: (T, T) -> int)
    requires TotalPreorder(fnc)
    ensures IsHeap(PushRange(s, xs, fnc), fnc) && multiset(PushRange(s, xs, fnc)) == multiset(s) + multiset(xs)
  {
    var t := s + xs;
    MakeHeapPermutes(t, |t| / 2, fnc);
    MakeHeapHeap(t, |t| / 2, fnc);
  }

  lemma PopHeap<T(!new)>(s: seq<T>, fnc: (T, T) -> int)
    requires TotalPreorder(fnc) && IsHeap(s, fnc) && s != []
    ensures IsHeap(Pop(s, fnc), fnc)
  {
    var t := Swap(s, 0, |s| - 1)[..|s| - 1];
    assert forall j :: 0 < j < |t| && Parent(j) != 0 ==> t[j] == s[j] && t[Parent(j)] == s[Parent(j)];
    BubbleDownHeap(t, 0, 0, fnc);
  }

  lemma PopRemoves<T>(s: seq<T>, fnc: (T, T) -> int)
    requires s != []
    ensures multiset(s) == multiset(Pop(s, fnc)) + multiset{s[0]} && |Pop(s, fnc)| == |s| - 1
  {
    var w := Swap(s, 0, |s| - 1);
    SwapPermutes(s, 0, |s| - 1);
    BubbleDownPermutes(w[..|s| - 1], 0, fnc);
    assert w == w[..|s| - 1] + [s[0]];
  }

  /** The first element of a heap comes before every other. */
  lemma {:induction false} TopIsLeast<T(!new)>(s: seq<T>, i: nat, fnc: (T, T) -> int)
    requires TotalPreorder(fnc) && IsHeap(s, fnc) && i < |s|
    ensures fnc(s[0], s[i]) <= 0
  {
    if i == 0 {
      Flips(fnc);
    } else {
      TopIsLeast(s, Parent(i), fnc);
      assert fnc(s[Parent(i)], s[i]) <= 0;
    }
  }

  /** The elements that |s| successive top-and-pop pairs read. */
  function Drain<T>(s: seq<T>, fnc: (T, T) -> int): seq<T>
    decreases |s|
  {
    if s == [] then [] else [s[0]] + Drain(Pop(s, fnc), fnc)
  }

  ghost predicate SortedBy<T>(s: seq<T>, fnc: (T, T) -> int) {
    forall i, j :: 0 <= i < j < |s| ==> fnc(s[i], s[j]) <= 0
  }

  /** Draining a heap sorts it. */
  lemma {:induction false} DrainSorts<T(!new)>(s: seq<T>, fnc: (T, T) -> int)
    requires TotalPreorder(fnc) && IsHeap(s, fnc)
    ensures SortedBy(Drain(s, fnc), fnc) && multiset(Drain(s, fnc)) == multiset(s)
    decreases |s|
  {
    if s != [] {
      var rest := Drain(Pop(s, fnc), fnc);
      PopHeap(s, fnc);
      PopRemoves(s, fnc);
      hide IsHeap;
      hide TotalPreorder;
      hide SortedBy;
      hide Pop;
      DrainSorts(Pop(s, fnc), fnc);
      LeastFirst(s, rest, fnc);
    }
  }

  lemma LeastFirst<T(!new)>(s: seq<T>, rest: seq<T>, fnc: (T, T) -> int)
    requires TotalPreorder(fnc) && IsHeap(s, fnc) && s != [] && SortedBy(rest, fnc)
    requires multiset(s) == multiset(rest) + multiset{s[0]}
    ensures SortedBy([s[0]] + rest, fnc) && multiset([s[0]] + rest) == multiset(s)
  {
    hide TotalPreorder, IsHeap;
    forall j | 0 <= j < |rest|
      ensures fnc(s[0], rest[j]) <= 0
    {
      LeastOfRest(s, rest, j, fnc);
    }
  }

  lemma LeastOfRest<T(!new)>(s: seq<T>, rest: seq<T>, j: nat, fnc: (T, T) -> int)
    requires TotalPreorder(fnc) && IsHeap(s, fnc) && s != [] && j < |rest|
    requires multiset(s) == multiset(rest) + multiset{s[0]}
    ensures fnc(s[0], rest[j]) <= 0
  {
    assert rest[j] in multiset(s);
    var i :| 0 <= i < |s| && s[i] == rest[j];
    TopIsLeast(s, i, fnc);
  }

  // ---------- Runs ----------

  datatype Operation<T> = PushOne(x: T) | PushMany(xs: seq<T>) | PopOne

  function Apply<T>(s: seq<T>, op: Operation<T>, fnc: (T, T) -> int): seq<T> {
    match op
    case PushOne(x) => Push(s, x, fnc)
    case PushMany(xs) => PushRange(s, xs, fnc)
    case PopOne => if s == [] then s else Pop(s, fnc)
  }

  function Run<T>(ops: seq<Operation<T>>, fnc: (T, T) -> int): seq<T> {
    if ops == [] then [] else Apply(Run(ops[..|ops| - 1], fnc), ops[|ops| - 1], fnc)
  }

  /** `x` is in the multiset and comes before everything in it. */
  ghost predicate LeastIn<T>(x: T, m: multiset<T>, fnc: (T, T) -> int) {
    x in m && forall y :: y in m ==> fnc(x, y) <= 0
  }

  lemma HeapTopLeast<T(!new)>(s: seq<T>, fnc: (T, T) -> int)
    requires TotalPreorder(fnc) && IsHeap(s, fnc) && s != []
    ensures LeastIn(s[0], multiset(s), fnc)
  {
    assert s[0] in multiset(s);
    forall y | y in multiset(s)
      ensures fnc(s[0], y) <= 0
    {
      var i :| 0 <= i < |s| && s[i] == y;
      TopIsLeast(s, i, fnc);
    }
  }

  /** What one operation does to the elements, whatever order they are kept in. */
  ghost predicate BagStep<T(!new)>(m: multiset<T>, op: Operation<T>, r: multiset<T>, fnc: (T, T) -> int) {
    match op
    case PushOne(x) => r == m + multiset{x}
    case PushMany(xs) => r == m + multiset(xs)
    case PopOne => if m == multiset{} then r == m else exists x :: LeastIn(x, m, fnc) && r == m - multiset{x}
  }

  /** `m` is left by a run that starts empty and in which every pop takes a least element. */
  ghost predicate Built<T(!new)>(ops: seq<Operation<T>>, m: multiset<T>, fnc: (T, T) -> int) {
    if ops == [] then m == multiset{}
    else
      var init, last := ops[..|ops| - 1], ops[|ops| - 1];
      exists before :: Built(init, before, fnc) && BagStep(before, last, m, fnc)
  }

  lemma ApplyBag<T(!new)>(s: seq<T>, op: Operation<T>, fnc: (T, T) -> int)
    requires TotalPreorder(fnc) && IsHeap(s, fnc)
    ensures IsHeap(Apply(s, op, fnc), fnc) && BagStep(multiset(s), op, multiset(Apply(s, op, fnc)), fnc)
  {
    hide IsHeap, TotalPreorder, LeastIn, Push, PushRange, Pop;
    match op
    case PushOne(x) => PushHeap(s, x, fnc);
    case PushMany(xs) => PushRangeHeap(s, xs, fnc);
    case PopOne =>
      if s != [] {
        PopHeap(s, fnc);
        PopRemoves(s, fnc);
        HeapTopLeast(s, fnc);
        assert multiset(Pop(s, fnc)) == multiset(s) - multiset{s[0]};
      }
  }

  /** After any run the array is a heap of the elements that the run leaves, the least on top. */
  lemma {:induction false} RunIsHeap<T(!new)>(ops: seq<Operation<T>>, fnc: (T, T) -> int)
    requires TotalPreorder(fnc)
    ensures IsHeap(Run(ops, fnc), fnc) && Built(ops, multiset(Run(ops, fnc)), fnc)
    ensures Run(ops, fnc) != [] ==> LeastIn(Run(ops, fnc)[0], multiset(Run(ops, fnc)), fnc)
  {
    hide IsHeap, TotalPreorder, BagStep, Apply, LeastIn;
    if ops == [] {
      EmptyHeap(fnc);
    } else {
      RunIsHeap(ops[..|ops| - 1], fnc);
      ApplyBag(Run(ops[..|ops| - 1], fnc), ops[|ops| - 1], fnc);
      assert Built(ops[..|ops| - 1], multiset(Run(ops[..|ops| - 1], fnc)), fnc);
    }
    if Run(ops, fnc) != [] {
      HeapTopLeast(Run(ops, fnc), fnc);
    }
  }

  lemma EmptyHeap<T>(fnc: (T, T) -> int)
    ensures IsHeap<T>([], fnc)
  {
  }
}
