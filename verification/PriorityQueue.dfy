/**
  The heap routines on an array, and the priority queue built from them.
 */
module PriorityQueues {
  import opened Machine
  import opened HeapOrder

  const SEQUENTIAL_INIT: nat := 1
  const SEQUENTIAL_GROWTH: nat := 2

  method BubbleUpArray<T>(a: array<T>, nmemb: nat, start: nat, fnc: (T, T) -> int)
    requires start < nmemb <= a.Length
    modifies a
    ensures a[..nmemb] == BubbleUp(old(a[..nmemb]), start, fnc)
    ensures a[nmemb..] == old(a[nmemb..])
  {
    var i := start;
    while i > 0
      invariant 0 <= i < nmemb
      invariant BubbleUp(a[..nmemb], i, fnc) == BubbleUp(old(a[..nmemb]), start, fnc)
      invariant a[nmemb..] == old(a[nmemb..])
    {
      var pi := Parent(i);
      var res := fnc(a[i], a[pi]);
      if res < 0 {
        ghost var s := a[..nmemb];
        a[i], a[pi] := a[pi], a[i];
        assert a[..nmemb] == Swap(s, i, pi);
        i := pi;
      } else {
        break;
      }
    }
  }

  method BubbleDownArray<T>(a: array<T>, nmemb: nat, start: nat, fnc: (T, T) -> int)
    requires nmemb <= a.Length
    modifies a
    ensures a[..nmemb] == BubbleDown(old(a[..nmemb]), start, fnc)
    ensures a[nmemb..] == old(a[nmemb..])
  {
    var i := start;
    while i < nmemb
      invariant BubbleDown(a[..nmemb], i, fnc) == BubbleDown(old(a[..nmemb]), start, fnc)
      invariant a[nmemb..] == old(a[nmemb..])
      decreases nmemb - i
    {
      var li, ri := LeftChild(i), RightChild(i);
      var ci;
      if li >= nmemb {
        break;
      } else if ri >= nmemb {
        ci := li;
      } else {
        ci := if fnc(a[li], a[ri]) > 0 then ri else li;
      }
      ghost var s := a[..nmemb];
      assert ci == SmallerChild(s, i, fnc);
      if fnc(a[i], a[ci]) > 0 {
        a[i], a[ci] := a[ci], a[i];
        assert a[..nmemb] == Swap(s, i, ci);
        i := ci;
      } else {
        break;
      }
    }
  }

  /** `(i - 1) / 2` in unsigned arithmetic. */
  function ParentWord(i: nat): nat {
    Decrement(i) / 2
  }

  /**
    Build a heap in place. The counter runs from the last parent down and stops by
    wrapping around below zero, which also ends the loop at once for short arrays.
   */
  method MakeHeapArray<T>(a: array<T>, nmemb: nat, fnc: (T, T) -> int)
    requires nmemb <= a.Length && nmemb < WORD / 2
    modifies a
    ensures a[..nmemb] == MakeHeap(old(a[..nmemb]), nmemb / 2, fnc)
    ensures a[nmemb..] == old(a[nmemb..])
  {
    hide BubbleDown, MakeHeap;
    var i := ParentWord(Decrement(nmemb));
    ghost var k := nmemb / 2;
    while i < nmemb
      invariant 0 <= k <= nmemb / 2 && (k > 0 ==> i == k - 1) && (k == 0 ==> i >= nmemb)
      invariant MakeHeap(a[..nmemb], k, fnc) == MakeHeap(old(a[..nmemb]), nmemb / 2, fnc)
      invariant a[nmemb..] == old(a[nmemb..])
      decreases k
    {
      MakeHeapStep(a[..nmemb], k, fnc);
      BubbleDownArray(a, nmemb, i, fnc);
      i := Decrement(i);
      k := k - 1;
    }
    MakeHeapDone(a[..nmemb], fnc);
  }

  /** The capacity after doubling from `capacity` until `n` elements fit. */
  function Grown(capacity: nat, n: nat): (r: nat)
    ensures r >= n && r >= capacity
    decreases if capacity < n then n - capacity else 0
  {
    if n <= capacity then capacity
    else Grown(if capacity > 0 then capacity * SEQUENTIAL_GROWTH else SEQUENTIAL_INIT, n)
  }

  /** Growing for the first elements and then for more is growing for all of them. */
  lemma GrownFits(capacity: nat, n: nat)
    requires n <= capacity
    ensures Grown(capacity, n) == capacity
  {
  }

  lemma {:induction false} GrownTwice(capacity: nat, m: nat, n: nat)
    requires m <= n
    ensures Grown(Grown(capacity, m), n) == Grown(capacity, n)
    decreases if capacity < m then m - capacity else 0
  {
    if m > capacity {
      GrownTwice(if capacity > 0 then capacity * SEQUENTIAL_GROWTH else SEQUENTIAL_INIT, m, n);
    }
  }

  class PriorityQueue<T(!new)> {
    var elements: array?<T>
    var capacity: nat
    var nmemb: nat
    const fnc: (T, T) -> int

    /** The stored elements in array order. */
    ghost function Contents(): seq<T>
      requires nmemb <= (if elements == null then 0 else elements.Length)
      reads this, elements
    {
      if elements == null then [] else elements[..nmemb]
    }

    ghost predicate Valid()
      reads this, elements
    {
      && TotalPreorder(fnc)
      && (if elements == null then capacity == 0 else elements.Length == capacity)
      && nmemb <= capacity && IsHeap(Contents(), fnc)
    }

    constructor (fnc: (T, T) -> int)
      requires TotalPreorder(fnc)
      ensures Valid() && Contents() == [] && this.fnc == fnc
    {
      this.fnc := fnc;
      elements, capacity, nmemb := null, 0, 0;
    }

    /** Append to the array, doubling it when full. */
    method AppendBack(value: T)
      requires if elements == null then capacity == 0 else elements.Length == capacity
      requires nmemb <= capacity
      modifies this, elements
      ensures elements != null && elements.Length == capacity && nmemb == old(nmemb) + 1 <= capacity
      ensures elements == old(elements) || fresh(elements)
      ensures elements[..nmemb] == old(Contents()) + [value] && capacity == Grown(old(capacity), nmemb)
    {
      if nmemb >= capacity {
        capacity := if capacity > 0 then capacity * SEQUENTIAL_GROWTH else SEQUENTIAL_INIT;
        var larger := new T[capacity](_ => value);
        if elements != null {
          forall i | 0 <= i < nmemb {
            larger[i] := elements[i];
          }
        }
        elements := larger;
      }
      elements[nmemb] := value;
      nmemb := nmemb + 1;
    }

    method Push(value: T)
      requires Valid()
      modifies this, elements
      ensures Valid() && (elements == old(elements) || fresh(elements))
      ensures Contents() == HeapOrder.Push(old(Contents()), value, fnc)
      ensures multiset(Contents()) == multiset(old(Contents())) + multiset{value}
      ensures nmemb == old(nmemb) + 1 && capacity == Grown(old(capacity), nmemb)
    {
      PushHeap(Contents(), value, fnc);
      AppendBack(value);
      BubbleUpArray(elements, nmemb, nmemb - 1, fnc);
    }

    /** Append a whole range, then rebuild the heap once. */
    method PushRange(range: seq<T>)
      requires Valid() && nmemb + |range| < WORD / 2
      modifies this, elements
      ensures Valid() && (elements == old(elements) || fresh(elements))
      ensures Contents() == HeapOrder.PushRange(old(Contents()), range, fnc)
      ensures multiset(Contents()) == multiset(old(Contents())) + multiset(range)
      ensures nmemb == old(nmemb) + |range| && capacity == Grown(old(capacity), nmemb)
    {
      hide TotalPreorder, IsHeap, MakeHeap;
      PushRangeHeap(Contents(), range, fnc);
      AppendRange(range);
      if elements != null {
        MakeHeapArray(elements, nmemb, fnc);
      }
    }

    method AppendRange(range: seq<T>)
      requires if elements == null then capacity == 0 else elements.Length == capacity
      requires nmemb <= capacity
      modifies this, elements
      ensures if elements == null then capacity == 0 else elements.Length == capacity
      ensures elements == old(elements) || fresh(elements)
      ensures nmemb == old(nmemb) + |range| <= capacity
      ensures Contents() == old(Contents()) + range && capacity == Grown(old(capacity), nmemb)
    {
      hide Grown;
      GrownFits(capacity, nmemb);
      for i := 0 to |range|
        invariant if elements == null then capacity == 0 else elements.Length == capacity
        invariant elements == old(elements) || fresh(elements)
        invariant nmemb == old(nmemb) + i <= capacity
        invariant Contents() == old(Contents()) + range[..i]
        invariant capacity == Grown(old(capacity), nmemb)
      {
        GrownTwice(old(capacity), nmemb, nmemb + 1);
        AppendBack(range[i]);
      }
      assert range[..|range|] == range;
    }

    /** A least element. */
    method Top() returns (value: T)
      requires Valid() && nmemb > 0
      ensures value == Contents()[0] && LeastIn(value, multiset(Contents()), fnc)
    {
      HeapTopLeast(Contents(), fnc);
      value := elements[0];
    }

    method Pop()
      requires Valid() && nmemb > 0
      modifies this, elements
      ensures Valid() && elements == old(elements)
      ensures Contents() == HeapOrder.Pop(old(Contents()), fnc)
      ensures multiset(old(Contents())) == multiset(Contents()) + multiset{old(Contents())[0]}
      ensures nmemb == old(nmemb) - 1 && capacity == old(capacity)
    {
      hide TotalPreorder, IsHeap, HeapOrder.Pop;
      ghost var s := Contents();
      PopHeap(s, fnc);
      DropTop();
      PopRemoves(s, fnc);
    }

    method DropTop()
      requires elements != null && 0 < nmemb <= elements.Length
      modifies `nmemb, elements
      ensures nmemb == old(nmemb) - 1
      ensures elements[..nmemb] == HeapOrder.Pop(old(elements[..nmemb]), fnc)
    {
      hide BubbleDown;
      ghost var s := elements[..nmemb];
      var bottom := nmemb - 1;
      elements[0], elements[bottom] := elements[bottom], elements[0];
      nmemb := nmemb - 1;
      assert elements[..bottom + 1] == Swap(s, 0, bottom);
      assert elements[..nmemb] == Swap(s, 0, bottom)[..bottom];
      BubbleDownArray(elements, nmemb, 0, fnc);
    }
  }
}
