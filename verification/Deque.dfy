/**
  The blocked deque in memory. With one block the elements lie anywhere inside it. With
  more, the blocks form a ring in the control array: the front block is filled from its
  right end, the back block from its left end, and the blocks between are full.
 */
module Deques {
  import opened Machine
  import opened DequeRing

  datatype Block<T> = Block(data: array?<T>, nmemb: nat)

  const MIN_ELEM_COUNT: nat := 16

  function BlocksOf<T>(bufs: seq<array<T>>, ring: seq<seq<T>>): (r: seq<Block<T>>)
    requires |bufs| == |ring|
    ensures |r| == |ring|
  {
    seq(|ring|, j requires 0 <= j < |ring| => Block(bufs[j], |ring[j]|))
  }

  /** The elements of one block: right-aligned in the front block, else left-aligned. */
  predicate Stored<T(==)>(data: seq<T>, isFront: bool, xs: seq<T>) {
    |xs| <= |data| && (if isFront then data[|data| - |xs|..] else data[..|xs|]) == xs
  }

  predicate Aligned<T(==)>(datas: seq<seq<T>>, ring: seq<seq<T>>, arrCap: nat) {
    && |datas| == |ring|
    && forall j :: 0 <= j < |ring| ==> |datas[j]| == arrCap && Stored(datas[j], j == 0, ring[j])
  }

  ghost function Datas<T>(bufs: seq<array<T>>): (r: seq<seq<T>>)
    reads bufs
    ensures |r| == |bufs| && forall j :: 0 <= j < |bufs| ==> r[j] == bufs[j][..]
  {
    seq(|bufs|, j requires 0 <= j < |bufs| reads bufs => bufs[j][..])
  }

  ghost predicate Distinct<T>(bufs: seq<array<T>>) {
    forall i, j :: 0 <= i < j < |bufs| ==> bufs[i] != bufs[j]
  }

  predicate FullMiddle<T>(ring: seq<seq<T>>, arrCap: nat) {
    forall j :: 0 < j < |ring| - 1 ==> |ring[j]| == arrCap
  }

  predicate NonEmpty<T>(ring: seq<seq<T>>) {
    forall j :: 0 <= j < |ring| ==> ring[j] != []
  }

  /** The ring with an empty block at one end. */
  function Widened<T>(ring: seq<seq<T>>, forward: bool): (r: seq<seq<T>>)
    ensures |r| == |ring| + 1
  {
    if forward then [[]] + ring else ring + [[]]
  }

  /** The ring with `value` before the elements of its first block. */
  function WithFirst<T>(ring: seq<seq<T>>, value: T): seq<seq<T>>
    requires |ring| > 0
  {
    ring[0 := [value] + ring[0]]
  }

  /** The ring with `value` after the elements of its last block. */
  function WithLast<T>(ring: seq<seq<T>>, value: T): seq<seq<T>>
    requires |ring| > 0
  {
    ring[|ring| - 1 := ring[|ring| - 1] + [value]]
  }

  /** Where the ring starts after a full control array of `capacity` slots was doubled. */
  function DoubledFront(capacity: nat): nat {
    capacity - capacity / 2
  }

  class Deque<T(0)> {
    var blocks: array<Block<T>>
    var blockCount: nat
    var capacity: nat
    var front: nat
    var back: nat
    var nmemb: nat
    const arrCap: nat
    /** The element buffers and their elements, from the front block to the back block. */
    ghost var bufs: seq<array<T>>
    ghost var ring: seq<seq<T>>
    ghost var logCapacity: nat

    ghost function Contents(): seq<T>
      reads `ring
    {
      Flat(ring)
    }

    /** Sizes that hold in every state. */
    ghost predicate Sized()
      reads `blocks, `blockCount, `capacity, `bufs, `ring, `logCapacity
    {
      && MIN_ELEM_COUNT <= arrCap < WORD
      && capacity == Pow2(logCapacity) <= blocks.Length && logCapacity <= 63
      && blockCount == |ring| == |bufs| > 0
      && (forall j :: 0 <= j < |bufs| ==> bufs[j] as object != blocks)
    }

    ghost predicate Single()
      reads `blocks, `blockCount, `capacity, `front, `back, `bufs, `ring, `logCapacity, blocks, bufs
    {
      && Sized() && blockCount == 1
      && blocks[0] == Block(bufs[0], |ring[0]|) && bufs[0].Length == arrCap
      && front + |ring[0]| <= arrCap && bufs[0][front..front + |ring[0]|] == ring[0]
      && back == Decrement(front + |ring[0]|)
    }

    /** A ring of blocks, of which the first or last may still be empty. */
    ghost predicate Ring()
      reads `blocks, `blockCount, `capacity, `front, `back, `bufs, `ring, `logCapacity, blocks, bufs
    {
      && Sized() && blockCount > 1
      && Holds(blocks[..], front, capacity, BlocksOf(bufs, ring))
      && back == Slot(front, blockCount - 1, capacity)
      && Aligned(Datas(bufs), ring, arrCap) && Distinct(bufs) && FullMiddle(ring, arrCap)
    }

    /** Memory holds the contents, perhaps with an empty block at an end of the ring. */
    ghost predicate Linked()
      reads this, blocks, bufs
    {
      (Single() || Ring()) && nmemb == |Contents()|
    }

    ghost predicate Valid()
      reads this, blocks, bufs
    {
      Linked() && (blockCount > 1 ==> NonEmpty(ring))
    }

    constructor (arrCap: nat)
      requires MIN_ELEM_COUNT <= arrCap < WORD
      ensures Valid() && Contents() == [] && this.arrCap == arrCap
      ensures blockCount == 1 && capacity == 1 && front == arrCap / 2 && back == arrCap / 2 - 1
      ensures fresh(blocks) && fresh(bufs)
    {
      this.arrCap := arrCap;
      var data := new T[arrCap];
      blocks := new Block<T>[1](_ => Block(data, 0));
      blockCount, capacity, nmemb := 1, 1, 0;
      front, back := arrCap / 2, arrCap / 2 - 1;
      bufs, ring, logCapacity := [data], [[]], 0;
    }

    // ---------- From one block to two ----------

    /** A control array holding the only block in slot `1 - index` and a new one beside it. */
    method TwoSlots(index: nat, data: array<T>) returns (larger: array<Block<T>>)
      requires index <= 1 && blocks.Length > 0 && (capacity == 1 || blocks.Length >= 2)
      modifies blocks
      ensures (larger == blocks || fresh(larger))
      ensures larger.Length >= 2
      ensures larger[1 - index] == old(blocks[0]) && larger[index] == Block(data, 0)
    {
      larger := blocks;
      if capacity == 1 {
        larger := new Block<T>[2](_ => Block(null, 0));
      }
      larger[1 - index] := blocks[0];
      larger[index] := Block(data, 0);
    }

    /** Go over to a control array that holds two blocks. */
    method AdoptTwo(larger: array<Block<T>>, ghost two: seq<array<T>>, ghost xs: seq<seq<T>>)
      requires blockCount == 1 && MIN_ELEM_COUNT <= arrCap < WORD
      requires |two| == |xs| == 2 && larger.Length >= 2 && two[0] != two[1]
      requires larger[0] == Block(two[0], |xs[0]|) && larger[1] == Block(two[1], |xs[1]|)
      requires two[0] as object != larger && two[1] as object != larger
      requires two[0].Length == two[1].Length == arrCap && |xs[0]| <= arrCap && |xs[1]| <= arrCap
      requires two[0][..][arrCap - |xs[0]|..] == xs[0] && two[1][..][..|xs[1]|] == xs[1]
      modifies this
      ensures Ring() && blockCount == 2 == capacity && front == 0 && back == 1 && nmemb == old(nmemb)
      ensures ring == xs && bufs == two && blocks == larger
    {
      hide Ring, Pow2;
      PowAtLeastTwo(1);
      blocks := larger;
      capacity, logCapacity := 2, 1;
      blockCount := blockCount + 1;
      front, back := 0, 1;
      bufs, ring := two, xs;
      CloseTwoBlocks();
    }

    /** Add an empty block before (`index` 0) or after (`index` 1) the only one. */
    method ResizeFromSingle(index: nat)
      requires Single() && index <= 1
      requires index == 0 ==> front == 0
      requires index == 1 ==> front + |ring[0]| == arrCap || ring[0] == []
      modifies this, blocks
      ensures Ring() && blockCount == 2 && nmemb == old(nmemb)
      ensures front == 0 && back == 1 && capacity == 2
      ensures ring == if index == 0 then [[], old(ring[0])] else [old(ring[0]), []]
      ensures blocks == old(blocks) || fresh(blocks)
      ensures bufs[1 - index] == old(bufs[0]) && fresh(bufs[index])
    {
      hide Single, Ring, Flat, Pow2;
      OneBlock();
      ghost var buf, xs := bufs[0], ring[0];
      PowAtLeastTwo(logCapacity);
      SliceToEnd(buf[..], front, |xs|);
      var data := new T[arrCap];
      var larger := TwoSlots(index, data);
      AdoptTwo(larger, if index == 0 then [data, buf] else [buf, data], if index == 0 then [[], xs] else [xs, []]);
    }

    method PushFrontSingle(value: T)
      requires Single()
      modifies this, blocks, bufs
      ensures Contents() == [value] + old(Contents()) && nmemb == old(nmemb)
      ensures if old(front > 0) then
          && Single() && ring == [[value] + old(ring[0])]
          && front == old(front) - 1 && back == old(back) && capacity == old(capacity)
        else
          Ring() && ring == [[value], old(ring[0])] && front == 0 && back == 1 && capacity == 2
      ensures blocks == old(blocks) || fresh(blocks)
      ensures forall j :: 0 <= j < |bufs| ==> bufs[j] in old(bufs) || fresh(bufs[j])
    {
      hide Flat, Single, Ring, WithFirst;
      OneBlock();
      if front == 0 {
        ResizeFromSingle(0);
        RingEnds();
        FlatFirstOfPair(ring[1], value);
        WriteFront(value);
      } else {
        front := front - 1;
        blocks[0].data[front] := value;
        ring := [[value] + ring[0]];
        blocks[0] := Block(blocks[0].data, blocks[0].nmemb + 1);
        CloseOneBlock();
      }
    }

    method PushBackSingle(value: T)
      requires Single()
      modifies this, blocks, bufs
      ensures Contents() == old(Contents()) + [value] && nmemb == old(nmemb)
      ensures if old(back < arrCap - 1) then
          && Single() && ring == [old(ring[0]) + [value]]
          && front == old(front) && back == old(back) + 1 && capacity == old(capacity)
        else
          Ring() && ring == [old(ring[0]), [value]] && front == 0 && back == 1 && capacity == 2
      ensures blocks == old(blocks) || fresh(blocks)
      ensures forall j :: 0 <= j < |bufs| ==> bufs[j] in old(bufs) || fresh(bufs[j])
    {
      hide Flat, Single, Ring, WithLast;
      OneBlock();
      if back >= arrCap - 1 {
        ResizeFromSingle(1);
        RingEnds();
        FlatLastOfPair(ring[0], value);
        WriteBack(value);
      } else {
        back := back + 1;
        blocks[0].data[back] := value;
        ring := [ring[0] + [value]];
        blocks[0] := Block(blocks[0].data, blocks[0].nmemb + 1);
        CloseOneBlock();
      }
    }

    // ---------- The ring ----------

    /** What a caller who sees only `Linked` and `Valid` needs. */
    lemma Room()
      ensures Valid() ==> Linked()
      ensures Linked() && nmemb == 0 ==> Contents() == []
      ensures Linked() && blockCount == capacity == 1 ==> logCapacity < 63
      ensures Linked() ==> blockCount == |ring|
      ensures Linked() && blockCount == 1 && nmemb == 0 ==> ring == [[]]
      ensures Linked() && blockCount == 1 && nmemb > 0 ==> ring[0] != []
      ensures Linked() && blockCount == 2 && front < blocks.Length ==> blocks[front].nmemb == |ring[0]|
      ensures Linked() && blockCount == 2 && back < blocks.Length ==> blocks[back].nmemb == |ring[1]|
      ensures Linked() && blockCount == 2 ==> front < blocks.Length && back < blocks.Length
    {
      if Linked() {
        SizesOfLinked();
        if blockCount == 2 {
          RingEnds();
        }
        if capacity == 1 {
          assert logCapacity == 0;
        }
      }
    }

    lemma RingSizes()
      requires Ring()
      ensures blockCount == |ring| == |bufs| > 1 && MIN_ELEM_COUNT <= arrCap < WORD
      ensures front < capacity <= blocks.Length && blockCount <= capacity
      ensures Slot(front, 0, capacity) == front
    {
    }

    lemma RingEnds()
      requires Ring()
      ensures !Single()
      ensures blockCount == |ring| == |bufs| > 1 && MIN_ELEM_COUNT <= arrCap < WORD
      ensures front < blocks.Length && blocks[front].nmemb == |ring[0]| <= arrCap
      ensures back < blocks.Length && blocks[back].nmemb == |ring[blockCount - 1]| <= arrCap
    {
      RingAt(0);
      RingAt(blockCount - 1);
    }

    lemma RingAt(j: nat)
      requires Ring() && j < blockCount
      ensures Slot(front, j, capacity) < capacity <= blocks.Length && Slot(front, 0, capacity) == front
      ensures back == Slot(front, blockCount - 1, capacity)
      ensures blocks[Slot(front, j, capacity)] == Block(bufs[j], |ring[j]|)
      ensures |ring[j]| <= bufs[j].Length == arrCap && Stored(bufs[j][..], j == 0, ring[j])
    {
      assert BlocksOf(bufs, ring)[j] == Block(bufs[j], |ring[j]|);
    }

    /** Put `value` at the left end of the front block, which has room. */
    method WriteFront(value: T)
      requires Ring() && |ring[0]| < arrCap
      modifies this`ring, blocks, bufs
      ensures Ring() && ring == WithFirst(old(ring), value)
    {
      hide Flat, BlocksOf, Aligned, Stored, Datas;
      RingAt(0);
      ghost var blocks0, ring0, datas0 := blocks[..], ring, Datas(bufs);
      var block := blocks[front];
      var at := arrCap - block.nmemb - 1;
      ring := ring[0 := [value] + ring[0]];
      block.data[at] := value;
      blocks[front] := Block(block.data, block.nmemb + 1);
      BlocksOfUpdate(bufs, ring0, 0, ring[0]);
      HoldsUpdate(blocks0, front, capacity, BlocksOf(bufs, ring0), 0, blocks[front]);
      assert blocks[..] == blocks0[front := blocks[front]];
      DatasWritten(bufs, datas0, 0);
      AlignedWritten(datas0, ring0, arrCap, 0, at, value, ring[0]);
    }

    /** Put `value` at the right end of the back block, which has room. */
    method WriteBack(value: T)
      requires Ring() && |ring[blockCount - 1]| < arrCap
      modifies this`ring, blocks, bufs
      ensures Ring() && ring == WithLast(old(ring), value)
    {
      hide Flat, BlocksOf, Aligned, Stored, Datas;
      ghost var last := blockCount - 1;
      RingAt(last);
      ghost var blocks0, ring0, datas0 := blocks[..], ring, Datas(bufs);
      var block := blocks[back];
      var at := block.nmemb;
      ring := ring[last := ring[last] + [value]];
      block.data[at] := value;
      blocks[back] := Block(block.data, block.nmemb + 1);
      BlocksOfUpdate(bufs, ring0, last, ring[last]);
      HoldsUpdate(blocks0, front, capacity, BlocksOf(bufs, ring0), last, blocks[back]);
      assert blocks[..] == blocks0[back := blocks[back]];
      DatasWritten(bufs, datas0, last);
      AlignedWritten(datas0, ring0, arrCap, last, at, value, ring[last]);
    }

    /** A control array twice as large, the old ring in consecutive middle slots. */
    method UnrollControl(f: nat) returns (larger: array<Block<T>>)
      requires front < blockCount == capacity <= blocks.Length && f == capacity - capacity / 2
      ensures fresh(larger) && larger[..] == Unrolled(blocks[..], front, back, blockCount, Block(null, 0))
    {
      hide Unrolled, Copied;
      var slots := blocks[..];
      larger := new Block<T>[2 * capacity](_ => Block(null, 0));
      assert larger[..] == seq(2 * capacity, _ => Block(null, 0));
      if front > back {
        var span := blockCount - front;
        MemCopy(larger, f, slots[front..blockCount]);
        MemCopy(larger, f + span, slots[..front]);
      } else {
        MemCopy(larger, f, slots[..blockCount]);
      }
      UnrolledIs(slots, front, back, blockCount, Block(null, 0));
    }

    /** Double a full control array. */
    method DoubleControl()
      requires Ring() && blockCount == capacity && logCapacity < 63
      modifies this`blocks, this`capacity, this`logCapacity, this`front, this`back
      ensures Ring() && capacity == 2 * old(capacity) && fresh(blocks)
      ensures front == DoubledFront(old(capacity)) > 0 && back == front + blockCount - 1 < capacity - 1
    {
      hide Flat, BlocksOf, Aligned, Stored, Datas, Distinct, FullMiddle, Holds, Unrolled;
      HoldsFits(blocks[..], front, capacity, BlocksOf(bufs, ring));
      UnrollHolds(blocks[..], front, back, BlocksOf(bufs, ring), Block(null, 0));
      var f := capacity - blockCount / 2;
      var b := f + blockCount - 1;
      var larger := UnrollControl(f);
      blocks := larger;
      capacity, logCapacity := 2 * capacity, logCapacity + 1;
      front, back := f, b;
    }

    /** An empty block before the front block. */
    method StepFrontBack()
      requires Ring() && blockCount < capacity && |ring[0]| == arrCap
      modifies this, blocks
      ensures Ring() && nmemb == old(nmemb) && blocks == old(blocks)
      ensures ring == [[]] + old(ring) && fresh(bufs[0]) && bufs[1..] == old(bufs)
      ensures front == (if old(front) == 0 then capacity - 1 else old(front) - 1)
      ensures back == old(back) && capacity == old(capacity)
    {
      hide Flat, BlocksOf, Aligned, Stored, Datas, Distinct, FullMiddle, Holds, Pow2;
      ghost var slots, list, was := blocks[..], BlocksOf(bufs, ring), front;
      HoldsFits(slots, front, capacity, list);
      var data := new T[arrCap];
      StepBackward(front, capacity, logCapacity);
      HoldsPushFront(slots, front, capacity, list, Block(data, 0));
      front := Decrement(front) % capacity;
      blocks[front] := Block(data, 0);
      assert blocks[..] == slots[front := Block(data, 0)];
      AddFrontBlock(bufs, ring, arrCap, data);
      bufs, ring := [data] + bufs, [[]] + ring;
      blockCount := blockCount + 1;
      StepSlot(front, was, blockCount - 1, capacity);
    }

    /** An empty block after the back block. */
    method StepBackForward()
      requires Ring() && blockCount < capacity && |ring[blockCount - 1]| == arrCap
      modifies this, blocks
      ensures Ring() && nmemb == old(nmemb) && blocks == old(blocks)
      ensures ring == old(ring) + [[]] && fresh(bufs[|bufs| - 1]) && bufs[..|bufs| - 1] == old(bufs)
      ensures back == (if old(back) + 1 == capacity then 0 else old(back) + 1)
      ensures front == old(front) && capacity == old(capacity)
    {
      hide Flat, BlocksOf, Aligned, Stored, Datas, Distinct, FullMiddle, Holds, Pow2;
      ghost var slots, list := blocks[..], BlocksOf(bufs, ring);
      HoldsFits(slots, front, capacity, list);
      var data := new T[arrCap];
      StepForward(back, capacity);
      HoldsPushBack(slots, front, capacity, list, Block(data, 0));
      back := (back + 1) % capacity;
      blocks[back] := Block(data, 0);
      assert blocks[..] == slots[back := Block(data, 0)];
      AddBackBlock(bufs, ring, arrCap, data);
      bufs, ring := bufs + [data], ring + [[]];
      blockCount := blockCount + 1;
    }

    /** Make room in a full control array, then add an empty block at the chosen end. */
    method ResizeFromMultiple(forward: bool)
      requires Ring() && (blockCount == capacity ==> logCapacity < 63)
      requires forward ==> |ring[0]| == arrCap
      requires !forward ==> |ring[blockCount - 1]| == arrCap
      modifies this, blocks
      ensures Ring() && nmemb == old(nmemb)
      ensures ring == Widened(old(ring), forward)
      ensures old(blockCount == capacity) ==>
        && capacity == 2 * old(capacity)
        && front == DoubledFront(old(capacity)) - (if forward then 1 else 0)
        && back == DoubledFront(old(capacity)) + old(capacity) - (if forward then 1 else 0)
      ensures old(blockCount < capacity) ==> capacity == old(capacity)
      ensures old(blockCount < capacity) && forward ==>
        front == (if old(front) == 0 then capacity - 1 else old(front) - 1) && back == old(back)
      ensures old(blockCount < capacity) && !forward ==>
        back == (if old(back) + 1 == capacity then 0 else old(back) + 1) && front == old(front)
      ensures forall j :: 0 <= j < |bufs| ==> bufs[j] in old(bufs) || fresh(bufs[j])
      ensures blocks == old(blocks) || fresh(blocks)
    {
      hide Flat, BlocksOf, Aligned, Stored, Datas, Distinct, FullMiddle, Holds, Pow2, Slot;
      HoldsFits(blocks[..], front, capacity, BlocksOf(bufs, ring));
      if blockCount >= capacity {
        DoubleControl();
      }
      if forward {
        StepFrontBack();
        assert bufs == [bufs[0]] + bufs[1..];
      } else {
        StepBackForward();
        assert bufs == bufs[..|bufs| - 1] + [bufs[|bufs| - 1]];
      }
    }

    method PushFrontMultiple(value: T)
      requires Ring() && (blockCount == capacity ==> logCapacity < 63)
      modifies this, blocks, bufs
      ensures Ring() && nmemb == old(nmemb) && (old(NonEmpty(ring)) ==> NonEmpty(ring))
      ensures Contents() == [value] + old(Contents())
      ensures if old(|ring[0]| < arrCap) then
          && ring == WithFirst(old(ring), value)
          && front == old(front) && back == old(back) && capacity == old(capacity)
        else
          && ring == WithFirst(Widened(old(ring), true), value)
          && if old(blockCount < capacity) then
               && capacity == old(capacity) && back == old(back)
               && front == if old(front) == 0 then capacity - 1 else old(front) - 1
             else
               && capacity == 2 * old(capacity) && front == DoubledFront(old(capacity)) - 1
               && back == DoubledFront(old(capacity)) + old(capacity) - 1
      ensures forall j :: 0 <= j < |bufs| ==> bufs[j] in old(bufs) || fresh(bufs[j])
      ensures blocks == old(blocks) || fresh(blocks)
    {
      hide Flat, Ring, Sized, NonEmpty, Stored, WithFirst, Widened;
      RingEnds();
      RingSizes();
      ghost var ring0 := ring;
      if blocks[front].nmemb >= arrCap {
        ResizeFromMultiple(true);
      }
      ghost var ring1 := ring;
      RingSizes();
      FrontIsShort(ring0, ring1, arrCap);
      WriteFront(value);
      FlatWriteFront(ring0, ring1, value);
    }

    method PushBackMultiple(value: T)
      requires Ring() && (blockCount == capacity ==> logCapacity < 63)
      modifies this, blocks, bufs
      ensures Ring() && nmemb == old(nmemb) && (old(NonEmpty(ring)) ==> NonEmpty(ring))
      ensures Contents() == old(Contents()) + [value]
      ensures if old(|ring[blockCount - 1]| < arrCap) then
          && ring == WithLast(old(ring), value)
          && front == old(front) && back == old(back) && capacity == old(capacity)
        else
          && ring == WithLast(Widened(old(ring), false), value)
          && if old(blockCount < capacity) then
               && capacity == old(capacity) && front == old(front)
               && back == if old(back) + 1 == capacity then 0 else old(back) + 1
             else
               && capacity == 2 * old(capacity) && front == DoubledFront(old(capacity))
               && back == DoubledFront(old(capacity)) + old(capacity)
      ensures forall j :: 0 <= j < |bufs| ==> bufs[j] in old(bufs) || fresh(bufs[j])
      ensures blocks == old(blocks) || fresh(blocks)
    {
      hide Flat, Ring, Sized, NonEmpty, Stored, WithLast, Widened;
      RingEnds();
      RingSizes();
      ghost var ring0 := ring;
      if blocks[back].nmemb >= arrCap {
        ResizeFromMultiple(false);
      }
      ghost var ring1 := ring;
      RingSizes();
      BackIsShort(ring0, ring1, arrCap);
      WriteBack(value);
      FlatWriteBack(ring0, ring1, value);
    }

    // ---------- Push ----------

    lemma SizesOfLinked()
      requires Linked()
      ensures if blockCount == 1 then Single() && !Ring() && ring == [ring[0]] else Ring() && !Single() && blockCount > 1
      ensures blockCount == |ring| && (blockCount == 1 ==> (nmemb == 0 <==> ring[0] == []))
      ensures Valid() && blockCount > 1 ==> nmemb > 0
    {
      if Single() {
        FlatOne(ring[0]);
        assert ring == [ring[0]];
      }
    }

    /** The pushed element is stored, but an empty deque without room before its block gets an empty block. */
    method PushFront(value: T)
      requires Linked() && (blockCount == capacity ==> logCapacity < 63)
      modifies this, blocks, bufs
      ensures Linked() && Contents() == [value] + old(Contents()) && nmemb == old(nmemb) + 1
      ensures old(Valid()) ==> (Valid() <==> old(nmemb > 0 || front > 0))
      ensures if old(blockCount == 1 && front > 0) then
          && blockCount == 1 && ring == [[value] + old(ring[0])]
          && front == old(front) - 1 && back == old(back) && capacity == old(capacity)
        else if old(blockCount == 1) then
          ring == [[value], old(ring[0])] && front == 0 && back == 1 && capacity == 2
        else if old(|ring[0]| < arrCap) then
          && ring == WithFirst(old(ring), value)
          && front == old(front) && back == old(back) && capacity == old(capacity)
        else
          && ring == WithFirst(Widened(old(ring), true), value)
          && if old(blockCount < capacity) then
               && capacity == old(capacity) && back == old(back)
               && front == if old(front) == 0 then capacity - 1 else old(front) - 1
             else
               && capacity == 2 * old(capacity) && front == DoubledFront(old(capacity)) - 1
               && back == DoubledFront(old(capacity)) + old(capacity) - 1
      ensures blocks == old(blocks) || fresh(blocks)
      ensures forall j :: 0 <= j < |bufs| ==> bufs[j] in old(bufs) || fresh(bufs[j])
    {
      hide Single, Ring, NonEmpty, Flat, WithFirst, Widened, Sized;
      SizesOfLinked();
      ghost var first := ring[0];
      if blockCount == 1 {
        PushFrontSingle(value);
        BlocksIn();
        NonEmptyPair([value], first);
      } else {
        PushFrontMultiple(value);
        BlocksIn();
      }
      nmemb := nmemb + 1;
    }

    /** The pushed element is stored, but an empty deque without room behind its block gets an empty block. */
    method PushBack(value: T)
      requires Linked() && (blockCount == capacity ==> logCapacity < 63)
      modifies this, blocks, bufs
      ensures Linked() && Contents() == old(Contents()) + [value] && nmemb == old(nmemb) + 1
      ensures old(Valid()) ==> (Valid() <==> old(nmemb > 0 || back < arrCap - 1))
      ensures if old(blockCount == 1 && back < arrCap - 1) then
          && blockCount == 1 && ring == [old(ring[0]) + [value]]
          && front == old(front) && back == old(back) + 1 && capacity == old(capacity)
        else if old(blockCount == 1) then
          ring == [old(ring[0]), [value]] && front == 0 && back == 1 && capacity == 2
        else if old(|ring[|ring| - 1]| < arrCap) then
          && ring == WithLast(old(ring), value)
          && front == old(front) && back == old(back) && capacity == old(capacity)
        else
          && ring == WithLast(Widened(old(ring), false), value)
          && if old(blockCount < capacity) then
               && capacity == old(capacity) && front == old(front)
               && back == if old(back) + 1 == capacity then 0 else old(back) + 1
             else
               && capacity == 2 * old(capacity) && front == DoubledFront(old(capacity))
               && back == DoubledFront(old(capacity)) + old(capacity)
      ensures blocks == old(blocks) || fresh(blocks)
      ensures forall j :: 0 <= j < |bufs| ==> bufs[j] in old(bufs) || fresh(bufs[j])
    {
      hide Single, Ring, NonEmpty, Flat, WithLast, Widened, Sized;
      SizesOfLinked();
      ghost var first := ring[0];
      if blockCount == 1 {
        PushBackSingle(value);
        BlocksIn();
        NonEmptyPair(first, [value]);
      } else {
        PushBackMultiple(value);
        BlocksIn();
      }
      nmemb := nmemb + 1;
    }

    lemma BlocksIn()
      ensures Single() ==> blockCount == |ring| == 1
      ensures Ring() ==> blockCount == |ring| > 1
    {
    }

    // ---------- Pop ----------

    method PopFrontSingle()
      requires Single() && ring[0] != [] && nmemb > 0
      modifies this, blocks
      ensures Single() && ring == [old(ring[0])[1..]] && nmemb == old(nmemb) - 1
      ensures blocks == old(blocks) && bufs == old(bufs)
      ensures front == old(front) + 1 && back == old(back) && capacity == old(capacity)
    {
      hide Flat;
      assert bufs[0][front..front + |ring[0]|][1..] == bufs[0][front + 1..front + |ring[0]|];
      nmemb := nmemb - 1;
      blocks[0] := Block(blocks[0].data, blocks[0].nmemb - 1);
      front := front + 1;
      ring := [ring[0][1..]];
    }

    method PopBackSingle()
      requires Single() && ring[0] != [] && nmemb > 0
      modifies this, blocks
      ensures Single() && ring == [old(ring[0])[..|old(ring[0])| - 1]] && nmemb == old(nmemb) - 1
      ensures blocks == old(blocks) && bufs == old(bufs)
      ensures front == old(front) && back == Decrement(old(back)) && capacity == old(capacity)
    {
      hide Flat;
      ghost var n := |ring[0]| - 1;
      assert bufs[0][front..front + n + 1][..n] == bufs[0][front..front + n];
      nmemb := nmemb - 1;
      blocks[0] := Block(blocks[0].data, blocks[0].nmemb - 1);
      back := Decrement(back);
      ring := [ring[0][..n]];
    }

    /** Take the first element from the front block. */
    method ShrinkFront()
      requires Ring() && ring[0] != []
      modifies this`ring, blocks
      ensures Ring() && ring == old(ring)[0 := old(ring[0])[1..]]
    {
      hide Flat, BlocksOf, Aligned, Datas, Distinct, FullMiddle, Holds, Stored;
      RingEnds();
      RingAt(0);
      ghost var blocks0, ring0 := blocks[..], ring;
      blocks[front] := Block(blocks[front].data, blocks[front].nmemb - 1);
      ring := ring[0 := ring[0][1..]];
      BlocksOfUpdate(bufs, ring0, 0, ring[0]);
      HoldsUpdate(blocks0, front, capacity, BlocksOf(bufs, ring0), 0, blocks[front]);
      assert blocks[..] == blocks0[front := blocks[front]];
      AlignedShrunkFront(Datas(bufs), ring0, arrCap);
    }

    /** Take the last element from the back block. */
    method ShrinkBack()
      requires Ring() && ring[blockCount - 1] != []
      modifies this`ring, blocks
      ensures Ring()
      ensures var n := blockCount - 1;
        ring == old(ring)[n := old(ring[n])[..|old(ring[n])| - 1]]
    {
      hide Flat, BlocksOf, Aligned, Datas, Distinct, FullMiddle, Holds, Stored;
      RingEnds();
      ghost var n := blockCount - 1;
      RingAt(n);
      ghost var blocks0, ring0 := blocks[..], ring;
      blocks[back] := Block(blocks[back].data, blocks[back].nmemb - 1);
      ring := ring[n := ring[n][..|ring[n]| - 1]];
      BlocksOfUpdate(bufs, ring0, n, ring[n]);
      HoldsUpdate(blocks0, front, capacity, BlocksOf(bufs, ring0), n, blocks[back]);
      assert blocks[..] == blocks0[back := blocks[back]];
      AlignedShrunkBack(Datas(bufs), ring0, arrCap);
    }

    /** Release the emptied front block of at least three. */
    method DropFrontBlock()
      requires Ring() && ring[0] == [] && blockCount > 2
      modifies this, blocks
      ensures Ring() && blocks == old(blocks) && nmemb == old(nmemb)
      ensures ring == old(ring)[1..] && bufs == old(bufs)[1..]
      ensures front == (if old(front) + 1 == capacity then 0 else old(front) + 1)
      ensures back == old(back) && capacity == old(capacity)
    {
      hide Flat, BlocksOf, Aligned, Datas, Distinct, FullMiddle, Holds, Stored, Pow2;
      RingEnds();
      ghost var slots, list := blocks[..], BlocksOf(bufs, ring);
      HoldsFits(slots, front, capacity, list);
      StepForward(front, capacity);
      HoldsUpdate(slots, front, capacity, list, 0, Block(null, 0));
      blocks[front] := Block(null, 0);
      assert blocks[..] == slots[front := Block(null, 0)];
      HoldsPopFront(blocks[..], front, capacity, list[0 := Block(null, 0)]);
      assert list[0 := Block(null, 0)][1..] == list[1..];
      RemoveFrontBlock(bufs, ring, arrCap);
      blockCount := blockCount - 1;
      StepSlot(front, (front + 1) % capacity, blockCount, capacity);
      front := (front + 1) % capacity;
      bufs, ring := bufs[1..], ring[1..];
    }

    /** Release the emptied back block of at least three. */
    method DropBackBlock()
      requires Ring() && ring[blockCount - 1] == [] && blockCount > 2
      modifies this, blocks
      ensures Ring() && blocks == old(blocks) && nmemb == old(nmemb)
      ensures ring == old(ring)[..old(blockCount) - 1] && bufs == old(bufs)[..old(blockCount) - 1]
      ensures back == (if old(back) == 0 then capacity - 1 else old(back) - 1)
      ensures front == old(front) && capacity == old(capacity)
    {
      hide Flat, BlocksOf, Aligned, Datas, Distinct, FullMiddle, Holds, Stored, Pow2;
      RingEnds();
      ghost var slots, list, n := blocks[..], BlocksOf(bufs, ring), blockCount - 1;
      HoldsFits(slots, front, capacity, list);
      StepBackward(back, capacity, logCapacity);
      HoldsPopBack(slots, front, capacity, list, Block(null, 0));
      blocks[back] := Block(null, 0);
      assert blocks[..] == slots[back := Block(null, 0)];
      RemoveBackBlock(bufs, ring, arrCap);
      blockCount := blockCount - 1;
      back := Decrement(back) % capacity;
      bufs, ring := bufs[..n], ring[..n];
    }

    lemma RingBoth()
      requires Ring() && blockCount == 2
      ensures Sized() && front < blocks.Length && back < blocks.Length && front != back
      ensures blocks[front] == Block(bufs[0], |ring[0]|) && blocks[back] == Block(bufs[1], |ring[1]|)
      ensures bufs[0].Length == bufs[1].Length == arrCap && |ring[0]| <= arrCap && |ring[1]| <= arrCap
      ensures Stored(bufs[0][..], true, ring[0]) && Stored(bufs[1][..], false, ring[1])
    {
      RingAt(0);
      RingAt(1);
    }

    /** A single block without an array is no deque. */
    lemma Broken()
      ensures blockCount == 1 && blocks.Length > 0 && blocks[0].data == null ==> !Single() && !Ring()
    {
    }

    /**
      The back block of two becomes the only block. A survivor that already lies in slot 0
      is moved onto itself, and nulling its old slot loses it.
     */
    method CollapseToBack()
      requires Ring() && ring[0] == [] && blockCount == 2
      modifies this, blocks
      ensures blocks == old(blocks) && nmemb == old(nmemb) && blockCount == 1 && blocks.Length > 0
      ensures ring == [old(ring[1])] && bufs == [old(bufs[1])] && capacity == old(capacity)
      ensures front == 0 && back == Decrement(|ring[0]|)
      ensures old(back) > 0 ==> Single()
      ensures old(back) == 0 ==> !Single() && !Ring() && blocks[0].data == null
    {
      hide Flat, Pow2, Stored, Single, Ring;
      RingBoth();
      ghost var n := |ring[1]|;
      BackStored(bufs[1][..], ring[1]);
      assert blocks[back] == Block(bufs[1], n);
      blocks[front] := Block(null, 0);
      blockCount := blockCount - 1;
      blocks[0] := blocks[back];
      blocks[back] := Block(null, blocks[back].nmemb);
      assert blocks[0].nmemb == n;
      back := Decrement(blocks[0].nmemb);
      front := 0;
      bufs, ring := [bufs[1]], [ring[1]];
      if old(back) > 0 {
        CloseOneBlock();
      } else {
        Broken();
      }
    }

    /** The front block of two becomes the only block, with the same flaw for slot 0. */
    method CollapseToFront()
      requires Ring() && ring[1] == [] && blockCount == 2
      modifies this, blocks
      ensures blocks == old(blocks) && nmemb == old(nmemb) && blockCount == 1 && blocks.Length > 0
      ensures ring == [old(ring[0])] && bufs == [old(bufs[0])] && capacity == old(capacity)
      ensures front == arrCap - |ring[0]| && back == arrCap - 1
      ensures old(front) > 0 ==> Single()
      ensures old(front) == 0 ==> !Single() && !Ring() && blocks[0].data == null
    {
      hide Flat, Pow2, Stored, Single, Ring;
      RingBoth();
      ghost var n := |ring[0]|;
      FrontStored(bufs[0][..], ring[0]);
      assert blocks[front] == Block(bufs[0], n);
      blocks[back] := Block(null, 0);
      blockCount := blockCount - 1;
      blocks[0] := blocks[front];
      blocks[front] := Block(null, blocks[front].nmemb);
      assert blocks[0].nmemb == n;
      back := arrCap - 1;
      front := back + 1 - blocks[0].nmemb;
      bufs, ring := [bufs[0]], [ring[0]];
      if old(front) > 0 {
        CloseOneBlock();
      } else {
        Broken();
      }
    }

    /** Exact, unless two blocks become one and the survivor lies in slot 0. */
    method PopFront()
      requires Linked() && nmemb > 0 && ring[0] != []
      modifies this, blocks
      ensures Linked() <==> !old(blockCount == 2 && front < blocks.Length && blocks[front].nmemb == 1 && back == 0)
      ensures old(Valid()) ==> (Valid() <==> Linked())
      ensures Contents() == old(Contents())[1..] && nmemb == old(nmemb) - 1
      ensures !Linked() ==> blocks.Length > 0 && blocks[0].data == null
      ensures capacity == old(capacity) && blocks == old(blocks)
      ensures if old(blockCount == 1) then
          blockCount == 1 && front == old(front) + 1 && back == old(back)
        else if old(|ring[0]| > 1) then
          ring == old(ring)[0 := old(ring[0])[1..]] && blockCount == old(blockCount) && front == old(front) && back == old(back)
        else if old(blockCount == 2) then
          ring == [old(ring[1])] && blockCount == 1 && front == 0 && back == Decrement(nmemb)
        else
          && ring == old(ring)[1..] && blockCount == old(blockCount) - 1 && back == old(back)
          && front == if old(front) + 1 == capacity then 0 else old(front) + 1
      ensures forall j :: 0 <= j < |bufs| ==> bufs[j] in old(bufs)
    {
      hide Single, Ring, Sized, Flat;
      SizesOfLinked();
      BlocksIn();
      FlatShrinkFront(ring);
      if blockCount == 1 {
        assert ring[0 := ring[0][1..]] == [ring[0][1..]];
        PopFrontSingle();
        BlocksIn();
      } else {
        RingEnds();
        ShrinkFront();
        nmemb := nmemb - 1;
        RingEnds();
        if blocks[front].nmemb == 0 {
          FlatDropFront(ring);
          FlatOne(ring[1]);
          if blockCount == 2 {
            CollapseToBack();
          } else {
            DropFrontBlock();
            BlocksIn();
          }
        }
      }
    }

    /** Exact, unless two blocks become one and the survivor lies in slot 0. */
    method PopBack()
      requires Linked() && nmemb > 0 && ring[|ring| - 1] != []
      modifies this, blocks
      ensures Linked() <==> !old(blockCount == 2 && back < blocks.Length && blocks[back].nmemb == 1 && front == 0)
      ensures old(Valid()) ==> (Valid() <==> Linked())
      ensures Contents() == old(Contents())[..old(nmemb) - 1] && nmemb == old(nmemb) - 1
      ensures !Linked() ==> blocks.Length > 0 && blocks[0].data == null
      ensures capacity == old(capacity) && blocks == old(blocks)
      ensures var n := old(|ring|) - 1;
        if n == 0 then
          blockCount == 1 && front == old(front) && back == Decrement(old(back))
        else if old(|ring[|ring| - 1]| > 1) then
          && ring == old(ring)[n := old(ring[|ring| - 1])[..old(|ring[|ring| - 1]|) - 1]]
          && blockCount == old(blockCount) && front == old(front) && back == old(back)
        else if n == 1 then
          ring == [old(ring[0])] && blockCount == 1 && front == arrCap - nmemb && back == arrCap - 1
        else
          && ring == old(ring)[..n] && blockCount == n && front == old(front)
          && back == if old(back) == 0 then capacity - 1 else old(back) - 1
      ensures forall j :: 0 <= j < |bufs| ==> bufs[j] in old(bufs)
    {
      hide Single, Ring, Sized, Flat;
      SizesOfLinked();
      BlocksIn();
      FlatShrinkBack(ring);
      if blockCount == 1 {
        assert ring[0 := ring[0][..|ring[0]| - 1]] == [ring[0][..|ring[0]| - 1]];
        PopBackSingle();
        BlocksIn();
      } else {
        RingEnds();
        ShrinkBack();
        nmemb := nmemb - 1;
        RingEnds();
        if blocks[back].nmemb == 0 {
          FlatDropBack(ring);
          FlatOne(ring[0]);
          if blockCount == 2 {
            CollapseToFront();
          } else {
            DropBackBlock();
            BlocksIn();
          }
        }
      }
    }

    // ---------- Random access ----------

    /** The slot of the block that holds element `index`, and the element's place in it. */
    method LocateBlock(index: nat) returns (slot: nat, offset: nat)
      requires Ring() && index < |Contents()|
      ensures slot < blocks.Length && offset < blocks[slot].nmemb <= arrCap
      ensures blocks[slot].data != null && blocks[slot].data.Length == arrCap
      ensures var at := if slot == front then arrCap - blocks[slot].nmemb + offset else offset;
        blocks[slot].data[at] == Contents()[index]
    {
      hide Flat, Ring, Rest;
      RingSizes();
      RingCount(0);
      ghost var j := 0;
      slot, offset := front, index;
      var accumulate := blocks[slot].nmemb;
      RestAll(ring);
      while accumulate <= offset
        invariant j < blockCount && slot == Slot(front, j, capacity) < capacity <= blocks.Length
        invariant accumulate == |ring[j]|
        invariant offset < |Rest(ring, j)| && Rest(ring, j)[offset] == Contents()[index]
        decreases blockCount - j
      {
        RestStep(ring, j, offset);
        offset := offset - accumulate;
        NextSlot(front, j, capacity);
        j := j + 1;
        slot := (slot + 1) % capacity;
        RingCount(j);
        accumulate := blocks[slot].nmemb;
      }
      RestStep(ring, j, offset);
      ElementAt(j, offset);
    }

    lemma RingCount(j: nat)
      requires Ring() && j < blockCount
      ensures j < |ring| && blockCount <= capacity && Slot(front, j, capacity) < blocks.Length
      ensures blocks[Slot(front, j, capacity)].nmemb == |ring[j]|
    {
      RingAt(j);
    }

    /** Where an element of the `j`-th block lies. */
    lemma ElementAt(j: nat, offset: nat)
      requires Ring() && j < blockCount && offset < |ring[j]|
      ensures var slot := Slot(front, j, capacity);
        && slot < blocks.Length && offset < blocks[slot].nmemb <= arrCap
        && blocks[slot].data != null && blocks[slot].data.Length == arrCap
        && var at := if slot == front then arrCap - blocks[slot].nmemb + offset else offset;
           blocks[slot].data[at] == ring[j][offset]
    {
      RingAt(j);
      StoredAt(bufs[j][..], j == 0, ring[j], offset);
      SlotIsFront(front, j, capacity);
    }

    method At(index: nat) returns (x: T)
      requires Linked() && index < nmemb
      ensures x == Contents()[index]
    {
      hide Flat, BlocksOf, Aligned, Datas, Distinct, FullMiddle, Holds;
      SizesOfLinked();
      if blockCount == 1 {
        FlatOne(ring[0]);
        assert ring == [ring[0]];
        assert bufs[0][front..front + |ring[0]|][index] == bufs[0][front + index];
        x := blocks[0].data[front + index];
      } else {
        var b, offset := LocateBlock(index);
        if b == front {
          x := blocks[b].data[arrCap - blocks[b].nmemb + offset];
        } else {
          x := blocks[b].data[offset];
        }
      }
    }

    method Front() returns (x: T)
      requires Linked() && nmemb > 0 && ring[0] != []
      ensures x == Contents()[0]
    {
      SizesOfLinked();
      if blockCount == 1 {
        FlatOne(ring[0]);
        assert bufs[0][front..front + |ring[0]|][0] == bufs[0][front];
        x := blocks[0].data[front];
      } else {
        RingAt(0);
        x := blocks[front].data[arrCap - blocks[front].nmemb];
      }
    }

    method Back() returns (x: T)
      requires Linked() && nmemb > 0 && ring[|ring| - 1] != []
      ensures x == Contents()[nmemb - 1]
    {
      hide Flat, BlocksOf, Aligned, Datas, Distinct, FullMiddle, Holds;
      SizesOfLinked();
      RingLast();
      if blockCount == 1 {
        FlatOne(ring[0]);
        assert ring == [ring[0]];
        assert bufs[0][front..front + |ring[0]|][nmemb - 1] == bufs[0][back];
        x := blocks[0].data[back];
      } else {
        RingAt(blockCount - 1);
        x := blocks[back].data[blocks[back].nmemb - 1];
      }
    }

    lemma RingLast()
      ensures |ring| > 0 && ring[|ring| - 1] != [] ==>
        var last := ring[|ring| - 1]; Flat(ring) != [] && Flat(ring)[|Flat(ring)| - 1] == last[|last| - 1]
    {
      if |ring| > 0 && ring[|ring| - 1] != [] {
        var n := |ring| - 1;
        assert ring == ring[..n] + [ring[n]];
        FlatBack(ring[..n], ring[n]);
      }
    }

    // ---------- In the middle of the only block ----------

    /** Shift the shorter side, which has room, and put `value` before element `index`. */
    method InsertSingle(value: T, index: nat)
      requires Valid() && blockCount == 1 && 0 < index < nmemb
      requires if front + index < (front + back) / 2 then front > 0 else back < arrCap - 1
      modifies this, blocks, bufs
      ensures Valid() && blockCount == 1 && blocks == old(blocks) && bufs == old(bufs)
      ensures Contents() == Inserted(old(Contents()), index, value) && nmemb == old(nmemb) + 1 && capacity == old(capacity)
      ensures if old(front + index < (front + back) / 2) then front == old(front) - 1 && back == old(back)
        else front == old(front) && back == old(back) + 1
    {
      hide Flat, Moved, Inserted, Single, Ring, Pow2;
      SizesOfLinked();
      OneBlock();
      var f, b := front, back;
      var data := blocks[0].data;
      ghost var was, n := data[..], nmemb;
      var at := index + f;
      if at < (f + b) / 2 {
        front := front - 1;
        MemMove(data, f - 1, f, at - f);
        data[at - 1] := value;
        InsertedFront(was, f, n, index, value);
      } else {
        back := back + 1;
        MemMove(data, at + 1, at, b - at + 1);
        data[at] := value;
        InsertedBack(was, f, n, index, value);
      }
      CountSingle(nmemb + 1, Inserted(ring[0], index, value));
    }

    /** Shift the shorter side over element `index`. */
    method EraseSingle(index: nat)
      requires Valid() && blockCount == 1 && index < nmemb
      modifies this, blocks, bufs
      ensures Valid() && blockCount == 1 && blocks == old(blocks) && bufs == old(bufs)
      ensures Contents() == old(Contents())[..index] + old(Contents())[index + 1..]
      ensures nmemb == old(nmemb) - 1 && capacity == old(capacity)
      ensures if old(front + index < (front + back) / 2) then front == old(front) + 1 && back == old(back)
        else front == old(front) && back == Decrement(old(back))
    {
      hide Flat, Moved, Single, Ring, Pow2;
      SizesOfLinked();
      OneBlock();
      var f, b := front, back;
      var data := blocks[0].data;
      ghost var was, n := data[..], nmemb;
      var at := index + f;
      if at < (f + b) / 2 {
        front := front + 1;
        MemMove(data, f + 1, f, at - f);
        ErasedFront(was, f, n, index);
      } else {
        back := Decrement(back);
        MemMove(data, at, at + 1, blocks[0].nmemb - index - 1);
        ErasedBack(was, f, n, index);
      }
      CountSingle(nmemb - 1, ring[0][..index] + ring[0][index + 1..]);
    }

    /** Record the new number of elements of the only block. */
    method CountSingle(n: nat, ghost xs: seq<T>)
      requires Sized() && blockCount == 1 && blocks[0].data == bufs[0] && bufs[0].Length == arrCap
      requires |xs| == n && front + n <= arrCap && back == Decrement(front + n)
      requires bufs[0][..][front..front + n] == xs
      modifies `nmemb, `ring, blocks
      ensures Valid() && Single() && Contents() == xs && nmemb == n
    {
      hide Single, Ring, Flat, Pow2;
      blocks[0] := Block(blocks[0].data, n);
      nmemb := n;
      ring := [xs];
      CloseOneBlock();
    }

    lemma OneBlock()
      requires Single()
      ensures Sized() && blocks[0] == Block(bufs[0], |ring[0]|) && bufs[0].Length == arrCap
      ensures ring == [ring[0]] && Contents() == ring[0] && front + |ring[0]| <= arrCap
      ensures back == Decrement(front + |ring[0]|) && bufs[0][..][front..front + |ring[0]|] == ring[0]
    {
      assert ring == [ring[0]];
      FlatOne(ring[0]);
      OneSlice(bufs[0], front, |ring[0]|);
    }

    lemma CloseTwoBlocks()
      requires Sized() && blockCount == 2 == capacity && front == 0 && back == 1
      requires blocks[0] == Block(bufs[0], |ring[0]|) && blocks[1] == Block(bufs[1], |ring[1]|)
      requires bufs[0] != bufs[1] && bufs[0].Length == bufs[1].Length == arrCap
      requires |ring[0]| <= arrCap && bufs[0][..][arrCap - |ring[0]|..] == ring[0]
      requires |ring[1]| <= arrCap && bufs[1][..][..|ring[1]|] == ring[1]
      ensures Ring()
    {
      TwoBlocks(blocks[..], bufs, ring, arrCap);
    }

    lemma CloseOneBlock()
      requires Sized() && blockCount == 1 && blocks[0] == Block(bufs[0], |ring[0]|) && bufs[0].Length == arrCap
      requires front + |ring[0]| <= arrCap && back == Decrement(front + |ring[0]|)
      requires bufs[0][..][front..front + |ring[0]|] == ring[0]
      ensures Single() && Contents() == ring[0]
    {
      assert ring == [ring[0]];
      FlatOne(ring[0]);
      OneSlice(bufs[0], front, |ring[0]|);
    }
  }

  // ---------- Where the code falls short ----------

  /**
    Eight elements pushed at the front and popped at the back leave the block empty at its
    left end. The next push at the front then leaves an empty block in the ring.
   */
  method PushWithoutRoom(value: int) returns (d: Deque<int>, first: int)
    ensures fresh(d) && d.Linked() && !d.Valid() && d.Contents() == [value] && first == value
    ensures d.blockCount == 2 && d.ring == [[value], []]
  {
    hide Deque.Valid, Deque.Linked, Flat, WithFirst, WithLast, Widened;
    d := new Deque<int>(16);
    d.Room();
    while d.front > 0
      invariant fresh(d) && fresh(d.blocks) && fresh(d.bufs) && d.Valid() && d.Linked() && d.blockCount == 1 == d.capacity
      invariant d.nmemb == 8 - d.front && d.arrCap == 16
      decreases d.front
    {
      d.Room();
      d.PushFront(0);
      d.Room();
    }
    while d.nmemb > 0
      invariant fresh(d) && fresh(d.blocks) && fresh(d.bufs) && d.Valid() && d.Linked() && d.blockCount == 1 == d.capacity
      invariant d.front == 0 && d.arrCap == 16
      decreases d.nmemb
    {
      d.Room();
      d.PopBack();
    }
    d.Room();
    d.PushFront(value);
    d.Room();
    assert [value] + [] == [value];
    first := d.Front();
  }

  /** The element that opens a second block, popped at once, takes the first block with it. */
  method PopLosesSurvivor() returns (d: Deque<int>)
    ensures fresh(d) && d.nmemb == 8 && !d.Linked()
    ensures d.blockCount == 1 && d.blocks.Length > 0 && d.blocks[0].data == null
  {
    hide Deque.Valid, Deque.Linked, Flat, WithFirst, WithLast, Widened;
    d := new Deque<int>(16);
    d.Room();
    while d.back < 15
      invariant fresh(d) && fresh(d.blocks) && fresh(d.bufs) && d.Valid() && d.Linked() && d.blockCount == 1 == d.capacity
      invariant d.nmemb == d.back - 7 && d.back <= 15 && d.arrCap == 16
      decreases 15 - d.back
    {
      d.Room();
      d.PushBack(0);
      d.Room();
    }
    d.Room();
    d.PushBack(0);
    d.Room();
    d.PopBack();
  }

  function Inserted<T>(xs: seq<T>, index: nat, value: T): (r: seq<T>)
    requires index <= |xs|
    ensures |r| == |xs| + 1
  {
    xs[..index] + [value] + xs[index..]
  }

  lemma SliceToEnd<T>(s: seq<T>, f: nat, n: nat)
    requires f + n <= |s|
    ensures f == 0 ==> s[..n] == s[f..f + n]
    ensures f + n == |s| ==> s[|s| - n..] == s[f..f + n]
    ensures n == 0 ==> s[|s| - n..] == []
  {
  }

  lemma OneSlice<T>(buf: array<T>, f: nat, n: nat)
    requires f + n <= buf.Length
    ensures buf[..][f..f + n] == buf[f..f + n]
  {
  }

  lemma InsertedFront<T>(was: seq<T>, f: nat, n: nat, index: nat, value: T)
    requires 0 < f && f + n <= |was| && index < n
    ensures var now := Moved(was, f - 1, f, index)[f + index - 1 := value];
      var xs := was[f..f + n];
      now[f - 1..f + n] == Inserted(xs, index, value)
  {
    var now := Moved(was, f - 1, f, index)[f + index - 1 := value];
    var xs := was[f..f + n];
    var at := f + index;
    assert now[f - 1..at - 1] == was[f..at] == xs[..index];
    assert now[at..f + n] == was[at..f + n] == xs[index..];
    SliceAround(now, f - 1, at - 1, f + n);
  }

  lemma InsertedBack<T>(was: seq<T>, f: nat, n: nat, index: nat, value: T)
    requires f + n < |was| && index < n
    ensures var now := Moved(was, f + index + 1, f + index, n - index)[f + index := value];
      var xs := was[f..f + n];
      now[f..f + n + 1] == Inserted(xs, index, value)
  {
    var now := Moved(was, f + index + 1, f + index, n - index)[f + index := value];
    var xs := was[f..f + n];
    var at := f + index;
    assert now[f..at] == was[f..at] == xs[..index];
    assert now[at + 1..f + n + 1] == was[at..f + n] == xs[index..];
    SliceAround(now, f, at, f + n + 1);
  }

  lemma SliceAround<T>(s: seq<T>, from: nat, at: nat, to: nat)
    requires from <= at < to <= |s|
    ensures s[from..to] == s[from..at] + [s[at]] + s[at + 1..to]
  {
  }

  lemma SliceSplit<T>(s: seq<T>, from: nat, at: nat, to: nat)
    requires from <= at <= to <= |s|
    ensures s[from..to] == s[from..at] + s[at..to]
  {
  }

  lemma ErasedFront<T>(was: seq<T>, f: nat, n: nat, index: nat)
    requires f + n <= |was| && index < n
    ensures Moved(was, f + 1, f, index)[f + 1..f + n] == was[f..f + n][..index] + was[f..f + n][index + 1..]
  {
    var now, xs := Moved(was, f + 1, f, index), was[f..f + n];
    var at := f + index;
    assert now[f + 1..at + 1] == was[f..at] == xs[..index];
    assert now[at + 1..f + n] == was[at + 1..f + n] == xs[index + 1..];
    SliceSplit(now, f + 1, at + 1, f + n);
  }

  lemma ErasedBack<T>(was: seq<T>, f: nat, n: nat, index: nat)
    requires f + n <= |was| && index < n
    ensures Moved(was, f + index, f + index + 1, n - index - 1)[f..f + n - 1] == was[f..f + n][..index] + was[f..f + n][index + 1..]
  {
    var now, xs := Moved(was, f + index, f + index + 1, n - index - 1), was[f..f + n];
    var at := f + index;
    assert now[f..at] == was[f..at] == xs[..index];
    assert now[at..f + n - 1] == was[at + 1..f + n] == xs[index + 1..];
    SliceSplit(now, f, at, f + n - 1);
  }

  lemma HoldsFits<B>(slots: seq<B>, front: nat, capacity: nat, ring: seq<B>)
    requires Holds(slots, front, capacity, ring)
    ensures front < capacity <= |slots| && |ring| <= capacity
  {
  }

  lemma AlignedShrunkFront<T>(datas: seq<seq<T>>, ring: seq<seq<T>>, arrCap: nat)
    requires |ring| > 1 && Aligned(datas, ring, arrCap) && FullMiddle(ring, arrCap) && ring[0] != []
    ensures var now := ring[0 := ring[0][1..]]; Aligned(datas, now, arrCap) && FullMiddle(now, arrCap)
  {
    var n := |ring[0]|;
    assert Stored(datas[0], true, ring[0]);
    assert datas[0][arrCap - n..][1..] == datas[0][arrCap - n + 1..];
  }

  lemma AlignedShrunkBack<T>(datas: seq<seq<T>>, ring: seq<seq<T>>, arrCap: nat)
    requires |ring| > 1 && Aligned(datas, ring, arrCap) && FullMiddle(ring, arrCap) && ring[|ring| - 1] != []
    ensures var i := |ring| - 1;
      var now := ring[i := ring[i][..|ring[i]| - 1]];
      Aligned(datas, now, arrCap) && FullMiddle(now, arrCap)
  {
    var i := |ring| - 1;
    var n := |ring[i]| - 1;
    assert Stored(datas[i], false, ring[i]);
    assert datas[i][..n + 1][..n] == datas[i][..n];
  }

  /** The next block was full, so it is right-aligned as a front block must be. */
  lemma RemoveFrontBlock<T>(bufs: seq<array<T>>, ring: seq<seq<T>>, arrCap: nat)
    requires |bufs| == |ring| > 2 && Aligned(Datas(bufs), ring, arrCap) && Distinct(bufs) && FullMiddle(ring, arrCap)
    ensures BlocksOf(bufs[1..], ring[1..]) == BlocksOf(bufs, ring)[1..]
    ensures Aligned(Datas(bufs[1..]), ring[1..], arrCap) && Distinct(bufs[1..]) && FullMiddle(ring[1..], arrCap)
  {
    var datas := Datas(bufs);
    forall j | 0 <= j < |ring| - 1
      ensures |Datas(bufs[1..])[j]| == arrCap && Stored(Datas(bufs[1..])[j], j == 0, ring[1..][j])
    {
      assert Datas(bufs[1..])[j] == datas[j + 1] && ring[1..][j] == ring[j + 1];
      assert Stored(datas[j + 1], false, ring[j + 1]);
    }
    forall j | 0 < j < |ring| - 2
      ensures |ring[1..][j]| == arrCap
    {
      assert |ring[j + 1]| == arrCap;
    }
  }

  lemma RemoveBackBlock<T>(bufs: seq<array<T>>, ring: seq<seq<T>>, arrCap: nat)
    requires |bufs| == |ring| > 2 && Aligned(Datas(bufs), ring, arrCap) && Distinct(bufs) && FullMiddle(ring, arrCap)
    ensures var n := |ring| - 1;
      && BlocksOf(bufs[..n], ring[..n]) == BlocksOf(bufs, ring)[..n]
      && Aligned(Datas(bufs[..n]), ring[..n], arrCap) && Distinct(bufs[..n]) && FullMiddle(ring[..n], arrCap)
  {
    var datas, n := Datas(bufs), |ring| - 1;
    forall j | 0 <= j < n
      ensures |Datas(bufs[..n])[j]| == arrCap && Stored(Datas(bufs[..n])[j], j == 0, ring[..n][j])
    {
      assert Datas(bufs[..n])[j] == datas[j] && ring[..n][j] == ring[j];
      assert Stored(datas[j], j == 0, ring[j]);
    }
  }

  lemma SlotIsFront(front: nat, j: nat, capacity: nat)
    requires front < capacity && j < capacity
    ensures Slot(front, j, capacity) == front <==> j == 0
  {
  }

  lemma StepSlot(front: nat, was: nat, j: nat, capacity: nat)
    requires 0 < j < capacity && was < capacity
    requires front == if was == 0 then capacity - 1 else was - 1
    ensures Slot(front, j, capacity) == Slot(was, j - 1, capacity)
  {
  }

  lemma DistinctAdd<T>(bufs: seq<array<T>>, data: array<T>)
    requires Distinct(bufs) && data !in bufs
    ensures Distinct([data] + bufs) && Distinct(bufs + [data])
  {
    var more := [data] + bufs;
    forall i, j | 0 <= i < j < |more|
      ensures more[i] != more[j]
    {
      assert more[j] == bufs[j - 1];
      if i > 0 {
        assert more[i] == bufs[i - 1];
      }
    }
  }

  /** A full front block is left-aligned too. */
  lemma AlignedAddFront<T>(datas: seq<seq<T>>, ring: seq<seq<T>>, arrCap: nat, data: seq<T>)
    requires |ring| > 1 && Aligned(datas, ring, arrCap) && |ring[0]| == arrCap && |data| == arrCap
    ensures Aligned([data] + datas, [[]] + ring, arrCap)
  {
    assert Stored(datas[0], true, ring[0]);
    forall j | 0 < j <= |ring|
      ensures Stored(([data] + datas)[j], false, ([[]] + ring)[j])
    {
      assert Stored(datas[j - 1], j - 1 == 0, ring[j - 1]);
    }
  }

  lemma FullMiddleAddFront<T>(ring: seq<seq<T>>, arrCap: nat)
    requires |ring| > 1 && FullMiddle(ring, arrCap) && |ring[0]| == arrCap
    ensures FullMiddle([[]] + ring, arrCap)
  {
    forall j | 0 < j < |ring|
      ensures |([[]] + ring)[j]| == arrCap
    {
      assert ([[]] + ring)[j] == ring[j - 1];
    }
  }

  lemma AddFrontBlock<T>(bufs: seq<array<T>>, ring: seq<seq<T>>, arrCap: nat, data: array<T>)
    requires |bufs| == |ring| > 1 && Aligned(Datas(bufs), ring, arrCap) && Distinct(bufs) && FullMiddle(ring, arrCap)
    requires |ring[0]| == arrCap && data.Length == arrCap && data !in bufs
    ensures BlocksOf([data] + bufs, [[]] + ring) == [Block(data, 0)] + BlocksOf(bufs, ring)
    ensures Aligned(Datas([data] + bufs), [[]] + ring, arrCap) && Distinct([data] + bufs) && FullMiddle([[]] + ring, arrCap)
  {
    hide Aligned, Stored, Distinct, FullMiddle;
    assert Datas([data] + bufs) == [data[..]] + Datas(bufs);
    AlignedAddFront(Datas(bufs), ring, arrCap, data[..]);
    DistinctAdd(bufs, data);
    FullMiddleAddFront(ring, arrCap);
  }

  lemma AddBackBlock<T>(bufs: seq<array<T>>, ring: seq<seq<T>>, arrCap: nat, data: array<T>)
    requires |bufs| == |ring| > 1 && Aligned(Datas(bufs), ring, arrCap) && Distinct(bufs) && FullMiddle(ring, arrCap)
    requires |ring[|ring| - 1]| == arrCap && data.Length == arrCap && data !in bufs
    ensures BlocksOf(bufs + [data], ring + [[]]) == BlocksOf(bufs, ring) + [Block(data, 0)]
    ensures Aligned(Datas(bufs + [data]), ring + [[]], arrCap) && Distinct(bufs + [data]) && FullMiddle(ring + [[]], arrCap)
  {
    assert Datas(bufs + [data]) == Datas(bufs) + [data[..]];
    DistinctAdd(bufs, data);
  }

  lemma FlatGrowFront<T>(ring: seq<seq<T>>, value: T)
    requires |ring| > 0
    ensures var now := WithFirst(ring, value); Flat(now) == [value] + Flat(ring) && (NonEmpty(ring) ==> NonEmpty(now))
  {
    var now := WithFirst(ring, value);
    var first, rest := ring[0], Flat(ring[1..]);
    assert now[1..] == ring[1..];
    AppendAssociates([value], first, rest);
  }

  lemma AppendAssociates<T>(a: seq<T>, b: seq<T>, c: seq<T>)
    ensures (a + b) + c == a + (b + c)
  {
  }

  /** Writing before the first element, whether or not a block was added for it. */
  lemma FlatWriteFront<T>(was: seq<seq<T>>, ring: seq<seq<T>>, value: T)
    requires |was| > 0 && (ring == was || ring == Widened(was, true))
    ensures var now := WithFirst(ring, value); Flat(now) == [value] + Flat(was) && (NonEmpty(was) ==> NonEmpty(now))
  {
    if ring == was {
      FlatGrowFront(was, value);
    } else {
      FlatNewFront(was, value);
    }
  }

  lemma FlatWriteBack<T>(was: seq<seq<T>>, ring: seq<seq<T>>, value: T)
    requires |was| > 0 && (ring == was || ring == Widened(was, false))
    ensures var now := WithLast(ring, value); Flat(now) == Flat(was) + [value] && (NonEmpty(was) ==> NonEmpty(now))
  {
    if ring == was {
      FlatGrowBack(was, value);
    } else {
      FlatNewBack(was, value);
    }
  }

  lemma FrontIsShort<T>(was: seq<seq<T>>, ring: seq<seq<T>>, arrCap: nat)
    requires |was| > 0 && arrCap > 0
    requires (ring == was && |was[0]| < arrCap) || ring == Widened(was, true)
    ensures |ring[0]| < arrCap
  {
  }

  lemma BackIsShort<T>(was: seq<seq<T>>, ring: seq<seq<T>>, arrCap: nat)
    requires |was| > 0 && arrCap > 0
    requires (ring == was && |was[|was| - 1]| < arrCap) || ring == Widened(was, false)
    ensures |ring[|ring| - 1]| < arrCap
  {
  }

  lemma FlatNewFront<T>(ring: seq<seq<T>>, value: T)
    requires |ring| > 0
    ensures var now := WithFirst([[]] + ring, value); Flat(now) == [value] + Flat(ring) && (NonEmpty(ring) ==> NonEmpty(now))
  {
    hide Flat;
    var now := WithFirst([[]] + ring, value);
    assert now == [[value]] + ring by {
      assert [value] + [] == [value];
    }
    FlatFront([value], ring);
  }

  lemma FlatGrowBack<T>(ring: seq<seq<T>>, value: T)
    requires |ring| > 0
    ensures var now := WithLast(ring, value); Flat(now) == Flat(ring) + [value] && (NonEmpty(ring) ==> NonEmpty(now))
  {
    hide Flat;
    var n := |ring| - 1;
    var rest, last := ring[..n], ring[n];
    assert ring == rest + [last];
    assert ring[n := last + [value]] == rest + [last + [value]];
    FlatBack(rest, last);
    FlatBack(rest, last + [value]);
    AppendAssociates(Flat(rest), last, [value]);
  }

  lemma FlatNewBack<T>(ring: seq<seq<T>>, value: T)
    requires |ring| > 0
    ensures var now := WithLast(ring + [[]], value); Flat(now) == Flat(ring) + [value] && (NonEmpty(ring) ==> NonEmpty(now))
  {
    hide Flat;
    var now := WithLast(ring + [[]], value);
    assert now == ring + [[value]] by {
      assert [] + [value] == [value];
    }
    FlatBack(ring, [value]);
  }

  lemma StoredAt<T>(data: seq<T>, isFront: bool, xs: seq<T>, i: nat)
    requires Stored(data, isFront, xs) && i < |xs|
    ensures |xs| <= |data| && data[if isFront then |data| - |xs| + i else i] == xs[i]
  {
  }

  lemma FrontStored<T>(data: seq<T>, xs: seq<T>)
    requires Stored(data, true, xs)
    ensures |xs| <= |data| && data[|data| - |xs|..|data|] == xs
  {
  }

  lemma BackStored<T>(data: seq<T>, xs: seq<T>)
    requires Stored(data, false, xs)
    ensures |xs| <= |data| && data[0..|xs|] == xs
  {
  }

  lemma DatasWritten<T>(bufs: seq<array<T>>, datas: seq<seq<T>>, i: nat)
    requires |datas| == |bufs| && i < |bufs|
    requires forall j :: 0 <= j < |bufs| && j != i ==> bufs[j][..] == datas[j]
    ensures Datas(bufs) == datas[i := bufs[i][..]]
  {
  }

  /** Writing next to the elements of block `i` adds one element to it. */
  lemma AlignedWritten<T>(datas: seq<seq<T>>, ring: seq<seq<T>>, arrCap: nat, i: nat, at: nat, value: T, xs: seq<T>)
    requires Aligned(datas, ring, arrCap) && i < |ring| && at < arrCap
    requires |ring[i]| < arrCap
    requires if i == 0 then at == arrCap - |ring[i]| - 1 && xs == [value] + ring[i] else at == |ring[i]| && xs == ring[i] + [value]
    ensures Aligned(datas[i := datas[i][at := value]], ring[i := xs], arrCap)
  {
    var was, now := datas[i], datas[i][at := value];
    assert Stored(was, i == 0, ring[i]);
    if i == 0 {
      assert now[at..] == [value] + was[at + 1..];
    } else {
      assert now[..at + 1] == was[..at] + [value];
    }
  }

  lemma PowAtLeastTwo(k: nat)
    ensures (Pow2(k) == 1 || Pow2(k) >= 2) && Pow2(1) == 2
  {
  }

  lemma BlocksOfUpdate<T>(bufs: seq<array<T>>, ring: seq<seq<T>>, j: nat, xs: seq<T>)
    requires |bufs| == |ring| && j < |ring|
    ensures BlocksOf(bufs, ring[j := xs]) == BlocksOf(bufs, ring)[j := Block(bufs[j], |xs|)]
  {
  }

  /** Two blocks in the first two slots are a ring. */
  lemma TwoBlocks<T>(slots: seq<Block<T>>, bufs: seq<array<T>>, ring: seq<seq<T>>, arrCap: nat)
    requires |bufs| == |ring| == 2 && |slots| >= 2
    requires slots[0] == Block(bufs[0], |ring[0]|) && slots[1] == Block(bufs[1], |ring[1]|)
    requires bufs[0] != bufs[1] && bufs[0].Length == bufs[1].Length == arrCap
    requires |ring[0]| <= arrCap && bufs[0][..][arrCap - |ring[0]|..] == ring[0]
    requires |ring[1]| <= arrCap && bufs[1][..][..|ring[1]|] == ring[1]
    ensures Holds(slots, 0, 2, BlocksOf(bufs, ring)) && FullMiddle(ring, arrCap)
    ensures Aligned(Datas(bufs), ring, arrCap) && Distinct(bufs)
    ensures Slot(0, 1, 2) == 1 && Pow2(1) == 2
  {
  }

  lemma FlatShrinkFront<T>(ring: seq<seq<T>>)
    requires |ring| > 0 && ring[0] != []
    ensures var now := ring[0 := ring[0][1..]]; Flat(now) == Flat(ring)[1..]
  {
    var now := ring[0 := ring[0][1..]];
    assert now[1..] == ring[1..];
    assert (ring[0] + Flat(ring[1..]))[1..] == ring[0][1..] + Flat(ring[1..]);
  }

  lemma FlatShrinkBack<T>(ring: seq<seq<T>>)
    requires |ring| > 0 && ring[|ring| - 1] != []
    ensures var n := |ring| - 1;
      var now := ring[n := ring[n][..|ring[n]| - 1]];
      Flat(ring) != [] && Flat(now) == Flat(ring)[..|Flat(ring)| - 1]
  {
    hide Flat;
    var n := |ring| - 1;
    var rest, last := ring[..n], ring[n];
    var fewer := last[..|last| - 1];
    assert ring == rest + [last];
    assert ring[n := fewer] == rest + [fewer];
    FlatBack(rest, last);
    FlatBack(rest, fewer);
    assert (Flat(rest) + last)[..|Flat(rest)| + |last| - 1] == Flat(rest) + fewer;
  }

  /** An emptied block contributes nothing; two blocks less one leave a single one. */
  lemma FlatDropFront<T>(ring: seq<seq<T>>)
    requires |ring| > 1 && ring[0] == []
    ensures Flat(ring[1..]) == Flat(ring) && (|ring| == 2 ==> ring[1..] == [ring[1]])
  {
  }

  lemma FlatDropBack<T>(ring: seq<seq<T>>)
    requires |ring| > 1 && ring[|ring| - 1] == []
    ensures var n := |ring| - 1;
      Flat(ring[..n]) == Flat(ring) && (n == 1 ==> ring[..n] == [ring[0]])
  {
    hide Flat;
    var n := |ring| - 1;
    assert ring == ring[..n] + [[]];
    FlatBack(ring[..n], []);
    assert Flat(ring[..n]) + [] == Flat(ring[..n]);
  }

  /** The elements of all blocks from the `j`-th on. */
  function Rest<T>(ring: seq<seq<T>>, j: nat): seq<T>
    requires j <= |ring|
  {
    Flat(ring[j..])
  }

  lemma RestAll<T>(ring: seq<seq<T>>)
    ensures Rest(ring, 0) == Flat(ring)
  {
    assert ring[0..] == ring;
  }

  /** An element of the `j`-th block, or of the blocks after it. */
  lemma RestStep<T>(ring: seq<seq<T>>, j: nat, i: nat)
    requires j < |ring| && i < |Rest(ring, j)|
    ensures i < |ring[j]| ==> Rest(ring, j)[i] == ring[j][i]
    ensures i >= |ring[j]| ==>
      var k := i - |ring[j]|; j + 1 < |ring| && k < |Rest(ring, j + 1)| && Rest(ring, j)[i] == Rest(ring, j + 1)[k]
  {
    assert ring[j..][1..] == ring[j + 1..];
    assert Rest(ring, j) == ring[j] + Rest(ring, j + 1);
    assert j + 1 == |ring| ==> ring[j + 1..] == [];
  }

  lemma NonEmptyPair<T>(x: seq<T>, y: seq<T>)
    ensures NonEmpty([x, y]) <==> x != [] && y != []
  {
    assert [x, y][0] == x && [x, y][1] == y;
  }

  lemma FlatFirstOfPair<T>(x: seq<T>, value: T)
    ensures var now := WithFirst([[], x], value);
      now == [[value], x] && Flat(now) == [value] + x && (NonEmpty(now) <==> x != [])
  {
    assert [value] + [] == [value];
    FlatPair([value], x);
    var now := WithFirst([[], x], value);
    assert now == [[value], x];
    assert now[1] == x;
  }

  lemma FlatLastOfPair<T>(x: seq<T>, value: T)
    ensures var now := WithLast([x, []], value);
      now == [x, [value]] && Flat(now) == x + [value] && (NonEmpty(now) <==> x != [])
  {
    assert [] + [value] == [value];
    FlatPair(x, [value]);
    var now := WithLast([x, []], value);
    assert now == [x, [value]];
    assert now[0] == x;
  }

  lemma FlatPair<T>(x: seq<T>, y: seq<T>)
    ensures Flat([x, y]) == x + y
  {
    FlatOne(y);
    assert [x, y] == [x] + [y];
    FlatFront(x, [y]);
  }
}
