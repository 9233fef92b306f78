/**
  Which slots of the paged node allocator are live and which are free: the state
  machine that allocation, freeing and clearing run, on values.
 */
module NodePool {
  import opened Machine

  /** A slot by the position of its page in the page stack and its place in the page. */
  datatype Slot = Slot(page: nat, index: nat)

  /**
    `maxes` and `cursors` belong to the pages from the oldest to the newest, `free` is
    the free list from its head on, and `live` holds what was handed out.
   */
  datatype Pool = Pool(maxes: seq<nat>, cursors: seq<nat>, free: seq<Slot>, live: set<Slot>)

  predicate Below(p: Pool, s: Slot) {
    s.page < |p.cursors| && s.index < p.cursors[s.page]
  }

  /** Pages double in size; all but the newest are full, and only the oldest may be empty. */
  predicate PagesOk(p: Pool) {
    && |p.maxes| == |p.cursors| > 0 && p.maxes[0] > 0
    && (forall i :: 0 < i < |p.maxes| ==> p.maxes[i] == p.maxes[0] * Pow2(i))
    && (forall i :: 0 <= i < |p.cursors| ==> p.cursors[i] <= p.maxes[i])
    && (forall i :: 0 <= i < |p.cursors| - 1 ==> p.cursors[i] == p.maxes[i])
    && (|p.cursors| > 1 ==> p.cursors[|p.cursors| - 1] > 0)
  }

  ghost predicate NoRepeats(free: seq<Slot>) {
    forall i, j :: 0 <= i < j < |free| ==> free[i] != free[j]
  }

  /** Each slot below a cursor is exactly one of live and free; no other slot is either. */
  ghost predicate PoolOk(p: Pool) {
    && PagesOk(p) && NoRepeats(p.free)
    && (forall s :: Below(p, s) <==> s in p.live || s in p.free)
    && (forall s :: s in p.live ==> s !in p.free)
  }

  function NewPool(nmemb: nat): Pool {
    Pool([nmemb], [0], [], {})
  }

  function GrowthPolicy(x: nat): nat {
    x * 2
  }

  function AllocPool(p: Pool): (Pool, Slot)
    requires |p.maxes| == |p.cursors| > 0
  {
    if p.free != [] then (p.(free := p.free[1..], live := p.live + {p.free[0]}), p.free[0])
    else
      var n := |p.cursors| - 1;
      if p.cursors[n] >= p.maxes[n] then
        var s := Slot(n + 1, 0);
        (Pool(p.maxes + [GrowthPolicy(p.maxes[n])], p.cursors + [1], p.free, p.live + {s}), s)
      else
        var s := Slot(n, p.cursors[n]);
        (p.(cursors := p.cursors[n := p.cursors[n] + 1], live := p.live + {s}), s)
  }

  function FreePool(p: Pool, s: Slot): Pool
    requires |p.maxes| == |p.cursors| > 0
  {
    var n := |p.cursors| - 1;
    if p.cursors[n] > 0 && s == Slot(n, p.cursors[n] - 1) then
      if p.cursors[n] == 1 && n > 0 then
        Pool(p.maxes[..n], p.cursors[..n], p.free, p.live - {s})
      else
        p.(cursors := p.cursors[n := p.cursors[n] - 1], live := p.live - {s})
    else p.(free := [s] + p.free, live := p.live - {s})
  }

  function ClearPool(p: Pool): Pool
    requires |p.maxes| == |p.cursors| > 0
  {
    Pool(p.maxes[..1], [0], [], {})
  }

  lemma AllocKeepsPool(p: Pool)
    requires PoolOk(p)
    ensures var (q, s) := AllocPool(p);
      && PoolOk(q) && s !in p.live && q.live == p.live + {s}
      && (p.free != [] ==> p.free == [s] + q.free && q.cursors == p.cursors && q.maxes == p.maxes)
      && (p.free == [] ==> q.free == [] && IsTop(q, s))
      && (p.free == [] ==>
            var n := |p.cursors|;
            |q.cursors| == if p.cursors[n - 1] < p.maxes[n - 1] then n else n + 1)
  {
    var (q, s) := AllocPool(p);
    if p.free != [] {
      AllocFromList(p);
    } else {
      AllocFromPage(p);
    }
  }

  lemma FirstTaken(free: seq<Slot>)
    requires NoRepeats(free) && free != []
    ensures NoRepeats(free[1..]) && free[0] !in free[1..]
    ensures forall s :: s in free <==> s == free[0] || s in free[1..]
  {
    assert free == [free[0]] + free[1..];
  }

  lemma AllocFromList(p: Pool)
    requires PoolOk(p) && p.free != []
    ensures PoolOk(AllocPool(p).0)
  {
    hide NoRepeats, Pow2;
    var q := AllocPool(p).0;
    FirstTaken(p.free);
    assert PagesOk(q);
    forall s
      ensures Below(q, s) <==> s in q.live || s in q.free
    {
      assert Below(p, s) <==> Below(q, s);
    }
  }

  lemma AllocFromPage(p: Pool)
    requires PoolOk(p) && p.free == []
    ensures PoolOk(AllocPool(p).0) && AllocPool(p).1 !in p.live
  {
    var (q, s) := AllocPool(p);
    var n := |p.cursors| - 1;
    assert !Below(p, s);
    if p.cursors[n] >= p.maxes[n] {
      assert q.maxes[n + 1] == p.maxes[0] * Pow2(n + 1);
    }
    assert PagesOk(q);
    forall t
      ensures Below(q, t) <==> t in q.live || t in q.free
    {
      assert Below(q, t) <==> Below(p, t) || t == s;
    }
  }

  /** The slot handed out from the newest page while it has room. */
  lemma AllocHere(p: Pool)
    requires PagesOk(p) && p.free == [] && p.cursors[|p.cursors| - 1] < p.maxes[|p.cursors| - 1]
    ensures var n := |p.cursors| - 1;
      var (q, s) := AllocPool(p);
      q.maxes == p.maxes && q.cursors == p.cursors[n := p.cursors[n] + 1] && q.free == [] && s == Slot(n, p.cursors[n])
  {
  }

  /** The first slot of a new page when the newest one is full. */
  lemma AllocThere(p: Pool)
    requires PagesOk(p) && p.free == [] && p.cursors[|p.cursors| - 1] >= p.maxes[|p.cursors| - 1]
    ensures var n := |p.cursors|;
      var (q, s) := AllocPool(p);
      && q.maxes == p.maxes + [GrowthPolicy(p.maxes[n - 1])] && q.cursors == (p.cursors + [0])[n := 1]
      && q.free == [] && s == Slot(n, 0)
  {
  }

  lemma LiveSlot(p: Pool, s: Slot)
    requires PoolOk(p) && s in p.live
    ensures Below(p, s) && s !in p.free && PagesOk(p) && s.index < p.maxes[s.page]
  {
  }

  lemma FreeKeepsPool(p: Pool, s: Slot)
    requires PoolOk(p) && s in p.live
    ensures PoolOk(FreePool(p, s)) && FreePool(p, s).live == p.live - {s}
    ensures var q := FreePool(p, s);
      if IsTop(p, s) then
        && q.free == p.free && !Below(q, s)
        && |q.cursors| == |p.cursors| - if s.index == 0 && s.page > 0 then 1 else 0
      else q.free == [s] + p.free && q.cursors == p.cursors && q.maxes == p.maxes
  {
    var q := FreePool(p, s);
    var n := |p.cursors| - 1;
    assert Below(p, s);
    assert PagesOk(q);
    if p.cursors[n] > 0 && s == Slot(n, p.cursors[n] - 1) {
      forall t
        ensures Below(q, t) <==> t in q.live || t in q.free
      {
        assert Below(q, t) <==> Below(p, t) && t != s;
      }
    } else {
      forall t
        ensures Below(q, t) <==> t in q.live || t in q.free
      {
        assert Below(q, t) <==> Below(p, t);
      }
    }
  }

  /** When freeing gives up the newest page, nothing in it is live or on the free list. */
  lemma GivenUpPageIsDead(p: Pool, s: Slot)
    requires PoolOk(p) && s in p.live && |FreePool(p, s).cursors| < |p.cursors|
    ensures forall t :: t in FreePool(p, s).live || t in FreePool(p, s).free ==> t.page < |p.cursors| - 1
  {
    FreeKeepsPool(p, s);
    var q := FreePool(p, s);
    forall t | t in q.live || t in q.free
      ensures t.page < |p.cursors| - 1
    {
      assert Below(q, t);
    }
  }

  /** Any other slot becomes the head of the free list. */
  lemma FreeAside(p: Pool, s: Slot)
    requires |p.maxes| == |p.cursors| > 0 && !IsTop(p, s)
    ensures FreePool(p, s) == Pool(p.maxes, p.cursors, [s] + p.free, p.live - {s})
  {
  }

  /** Freeing the slot handed out last from a page that keeps other slots. */
  lemma FreeLastSlot(p: Pool, s: Slot)
    requires PagesOk(p) && p.cursors[|p.cursors| - 1] > 0
    requires s == Slot(|p.cursors| - 1, p.cursors[|p.cursors| - 1] - 1)
    requires p.cursors[|p.cursors| - 1] > 1 || |p.cursors| == 1
    ensures var n := |p.cursors| - 1;
      FreePool(p, s) == Pool(p.maxes, p.cursors[n := p.cursors[n] - 1], p.free, p.live - {s})
  {
  }

  /** Freeing the only slot of a page that is not the oldest. */
  lemma FreeLastPage(p: Pool, s: Slot)
    requires PagesOk(p) && |p.cursors| > 1 && p.cursors[|p.cursors| - 1] == 1 && s == Slot(|p.cursors| - 1, 0)
    ensures var n := |p.cursors| - 1;
      FreePool(p, s) == Pool(p.maxes[..n], p.cursors[..n], p.free, p.live - {s})
  {
  }

  lemma ClearKeepsPool(p: Pool)
    requires PoolOk(p)
    ensures PoolOk(ClearPool(p)) && ClearPool(p).live == {} && ClearPool(p).free == []
    ensures ClearPool(p) == NewPool(p.maxes[0]) && forall s :: !Below(ClearPool(p), s)
  {
    assert forall s :: !Below(ClearPool(p), s);
  }

  /** The slot handed out last from the newest page. */
  predicate IsTop(p: Pool, s: Slot)
    requires |p.cursors| > 0
  {
    var n := |p.cursors| - 1;
    p.cursors[n] > 0 && s == Slot(n, p.cursors[n] - 1)
  }

  /**
    Freeing the slot just handed out undoes the allocation, except when it came from the
    free list and is the last one below the cursor: then the cursor shrinks instead.
   */
  lemma AllocFreeUndone(p: Pool)
    requires PoolOk(p)
    ensures var (q, s) := AllocPool(p);
      FreePool(q, s) == p <==> p.free == [] || !IsTop(p, p.free[0])
  {
    hide PoolOk, PagesOk, AllocPool, FreePool;
    PoolPages(p);
    AllocKeepsPool(p);
    var (q, s) := AllocPool(p);
    if p.free != [] {
      FreeKeepsPool(q, s);
      UndoneFromList(p);
    } else {
      UndoneFromPage(p);
    }
  }

  lemma UndoneFromList(p: Pool)
    requires PoolOk(p) && p.free != []
    ensures var (q, s) := AllocPool(p);
      && (IsTop(q, s) <==> IsTop(p, p.free[0]))
      && (!IsTop(q, s) ==> FreePool(q, s) == p)
      && (IsTop(q, s) ==> FreePool(q, s).free == p.free[1..])
  {
    hide NoRepeats, Pow2, PagesOk;
    assert p.free[0] in p.free;
    assert p.free == [p.free[0]] + p.free[1..];
    assert p.live + {p.free[0]} - {p.free[0]} == p.live;
  }

  lemma UndoneFromPage(p: Pool)
    requires PoolOk(p) && p.free == []
    ensures var (q, s) := AllocPool(p); FreePool(q, s) == p
  {
    hide PoolOk, PagesOk, AllocPool, FreePool;
    PoolPages(p);
    AllocKeepsPool(p);
    var (q, s) := AllocPool(p);
    PoolPages(q);
    assert q.live - {s} == p.live;
    var n := |p.cursors|;
    if p.cursors[n - 1] < p.maxes[n - 1] {
      AllocHere(p);
      assert q.cursors[n - 1 := p.cursors[n - 1]] == p.cursors;
      FreeHere(q, s);
    } else {
      AllocThere(p);
      assert q.maxes[..n] == p.maxes && q.cursors[..n] == p.cursors;
      FreeLastPage(q, s);
    }
  }

  lemma PoolPages(p: Pool)
    requires PoolOk(p)
    ensures PagesOk(p) && |p.maxes| == |p.cursors| > 0
    ensures |p.cursors| > 1 ==> p.cursors[|p.cursors| - 1] > 0
  {
  }

  lemma FreeHere(p: Pool, s: Slot)
    requires PagesOk(p) && IsTop(p, s) && (s.index > 0 || s.page == 0)
    ensures FreePool(p, s) == Pool(p.maxes, p.cursors[s.page := s.index], p.free, p.live - {s})
  {
    FreeLastSlot(p, s);
  }

  // ---------- Runs ----------

  datatype Operation = Alloc | Free(slot: Slot) | Clear

  /** Only live slots may be freed. */
  predicate Legal(p: Pool, op: Operation) {
    op.Free? ==> op.slot in p.live
  }

  function Apply(p: Pool, op: Operation): (q: Pool)
    requires |p.maxes| == |p.cursors| > 0
    ensures |q.maxes| == |q.cursors| > 0
  {
    match op
    case Alloc => AllocPool(p).0
    case Free(s) => FreePool(p, s)
    case Clear => ClearPool(p)
  }

  function Run(nmemb: nat, ops: seq<Operation>): (q: Pool)
    ensures |q.maxes| == |q.cursors| > 0
  {
    if ops == [] then NewPool(nmemb) else Apply(Run(nmemb, ops[..|ops| - 1]), ops[|ops| - 1])
  }

  predicate LegalRun(nmemb: nat, ops: seq<Operation>) {
    ops == [] || (LegalRun(nmemb, ops[..|ops| - 1]) && Legal(Run(nmemb, ops[..|ops| - 1]), ops[|ops| - 1]))
  }

  /** In every reachable state the slots below the cursors are split into live and free. */
  lemma {:induction false} RunKeepsPool(nmemb: nat, ops: seq<Operation>)
    requires nmemb > 0 && LegalRun(nmemb, ops)
    ensures PoolOk(Run(nmemb, ops)) && Run(nmemb, ops).maxes[0] == nmemb
  {
    if ops == [] {
      assert forall s :: !Below(NewPool(nmemb), s);
    } else {
      RunKeepsPool(nmemb, ops[..|ops| - 1]);
      var p := Run(nmemb, ops[..|ops| - 1]);
      match ops[|ops| - 1]
      case Alloc => AllocKeepsPool(p);
      case Free(s) => FreeKeepsPool(p, s);
      case Clear => ClearKeepsPool(p);
    }
  }
}
