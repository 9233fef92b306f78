/**
  The tree as the code stores it: keys and values lie in slots of the node allocator, and
  a node refers to the slot that holds its pair. Deletion copies that reference out of a
  node whose slot it then frees, so a later insertion may write over a pair still in use.
  Here is the exact condition under which that does no harm. The link that the free list
  writes into a freed slot lies before the pair and does not touch it.
 */
module RbSlots {
  import opened RbShape
  import opened RbMap
  import NodePool

  type Slot = NodePool.Slot
  type Pool = NodePool.Pool

  datatype Pair = Pair(key: Key, value: Value)

  /** The slot a node lies in, and the slot its key and value pointers lead to. */
  datatype Place = Place(home: Slot, pair: Slot)

  /**
    `tree` holds what the nodes read at present. `store` holds the pairs in the slots of
    all existing pages that were ever written, whether live or free.
   */
  datatype State = State(tree: Tree, places: TreeNode -> Place, store: map<Slot, Pair>, pool: Pool)

  predicate HasPages(st: State) {
    |st.pool.maxes| == |st.pool.cursors| > 0
  }

  function Elements(s: seq<Entry>): set<Entry> {
    set e | e in s
  }

  function Entries(t: Tree): set<Entry> {
    Elements(Inorder(t))
  }

  // ---------- Reading through the references ----------

  function Read(e: Entry, places: TreeNode -> Place, store: map<Slot, Pair>): Entry {
    var slot := places(e.node).pair;
    if slot in store then Entry(e.node, store[slot].key, store[slot].value) else e
  }

  /** The same nodes, each with what it reads from `store`. */
  function Reload(t: Tree, places: TreeNode -> Place, store: map<Slot, Pair>): Tree {
    match t
    case Leaf => Leaf
    case Node(cell, left, right) =>
      Node(cell.(entry := Read(cell.entry, places, store)),
           Reload(left, places, store), Reload(right, places, store))
  }

  lemma {:induction false} ReloadEntries(t: Tree, places: TreeNode -> Place, store: map<Slot, Pair>)
    ensures forall d :: d in Entries(Reload(t, places, store)) ==>
      exists e :: e in Entries(t) && d == Read(e, places, store)
  {
    if t.Node? {
      hide Read, Entries;
      ReloadEntries(t.left, places, store);
      ReloadEntries(t.right, places, store);
      InNode(t);
      InNode(Reload(t, places, store));
    }
  }

  lemma {:induction false} ReloadSame(t: Tree, places: TreeNode -> Place, store: map<Slot, Pair>)
    requires forall e :: e in Entries(t) ==> Read(e, places, store) == e
    ensures Reload(t, places, store) == t
  {
    if t.Node? {
      hide Read, Entries;
      InNode(t);
      ReloadSame(t.left, places, store);
      ReloadSame(t.right, places, store);
    }
  }

  lemma InNode(t: Tree)
    requires t.Node?
    ensures Entries(t) == Entries(t.left) + {t.cell.entry} + Entries(t.right)
  {
  }

  // ---------- The operations as written ----------

  /** The node that a deletion at `s` frees. */
  function DoomedNode(s: Tree): TreeNode
    requires s.Node?
  {
    if s.left.Node? && s.right.Node? then Predecessor(s).node else s.cell.entry.node
  }

  /** A new node takes a slot and fills it; a present key's value is written where its node points. */
  function InsertStep(cmp: (Key, Key) -> int, st: State, node: TreeNode, key: Key, value: Value): (r: State)
    requires HasPages(st)
    ensures HasPages(r)
  {
    var s := LookupTree(cmp, st.tree, key);
    var tree := InsertTree(cmp, st.tree, node, key, value);
    if s.Leaf? then
      var (pool, slot) := NodePool.AllocPool(st.pool);
      var places := (n: TreeNode) => if n == node then Place(slot, slot) else st.places(n);
      var store := st.store[slot := Pair(key, value)];
      State(Reload(tree, places, store), places, store, pool)
    else
      var slot := st.places(s.cell.entry.node).pair;
      var store := if slot in st.store then st.store[slot := Pair(st.store[slot].key, value)] else st.store;
      State(Reload(tree, st.places, store), st.places, store, st.pool)
  }

  /** With two children the reference to the predecessor's pair is copied up. */
  function DeleteStep(cmp: (Key, Key) -> int, st: State, key: Key): (r: State)
    requires HasPages(st)
    ensures HasPages(r)
  {
    var s := LookupTree(cmp, st.tree, key);
    if s.Leaf? then st
    else
      var node, gone := s.cell.entry.node, DoomedNode(s);
      var pair := st.places(gone).pair;
      var places := (n: TreeNode) => if n == node then Place(st.places(node).home, pair) else st.places(n);
      var pool := NodePool.FreePool(st.pool, st.places(gone).home);
      var store := map slot | slot in st.store && slot.page < |pool.cursors| :: st.store[slot];
      State(DeleteTree(cmp, st.tree, key), places, store, pool)
  }

  function ClearStep(st: State): (r: State)
    requires HasPages(st)
    ensures HasPages(r)
  {
    State(Leaf, st.places, map[], NodePool.ClearPool(st.pool))
  }

  function Step(cmp: (Key, Key) -> int, st: State, op: Operation): (r: State)
    requires HasPages(st)
    ensures HasPages(r)
  {
    match op
    case Insert(node, key, value) => InsertStep(cmp, st, node, key, value)
    case Delete(key) => DeleteStep(cmp, st, key)
    case Clear => ClearStep(st)
  }

  // ---------- What a state stands for ----------

  /** The node of `e` reads its key and value. */
  predicate Reads(st: State, e: Entry) {
    var slot := st.places(e.node).pair;
    slot in st.store && st.store[slot] == Pair(e.key, e.value)
  }

  /** Every node's pair can be read, and what is read makes a search tree for `m`. */
  ghost predicate StandsFor(cmp: (Key, Key) -> int, st: State, m: map<Key, Value>) {
    && (forall e :: e in Entries(st.tree) ==> Reads(st, e))
    && SearchTree(cmp, st.tree) && MapOf(Inorder(st.tree)) == m
  }

  /** The slots that the nodes of the tree lie in. */
  ghost function Homes(st: State): set<Slot> {
    set e | e in Entries(st.tree) :: st.places(e.node).home
  }

  /** The live slots are those of the nodes; each node has its own, and a pair slot of its own. */
  ghost predicate Placed(st: State) {
    && HasPages(st) && NodePool.PoolOk(st.pool)
    && (forall slot :: slot in st.store ==> slot.page < |st.pool.cursors|)
    && st.pool.live == Homes(st)
    && (forall d, e :: d in Entries(st.tree) && e in Entries(st.tree) && d != e ==>
          Apart(st.places(d.node), st.places(e.node)))
  }

  predicate Apart(a: Place, b: Place) {
    a.home != b.home && a.pair != b.pair
  }

  ghost predicate Sound(cmp: (Key, Key) -> int, st: State) {
    Placed(st) && StandsFor(cmp, st, MapOf(Inorder(st.tree)))
  }

  /** A new node is none of the tree's nodes. */
  ghost predicate Legal(st: State, op: Operation) {
    op.Insert? ==> forall e :: e in Entries(st.tree) ==> e.node != op.node
  }

  // ---------- Exactly when an operation is right ----------

  /** The slot that the allocator hands out next holds the pair of no node. */
  ghost predicate InsertIsSafe(cmp: (Key, Key) -> int, st: State, key: Key)
    requires HasPages(st)
  {
    || LookupTree(cmp, st.tree, key).Node?
    || forall e :: e in Entries(st.tree) ==> st.places(e.node).pair != NodePool.AllocPool(st.pool).1
  }

  /** A page given up by the deletion holds the pair of no other key. */
  ghost predicate DeleteIsSafe(cmp: (Key, Key) -> int, st: State, key: Key)
    requires HasPages(st)
  {
    var s := LookupTree(cmp, st.tree, key);
    || s.Leaf?
    || |NodePool.FreePool(st.pool, st.places(DoomedNode(s)).home).cursors| == |st.pool.cursors|
    || forall e :: e in Entries(st.tree) && e.key != key ==> st.places(e.node).pair.page < |st.pool.cursors| - 1
  }

  ghost predicate Safe(cmp: (Key, Key) -> int, st: State, op: Operation)
    requires HasPages(st)
  {
    match op
    case Insert(_, key, _) => InsertIsSafe(cmp, st, key)
    case Delete(key) => DeleteIsSafe(cmp, st, key)
    case Clear => true
  }

  // ---------- Which entries an operation leaves ----------

  lemma SortedDistinct(cmp: (Key, Key) -> int, s: seq<Entry>)
    requires TotalOrder(cmp) && Sorted(cmp, s)
    ensures forall d, e :: d in Elements(s) && e in Elements(s) && d.key == e.key ==> d == e
  {
    forall d, e | d in Elements(s) && e in Elements(s) && d.key == e.key
      ensures d == e
    {
      var i :| 0 <= i < |s| && s[i] == d;
      var j :| 0 <= j < |s| && s[j] == e;
      assert cmp(d.key, e.key) == 0;
      assert i == j;
    }
  }

  /** An absent key adds one entry. */
  lemma InsertedEntries(cmp: (Key, Key) -> int, t: Tree, node: TreeNode, key: Key, value: Value)
    requires TotalOrder(cmp) && SearchTree(cmp, t) && LookupTree(cmp, t, key).Leaf?
    ensures Entries(InsertTree(cmp, t, node, key, value)) == Entries(t) + {Entry(node, key, value)}
  {
    hide TotalOrder, SearchTree, InsertFix, Descend, Around;
    DescendWhole(cmp, t, key);
    var (p, s) := Descend(cmp, Top, t, key);
    var n := Node(Cell(Entry(node, key, value), Red), Leaf, Leaf);
    InsertFixInorder(p, n);
    assert Inorder(n) == [Entry(node, key, value)];
    AroundIs(p, Inorder(n));
    AroundIs(p, []);
  }

  /** A present key keeps its node and changes its value. */
  lemma OverwrittenEntries(cmp: (Key, Key) -> int, t: Tree, node: TreeNode, key: Key, value: Value)
    requires TotalOrder(cmp) && SearchTree(cmp, t) && LookupTree(cmp, t, key).Node?
    ensures var o := LookupTree(cmp, t, key).cell.entry;
      && o in Entries(t) && o.key == key
      && Entries(InsertTree(cmp, t, node, key, value)) == Entries(t) - {o} + {Entry(o.node, key, value)}
  {
    hide TotalOrder, Sorted, RedBlack, InsertFix, Descend, Around, Inorder, Elements;
    LookupCorrect(cmp, t, key);
    DescendWhole(cmp, t, key);
    var (p, s) := Descend(cmp, Top, t, key);
    var u := Overwrite(s, value);
    PlugInorder(p, u);
    RootSplits(p, s);
    RootSplits(p, u);
    var l, r := Before(p) + Inorder(s.left), Inorder(s.right) + After(p);
    InRow(cmp, l, s.cell.entry, r);
    InRow(cmp, l, u.cell.entry, r);
  }

  lemma InRow(cmp: (Key, Key) -> int, l: seq<Entry>, e: Entry, r: seq<Entry>)
    ensures Elements(l + [e] + r) == Elements(l) + {e} + Elements(r)
    ensures TotalOrder(cmp) && Sorted(cmp, l + [e] + r) ==> e !in Elements(l) && e !in Elements(r)
  {
    if TotalOrder(cmp) && Sorted(cmp, l + [e] + r) {
      SortedAround(cmp, l, e, r);
      assert cmp(e.key, e.key) == 0;
    }
  }

  /** A deleted entry goes; with two children its left neighbour's pair moves into its node. */
  lemma DeletedEntries(cmp: (Key, Key) -> int, t: Tree, key: Key)
    requires TotalOrder(cmp) && SearchTree(cmp, t) && LookupTree(cmp, t, key).Node?
    ensures var s := LookupTree(cmp, t, key);
      var o := s.cell.entry;
      && o in Entries(t) && o.key == key
      && if s.left.Node? && s.right.Node? then
           var d := Predecessor(s);
           && d in Entries(t) && d != o
           && Entries(DeleteTree(cmp, t, key)) == Entries(t) - {o, d} + {Entry(o.node, d.key, d.value)}
         else
           Entries(DeleteTree(cmp, t, key)) == Entries(t) - {o}
  {
    hide TotalOrder, Sorted, RedBlack, Descend, Around, Inorder, Doomed, Unlink, Predecessor, Elements;
    LookupCorrect(cmp, t, key);
    DescendWhole(cmp, t, key);
    var (p, s) := Descend(cmp, Top, t, key);
    var o := s.cell.entry;
    var l, kept, r := DoomedCorrect(p, s);
    InRow(cmp, l + kept, o, r);
    InPair(l, r);
    if s.left.Node? && s.right.Node? {
      var d := Predecessor(s);
      SortedAround(cmp, l + [d], o, r);
      InRow(cmp, l, d, r);
      InRow(cmp, l, Entry(o.node, d.key, d.value), r);
      InRow(cmp, l, d, []);
      assert l + [d] + [] == l + [d];
    } else {
      assert l + [] == l;
    }
  }

  lemma InPair(l: seq<Entry>, r: seq<Entry>)
    ensures Elements(l + r) == Elements(l) + Elements(r) && Elements([]) == {}
  {
  }

  // ---------- One step ----------

  lemma AllocatedSlot(p: Pool)
    requires NodePool.PoolOk(p)
    ensures var (q, slot) := NodePool.AllocPool(p);
      && NodePool.PoolOk(q) && slot !in p.live && q.live == p.live + {slot}
      && slot.page < |q.cursors| && |p.cursors| <= |q.cursors|
  {
    NodePool.AllocKeepsPool(p);
    var (q, slot) := NodePool.AllocPool(p);
    assert NodePool.Below(q, slot);
  }

  lemma InsertAbsentSafe(cmp: (Key, Key) -> int, st: State, node: TreeNode, key: Key, value: Value)
    requires TotalOrder(cmp) && Sound(cmp, st) && Legal(st, Insert(node, key, value))
    requires LookupTree(cmp, st.tree, key).Leaf? && InsertIsSafe(cmp, st, key)
    ensures var r := InsertStep(cmp, st, node, key, value);
      Sound(cmp, r) && r.tree == InsertTree(cmp, st.tree, node, key, value)
  {
    hide TotalOrder, Sorted, RedBlack, MapOf, Inorder, InsertTree, LookupTree, NodePool.PoolOk;
    hide NodePool.AllocPool;
    InsertedEntries(cmp, st.tree, node, key, value);
    InsertCorrect(cmp, st.tree, node, key, value);
    AllocatedSlot(st.pool);
    var r := InsertStep(cmp, st, node, key, value);
    var tree := InsertTree(cmp, st.tree, node, key, value);
    var slot := NodePool.AllocPool(st.pool).1;
    assert r.store == st.store[slot := Pair(key, value)];
    assert r.places(node) == Place(slot, slot);
    forall e | e in Entries(tree)
      ensures Reads(r, e) && Read(e, r.places, r.store) == e
    {
      if e in Entries(st.tree) {
        assert e.node != node;
        assert r.places(e.node) == st.places(e.node);
        assert Reads(st, e);
        assert st.places(e.node).pair != slot;
      } else {
        assert e == Entry(node, key, value);
      }
    }
    ReloadSame(tree, r.places, r.store);
  }

  /** Writing over the pair of the node of `x` takes the key of `x` out of the map. */
  lemma InsertLosesKey(cmp: (Key, Key) -> int, st: State, node: TreeNode, key: Key, value: Value, x: Entry)
    requires TotalOrder(cmp) && Sound(cmp, st) && Legal(st, Insert(node, key, value))
    requires LookupTree(cmp, st.tree, key).Leaf?
    requires x in Entries(st.tree) && st.places(x.node).pair == NodePool.AllocPool(st.pool).1
    ensures x.key in MapOf(Inorder(st.tree)) && x.key != key
    ensures x.key !in MapOf(Inorder(InsertStep(cmp, st, node, key, value).tree))
  {
    hide TotalOrder, Sorted, RedBlack, MapOf, Inorder, InsertTree, LookupTree, Elements, NodePool.PoolOk;
    hide NodePool.AllocPool, Reload;
    InsertedEntries(cmp, st.tree, node, key, value);
    LookupCorrect(cmp, st.tree, key);
    KeyOf(cmp, Inorder(st.tree), x);
    SortedDistinct(cmp, Inorder(st.tree));
    var r := InsertStep(cmp, st, node, key, value);
    var tree := InsertTree(cmp, st.tree, node, key, value);
    ReloadEntries(tree, r.places, r.store);
    forall d | d in Entries(r.tree)
      ensures d.key != x.key
    {
      var e :| e in Entries(tree) && d == Read(e, r.places, r.store);
      if e in Entries(st.tree) {
        assert Reads(st, e) && e.node != node;
      }
    }
    NoKey(Inorder(r.tree), x.key);
  }

  lemma NoKey(s: seq<Entry>, k: Key)
    requires forall e :: e in Elements(s) ==> e.key != k
    ensures k !in MapOf(s)
  {
    MapOfKeys(s);
  }

  lemma KeyOf(cmp: (Key, Key) -> int, s: seq<Entry>, e: Entry)
    requires TotalOrder(cmp) && Sorted(cmp, s) && e in Elements(s)
    ensures e.key in MapOf(s) && MapOf(s)[e.key] == e.value
  {
    var i :| 0 <= i < |s| && s[i] == e;
    MapOfHas(cmp, s, i);
  }

  /** From a sound state an absent key is inserted correctly exactly when its slot is unused. */
  lemma InsertAbsentExact(cmp: (Key, Key) -> int, st: State, node: TreeNode, key: Key, value: Value)
    requires TotalOrder(cmp) && Sound(cmp, st) && Legal(st, Insert(node, key, value))
    requires LookupTree(cmp, st.tree, key).Leaf?
    ensures var r, m := InsertStep(cmp, st, node, key, value), MapOf(Inorder(st.tree))[key := value];
      && (StandsFor(cmp, r, m) <==> InsertIsSafe(cmp, st, key))
      && (InsertIsSafe(cmp, st, key) ==> Sound(cmp, r) && r.tree == InsertTree(cmp, st.tree, node, key, value))
  {
    hide TotalOrder, Sorted, RedBlack, MapOf, Inorder, InsertTree, LookupTree, NodePool.PoolOk;
    hide NodePool.AllocPool, InsertStep, Reads, Apart;
    InsertCorrect(cmp, st.tree, node, key, value);
    if InsertIsSafe(cmp, st, key) {
      InsertAbsentSafe(cmp, st, node, key, value);
    } else {
      var x :| x in Entries(st.tree) && st.places(x.node).pair == NodePool.AllocPool(st.pool).1;
      InsertLosesKey(cmp, st, node, key, value, x);
    }
  }

  /** Writing the value of a present key through its node is always right in a sound state. */
  lemma OverwriteExact(cmp: (Key, Key) -> int, st: State, node: TreeNode, key: Key, value: Value)
    requires TotalOrder(cmp) && Sound(cmp, st) && LookupTree(cmp, st.tree, key).Node?
    ensures var r := InsertStep(cmp, st, node, key, value);
      && Sound(cmp, r) && r.tree == InsertTree(cmp, st.tree, node, key, value)
      && MapOf(Inorder(r.tree)) == MapOf(Inorder(st.tree))[key := value]
  {
    hide TotalOrder, Sorted, RedBlack, MapOf, Inorder, InsertTree, LookupTree, Entries, NodePool.PoolOk;
    OverwrittenEntries(cmp, st.tree, node, key, value);
    InsertCorrect(cmp, st.tree, node, key, value);
    var o := LookupTree(cmp, st.tree, key).cell.entry;
    var r := InsertStep(cmp, st, node, key, value);
    var tree := InsertTree(cmp, st.tree, node, key, value);
    assert Reads(st, o);
    forall e | e in Entries(tree)
      ensures Reads(r, e) && Read(e, r.places, r.store) == e
    {
      assert e in Entries(st.tree) ==> Reads(st, e);
    }
    ReloadSame(tree, r.places, r.store);
  }

  /** The pages after a live slot was freed: all of them, or all but the newest. */
  lemma FreedSlot(p: Pool, slot: Slot)
    requires NodePool.PoolOk(p) && slot in p.live
    ensures var q := NodePool.FreePool(p, slot);
      && NodePool.PoolOk(q) && q.live == p.live - {slot}
      && |p.cursors| - 1 <= |q.cursors| <= |p.cursors|
  {
    NodePool.FreeKeepsPool(p, slot);
  }

  /** Which entry of the old tree the pair of `e` came from after deleting `o`. */
  function Source(s: Tree, e: Entry): Entry
    requires s.Node?
  {
    if s.left.Node? && s.right.Node? && e.node == s.cell.entry.node then Predecessor(s) else e
  }

  /** After a deletion every node left has its own home, and the pair it had before under the same key. */
  lemma PlacesAfterDelete(cmp: (Key, Key) -> int, st: State, key: Key, e: Entry)
    requires TotalOrder(cmp) && Sound(cmp, st) && LookupTree(cmp, st.tree, key).Node?
    requires e in Entries(DeleteTree(cmp, st.tree, key))
    ensures var s, r := LookupTree(cmp, st.tree, key), DeleteStep(cmp, st, key);
      var f := Source(s, e);
      && f in Entries(st.tree) && f.key != key && f.key == e.key && f.value == e.value
      && r.places(e.node) == Place(st.places(e.node).home, st.places(f.node).pair)
      && st.places(e.node).home in st.pool.live && st.places(e.node).home != st.places(DoomedNode(s)).home
  {
    hide TotalOrder, Sorted, RedBlack, MapOf, Inorder, DeleteTree, LookupTree, Entries, NodePool.PoolOk;
    hide NodePool.FreePool, Predecessor;
    DeletedEntries(cmp, st.tree, key);
    var s := LookupTree(cmp, st.tree, key);
    var o := s.cell.entry;
    SortedDistinct(cmp, Inorder(st.tree));
    assert Entries(st.tree) == Elements(Inorder(st.tree)) by { EntriesAre(st.tree); }
    if e in Entries(st.tree) - {o} {
      assert Apart(st.places(e.node), st.places(o.node));
    } else {
      assert e.node == o.node && Apart(st.places(o.node), st.places(Predecessor(s).node));
    }
  }

  /** Nodes left by a deletion still lie apart, and so do their pairs. */
  lemma RemainApart(cmp: (Key, Key) -> int, st: State, key: Key, d: Entry, e: Entry)
    requires TotalOrder(cmp) && Sound(cmp, st) && LookupTree(cmp, st.tree, key).Node?
    requires d in Entries(DeleteTree(cmp, st.tree, key)) && e in Entries(DeleteTree(cmp, st.tree, key)) && d != e
    ensures var r := DeleteStep(cmp, st, key); Apart(r.places(d.node), r.places(e.node))
  {
    hide TotalOrder, Sorted, RedBlack, MapOf, Inorder, DeleteTree, LookupTree, Entries, NodePool.PoolOk;
    hide NodePool.FreePool, Predecessor;
    DeletedEntries(cmp, st.tree, key);
    var s := LookupTree(cmp, st.tree, key);
    var o := s.cell.entry;
    var new_ := if s.left.Node? && s.right.Node? then Entry(o.node, Predecessor(s).key, Predecessor(s).value) else o;
    assert d != new_ ==> Apart(st.places(d.node), st.places(o.node));
    assert e != new_ ==> Apart(st.places(e.node), st.places(o.node));
  }

  lemma EntriesAre(t: Tree)
    ensures Entries(t) == Elements(Inorder(t))
  {
  }

  /** Conversely every pair under another key is kept by some node. */
  lemma PairKept(cmp: (Key, Key) -> int, st: State, key: Key, f: Entry) returns (e: Entry)
    requires TotalOrder(cmp) && Sound(cmp, st) && LookupTree(cmp, st.tree, key).Node?
    requires f in Entries(st.tree) && f.key != key
    ensures e in Entries(DeleteTree(cmp, st.tree, key)) && Source(LookupTree(cmp, st.tree, key), e) == f
  {
    hide TotalOrder, Sorted, RedBlack, MapOf, Inorder, DeleteTree, LookupTree, Entries, NodePool.PoolOk;
    hide Predecessor;
    DeletedEntries(cmp, st.tree, key);
    var s := LookupTree(cmp, st.tree, key);
    var o := s.cell.entry;
    assert Apart(st.places(f.node), st.places(o.node));
    e := if s.left.Node? && s.right.Node? && f == Predecessor(s) then Entry(o.node, f.key, f.value) else f;
  }

  /** Every node but the doomed one stays in the tree. */
  lemma NodeKept(cmp: (Key, Key) -> int, st: State, key: Key, f: Entry) returns (e: Entry)
    requires TotalOrder(cmp) && Sound(cmp, st) && LookupTree(cmp, st.tree, key).Node?
    requires f in Entries(st.tree) && f.node != DoomedNode(LookupTree(cmp, st.tree, key))
    ensures e in Entries(DeleteTree(cmp, st.tree, key)) && e.node == f.node
  {
    hide TotalOrder, Sorted, RedBlack, MapOf, Inorder, DeleteTree, LookupTree, Entries, NodePool.PoolOk, Predecessor;
    DeletedEntries(cmp, st.tree, key);
    var s := LookupTree(cmp, st.tree, key);
    var o := s.cell.entry;
    e := if f == o then Entry(o.node, Predecessor(s).key, Predecessor(s).value) else f;
  }

  lemma HomesAfterDelete(cmp: (Key, Key) -> int, st: State, key: Key)
    requires TotalOrder(cmp) && Sound(cmp, st) && LookupTree(cmp, st.tree, key).Node?
    ensures var r := DeleteStep(cmp, st, key);
      Homes(r) == Homes(st) - {st.places(DoomedNode(LookupTree(cmp, st.tree, key))).home}
  {
    hide TotalOrder, Sorted, RedBlack, MapOf, Inorder, DeleteTree, LookupTree, Entries, NodePool.PoolOk;
    hide NodePool.FreePool, Predecessor, Source;
    var s, r := LookupTree(cmp, st.tree, key), DeleteStep(cmp, st, key);
    var gone := st.places(DoomedNode(s)).home;
    forall e | e in Entries(r.tree)
      ensures r.places(e.node).home in Homes(st) - {gone}
    {
      PlacesAfterDelete(cmp, st, key, e);
    }
    forall x | x in Homes(st) - {gone}
      ensures x in Homes(r)
    {
      var f :| f in Entries(st.tree) && st.places(f.node).home == x;
      var e := NodeKept(cmp, st, key, f);
      assert r.places(e.node).home == x;
    }
  }

  lemma HomeIsLive(cmp: (Key, Key) -> int, st: State, key: Key)
    requires TotalOrder(cmp) && Sound(cmp, st) && LookupTree(cmp, st.tree, key).Node?
    ensures st.places(DoomedNode(LookupTree(cmp, st.tree, key))).home in st.pool.live
    ensures LookupTree(cmp, st.tree, key).cell.entry.key == key
  {
    hide TotalOrder, Sorted, RedBlack, MapOf, Inorder, DeleteTree, LookupTree, Entries, NodePool.PoolOk;
    hide Predecessor;
    DeletedEntries(cmp, st.tree, key);
  }

  lemma DeletePresentSafe(cmp: (Key, Key) -> int, st: State, key: Key)
    requires TotalOrder(cmp) && Sound(cmp, st) && LookupTree(cmp, st.tree, key).Node? && DeleteIsSafe(cmp, st, key)
    ensures Sound(cmp, DeleteStep(cmp, st, key))
  {
    hide TotalOrder, Sorted, RedBlack, MapOf, Inorder, DeleteTree, LookupTree, Entries, NodePool.PoolOk;
    hide NodePool.FreePool, Predecessor, Source;
    DeleteCorrect(cmp, st.tree, key);
    var s, r := LookupTree(cmp, st.tree, key), DeleteStep(cmp, st, key);
    HomeIsLive(cmp, st, key);
    HomesAfterDelete(cmp, st, key);
    FreedSlot(st.pool, st.places(DoomedNode(s)).home);
    forall e | e in Entries(r.tree)
      ensures Reads(r, e)
    {
      PlacesAfterDelete(cmp, st, key, e);
      assert Reads(st, Source(s, e));
    }
    forall d, e | d in Entries(r.tree) && e in Entries(r.tree) && d != e
      ensures Apart(r.places(d.node), r.places(e.node))
    {
      RemainApart(cmp, st, key, d, e);
    }
  }

  /** From a sound state a deletion is right exactly when no pair in use goes with a page. */
  lemma DeletePresentExact(cmp: (Key, Key) -> int, st: State, key: Key)
    requires TotalOrder(cmp) && Sound(cmp, st) && LookupTree(cmp, st.tree, key).Node?
    ensures var r, m := DeleteStep(cmp, st, key), MapOf(Inorder(st.tree)) - {key};
      && (StandsFor(cmp, r, m) <==> DeleteIsSafe(cmp, st, key))
      && (DeleteIsSafe(cmp, st, key) ==> Sound(cmp, r))
  {
    hide TotalOrder, Sorted, RedBlack, MapOf, Inorder, DeleteTree, LookupTree, Entries, NodePool.PoolOk;
    hide NodePool.FreePool, Predecessor, Source;
    DeleteCorrect(cmp, st.tree, key);
    var s, r := LookupTree(cmp, st.tree, key), DeleteStep(cmp, st, key);
    HomeIsLive(cmp, st, key);
    FreedSlot(st.pool, st.places(DoomedNode(s)).home);
    forall e | e in Entries(r.tree)
      ensures Reads(r, e) <==> st.places(Source(s, e).node).pair.page < |r.pool.cursors|
    {
      PlacesAfterDelete(cmp, st, key, e);
      assert Reads(st, Source(s, e));
    }
    if StandsFor(cmp, r, MapOf(Inorder(st.tree)) - {key}) {
      forall f | f in Entries(st.tree) && f.key != key
        ensures st.places(f.node).pair.page < |r.pool.cursors|
      {
        var e := PairKept(cmp, st, key, f);
        assert Reads(r, e);
      }
    }
    if DeleteIsSafe(cmp, st, key) {
      DeletePresentSafe(cmp, st, key);
    }
  }

  /** From a sound state a deletion is right exactly when no pair in use goes with a page. */
  lemma DeleteExact(cmp: (Key, Key) -> int, st: State, key: Key)
    requires TotalOrder(cmp) && Sound(cmp, st)
    ensures var r, m := DeleteStep(cmp, st, key), MapOf(Inorder(st.tree)) - {key};
      && r.tree == DeleteTree(cmp, st.tree, key)
      && (StandsFor(cmp, r, m) <==> DeleteIsSafe(cmp, st, key))
      && (DeleteIsSafe(cmp, st, key) ==> Sound(cmp, r))
  {
    hide TotalOrder, Sorted, RedBlack, MapOf, Inorder, DeleteTree, LookupTree, Entries, NodePool.PoolOk;
    if LookupTree(cmp, st.tree, key).Leaf? {
      LookupCorrect(cmp, st.tree, key);
      LookupDecides(cmp, st.tree, key);
      assert MapOf(Inorder(st.tree)) - {key} == MapOf(Inorder(st.tree));
    } else {
      DeletePresentExact(cmp, st, key);
    }
  }

  lemma LookupDecides(cmp: (Key, Key) -> int, t: Tree, key: Key)
    requires LookupTree(cmp, t, key).Leaf?
    ensures DeleteTree(cmp, t, key) == t
  {
  }

  /** One operation from a sound state is right exactly when it is safe. */
  lemma StepExact(cmp: (Key, Key) -> int, st: State, op: Operation)
    requires TotalOrder(cmp) && Sound(cmp, st) && Legal(st, op)
    ensures var r, m := Step(cmp, st, op), ApplyToMap(MapOf(Inorder(st.tree)), op);
      && (StandsFor(cmp, r, m) <==> Safe(cmp, st, op))
      && (Safe(cmp, st, op) ==> Sound(cmp, r) && r.tree == Apply(cmp, st.tree, op))
  {
    hide TotalOrder, Placed, StandsFor, LookupTree, InsertTree, InsertStep, DeleteStep, DeleteTree;
    hide NodePool.AllocPool, NodePool.FreePool;
    match op
    case Insert(node, key, value) =>
      if LookupTree(cmp, st.tree, key).Leaf? {
        InsertAbsentExact(cmp, st, node, key, value);
      } else {
        OverwriteExact(cmp, st, node, key, value);
      }
    case Delete(key) => DeleteExact(cmp, st, key);
    case Clear => ClearSound(cmp, st);
  }

  lemma ClearSound(cmp: (Key, Key) -> int, st: State)
    requires Placed(st)
    ensures Sound(cmp, ClearStep(st)) && MapOf(Inorder(ClearStep(st).tree)) == map[]
    ensures ClearStep(st).pool == NodePool.NewPool(st.pool.maxes[0])
  {
    NodePool.ClearKeepsPool(st.pool);
  }

  /** While every pair lies in its own node's slot, an insertion cannot go wrong. */
  lemma UnmovedIsSafe(cmp: (Key, Key) -> int, st: State, key: Key)
    requires Placed(st) && forall e :: e in Entries(st.tree) ==> st.places(e.node).pair == st.places(e.node).home
    ensures InsertIsSafe(cmp, st, key)
  {
    hide NodePool.PoolOk, NodePool.AllocPool;
    AllocatedSlot(st.pool);
  }

  // ---------- Runs ----------

  function Start(nmemb: nat): (r: State)
    ensures HasPages(r)
  {
    State(Leaf, _ => Place(NodePool.Slot(0, 0), NodePool.Slot(0, 0)), map[], NodePool.NewPool(nmemb))
  }

  function RunState(cmp: (Key, Key) -> int, nmemb: nat, ops: seq<Operation>): (r: State)
    ensures HasPages(r)
  {
    if ops == [] then Start(nmemb) else Step(cmp, RunState(cmp, nmemb, ops[..|ops| - 1]), ops[|ops| - 1])
  }

  ghost predicate LegalRun(cmp: (Key, Key) -> int, nmemb: nat, ops: seq<Operation>) {
    ops != [] ==>
      var before := ops[..|ops| - 1];
      LegalRun(cmp, nmemb, before) && Legal(RunState(cmp, nmemb, before), ops[|ops| - 1])
  }

  /** Every operation of the run is safe where it happens. */
  ghost predicate SafeRun(cmp: (Key, Key) -> int, nmemb: nat, ops: seq<Operation>) {
    ops != [] ==>
      var before := ops[..|ops| - 1];
      SafeRun(cmp, nmemb, before) && Safe(cmp, RunState(cmp, nmemb, before), ops[|ops| - 1])
  }

  /** After every operation of the run the tree stands for the map built so far. */
  ghost predicate RightRun(cmp: (Key, Key) -> int, nmemb: nat, ops: seq<Operation>) {
    && (ops != [] ==> RightRun(cmp, nmemb, ops[..|ops| - 1]))
    && StandsFor(cmp, RunState(cmp, nmemb, ops), RunOnMap(ops))
  }

  /**
    A run refines the finite map throughout exactly when each of its operations is safe.
    It then builds the same tree as with pairs that are copied by value.
   */
  lemma {:induction false} RunExact(cmp: (Key, Key) -> int, nmemb: nat, ops: seq<Operation>)
    requires TotalOrder(cmp) && nmemb > 0 && LegalRun(cmp, nmemb, ops)
    ensures RightRun(cmp, nmemb, ops) <==> SafeRun(cmp, nmemb, ops)
    ensures SafeRun(cmp, nmemb, ops) ==>
      Sound(cmp, RunState(cmp, nmemb, ops)) && RunState(cmp, nmemb, ops).tree == Run(cmp, ops)
  {
    hide TotalOrder, Placed, Reads, Step, Safe;
    if ops == [] {
      StartSound(cmp, nmemb);
    } else {
      var before := ops[..|ops| - 1];
      RunExact(cmp, nmemb, before);
      if SafeRun(cmp, nmemb, before) {
        StepExact(cmp, RunState(cmp, nmemb, before), ops[|ops| - 1]);
      }
    }
  }

  /** What an operation asks of the allocator. */
  function PoolOps(cmp: (Key, Key) -> int, st: State, op: Operation): seq<NodePool.Operation> {
    match op
    case Insert(_, key, _) => if LookupTree(cmp, st.tree, key).Leaf? then [NodePool.Alloc] else []
    case Delete(key) =>
      var s := LookupTree(cmp, st.tree, key);
      if s.Leaf? then [] else [NodePool.Free(st.places(DoomedNode(s)).home)]
    case Clear => [NodePool.Clear]
  }

  function PoolRun(cmp: (Key, Key) -> int, nmemb: nat, ops: seq<Operation>): seq<NodePool.Operation> {
    if ops == [] then []
    else
      var before := ops[..|ops| - 1];
      PoolRun(cmp, nmemb, before) + PoolOps(cmp, RunState(cmp, nmemb, before), ops[|ops| - 1])
  }

  /**
    A safe run frees only live slots, one for each key deleted, and leaves as many slots
    live as there are keys.
   */
  lemma {:induction false} RunUsesPool(cmp: (Key, Key) -> int, nmemb: nat, ops: seq<Operation>)
    requires TotalOrder(cmp) && nmemb > 0 && LegalRun(cmp, nmemb, ops) && SafeRun(cmp, nmemb, ops)
    ensures var run, pool := PoolRun(cmp, nmemb, ops), RunState(cmp, nmemb, ops).pool;
      && NodePool.LegalRun(nmemb, run) && NodePool.Run(nmemb, run) == pool
      && |pool.live| == |RunOnMap(ops)|
  {
    hide TotalOrder, Step, Safe, Placed, StandsFor, PoolOps, Legal;
    RunExact(cmp, nmemb, ops);
    LiveIsSize(cmp, RunState(cmp, nmemb, ops), RunOnMap(ops));
    if ops != [] {
      var before := ops[..|ops| - 1];
      RunUsesPool(cmp, nmemb, before);
      RunExact(cmp, nmemb, before);
      StepUsesPool(cmp, RunState(cmp, nmemb, before), ops[|ops| - 1], nmemb, PoolRun(cmp, nmemb, before));
    }
  }

  lemma StepUsesPool(cmp: (Key, Key) -> int, st: State, op: Operation, nmemb: nat, run: seq<NodePool.Operation>)
    requires TotalOrder(cmp) && Sound(cmp, st)
    requires NodePool.LegalRun(nmemb, run) && NodePool.Run(nmemb, run) == st.pool
    ensures var more := run + PoolOps(cmp, st, op);
      NodePool.LegalRun(nmemb, more) && NodePool.Run(nmemb, more) == Step(cmp, st, op).pool
  {
    hide TotalOrder, Sorted, RedBlack, MapOf, Inorder, InsertTree, DeleteTree, LookupTree, Entries, Reload;
    hide NodePool.PoolOk, NodePool.AllocPool, NodePool.FreePool, NodePool.ClearPool, Predecessor;
    assert run + [] == run;
    assert forall x :: (run + [x])[..|run|] == run;
    if op.Delete? && LookupTree(cmp, st.tree, op.key).Node? {
      HomeIsLive(cmp, st, op.key);
    }
  }

  lemma LiveIsSize(cmp: (Key, Key) -> int, st: State, m: map<Key, Value>)
    requires TotalOrder(cmp) && Placed(st) && StandsFor(cmp, st, m)
    ensures |st.pool.live| == |m|
  {
    hide TotalOrder, Sorted, RedBlack, MapOf, NodePool.PoolOk;
    MapOfSize(cmp, Inorder(st.tree));
    ElementsSize(cmp, Inorder(st.tree));
    HomesSize(st, Entries(st.tree));
  }

  lemma SortedRest(cmp: (Key, Key) -> int, s: seq<Entry>)
    requires Sorted(cmp, s) && s != []
    ensures Sorted(cmp, s[1..])
  {
  }

  lemma {:induction false} ElementsSize(cmp: (Key, Key) -> int, s: seq<Entry>)
    requires TotalOrder(cmp) && Sorted(cmp, s)
    ensures |Elements(s)| == |s|
  {
    hide TotalOrder, Sorted, Elements;
    InPair([], []);
    if s != [] {
      assert s == [] + [s[0]] + s[1..];
      InRow(cmp, [], s[0], s[1..]);
      SortedRest(cmp, s);
      ElementsSize(cmp, s[1..]);
      assert Elements(s) == {s[0]} + Elements(s[1..]);
    }
  }

  lemma {:induction false} HomesSize(st: State, s: set<Entry>)
    requires forall d, e :: d in s && e in s && d != e ==> Apart(st.places(d.node), st.places(e.node))
    ensures |set e | e in s :: st.places(e.node).home| == |s|
    decreases s
  {
    if s != {} {
      var x :| x in s;
      HomesSize(st, s - {x});
      var home := st.places(x.node).home;
      assert (set e | e in s :: st.places(e.node).home) == (set e | e in s - {x} :: st.places(e.node).home) + {home};
    }
  }

  lemma StartSound(cmp: (Key, Key) -> int, nmemb: nat)
    requires nmemb > 0
    ensures Sound(cmp, Start(nmemb))
  {
    NodePool.RunKeepsPool(nmemb, []);
  }

  // ---------- Where the code falls short ----------

  function One(colour: Colour, node: TreeNode, pair: Pair, left: Tree, right: Tree): Tree {
    Node(Cell(Entry(node, pair.key, pair.value), colour), left, right)
  }

  /** Three insertions, the deletion of the middle key, and one more insertion. */
  function ReuseRun(n: seq<TreeNode>, p: seq<Pair>): (ops: seq<Operation>)
    requires |n| == |p| == 4
    ensures |ops| == 5
  {
    [Insert(n[1], p[1].key, p[1].value), Insert(n[0], p[0].key, p[0].value), Insert(n[2], p[2].key, p[2].value),
     Delete(p[1].key), Insert(n[3], p[3].key, p[3].value)]
  }

  ghost predicate Ascending(cmp: (Key, Key) -> int, n: seq<TreeNode>, p: seq<Pair>) {
    && TotalOrder(cmp) && |n| == |p| == 4
    && (forall i, j :: 0 <= i < j < 4 ==> n[i] != n[j])
    && (forall i, j :: 0 <= i < j < 4 ==> cmp(p[i].key, p[j].key) < 0)
  }

  /** The trees of the run, first with pairs copied by value. */
  function ReuseTree(n: seq<TreeNode>, p: seq<Pair>, i: nat): Tree
    requires |n| == |p| == 4
  {
    match i
    case 0 => Leaf
    case 1 => One(Black, n[1], p[1], Leaf, Leaf)
    case 2 => One(Black, n[1], p[1], One(Red, n[0], p[0], Leaf, Leaf), Leaf)
    case 3 => One(Black, n[1], p[1], One(Red, n[0], p[0], Leaf, Leaf), One(Red, n[2], p[2], Leaf, Leaf))
    case 4 => One(Black, n[1], p[0], Leaf, One(Red, n[2], p[2], Leaf, Leaf))
    case _ => One(Black, n[2], p[2], One(Red, n[1], p[0], Leaf, Leaf), One(Red, n[3], p[3], Leaf, Leaf))
  }

  lemma ReuseNodes(n: seq<TreeNode>, p: seq<Pair>, i: nat)
    requires |n| == |p| == 4 && i <= 4
    ensures forall e :: e in Entries(ReuseTree(n, p, i)) ==>
      (i > 0 && e.node == n[1]) || (2 <= i <= 3 && e.node == n[0]) || (3 <= i && e.node == n[2])
    ensures i == 4 ==> Entry(n[1], p[0].key, p[0].value) in Entries(ReuseTree(n, p, i))
  {
    var t := ReuseTree(n, p, i);
    if t.Node? {
      InNode(t);
      if t.left.Node? {
        InNode(t.left);
      }
      if t.right.Node? {
        InNode(t.right);
      }
    }
    assert Entries(Leaf) == {};
  }

  lemma ReuseFirst(cmp: (Key, Key) -> int, n: seq<TreeNode>, p: seq<Pair>)
    requires Ascending(cmp, n, p)
    ensures InsertTree(cmp, ReuseTree(n, p, 0), n[1], p[1].key, p[1].value) == ReuseTree(n, p, 1)
    ensures LookupTree(cmp, ReuseTree(n, p, 0), p[1].key).Leaf?
  {
  }

  lemma ReuseSecond(cmp: (Key, Key) -> int, n: seq<TreeNode>, p: seq<Pair>)
    requires Ascending(cmp, n, p)
    ensures InsertTree(cmp, ReuseTree(n, p, 1), n[0], p[0].key, p[0].value) == ReuseTree(n, p, 2)
    ensures LookupTree(cmp, ReuseTree(n, p, 1), p[0].key).Leaf?
  {
    var t := ReuseTree(n, p, 1);
    var q := RbShape.Step(Top, t.cell, Left, Leaf);
    var leaf := One(Red, n[0], p[0], Leaf, Leaf);
    assert cmp(p[0].key, p[1].key) < 0;
    assert Descend(cmp, Top, t, p[0].key) == (q, Leaf);
    assert InsertFix(q, leaf) == Plug(q, leaf) == Plug(Top, Join(t.cell, Left, leaf, Leaf));
  }

  lemma ReuseThird(cmp: (Key, Key) -> int, n: seq<TreeNode>, p: seq<Pair>)
    requires Ascending(cmp, n, p)
    ensures InsertTree(cmp, ReuseTree(n, p, 2), n[2], p[2].key, p[2].value) == ReuseTree(n, p, 3)
    ensures LookupTree(cmp, ReuseTree(n, p, 2), p[2].key).Leaf?
  {
    var t := ReuseTree(n, p, 2);
    var q := RbShape.Step(Top, t.cell, Right, t.left);
    var leaf := One(Red, n[2], p[2], Leaf, Leaf);
    assert cmp(p[1].key, p[2].key) < 0;
    assert cmp(p[2].key, p[1].key) > 0;
    assert Descend(cmp, Top, t, p[2].key) == (q, Leaf);
    assert InsertFix(q, leaf) == Plug(q, leaf) == Plug(Top, Join(t.cell, Right, leaf, t.left));
  }

  lemma ReuseDelete(cmp: (Key, Key) -> int, n: seq<TreeNode>, p: seq<Pair>)
    requires Ascending(cmp, n, p)
    ensures DeleteTree(cmp, ReuseTree(n, p, 3), p[1].key) == ReuseTree(n, p, 4)
    ensures LookupTree(cmp, ReuseTree(n, p, 3), p[1].key) == ReuseTree(n, p, 3)
    ensures DoomedNode(ReuseTree(n, p, 3)) == n[0]
  {
    var t := ReuseTree(n, p, 3);
    assert Descend(cmp, Top, t, p[1].key) == (Top, t);
    assert Rightmost(Top, t.left) == (Top, t.left);
    var u := CopyPair(t, t.left.cell.entry);
    var q := RbShape.Step(Top, u.cell, Left, u.right);
    assert Doomed(Top, t) == (q, t.left);
    assert Unlink(q, t.left) == Plug(q, Leaf) == Plug(Top, Join(u.cell, Left, Leaf, u.right));
  }

  lemma ReuseLast(cmp: (Key, Key) -> int, n: seq<TreeNode>, p: seq<Pair>)
    requires Ascending(cmp, n, p)
    ensures InsertTree(cmp, ReuseTree(n, p, 4), n[3], p[3].key, p[3].value) == ReuseTree(n, p, 5)
    ensures LookupTree(cmp, ReuseTree(n, p, 4), p[3].key).Leaf?
  {
    var t := ReuseTree(n, p, 4);
    var up := RbShape.Step(Top, t.cell, Right, Leaf);
    var q := RbShape.Step(up, t.right.cell, Right, Leaf);
    assert cmp(p[0].key, p[3].key) < 0 && cmp(p[2].key, p[3].key) < 0;
    assert cmp(p[3].key, p[0].key) > 0 && cmp(p[3].key, p[2].key) > 0;
    assert Descend(cmp, Top, t, p[3].key) == Descend(cmp, up, t.right, p[3].key) == (q, Leaf);
    var leaf := One(Red, n[3], p[3], Leaf, Leaf);
    assert InsertFix(q, leaf) == InsertRotate(q, leaf);
    assert InsertInner(q, leaf) == (q, leaf);
  }

  function At(i: nat): Slot {
    NodePool.Slot(0, i)
  }

  function ReusePool(i: nat): Pool {
    match i
    case 0 => NodePool.NewPool(8)
    case 1 => NodePool.Pool([8], [1], [], {At(0)})
    case 2 => NodePool.Pool([8], [2], [], {At(0), At(1)})
    case 3 => NodePool.Pool([8], [3], [], {At(0), At(1), At(2)})
    case _ => NodePool.Pool([8], [3], [At(1)], {At(0), At(2)})
  }

  /** The state after `i` operations of the run, `i` at most 4. */
  ghost predicate ReuseState(cmp: (Key, Key) -> int, n: seq<TreeNode>, p: seq<Pair>, i: nat, st: State)
    requires |n| == |p| == 4
  {
    && Sound(cmp, st) && st.tree == ReuseTree(n, p, i) && st.pool == ReusePool(i)
    && (1 <= i <= 3 ==> st.places(n[1]) == Place(At(0), At(0)))
    && (2 <= i <= 3 ==> st.places(n[0]) == Place(At(1), At(1)))
    && (3 <= i ==> st.places(n[2]) == Place(At(2), At(2)))
    && (4 <= i ==> st.places(n[1]) == Place(At(0), At(1)))
  }

  /** One of the first three operations. */
  lemma ReuseInsert(cmp: (Key, Key) -> int, n: seq<TreeNode>, p: seq<Pair>, i: nat, st: State)
    requires Ascending(cmp, n, p) && i < 3 && ReuseState(cmp, n, p, i, st)
    ensures var op := ReuseRun(n, p)[i];
      Legal(st, op) && Safe(cmp, st, op) && ReuseState(cmp, n, p, i + 1, Step(cmp, st, op))
  {
    hide Sorted, RedBlack, MapOf, InsertTree, DeleteTree, LookupTree, Placed, StandsFor, Reload, TotalOrder;
    var op := ReuseRun(n, p)[i];
    ReuseNodes(n, p, i);
    if i == 0 {
      ReuseFirst(cmp, n, p);
    } else if i == 1 {
      ReuseSecond(cmp, n, p);
    } else {
      ReuseThird(cmp, n, p);
    }
    StepExact(cmp, st, op);
  }

  /** The deletion frees the slot of the predecessor, whose pair stays in use. */
  lemma ReuseFrees(cmp: (Key, Key) -> int, n: seq<TreeNode>, p: seq<Pair>, st: State)
    requires Ascending(cmp, n, p) && ReuseState(cmp, n, p, 3, st)
    ensures var op := ReuseRun(n, p)[3];
      Legal(st, op) && Safe(cmp, st, op) && ReuseState(cmp, n, p, 4, Step(cmp, st, op))
  {
    hide Sorted, RedBlack, MapOf, InsertTree, DeleteTree, LookupTree, Placed, StandsFor, Reload, TotalOrder;
    ReuseDelete(cmp, n, p);
    StepExact(cmp, st, ReuseRun(n, p)[3]);
    assert {At(0), At(1), At(2)} - {At(1)} == {At(0), At(2)};
  }

  /** The last insertion writes over that pair: its key cannot be found any more. */
  lemma ReuseLosesKey(cmp: (Key, Key) -> int, n: seq<TreeNode>, p: seq<Pair>, st: State)
    requires Ascending(cmp, n, p) && ReuseState(cmp, n, p, 4, st)
    ensures var op := ReuseRun(n, p)[4];
      var r := Step(cmp, st, op);
      && Legal(st, op) && !Safe(cmp, st, op) && LookupTree(cmp, r.tree, p[0].key).Leaf?
      && !StandsFor(cmp, r, ApplyToMap(MapOf(Inorder(st.tree)), op))
      && p[0].key in ApplyToMap(MapOf(Inorder(st.tree)), op)
  {
    hide Sorted, RedBlack, MapOf, InsertTree, DeleteTree, LookupTree, Placed, StandsFor, Reload, TotalOrder;
    ReuseLast(cmp, n, p);
    var op := ReuseRun(n, p)[4];
    var x := Entry(n[1], p[0].key, p[0].value);
    ReuseNodes(n, p, 4);
    assert x in Entries(st.tree) && st.places(n[1]).pair == NodePool.AllocPool(st.pool).1;
    StepExact(cmp, st, op);
    InsertLosesKey(cmp, st, n[3], p[3].key, p[3].value, x);
    ReuseReload(cmp, n, p, st);
  }

  lemma ReuseReload(cmp: (Key, Key) -> int, n: seq<TreeNode>, p: seq<Pair>, st: State)
    requires Ascending(cmp, n, p) && ReuseState(cmp, n, p, 4, st)
    ensures LookupTree(cmp, Step(cmp, st, ReuseRun(n, p)[4]).tree, p[0].key).Leaf?
  {
    hide Sorted, RedBlack, MapOf, InsertTree, Inorder, Entries;
    ReuseLast(cmp, n, p);
    ReuseNodes(n, p, 4);
    var r := Step(cmp, st, ReuseRun(n, p)[4]);
    assert Reads(st, Entry(n[2], p[2].key, p[2].value)) by { ReuseKept(n, p); }
    assert r.places(n[1]).pair == At(1) && r.places(n[2]).pair == At(2);
    var t := ReuseTree(n, p, 5);
    assert r.tree == Reload(t, r.places, r.store);
    assert r.tree.left == Reload(t.left, r.places, r.store);
    assert r.tree.left.left == Reload(t.left.left, r.places, r.store) == Leaf;
    assert r.tree.left.cell.entry.key == p[3].key;
    assert r.tree.cell.entry.key == p[2].key;
    assert cmp(p[0].key, p[2].key) < 0 && cmp(p[0].key, p[3].key) < 0;
    var q := RbShape.Step(Top, r.tree.cell, Left, r.tree.right);
    assert Descend(cmp, Top, r.tree, p[0].key) == Descend(cmp, q, r.tree.left, p[0].key);
  }

  lemma ReuseKept(n: seq<TreeNode>, p: seq<Pair>)
    requires |n| == |p| == 4
    ensures Entry(n[2], p[2].key, p[2].value) in Entries(ReuseTree(n, p, 4))
  {
    var t := ReuseTree(n, p, 4);
    InNode(t);
    InNode(t.right);
  }

  /** With one page of eight slots and four keys in ascending order. */
  lemma SlotReuseExample(cmp: (Key, Key) -> int, n: seq<TreeNode>, p: seq<Pair>)
    requires Ascending(cmp, n, p)
    ensures var ops := ReuseRun(n, p);
      var st := RunState(cmp, 8, ops);
      && LegalRun(cmp, 8, ops) && SafeRun(cmp, 8, ops[..4]) && !SafeRun(cmp, 8, ops)
      && p[0].key in RunOnMap(ops) && LookupTree(cmp, st.tree, p[0].key).Leaf?
      && !StandsFor(cmp, st, RunOnMap(ops))
  {
    hide TotalOrder, Step, Safe, Legal, Sound, StandsFor, ReuseRun, ReuseState, LookupTree;
    var ops := ReuseRun(n, p);
    ReuseUpTo(cmp, n, p, 4);
    ReuseLosesKey(cmp, n, p, RunState(cmp, 8, ops[..4]));
    assert ops[..5] == ops;
  }

  /** The first `i` operations are legal and safe. */
  lemma {:induction false} ReuseUpTo(cmp: (Key, Key) -> int, n: seq<TreeNode>, p: seq<Pair>, i: nat)
    requires Ascending(cmp, n, p) && i <= 4
    ensures var ops := ReuseRun(n, p)[..i];
      && LegalRun(cmp, 8, ops) && SafeRun(cmp, 8, ops)
      && ReuseState(cmp, n, p, i, RunState(cmp, 8, ops))
      && MapOf(Inorder(RunState(cmp, 8, ops).tree)) == RunOnMap(ops)
  {
    hide TotalOrder, Step, Safe, Legal, Placed, Reads, Sorted, RedBlack, ReuseRun, ReusePool, Apply;
    if i == 0 {
      ReuseStart(cmp, n, p);
    } else {
      var ops := ReuseRun(n, p);
      assert ops[..i][..i - 1] == ops[..i - 1];
      ReuseUpTo(cmp, n, p, i - 1);
      var st := RunState(cmp, 8, ops[..i - 1]);
      if i < 4 {
        ReuseInsert(cmp, n, p, i - 1, st);
      } else {
        ReuseFrees(cmp, n, p, st);
      }
      StepExact(cmp, st, ops[i - 1]);
    }
  }

  lemma ReuseStart(cmp: (Key, Key) -> int, n: seq<TreeNode>, p: seq<Pair>)
    requires Ascending(cmp, n, p)
    ensures ReuseState(cmp, n, p, 0, Start(8))
  {
    StartSound(cmp, 8);
  }
}
