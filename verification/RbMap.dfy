/**
  Insertion, deletion and lookup by key, as functions on red-black trees, and the
  finite map that every run of them computes. Deletion copies the predecessor's key and
  value by value; `RbSlots` treats the references that the code copies instead.
 */
module RbMap {
  import opened Machine
  import opened RbShape

  // ---------- Key order and the abstract map ----------

  /** A caller's comparator: zero means equal, and the signs form a total order. */
  ghost predicate TotalOrder(cmp: (Key, Key) -> int) {
    && (forall a, b :: cmp(a, b) == 0 <==> a == b)
    && (forall a, b :: cmp(a, b) < 0 <==> cmp(b, a) > 0)
    && (forall a, b, c :: cmp(a, b) < 0 && cmp(b, c) < 0 ==> cmp(a, c) < 0)
  }

  ghost predicate Sorted(cmp: (Key, Key) -> int, s: seq<Entry>) {
    forall i, j :: 0 <= i < j < |s| ==> cmp(s[i].key, s[j].key) < 0
  }

  /** A sorted red-black tree. */
  ghost predicate SearchTree(cmp: (Key, Key) -> int, t: Tree) {
    RedBlack(t) && Sorted(cmp, Inorder(t))
  }

  ghost predicate AllBelow(cmp: (Key, Key) -> int, s: seq<Entry>, k: Key) {
    forall e :: e in s ==> cmp(e.key, k) < 0
  }

  ghost predicate AllAbove(cmp: (Key, Key) -> int, k: Key, s: seq<Entry>) {
    forall e :: e in s ==> cmp(k, e.key) < 0
  }

  lemma SortedConcat(cmp: (Key, Key) -> int, a: seq<Entry>, b: seq<Entry>)
    ensures Sorted(cmp, a + b) <==>
      Sorted(cmp, a) && Sorted(cmp, b) && forall e :: e in a ==> AllAbove(cmp, e.key, b)
  {
    var s := a + b;
    if Sorted(cmp, s) {
      assert forall i, j :: 0 <= i < j < |a| ==> s[i] == a[i] && s[j] == a[j];
      forall i, j | 0 <= i < j < |b|
        ensures cmp(b[i].key, b[j].key) < 0
      {
        assert b[i] == s[|a| + i] && b[j] == s[|a| + j];
      }
      forall d, e | d in a && e in b
        ensures cmp(d.key, e.key) < 0
      {
        var i :| 0 <= i < |a| && a[i] == d;
        var j :| 0 <= j < |b| && b[j] == e;
        assert s[i] == d && s[|a| + j] == e;
      }
    }
  }

  lemma BelowConcat(cmp: (Key, Key) -> int, a: seq<Entry>, b: seq<Entry>, k: Key)
    ensures AllBelow(cmp, a + b, k) <==> AllBelow(cmp, a, k) && AllBelow(cmp, b, k)
    ensures AllAbove(cmp, k, a + b) <==> AllAbove(cmp, k, a) && AllAbove(cmp, k, b)
  {
    assert forall e :: e in a + b <==> e in a || e in b;
  }

  lemma Transitive(cmp: (Key, Key) -> int, s: seq<Entry>, j: Key, k: Key)
    requires TotalOrder(cmp) && cmp(j, k) < 0
    ensures AllBelow(cmp, s, j) ==> AllBelow(cmp, s, k)
    ensures AllAbove(cmp, k, s) ==> AllAbove(cmp, j, s)
    ensures cmp(k, j) > 0
  {
  }

  lemma SortedAround(cmp: (Key, Key) -> int, l: seq<Entry>, e: Entry, r: seq<Entry>)
    requires TotalOrder(cmp)
    ensures Sorted(cmp, l + [e] + r) <==>
      Sorted(cmp, l + r) && AllBelow(cmp, l, e.key) && AllAbove(cmp, e.key, r)
  {
    SortedConcat(cmp, l + [e], r);
    SortedConcat(cmp, l, [e]);
    SortedConcat(cmp, l, r);
    assert e in [e];
    assert forall d :: d in l + [e] <==> d in l || d == e;
  }

  // ---------- The abstract map ----------

  /** The map a sequence of entries stands for. */
  function MapOf(s: seq<Entry>): map<Key, Value> {
    if s == [] then map[] else map[s[0].key := s[0].value] + MapOf(s[1..])
  }

  lemma {:induction false} MapOfConcat(a: seq<Entry>, b: seq<Entry>)
    ensures MapOf(a + b) == MapOf(a) + MapOf(b)
  {
    if a == [] {
      assert a + b == b;
    } else {
      assert (a + b)[1..] == a[1..] + b;
      MapOfConcat(a[1..], b);
    }
  }

  lemma {:induction false} MapOfKeys(s: seq<Entry>)
    ensures forall k :: k in MapOf(s) ==> exists e :: e in s && e.key == k
  {
    if s != [] {
      MapOfKeys(s[1..]);
      assert s == [s[0]] + s[1..];
    }
  }

  /** An entry inside a sorted sequence, seen on the map. */
  lemma MapOfAround(cmp: (Key, Key) -> int, l: seq<Entry>, e: Entry, r: seq<Entry>)
    requires TotalOrder(cmp) && AllBelow(cmp, l, e.key) && AllAbove(cmp, e.key, r)
    ensures e.key !in MapOf(l + r)
    ensures MapOf(l + [e] + r) == MapOf(l + r)[e.key := e.value]
    ensures MapOf(l + [e] + r) - {e.key} == MapOf(l + r)
  {
    assert e.key !in MapOf(l) && e.key !in MapOf(r) by {
      MapOfKeys(l);
      MapOfKeys(r);
      assert cmp(e.key, e.key) == 0;
    }
    MapOfConcat(l + [e], r);
    MapOfConcat(l, [e]);
    MapOfConcat(l, r);
    MapOfSingle(e);
    PutBetween(MapOf(l), e.key, e.value, MapOf(r));
  }

  lemma MapOfSingle(e: Entry)
    ensures MapOf([e]) == map[e.key := e.value]
  {
    assert [e][1..] == [];
  }

  lemma PutBetween(a: map<Key, Value>, k: Key, v: Value, b: map<Key, Value>)
    requires k !in a && k !in b
    ensures a + map[k := v] + b == (a + b)[k := v]
    ensures (a + map[k := v] + b) - {k} == a + b
  {
  }

  lemma {:induction false} MapOfSize(cmp: (Key, Key) -> int, s: seq<Entry>)
    requires TotalOrder(cmp) && Sorted(cmp, s)
    ensures |MapOf(s)| == |s|
  {
    if s != [] {
      assert s == [] + [s[0]] + s[1..] && [] + s[1..] == s[1..];
      SortedAround(cmp, [], s[0], s[1..]);
      MapOfAround(cmp, [], s[0], s[1..]);
      MapOfSize(cmp, s[1..]);
    }
  }

  lemma MapOfHas(cmp: (Key, Key) -> int, s: seq<Entry>, i: nat)
    requires TotalOrder(cmp) && Sorted(cmp, s) && i < |s|
    ensures s[i].key in MapOf(s) && MapOf(s)[s[i].key] == s[i].value
  {
    var l, r := s[..i], s[i + 1..];
    assert s == l + [s[i]] + r;
    SortedAround(cmp, l, s[i], r);
    MapOfAround(cmp, l, s[i], r);
  }

  // ---------- Positions in key order ----------

  /** Entries before and after a position. */
  function Before(p: Path): seq<Entry> {
    match p
    case Top => []
    case Step(up, cell, side, other) =>
      if side == Left then Before(up) else Before(up) + Inorder(other) + [cell.entry]
  }

  function After(p: Path): seq<Entry> {
    match p
    case Top => []
    case Step(up, cell, side, other) =>
      if side == Left then [cell.entry] + Inorder(other) + After(up) else After(up)
  }

  lemma {:induction false} AroundIs(p: Path, x: seq<Entry>)
    ensures Around(p, x) == Before(p) + x + After(p)
  {
    match p
    case Top =>
    case Step(up, cell, side, other) =>
      AroundIs(up, Flank(side, x, cell.entry, Inorder(other)));
      Regroup(Before(up), side, x, cell.entry, Inorder(other), After(up));
  }

  lemma Regroup(b: seq<Entry>, side: Side, x: seq<Entry>, e: Entry, y: seq<Entry>, a: seq<Entry>)
    ensures side == Left ==> b + Flank(side, x, e, y) + a == b + x + ([e] + y + a)
    ensures side == Right ==> b + Flank(side, x, e, y) + a == (b + y + [e]) + x + a
  {
  }

  /** The position a search for `key` ends at: a node holding it, or a free place. */
  function Descend(cmp: (Key, Key) -> int, p: Path, t: Tree, key: Key): (Path, Tree)
    decreases t
  {
    match t
    case Leaf => (p, t)
    case Node(cell, left, right) =>
      var result := cmp(key, cell.entry.key);
      if result == 0 then (p, t)
      else if result < 0 then Descend(cmp, Step(p, cell, Left, right), left, key)
      else Descend(cmp, Step(p, cell, Right, left), right, key)
  }

  /** `key` lies between the entries on the two sides of a position. */
  ghost predicate Brackets(cmp: (Key, Key) -> int, p: Path, key: Key) {
    AllBelow(cmp, Before(p), key) && AllAbove(cmp, key, After(p))
  }

  lemma {:induction false} DescendSplits(cmp: (Key, Key) -> int, p: Path, t: Tree, key: Key)
    requires TotalOrder(cmp) && Sorted(cmp, Around(p, Inorder(t))) && Brackets(cmp, p, key)
    ensures var (q, s) := Descend(cmp, p, t, key);
      && Plug(q, s) == Plug(p, t) && Brackets(cmp, q, key)
      && (s.Node? ==> s.cell.entry.key == key)
    decreases t
  {
    match t
    case Leaf =>
    case Node(cell, left, right) =>
      DescendStep(cmp, p, t, key);
      if cmp(key, cell.entry.key) < 0 {
        DescendSplits(cmp, Step(p, cell, Left, right), left, key);
      } else if cmp(key, cell.entry.key) > 0 {
        DescendSplits(cmp, Step(p, cell, Right, left), right, key);
      }
  }

  lemma DescendStep(cmp: (Key, Key) -> int, p: Path, t: Tree, key: Key)
    requires TotalOrder(cmp) && t.Node? && Sorted(cmp, Around(p, Inorder(t))) && Brackets(cmp, p, key)
    ensures cmp(key, t.cell.entry.key) < 0 ==> Brackets(cmp, Step(p, t.cell, Left, t.right), key)
    ensures cmp(key, t.cell.entry.key) > 0 ==> Brackets(cmp, Step(p, t.cell, Right, t.left), key)
  {
    hide TotalOrder, Sorted, AllBelow, AllAbove;
    var e, l, r := t.cell.entry, Inorder(t.left), Inorder(t.right);
    RootSplits(p, t);
    SortedAround(cmp, Before(p) + l, e, r + After(p));
    BelowConcat(cmp, Before(p), l, e.key);
    BelowConcat(cmp, r, After(p), e.key);
    if cmp(key, e.key) < 0 {
      Transitive(cmp, r, key, e.key);
      AboveCons(cmp, key, e, r);
      BelowConcat(cmp, [e] + r, After(p), key);
    } else if cmp(key, e.key) > 0 {
      Flip(cmp, key, e.key);
      Transitive(cmp, l, e.key, key);
      BelowSnoc(cmp, l, e, key);
      BelowConcat(cmp, Before(p), l + [e], key);
      assert Before(p) + l + [e] == Before(p) + (l + [e]);
    }
  }

  lemma Flip(cmp: (Key, Key) -> int, a: Key, b: Key)
    requires TotalOrder(cmp) && cmp(a, b) > 0
    ensures cmp(b, a) < 0
  {
  }

  lemma AboveCons(cmp: (Key, Key) -> int, k: Key, e: Entry, s: seq<Entry>)
    requires cmp(k, e.key) < 0 && AllAbove(cmp, k, s)
    ensures AllAbove(cmp, k, [e] + s)
  {
  }

  lemma BelowSnoc(cmp: (Key, Key) -> int, s: seq<Entry>, e: Entry, k: Key)
    requires cmp(e.key, k) < 0 && AllBelow(cmp, s, k)
    ensures AllBelow(cmp, s + [e], k)
  {
  }

  lemma RootSplits(p: Path, t: Tree)
    requires t.Node?
    ensures Around(p, Inorder(t))
      == (Before(p) + Inorder(t.left)) + [t.cell.entry] + (Inorder(t.right) + After(p))
  {
    AroundIs(p, Inorder(t));
    Regroup2(Before(p), Inorder(t.left), t.cell.entry, Inorder(t.right), After(p));
  }

  lemma Regroup2(b: seq<Entry>, x: seq<Entry>, e: Entry, y: seq<Entry>, a: seq<Entry>)
    ensures b + (x + [e] + y) + a == (b + x) + [e] + (y + a)
  {
  }

  // ---------- Lookup ----------

  function LookupTree(cmp: (Key, Key) -> int, t: Tree, key: Key): Tree {
    Descend(cmp, Top, t, key).1
  }

  lemma LookupCorrect(cmp: (Key, Key) -> int, t: Tree, key: Key)
    requires TotalOrder(cmp) && SearchTree(cmp, t)
    ensures var s, m := LookupTree(cmp, t, key), MapOf(Inorder(t));
      && (s.Node? <==> key in m)
      && (s.Node? ==> s.cell.entry.key == key && s.cell.entry.value == m[key])
  {
    DescendSplits(cmp, Top, t, key);
    var (p, s) := Descend(cmp, Top, t, key);
    PlugInorder(p, s);
    if s.Node? {
      RootSplits(p, s);
      SortedAround(cmp, Before(p) + Inorder(s.left), s.cell.entry, Inorder(s.right) + After(p));
      MapOfAround(cmp, Before(p) + Inorder(s.left), s.cell.entry, Inorder(s.right) + After(p));
    } else {
      AroundIs(p, []);
      MapOfKeys(Before(p) + [] + After(p));
      assert cmp(key, key) == 0;
    }
  }

  // ---------- Insertion ----------

  /** Insert `key`, using `node` for it if it is new; an existing value is overwritten. */
  function InsertTree(cmp: (Key, Key) -> int, t: Tree, node: TreeNode, key: Key, value: Value): Tree {
    var (p, s) := Descend(cmp, Top, t, key);
    if s.Leaf? then InsertFix(p, Node(Cell(Entry(node, key, value), Red), Leaf, Leaf))
    else Plug(p, Overwrite(s, value))
  }

  function Overwrite(s: Tree, value: Value): Tree
    requires s.Node?
  {
    s.(cell := s.cell.(entry := s.cell.entry.(value := value)))
  }

  lemma InsertCorrect(cmp: (Key, Key) -> int, t: Tree, node: TreeNode, key: Key, value: Value)
    requires TotalOrder(cmp) && SearchTree(cmp, t)
    ensures var r := InsertTree(cmp, t, node, key, value);
      SearchTree(cmp, r) && MapOf(Inorder(r)) == MapOf(Inorder(t))[key := value]
  {
    DescendSplits(cmp, Top, t, key);
    var (p, s) := Descend(cmp, Top, t, key);
    PlugInorder(p, s);
    PlugRedBlack(p, s);
    if s.Leaf? {
      InsertAbsent(cmp, p, Entry(node, key, value));
    } else {
      OverwritePresent(cmp, p, s, value);
    }
  }

  lemma InsertAbsent(cmp: (Key, Key) -> int, p: Path, e: Entry)
    requires TotalOrder(cmp) && Sorted(cmp, Around(p, [])) && Brackets(cmp, p, e.key)
    requires FitsHeight(p, 0) && PathRedOk(p)
    ensures var r := InsertFix(p, Node(Cell(e, Red), Leaf, Leaf));
      SearchTree(cmp, r) && MapOf(Inorder(r)) == MapOf(Around(p, []))[e.key := e.value]
  {
    hide TotalOrder, Sorted, AllBelow, AllAbove;
    var n := Node(Cell(e, Red), Leaf, Leaf);
    InsertFixRedBlack(p, n, 0);
    InsertFixInorder(p, n);
    assert Inorder(n) == [e];
    AroundIs(p, [e]);
    AroundIs(p, []);
    assert Before(p) + [] + After(p) == Before(p) + After(p);
    SortedAround(cmp, Before(p), e, After(p));
    MapOfAround(cmp, Before(p), e, After(p));
  }

  lemma OverwriteKeepsShape(p: Path, s: Tree, value: Value)
    requires s.Node? && RedBlack(Plug(p, s))
    ensures RedBlack(Plug(p, Overwrite(s, value)))
  {
    PlugRedBlack(p, s);
    PlugGood(p, Overwrite(s, value), BlackHeight(s));
  }

  lemma OverwritePresent(cmp: (Key, Key) -> int, p: Path, s: Tree, value: Value)
    requires TotalOrder(cmp) && s.Node? && SearchTree(cmp, Plug(p, s))
    ensures var r := Plug(p, Overwrite(s, value));
      SearchTree(cmp, r) && MapOf(Inorder(r)) == MapOf(Inorder(Plug(p, s)))[s.cell.entry.key := value]
  {
    hide TotalOrder, Sorted, AllBelow, AllAbove, MapOf, RedBlack, Plug, Around, Before, After;
    var u := Overwrite(s, value);
    OverwriteKeepsShape(p, s, value);
    PlugInorder(p, s);
    PlugInorder(p, u);
    RootSplits(p, s);
    RootSplits(p, u);
    var l, r := Before(p) + Inorder(s.left), Inorder(s.right) + After(p);
    SortedAround(cmp, l, s.cell.entry, r);
    SortedAround(cmp, l, u.cell.entry, r);
    MapOfAround(cmp, l, s.cell.entry, r);
    MapOfAround(cmp, l, u.cell.entry, r);
  }

  // ---------- Deletion ----------

  /** The position of the greatest key below a position. */
  function Rightmost(p: Path, t: Tree): (r: (Path, Tree))
    requires t.Node?
    ensures r.1.Node? && r.1.right.Leaf?
    decreases t
  {
    if t.right.Leaf? then (p, t) else Rightmost(Step(p, t.cell, Right, t.left), t.right)
  }

  /** The entry that replaces the one at the root of `s` when both children exist. */
  function Predecessor(s: Tree): Entry
    requires s.Node? && s.left.Node?
  {
    Rightmost(Top, s.left).1.cell.entry
  }

  /** `s` with the key and value of `e` copied into its root node. */
  function CopyPair(s: Tree, e: Entry): Tree
    requires s.Node?
  {
    s.(cell := s.cell.(entry := Entry(s.cell.entry.node, e.key, e.value)))
  }

  /**
    The node to unlink for a deletion at `s`: `s` itself if it lacks a child, else the
    predecessor, whose key and value have been copied up and so occur twice.
   */
  function Doomed(p: Path, s: Tree): (r: (Path, Tree))
    requires s.Node?
    ensures r.1.Node? && (r.1.left.Leaf? || r.1.right.Leaf?)
  {
    if s.left.Node? && s.right.Node? then
      var u := CopyPair(s, Predecessor(s));
      Rightmost(Step(p, u.cell, Left, u.right), u.left)
    else (p, s)
  }

  function OnlyChild(m: Tree): Tree
    requires m.Node?
  {
    if m.right.Leaf? then m.left else m.right
  }

  /** Rebalance for the loss of the node at `(p, m)`, then splice it out. */
  function Unlink(p: Path, m: Tree): Tree
    requires m.Node?
  {
    var q := if m.cell.colour == Black then RemoveFix(p) else p;
    if q.Top? then PaintRoot(OnlyChild(m), Black) else Plug(q, OnlyChild(m))
  }

  function DeleteTree(cmp: (Key, Key) -> int, t: Tree, key: Key): Tree {
    var (p, s) := Descend(cmp, Top, t, key);
    if s.Leaf? then t else var (q, m) := Doomed(p, s); Unlink(q, m)
  }

  lemma {:induction false} RightmostPlug(p: Path, t: Tree)
    requires t.Node?
    ensures var (q, m) := Rightmost(p, t);
      && Plug(q, m) == Plug(p, t) && m == Rightmost(Top, t).1
      && (forall x :: Around(q, x) == Around(p, RightmostRest(t) + x))
      && Inorder(t) == RightmostRest(t) + Inorder(m)
    decreases t
  {
    hide Around;
    forall x
      ensures Around(Rightmost(p, t).0, x) == Around(p, RightmostRest(t) + x)
    {
      RightmostAround(p, t, x);
    }
    if t.right.Node? {
      RightmostPlug(Step(p, t.cell, Right, t.left), t.right);
      RightmostPlug(Step(Top, t.cell, Right, t.left), t.right);
      var l, m := Inorder(t.left) + [t.cell.entry], Rightmost(p, t).1;
      assert l + (RightmostRest(t.right) + Inorder(m)) == (l + RightmostRest(t.right)) + Inorder(m);
    }
  }

  lemma {:induction false} RightmostAround(p: Path, t: Tree, x: seq<Entry>)
    requires t.Node?
    ensures Around(Rightmost(p, t).0, x) == Around(p, RightmostRest(t) + x)
    decreases t
  {
    if t.right.Node? {
      RightmostAround(Step(p, t.cell, Right, t.left), t.right, x);
      var l := Inorder(t.left) + [t.cell.entry];
      assert l + (RightmostRest(t.right) + x) == (l + RightmostRest(t.right)) + x;
    } else {
      assert [] + x == x;
    }
  }

  /** What precedes the subtree of the rightmost node. */
  function RightmostRest(t: Tree): seq<Entry>
    requires t.Node?
  {
    if t.right.Leaf? then [] else Inorder(t.left) + [t.cell.entry] + RightmostRest(t.right)
  }

  /** A node without two children has black height 1 when it is black. */
  lemma RemovableShape(m: Tree)
    requires m.Node? && (m.left.Leaf? || m.right.Leaf?) && HasBlackHeight(m, BlackHeight(m))
    ensures m.cell.colour == Black ==> BlackHeight(m) == 1
  {
  }

  lemma UnlinkRedBlack(p: Path, m: Tree)
    requires m.Node? && (m.left.Leaf? || m.right.Leaf?) && RedBlack(Plug(p, m))
    ensures RedBlack(Unlink(p, m))
  {
    PlugRedBlack(p, m);
    var c := OnlyChild(m);
    assert HasBlackHeight(c, 0);
    if m.cell.colour == Black {
      RemoveFixRedBlack(p, 0);
    }
    var q := if m.cell.colour == Black then RemoveFix(p) else p;
    if q.Top? {
      BlackHeightUnique(c, 0);
      if c.Node? {
        assert HasBlackHeight(c.left, 0) && HasBlackHeight(c.right, 0);
        PlugGood(Top, PaintRoot(c, Black), 1);
      }
    } else {
      PlugGood(q, c, 0);
    }
  }

  lemma UnlinkInorder(p: Path, m: Tree)
    requires m.Node? && (m.left.Leaf? || m.right.Leaf?)
    ensures Inorder(Unlink(p, m)) == Around(p, Inorder(OnlyChild(m)))
  {
    var q := if m.cell.colour == Black then RemoveFix(p) else p;
    RemoveFixInorder(p, Inorder(OnlyChild(m)));
    PlugInorder(q, OnlyChild(m));
  }

  /** The entries of `kept` after their keys and values have moved into `node`. */
  function MovedInto(kept: seq<Entry>, node: TreeNode): seq<Entry> {
    if kept == [] then [] else [Entry(node, kept[0].key, kept[0].value)]
  }

  /**
    Deleting at `s` takes the entry of `s` out of the sequence; with two children its
    left neighbour `kept` moves into the node of `s`.
   */
  lemma DoomedCorrect(p: Path, s: Tree) returns (l: seq<Entry>, kept: seq<Entry>, r: seq<Entry>)
    requires s.Node? && RedBlack(Plug(p, s))
    ensures var (q, m) := Doomed(p, s);
      && RedBlack(Unlink(q, m))
      && kept == (if s.left.Node? && s.right.Node? then [Predecessor(s)] else [])
      && Around(p, Inorder(s)) == l + kept + [s.cell.entry] + r
      && Inorder(Unlink(q, m)) == l + MovedInto(kept, s.cell.entry.node) + r
  {
    hide RedBlack, Unlink, Plug, Around, Rightmost, Before, After;
    if s.left.Node? && s.right.Node? {
      l, r := DoomedPredecessor(p, s);
      kept := [Predecessor(s)];
    } else {
      UnlinkRedBlack(p, s);
      UnlinkInorder(p, s);
      RootSplits(p, s);
      AroundIs(p, Inorder(OnlyChild(s)));
      l, kept, r := Before(p) + Inorder(s.left), [], Inorder(s.right) + After(p);
      assert l + kept == l && l + MovedInto(kept, s.cell.entry.node) == l;
      assert Before(p) + Inorder(OnlyChild(s)) + After(p) == l + r;
    }
  }

  lemma DoomedPredecessor(p: Path, s: Tree) returns (l: seq<Entry>, r: seq<Entry>)
    requires s.Node? && s.left.Node? && s.right.Node? && RedBlack(Plug(p, s))
    ensures var (q, m) := Doomed(p, s);
      && RedBlack(Unlink(q, m))
      && Around(p, Inorder(s)) == l + [Predecessor(s)] + [s.cell.entry] + r
      && Inorder(Unlink(q, m)) == l + MovedInto([Predecessor(s)], s.cell.entry.node) + r
  {
    hide RedBlack, Unlink, Plug, Around, Inorder, RightmostRest, Before, After;
    var (q, m) := Doomed(p, s);
    var pred := Predecessor(s);
    var u := CopyPair(s, pred);
    DoomedRedBlack(p, s);
    RightmostPlug(Step(p, u.cell, Left, u.right), u.left);
    UnlinkRedBlack(q, m);
    UnlinkInorder(q, m);
    var x := RightmostRest(s.left) + Inorder(m.left);
    l, r := Before(p) + x, Inorder(s.right) + After(p);
    RootSplits(p, s);
    LastEntry(s.left, m);
    assert Before(p) + Inorder(s.left) == l + [pred];
    AroundLeft(p, u.cell, u.right, x);
    AroundIs(p, x + [u.cell.entry] + Inorder(s.right));
    Regroup2(Before(p), x, u.cell.entry, Inorder(s.right), After(p));
    assert OnlyChild(m) == m.left && MovedInto([pred], s.cell.entry.node) == [u.cell.entry];
  }

  lemma AroundLeft(p: Path, cell: Cell, other: Tree, x: seq<Entry>)
    ensures Around(Step(p, cell, Left, other), x) == Around(p, x + [cell.entry] + Inorder(other))
  {
  }

  /** The rightmost node of a tree holds its last entry. */
  lemma LastEntry(t: Tree, m: Tree)
    requires t.Node? && m == Rightmost(Top, t).1
    ensures Inorder(t) == (RightmostRest(t) + Inorder(m.left)) + [m.cell.entry]
  {
    hide RightmostRest;
    RightmostPlug(Top, t);
    assert Inorder(m) == Inorder(m.left) + [m.cell.entry] + [];
  }

  lemma DeleteCorrect(cmp: (Key, Key) -> int, t: Tree, key: Key)
    requires TotalOrder(cmp) && SearchTree(cmp, t)
    ensures var r := DeleteTree(cmp, t, key);
      && SearchTree(cmp, r) && MapOf(Inorder(r)) == MapOf(Inorder(t)) - {key}
  {
    hide TotalOrder, RedBlack, Sorted, MapOf, Inorder, Descend, Doomed, Unlink;
    var (p, s) := Descend(cmp, Top, t, key);
    LookupCorrect(cmp, t, key);
    DescendWhole(cmp, t, key);
    if s.Node? {
      DeletePresent(cmp, p, s);
    }
  }

  lemma DescendWhole(cmp: (Key, Key) -> int, t: Tree, key: Key)
    requires TotalOrder(cmp) && SearchTree(cmp, t)
    ensures var (p, s) := Descend(cmp, Top, t, key);
      Plug(p, s) == t && Around(p, Inorder(s)) == Inorder(t)
  {
    DescendSplits(cmp, Top, t, key);
    PlugInorder(Descend(cmp, Top, t, key).0, Descend(cmp, Top, t, key).1);
  }

  lemma DeletePresent(cmp: (Key, Key) -> int, p: Path, s: Tree)
    requires TotalOrder(cmp) && s.Node? && RedBlack(Plug(p, s)) && Sorted(cmp, Around(p, Inorder(s)))
    ensures var r := Unlink(Doomed(p, s).0, Doomed(p, s).1);
      SearchTree(cmp, r) && MapOf(Inorder(r)) == MapOf(Around(p, Inorder(s))) - {s.cell.entry.key}
  {
    hide TotalOrder, Sorted, RedBlack, MapOf, Inorder, Around;
    var l, kept, r := DoomedCorrect(p, s);
    var e := s.cell.entry;
    if kept == [] {
      assert l + kept == l && l + [] == l;
      SortedAround(cmp, l, e, r);
      MapOfAround(cmp, l, e, r);
    } else {
      assert kept == [kept[0]];
      DropAfter(cmp, l, kept[0], e, r);
    }
  }

  /** Removing `e` while its left neighbour's key and value move into its node. */
  lemma DropAfter(cmp: (Key, Key) -> int, l: seq<Entry>, d: Entry, e: Entry, r: seq<Entry>)
    requires TotalOrder(cmp) && Sorted(cmp, l + [d] + [e] + r)
    ensures var moved := l + [Entry(e.node, d.key, d.value)] + r;
      Sorted(cmp, moved) && MapOf(moved) == MapOf(l + [d] + [e] + r) - {e.key}
  {
    hide TotalOrder, Sorted, AllBelow, AllAbove;
    SortedAround(cmp, l + [d], e, r);
    MapOfAround(cmp, l + [d], e, r);
    SortedAround(cmp, l, d, r);
    MapOfAround(cmp, l, d, r);
    SortedAround(cmp, l, Entry(e.node, d.key, d.value), r);
    MapOfAround(cmp, l, Entry(e.node, d.key, d.value), r);
  }

  lemma DoomedRedBlack(p: Path, s: Tree)
    requires s.Node? && RedBlack(Plug(p, s))
    ensures RedBlack(Plug(Doomed(p, s).0, Doomed(p, s).1))
  {
    if s.left.Node? && s.right.Node? {
      var u := CopyPair(s, Predecessor(s));
      PlugRedBlack(p, s);
      PlugGood(p, u, BlackHeight(s));
      RightmostPlug(Step(p, u.cell, Left, u.right), u.left);
    }
  }

  // ---------- Number of nodes ----------

  lemma InsertCount(cmp: (Key, Key) -> int, t: Tree, node: TreeNode, key: Key, value: Value)
    requires TotalOrder(cmp) && SearchTree(cmp, t)
    ensures |Inorder(InsertTree(cmp, t, node, key, value))|
      == |Inorder(t)| + (if key in MapOf(Inorder(t)) then 0 else 1)
  {
    hide TotalOrder, InsertTree;
    InsertCorrect(cmp, t, node, key, value);
    MapOfSize(cmp, Inorder(t));
    MapOfSize(cmp, Inorder(InsertTree(cmp, t, node, key, value)));
    var m := MapOf(Inorder(t));
    assert m[key := value].Keys == m.Keys + {key};
  }

  lemma DeleteCount(cmp: (Key, Key) -> int, t: Tree, key: Key)
    requires TotalOrder(cmp) && SearchTree(cmp, t)
    ensures |Inorder(DeleteTree(cmp, t, key))|
      == |Inorder(t)| - (if key in MapOf(Inorder(t)) then 1 else 0)
  {
    hide TotalOrder, DeleteTree;
    DeleteCorrect(cmp, t, key);
    MapOfSize(cmp, Inorder(t));
    MapOfSize(cmp, Inorder(DeleteTree(cmp, t, key)));
    var m := MapOf(Inorder(t));
    assert (m - {key}).Keys == m.Keys - {key};
  }

  // ---------- Height ----------

  function Height(t: Tree): nat {
    match t
    case Leaf => 0
    case Node(_, left, right) => 1 + if Height(left) > Height(right) then Height(left) else Height(right)
  }

  lemma {:induction false} HeightBounds(t: Tree, h: nat)
    requires HasBlackHeight(t, h) && NoRedRed(t)
    ensures Height(t) <= 2 * h + (if IsRed(t) then 1 else 0)
    ensures Pow2(h) <= |Inorder(t)| + 1
  {
    match t
    case Leaf =>
    case Node(cell, left, right) =>
      if cell.colour == Black {
        BlackHeightUnique(t, h);
        HeightBounds(left, h - 1);
        HeightBounds(right, h - 1);
      } else {
        HeightBounds(left, h);
        HeightBounds(right, h);
      }
  }

  lemma {:induction false} Pow2Monotone(a: nat, b: nat)
    requires a <= b
    ensures Pow2(a) <= Pow2(b)
  {
    if a < b { Pow2Monotone(a, b - 1); }
  }

  lemma {:induction false} Pow2Square(a: nat)
    ensures Pow2(2 * a) == Pow2(a) * Pow2(a)
  {
    if a > 0 {
      Pow2Square(a - 1);
      assert Pow2(2 * a) == 4 * Pow2(2 * (a - 1));
    }
  }

  /** `h` is at most 2 * log2(n + 1). */
  predicate LogBound(h: nat, n: nat) {
    Pow2(h) <= (n + 1) * (n + 1)
  }

  /** With `n` keys the height is at most 2 * log2(n + 1). */
  lemma HeightLogarithmic(t: Tree)
    requires RedBlack(t)
    ensures LogBound(Height(t), |Inorder(t)|)
  {
    var h := BlackHeight(t);
    HeightBounds(t, h);
    Pow2Monotone(Height(t), 2 * h);
    Pow2Square(h);
    SquareMonotone(Pow2(h), |Inorder(t)| + 1);
  }

  lemma LogBoundBelow(a: nat, b: nat, n: nat)
    requires a <= b && LogBound(b, n)
    ensures LogBound(a, n)
  {
    Pow2Monotone(a, b);
  }

  lemma SquareMonotone(a: nat, b: nat)
    requires a <= b
    ensures a * a <= b * b
  {
  }

  // ---------- Runs ----------

  datatype Operation =
    | Insert(node: TreeNode, key: Key, value: Value)
    | Delete(key: Key)
    | Clear

  function Apply(cmp: (Key, Key) -> int, t: Tree, op: Operation): Tree {
    match op
    case Insert(node, key, value) => InsertTree(cmp, t, node, key, value)
    case Delete(key) => DeleteTree(cmp, t, key)
    case Clear => Leaf
  }

  function ApplyToMap(m: map<Key, Value>, op: Operation): map<Key, Value> {
    match op
    case Insert(_, key, value) => m[key := value]
    case Delete(key) => m - {key}
    case Clear => map[]
  }

  function Run(cmp: (Key, Key) -> int, ops: seq<Operation>): Tree {
    if ops == [] then Leaf else Apply(cmp, Run(cmp, ops[..|ops| - 1]), ops[|ops| - 1])
  }

  function RunOnMap(ops: seq<Operation>): map<Key, Value> {
    if ops == [] then map[] else ApplyToMap(RunOnMap(ops[..|ops| - 1]), ops[|ops| - 1])
  }

  /** Every run from the empty tree yields a sorted red-black tree for the right map. */
  lemma {:induction false} RunRefinesMap(cmp: (Key, Key) -> int, ops: seq<Operation>)
    requires TotalOrder(cmp)
    ensures var t := Run(cmp, ops);
      SearchTree(cmp, t) && MapOf(Inorder(t)) == RunOnMap(ops)
  {
    if ops != [] {
      hide TotalOrder;
      RunRefinesMap(cmp, ops[..|ops| - 1]);
      ApplyCorrect(cmp, Run(cmp, ops[..|ops| - 1]), ops[|ops| - 1]);
    }
  }

  lemma ApplyCorrect(cmp: (Key, Key) -> int, t: Tree, op: Operation)
    requires TotalOrder(cmp) && SearchTree(cmp, t)
    ensures var r := Apply(cmp, t, op);
      SearchTree(cmp, r) && MapOf(Inorder(r)) == ApplyToMap(MapOf(Inorder(t)), op)
  {
    match op
    case Insert(node, key, value) => InsertCorrect(cmp, t, node, key, value);
    case Delete(key) => DeleteCorrect(cmp, t, key);
    case Clear =>
  }

  /** A search in any reachable tree visits at most 2 * log2(n + 1) nodes, for n live keys. */
  lemma RunHeight(cmp: (Key, Key) -> int, ops: seq<Operation>)
    requires TotalOrder(cmp)
    ensures LogBound(Height(Run(cmp, ops)), |RunOnMap(ops)|)
  {
    hide TotalOrder, LogBound;
    RunRefinesMap(cmp, ops);
    HeightLogarithmic(Run(cmp, ops));
    MapOfSize(cmp, Inorder(Run(cmp, ops)));
  }
}
