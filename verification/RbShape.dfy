/**
  Red-black trees as values: a tree, a path back to the root, and the balancing
  steps of insertion and deletion as functions on a focused tree.

  A `Path` describes everything around one position of a tree. Each `Step` holds
  the parent cell, the side of the parent on which the position hangs, and the
  subtree on the other side. Parent pointers make exactly these positions
  reachable from a node, so the fix-ups are functions on paths.
 */
module RbShape {
  type Key(==, !new)
  type Value(==, !new)

  datatype Colour = Red | Black

  /** A tree node as it lies in memory. */
  class TreeNode {
    var key: Key
    var value: Value
    var colour: Colour
    var parent: TreeNode?
    var left: TreeNode?
    var right: TreeNode?

    constructor (parent: TreeNode?, key: Key, value: Value)
      ensures this.key == key && this.value == value && this.colour == Red
      ensures this.parent == parent && left == null && right == null
    {
      this.key, this.value, this.colour := key, value, Red;
      this.parent, left, right := parent, null, null;
    }
  }

  /** What a node stores, apart from its links and its colour. */
  datatype Entry = Entry(node: TreeNode, key: Key, value: Value)

  datatype Cell = Cell(entry: Entry, colour: Colour)

  datatype Tree = Leaf | Node(cell: Cell, left: Tree, right: Tree)

  datatype Side = Left | Right

  datatype Path = Top | Step(up: Path, cell: Cell, side: Side, other: Tree)

  // ---------- Building and taking apart ----------

  function Opposite(side: Side): Side {
    if side == Left then Right else Left
  }

  /** The tree whose child on `side` is `near`, and whose other child is `far`. */
  function Join(cell: Cell, side: Side, near: Tree, far: Tree): Tree {
    if side == Left then Node(cell, near, far) else Node(cell, far, near)
  }

  function Child(t: Tree, side: Side): Tree
    requires t.Node?
  {
    if side == Left then t.left else t.right
  }

  function Plug(p: Path, t: Tree): Tree {
    match p
    case Top => t
    case Step(up, cell, side, other) => Plug(up, Join(cell, side, t, other))
  }

  function Paint(cell: Cell, colour: Colour): Cell {
    cell.(colour := colour)
  }

  /** Repaint the root of a tree; an absent tree stays absent. */
  function PaintRoot(t: Tree, colour: Colour): Tree {
    if t.Leaf? then t else t.(cell := Paint(t.cell, colour))
  }

  predicate IsRed(t: Tree) {
    t.Node? && t.cell.colour == Red
  }

  function ColourOf(t: Tree): Colour {
    if t.Leaf? then Black else t.cell.colour
  }

  /** In-order sequence of the stored entries. */
  function Inorder(t: Tree): seq<Entry> {
    match t
    case Leaf => []
    case Node(cell, left, right) => Inorder(left) + [cell.entry] + Inorder(right)
  }

  /** `x` and `y` around `e`, with `x` on the given side. */
  function Flank(side: Side, x: seq<Entry>, e: Entry, y: seq<Entry>): seq<Entry> {
    if side == Left then x + [e] + y else y + [e] + x
  }

  /** The whole in-order sequence when `x` is what hangs at the position. */
  function Around(p: Path, x: seq<Entry>): seq<Entry> {
    match p
    case Top => x
    case Step(up, cell, side, other) => Around(up, Flank(side, x, cell.entry, Inorder(other)))
  }

  lemma {:induction false} PlugInorder(p: Path, t: Tree)
    ensures Inorder(Plug(p, t)) == Around(p, Inorder(t))
  {
    match p
    case Top =>
    case Step(up, cell, side, other) => PlugInorder(up, Join(cell, side, t, other));
  }

  /** The sequence fact behind every rotation. */
  lemma Rotation(d: Side, x: seq<Entry>, e: Entry, y: seq<Entry>, f: Entry, z: seq<Entry>)
    ensures Flank(d, Flank(d, x, e, y), f, z) == Flank(d, x, e, Flank(d, y, f, z))
  {
    if d == Left {
      assert x + [e] + y + [f] + z == x + [e] + (y + [f] + z);
    } else {
      assert z + [f] + (y + [e] + x) == z + [f] + y + [e] + x;
    }
  }

  /** Rotating a child above the root keeps the entries in order. */
  lemma RotationKeepsOrder(t: Tree)
    requires t.Node?
    ensures t.right.Node? ==>
      Inorder(Node(t.right.cell, Node(t.cell, t.left, t.right.left), t.right.right)) == Inorder(t)
    ensures t.left.Node? ==>
      Inorder(Node(t.left.cell, t.left.left, Node(t.cell, t.left.right, t.right))) == Inorder(t)
  {
    if t.right.Node? {
      Rotation(Left, Inorder(t.left), t.cell.entry, Inorder(t.right.left), t.right.cell.entry, Inorder(t.right.right));
    }
    if t.left.Node? {
      Rotation(Left, Inorder(t.left.left), t.left.cell.entry, Inorder(t.left.right), t.cell.entry, Inorder(t.right));
    }
  }

  // ---------- The red-black conditions ----------

  /** Every path from `t` to an absent child passes `h` black nodes. */
  predicate HasBlackHeight(t: Tree, h: int) {
    match t
    case Leaf => h == 0
    case Node(cell, left, right) =>
      var below := if cell.colour == Black then h - 1 else h;
      HasBlackHeight(left, below) && HasBlackHeight(right, below)
  }

  function BlackHeight(t: Tree): nat {
    match t
    case Leaf => 0
    case Node(cell, left, _) => BlackHeight(left) + if cell.colour == Black then 1 else 0
  }

  /** No red node has a red child. */
  predicate NoRedRed(t: Tree) {
    match t
    case Leaf => true
    case Node(cell, left, right) =>
      && NoRedRed(left) && NoRedRed(right)
      && (cell.colour == Red ==> !IsRed(left) && !IsRed(right))
  }

  predicate RedBlack(t: Tree) {
    HasBlackHeight(t, BlackHeight(t)) && NoRedRed(t) && !IsRed(t)
  }

  predicate ParentIsRed(p: Path) {
    p.Step? && p.cell.colour == Red
  }

  /** A tree of black height `h` fits in this position as far as black heights go. */
  predicate FitsHeight(p: Path, h: int) {
    match p
    case Top => true
    case Step(up, cell, side, other) =>
      HasBlackHeight(other, h) && FitsHeight(up, if cell.colour == Black then h + 1 else h)
  }

  /** The path has a black root and no red node with a red child. */
  predicate PathRedOk(p: Path) {
    match p
    case Top => true
    case Step(up, cell, side, other) =>
      && NoRedRed(other) && PathRedOk(up)
      && (cell.colour == Red ==> !IsRed(other) && !ParentIsRed(up) && up.Step?)
  }

  lemma {:induction false} BlackHeightUnique(t: Tree, h: int)
    requires HasBlackHeight(t, h)
    ensures h == BlackHeight(t)
  {
    match t
    case Leaf =>
    case Node(cell, left, right) => BlackHeightUnique(left, if cell.colour == Black then h - 1 else h);
  }

  /** A position of a red-black tree splits it into a good path and a good subtree. */
  lemma {:induction false} PlugRedBlack(p: Path, t: Tree)
    ensures RedBlack(Plug(p, t)) ==>
      && HasBlackHeight(t, BlackHeight(t)) && NoRedRed(t)
      && FitsHeight(p, BlackHeight(t)) && PathRedOk(p)
      && (IsRed(t) ==> p.Step? && !ParentIsRed(p))
  {
    match p
    case Top =>
    case Step(up, cell, side, other) =>
      var whole := Join(cell, side, t, other);
      PlugRedBlack(up, whole);
      if RedBlack(Plug(p, t)) {
        var h := if cell.colour == Black then BlackHeight(whole) - 1 else BlackHeight(whole);
        BlackHeightUnique(t, h);
      }
  }

  /** Conversely, a good subtree fitting a good path makes a red-black tree. */
  lemma {:induction false} PlugGood(p: Path, t: Tree, h: int)
    requires HasBlackHeight(t, h) && NoRedRed(t) && FitsHeight(p, h) && PathRedOk(p)
    requires IsRed(t) ==> p.Step? && !ParentIsRed(p)
    ensures RedBlack(Plug(p, t))
  {
    match p
    case Top => BlackHeightUnique(t, h);
    case Step(up, cell, side, other) =>
      PlugGood(up, Join(cell, side, t, other), if cell.colour == Black then h + 1 else h);
  }

  // ---------- Insertion fix-up ----------

  /**
    The tree after the insertion fix-up has run at a red node `t` at position `p`.
    Recolouring moves the red node two levels up; otherwise at most two rotations
    finish the repair.
   */
  function InsertFix(p: Path, t: Tree): Tree {
    match p
    case Top => PaintRoot(t, Black)
    case Step(up, cell, side, other) =>
      if cell.colour == Black || up.Top? then Plug(p, t)
      else if IsRed(up.other) then
        InsertFix(up.up, Join(Paint(up.cell, Red), up.side,
                              Join(Paint(cell, Black), side, t, other),
                              PaintRoot(up.other, Black)))
      else InsertRotate(p, t)
  }

  /** The last step of the fix-up: red parent, black uncle. */
  function InsertRotate(p: Path, t: Tree): Tree
    requires p.Step? && p.up.Step?
  {
    if p.side != p.up.side && t.Leaf? then Plug(p, t)
    else
      var (q, s) := InsertInner(p, t);
      var g := q.up;
      Plug(g.up, Join(Paint(q.cell, Black), g.side, s,
                      Join(Paint(g.cell, Red), g.side, q.other, g.other)))
  }

  /** An inner grandchild is first rotated outwards; the old parent becomes the focus. */
  function InsertInner(p: Path, t: Tree): (r: (Path, Tree))
    requires p.Step? && p.up.Step?
    ensures r.0.Step? && r.0.up == p.up
  {
    var d := p.up.side;
    if p.side == d || t.Leaf? then (p, t)
    else (Step(p.up, t.cell, d, Child(t, Opposite(d))), Join(p.cell, d, p.other, Child(t, d)))
  }

  lemma {:induction false} InsertFixInorder(p: Path, t: Tree)
    ensures Inorder(InsertFix(p, t)) == Around(p, Inorder(t))
  {
    match p
    case Top =>
    case Step(up, cell, side, other) =>
      if cell.colour == Black || up.Top? {
        PlugInorder(p, t);
      } else if IsRed(up.other) {
        InsertFixInorder(up.up, Join(Paint(up.cell, Red), up.side,
                                     Join(Paint(cell, Black), side, t, other),
                                     PaintRoot(up.other, Black)));
      } else {
        InsertRotateInorder(p, t);
      }
  }

  lemma InsertRotateInorder(p: Path, t: Tree)
    requires p.Step? && p.up.Step?
    ensures Inorder(InsertRotate(p, t)) == Around(p, Inorder(t))
  {
    var q, s := InsertInner(p, t).0, InsertInner(p, t).1;
    var g, d := q.up, p.up.side;
    if q != p {
      Rotation(d, Inorder(p.other), p.cell.entry, Inorder(Child(t, d)), t.cell.entry, Inorder(Child(t, Opposite(d))));
    }
    if p.side == d || t.Node? {
      Rotation(d, Inorder(s), q.cell.entry, Inorder(q.other), g.cell.entry, Inorder(g.other));
    }
    PlugInorder(g.up, Join(Paint(q.cell, Black), d, s, Join(Paint(g.cell, Red), d, q.other, g.other)));
    PlugInorder(p, t);
  }

  /** The fix-up turns "red node under a possibly red parent" into a red-black tree. */
  lemma {:induction false} InsertFixRedBlack(p: Path, t: Tree, h: int)
    requires IsRed(t) && HasBlackHeight(t, h) && NoRedRed(t)
    requires FitsHeight(p, h) && PathRedOk(p)
    ensures RedBlack(InsertFix(p, t))
  {
    match p
    case Top => BlackHeightUnique(PaintRoot(t, Black), h + 1);
    case Step(up, cell, side, other) =>
      if cell.colour == Black {
        PlugGood(p, t, h);
      } else if IsRed(up.other) {
        InsertFixRedBlack(up.up, Join(Paint(up.cell, Red), up.side,
                                      Join(Paint(cell, Black), side, t, other),
                                      PaintRoot(up.other, Black)), h + 1);
      } else {
        var q, s := InsertInner(p, t).0, InsertInner(p, t).1;
        var g := q.up;
        PlugGood(g.up, Join(Paint(q.cell, Black), g.side, s,
                            Join(Paint(g.cell, Red), g.side, q.other, g.other)), h + 1);
      }
  }

  // ---------- Deletion fix-up ----------

  /**
    The path of the doomed node after the deletion fix-up. The fix-up never looks
    below the doomed node, so it is a function of the path alone.
   */
  function RemoveFix(p: Path): Path {
    match p
    case Top => p
    case Step(up, cell, side, other) =>
      if other.Leaf? then p
      else if IsRed(other) then RemoveFinish(LowerSibling(p))
      else if cell.colour == Black && !IsRed(other.left) && !IsRed(other.right) then
        Step(RemoveFix(up), cell, side, PaintRoot(other, Red))
      else RemoveFinish(p)
  }

  /** A red sibling is rotated above the parent, which becomes red. */
  function LowerSibling(p: Path): Path
    requires p.Step? && p.other.Node?
  {
    var s := p.other;
    Step(Step(p.up, Paint(s.cell, Black), p.side, Child(s, Opposite(p.side))),
         Paint(p.cell, Red), p.side, Child(s, p.side))
  }

  /** Black sibling, and either the parent or a nephew is red: the repair ends here. */
  function RemoveFinish(p: Path): Path
    requires p.Step?
  {
    if p.other.Leaf? then p
    else if p.cell.colour == Red && !IsRed(p.other.left) && !IsRed(p.other.right) then
      p.(cell := Paint(p.cell, Black), other := PaintRoot(p.other, Red))
    else RaiseSibling(StraightenNephew(p))
  }

  /** A red near nephew with a black far nephew is rotated to the far side. */
  function StraightenNephew(p: Path): (r: Path)
    requires p.Step? && p.other.Node?
    ensures r.Step? && r.other.Node?
  {
    var s := p.other;
    var near, far := Child(s, p.side), Child(s, Opposite(p.side));
    if IsRed(near) && !IsRed(far) then
      p.(other := Join(Paint(near.cell, Black), p.side, Child(near, p.side),
                       Join(Paint(s.cell, Red), p.side, Child(near, Opposite(p.side)), far)))
    else p
  }

  /** The sibling is rotated above the parent and takes over the parent's colour. */
  function RaiseSibling(p: Path): Path
    requires p.Step? && p.other.Node?
  {
    var s := p.other;
    Step(Step(p.up, Paint(s.cell, p.cell.colour), p.side, PaintRoot(Child(s, Opposite(p.side)), Black)),
         Paint(p.cell, Black), p.side, Child(s, p.side))
  }

  /** A sibling of a node that counts as black exists, and so does the one below a red sibling. */
  lemma SiblingShape(p: Path, h: int)
    requires h >= 0 && p.Step? && FitsHeight(p, h + 1) && PathRedOk(p)
    ensures p.other.Node?
    ensures IsRed(p.other) ==> LowerSibling(p).other.Node? && !IsRed(LowerSibling(p).other)
  {
    if IsRed(p.other) {
      assert HasBlackHeight(Child(p.other, p.side), h + 1);
    }
  }

  lemma {:induction false} RemoveFixInorder(p: Path, x: seq<Entry>)
    ensures Around(RemoveFix(p), x) == Around(p, x)
  {
    match p
    case Top =>
    case Step(up, cell, side, other) =>
      if other.Leaf? {
      } else if IsRed(other) {
        Rotation(side, x, cell.entry, Inorder(Child(other, side)), other.cell.entry,
                 Inorder(Child(other, Opposite(side))));
        RemoveFinishInorder(LowerSibling(p), x);
      } else if cell.colour == Black && !IsRed(other.left) && !IsRed(other.right) {
        RemoveFixInorder(up, Flank(side, x, cell.entry, Inorder(other)));
      } else {
        RemoveFinishInorder(p, x);
      }
  }

  lemma RemoveFinishInorder(p: Path, x: seq<Entry>)
    requires p.Step?
    ensures Around(RemoveFinish(p), x) == Around(p, x)
  {
    if p.other.Node? {
      StraightenNephewInorder(p, x);
      var q := StraightenNephew(p);
      Rotation(q.side, x, q.cell.entry, Inorder(Child(q.other, q.side)), q.other.cell.entry,
               Inorder(Child(q.other, Opposite(q.side))));
    }
  }

  lemma StraightenNephewInorder(p: Path, x: seq<Entry>)
    requires p.Step? && p.other.Node?
    ensures Around(StraightenNephew(p), x) == Around(p, x)
  {
    var s, d := p.other, p.side;
    var near, far := Child(s, d), Child(s, Opposite(d));
    if near.Node? {
      assert Inorder(s) == Flank(d, Inorder(near), s.cell.entry, Inorder(far));
      assert Inorder(near) == Flank(d, Inorder(Child(near, d)), near.cell.entry, Inorder(Child(near, Opposite(d))));
      Rotation(d, Inorder(Child(near, d)), near.cell.entry, Inorder(Child(near, Opposite(d))),
               s.cell.entry, Inorder(far));
      var inner := Join(Paint(s.cell, Red), d, Child(near, Opposite(d)), far);
      assert Inorder(inner) == Flank(d, Inorder(Child(near, Opposite(d))), s.cell.entry, Inorder(far));
    }
  }

  /**
    A path that fits a tree of black height `h + 1` is repaired to fit one of black
    height `h`; its parent is then black, so even a red subtree may be put there.
   */
  lemma {:induction false} RemoveFixRedBlack(p: Path, h: int)
    requires h >= 0 && FitsHeight(p, h + 1) && PathRedOk(p)
    ensures FitsHeight(RemoveFix(p), h) && PathRedOk(RemoveFix(p))
    ensures !ParentIsRed(RemoveFix(p)) && (RemoveFix(p).Top? <==> p.Top?)
  {
    match p
    case Top =>
    case Step(up, cell, side, other) =>
      if IsRed(other) {
        RemoveFinishRedBlack(LowerSibling(p), h);
      } else if cell.colour == Black && !IsRed(other.left) && !IsRed(other.right) {
        RemoveFixRedBlack(up, h + 1);
      } else {
        RemoveFinishRedBlack(p, h);
      }
  }

  lemma RemoveFinishRedBlack(p: Path, h: int)
    requires h >= 0 && p.Step? && FitsHeight(p, h + 1) && PathRedOk(p) && !IsRed(p.other)
    requires p.cell.colour == Red || IsRed(p.other.left) || IsRed(p.other.right)
    ensures var r := RemoveFinish(p);
      r.Step? && FitsHeight(r, h) && PathRedOk(r) && !ParentIsRed(r)
  {
    if IsRed(p.other.left) || IsRed(p.other.right) {
      StraightenNephewRedBlack(p, h);
      RaiseSiblingRedBlack(StraightenNephew(p), h);
    }
  }

  lemma StraightenNephewRedBlack(p: Path, h: int)
    requires h >= 0 && p.Step? && FitsHeight(p, h + 1) && PathRedOk(p) && !IsRed(p.other)
    requires IsRed(p.other.left) || IsRed(p.other.right)
    ensures var q := StraightenNephew(p);
      && q.up == p.up && q.cell == p.cell && q.side == p.side
      && HasBlackHeight(q.other, h + 1) && NoRedRed(Child(q.other, p.side)) && q.other.cell.colour == Black
      && IsRed(Child(q.other, Opposite(p.side))) && NoRedRed(PaintRoot(Child(q.other, Opposite(p.side)), Black))
  {
    var near, far := Child(p.other, p.side), Child(p.other, Opposite(p.side));
    assert HasBlackHeight(near, h) && HasBlackHeight(far, h);
    assert NoRedRed(near) && NoRedRed(far);
  }

  lemma RaiseSiblingRedBlack(q: Path, h: int)
    requires h >= 0 && q.Step? && FitsHeight(q, h + 1) && PathRedOk(q.up) && q.other.Node?
    requires q.cell.colour == Red ==> !ParentIsRed(q.up) && q.up.Step?
    requires NoRedRed(Child(q.other, q.side)) && q.other.cell.colour == Black
    requires var far := Child(q.other, Opposite(q.side)); IsRed(far) && NoRedRed(PaintRoot(far, Black))
    ensures var r := RaiseSibling(q);
      FitsHeight(r, h) && PathRedOk(r) && !ParentIsRed(r)
  {
    var far := PaintRoot(Child(q.other, Opposite(q.side)), Black);
    assert HasBlackHeight(Child(q.other, Opposite(q.side)), h);
    assert HasBlackHeight(far, h + 1);
  }
}
