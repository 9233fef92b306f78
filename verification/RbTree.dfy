/**
  The red-black tree in memory: nodes linked by parent, left and right pointers and
  a head pointer, rewritten in place. Each method is proved to take the linked
  structure from one focused tree to another, as given by the functions on values.
  Nodes hold their key and value themselves, so deletion copies them by value.
 */
module RbTree {
  import opened RbShape
  import opened RbMap

  // ---------- Linked representation of trees and paths ----------

  function Nodes(t: Tree): set<TreeNode> {
    match t
    case Leaf => {}
    case Node(cell, left, right) => Nodes(left) + {cell.entry.node} + Nodes(right)
  }

  function PathNodes(p: Path): set<TreeNode> {
    match p
    case Top => {}
    case Step(up, cell, side, other) => PathNodes(up) + {cell.entry.node} + Nodes(other)
  }

  /** No memory node occurs twice. */
  predicate Distinct(t: Tree) {
    match t
    case Leaf => true
    case Node(cell, left, right) =>
      && cell.entry.node !in Nodes(left) && cell.entry.node !in Nodes(right)
      && Nodes(left) !! Nodes(right) && Distinct(left) && Distinct(right)
  }

  predicate DistinctPath(p: Path) {
    match p
    case Top => true
    case Step(up, cell, side, other) =>
      && cell.entry.node !in PathNodes(up) && cell.entry.node !in Nodes(other)
      && PathNodes(up) !! Nodes(other) && DistinctPath(up) && Distinct(other)
  }

  function Root(t: Tree): TreeNode? {
    if t.Leaf? then null else t.cell.entry.node
  }

  function ParentOf(p: Path): (parent: TreeNode?)
    ensures parent != null ==> p.Step?
  {
    if p.Top? then null else p.cell.entry.node
  }

  ghost predicate Holds(cell: Cell)
    reads cell.entry.node
  {
    var n := cell.entry.node;
    n.key == cell.entry.key && n.value == cell.entry.value && n.colour == cell.colour
  }

  /** The nodes of `t` are linked up as `t` says, below `parent`. */
  ghost predicate Linked(t: Tree, parent: TreeNode?)
    reads Nodes(t)
  {
    match t
    case Leaf => true
    case Node(cell, left, right) =>
      var n := cell.entry.node;
      && Holds(cell) && n.parent == parent && n.left == Root(left) && n.right == Root(right)
      && Linked(left, n) && Linked(right, n)
  }

  /** What is known about the parts of a linked tree. */
  lemma Unfold(t: Tree, parent: TreeNode?)
    requires Linked(t, parent) && Distinct(t)
    ensures t.Leaf? ==> Nodes(t) == {}
    ensures t.Node? ==>
      && Holds(t.cell) && Root(t).parent == parent
      && Root(t).left == Root(t.left) && Root(t).right == Root(t.right)
      && Linked(t.left, Root(t)) && Linked(t.right, Root(t))
      && Distinct(t.left) && Distinct(t.right)
      && Nodes(t) == Nodes(t.left) + {Root(t)} + Nodes(t.right)
      && Nodes(t.left) !! Nodes(t.right) && Root(t) !in Nodes(t.left) + Nodes(t.right)
      && (t.left.Node? ==> Root(t.left) in Nodes(t.left))
      && (t.right.Node? ==> Root(t.right) in Nodes(t.right))
      && allocated(Nodes(t.left)) && allocated(Nodes(t.right))
  {
  }

  /** The parts of a tree, correctly linked, make a linked tree. */
  lemma Fold(cell: Cell, left: Tree, right: Tree, parent: TreeNode?)
    requires var n := cell.entry.node;
      && Holds(cell) && n.parent == parent && n.left == Root(left) && n.right == Root(right)
      && Linked(left, n) && Linked(right, n) && Distinct(left) && Distinct(right)
      && Nodes(left) !! Nodes(right) && n !in Nodes(left) && n !in Nodes(right)
    ensures var t := Node(cell, left, right);
      && Linked(t, parent) && Distinct(t) && Nodes(t) == Nodes(left) + {cell.entry.node} + Nodes(right)
  {
  }

  class RedBlackTree {
    var head: TreeNode?
    var nmemb: nat
    const compare: (Key, Key) -> int
    ghost var tree: Tree
    /** The memory nodes currently linked into the tree. */
    ghost var nodes: set<TreeNode>

    /** The nodes around a position are linked up as `p` says, with `hole` at the position. */
    ghost predicate LinkedPath(p: Path, hole: TreeNode?)
      reads `head, PathNodes(p)
    {
      match p
      case Top => head == hole
      case Step(up, cell, side, other) =>
        var n := cell.entry.node;
        && Holds(cell) && n.parent == ParentOf(up)
        && (if side == Left then n.left == hole && n.right == Root(other)
            else n.right == hole && n.left == Root(other))
        && Linked(other, n) && LinkedPath(up, n)
    }

    /** Memory holds the tree `Plug(p, t)`, seen from the position `p`. */
    ghost predicate At(p: Path, t: Tree)
      reads `head, `nodes, PathNodes(p), Nodes(t)
    {
      && LinkedPath(p, Root(t)) && Linked(t, ParentOf(p))
      && DistinctPath(p) && Distinct(t) && PathNodes(p) !! Nodes(t) && PathNodes(p) + Nodes(t) == nodes
    }

    /** What the links of the focused node and its parent are. */
    lemma Look(p: Path, t: Tree)
      requires At(p, t)
      ensures t.Node? ==>
        var n := t.cell.entry.node;
        && n in nodes && Holds(t.cell) && n.parent == ParentOf(p)
        && n.left == Root(t.left) && n.right == Root(t.right)
        && (t.left.Node? ==> Root(t.left) in nodes && Holds(t.left.cell))
        && (t.right.Node? ==> Root(t.right) in nodes && Holds(t.right.cell))
      ensures p.Step? ==>
        var n := p.cell.entry.node;
        && n in nodes && Holds(p.cell) && n.parent == ParentOf(p.up)
        && (if p.side == Left then n.left == Root(t) && n.right == Root(p.other)
            else n.right == Root(t) && n.left == Root(p.other))
        && (p.other.Node? ==> Root(p.other) in nodes && Holds(p.other.cell) && Root(p.other) != Root(t))
      ensures p.Top? ==> head == Root(t)
    {
      Unfold(t, ParentOf(p));
      if t.Node? {
        Unfold(t.left, Root(t));
        Unfold(t.right, Root(t));
      }
    }

    /** Which objects the position and its surroundings occupy. */
    lemma Footprint(p: Path, t: Tree)
      requires At(p, t)
      ensures PathNodes(p) + Nodes(t) == nodes && allocated(PathNodes(p)) && allocated(Nodes(t))
      ensures p.Top? ==> head == Root(t) && Nodes(t) == nodes
    {
    }

    lemma ZoomOut(p: Path, t: Tree)
      requires At(p, t) && p.Step?
      ensures At(p.up, Join(p.cell, p.side, t, p.other))
    {
    }

    lemma ZoomIn(p: Path, t: Tree, side: Side)
      requires At(p, t) && t.Node?
      ensures At(Step(p, t.cell, side, Child(t, Opposite(side))), Child(t, side))
    {
    }

    method SetColour(node: TreeNode, colour: Colour, ghost p: Path, ghost t: Tree)
      requires At(p, t) && t.Node? && node == Root(t)
      modifies nodes`colour
      ensures At(p, PaintRoot(t, colour))
    {
      Unfold(t, node.parent);
      node.colour := colour;
    }

    // ---------- Pointer surgery ----------

    method ReplaceNode(old_: TreeNode, new_: TreeNode?, ghost p: Path)
      requires LinkedPath(p, old_) && DistinctPath(p) && old_.parent == ParentOf(p)
      requires old_ !in PathNodes(p) && (new_ != null ==> new_ !in PathNodes(p)) && old_ != new_
      modifies `head, PathNodes(p)`left, PathNodes(p)`right, (if new_ == null then {} else {new_})`parent
      ensures LinkedPath(p, new_)
      ensures new_ != null ==> new_.parent == ParentOf(p)
    {
      if old_.parent == null {
        head := new_;
      } else {
        if old_ == old_.parent.left {
          old_.parent.left := new_;
        } else {
          old_.parent.right := new_;
        }
      }
      if new_ != null {
        new_.parent := old_.parent;
      }
    }

    /** The pointer assignments of a left rotation, field by field. */
    method TurnLeft(node: TreeNode, ghost p: Path)
      requires LinkedPath(p, node) && DistinctPath(p) && node.parent == ParentOf(p)
      requires node.right != null && node != node.right && node !in PathNodes(p) && node.right !in PathNodes(p)
      requires node.right.left != node && node.right.left != node.right
      requires node.right.left != null ==> node.right.left !in PathNodes(p)
      modifies `head, PathNodes(p)`left, PathNodes(p)`right
      modifies node`parent, node`right, node.right`parent, node.right`left
      modifies (if node.right.left == null then {} else {node.right.left})`parent
      ensures LinkedPath(p, old(node.right))
      ensures node.right == old(node.right.left) && node.parent == old(node.right)
      ensures old(node.right).left == node && old(node.right).parent == ParentOf(p)
      ensures node.right != null ==> node.right.parent == node
    {
      var right := node.right;
      ReplaceNode(node, right, p);
      node.right := right.left;
      if right.left != null {
        right.left.parent := node;
      }
      right.left := node;
      node.parent := right;
    }

    /** The pointer assignments of a right rotation, field by field. */
    method TurnRight(node: TreeNode, ghost p: Path)
      requires LinkedPath(p, node) && DistinctPath(p) && node.parent == ParentOf(p)
      requires node.left != null && node != node.left && node !in PathNodes(p) && node.left !in PathNodes(p)
      requires node.left.right != node && node.left.right != node.left
      requires node.left.right != null ==> node.left.right !in PathNodes(p)
      modifies `head, PathNodes(p)`left, PathNodes(p)`right
      modifies node`parent, node`left, node.left`parent, node.left`right
      modifies (if node.left.right == null then {} else {node.left.right})`parent
      ensures LinkedPath(p, old(node.left))
      ensures node.left == old(node.left.right) && node.parent == old(node.left)
      ensures old(node.left).right == node && old(node.left).parent == ParentOf(p)
      ensures node.left != null ==> node.left.parent == node
    {
      var left := node.left;
      ReplaceNode(node, left, p);
      node.left := left.right;
      if left.right != null {
        left.right.parent := node;
      }
      left.right := node;
      node.parent := left;
    }

    method RotateLeft(node: TreeNode, ghost p: Path, ghost t: Tree)
      requires At(p, t) && t.Node? && t.right.Node? && node == Root(t)
      modifies `head, nodes
      ensures At(p, Node(t.right.cell, Node(t.cell, t.left, t.right.left), t.right.right))
    {
      hide Linked, Distinct, Nodes, LinkedPath, PathNodes, DistinctPath;
      ghost var moved := t.right.left;
      Unfold(t, ParentOf(p));
      Unfold(t.right, node);
      Unfold(moved, node.right);
      TurnLeft(node, p);
      if moved.Node? {
        Fold(moved.cell, moved.left, moved.right, node);
      } else {
        LeafLinked(node);
      }
      Fold(t.cell, t.left, moved, node.parent);
      Fold(t.right.cell, Node(t.cell, t.left, moved), t.right.right, ParentOf(p));
      assert Nodes(Node(t.right.cell, Node(t.cell, t.left, moved), t.right.right)) == Nodes(t);
    }

    method RotateRight(node: TreeNode, ghost p: Path, ghost t: Tree)
      requires At(p, t) && t.Node? && t.left.Node? && node == Root(t)
      modifies `head, nodes
      ensures At(p, Node(t.left.cell, t.left.left, Node(t.cell, t.left.right, t.right)))
    {
      hide Linked, Distinct, Nodes, LinkedPath, PathNodes, DistinctPath;
      ghost var moved := t.left.right;
      Unfold(t, ParentOf(p));
      Unfold(t.left, node);
      Unfold(moved, node.left);
      TurnRight(node, p);
      if moved.Node? {
        Fold(moved.cell, moved.left, moved.right, node);
      } else {
        LeafLinked(node);
      }
      Fold(t.cell, moved, t.right, node.parent);
      Fold(t.left.cell, t.left.left, Node(t.cell, moved, t.right), ParentOf(p));
      assert Nodes(Node(t.left.cell, t.left.left, Node(t.cell, moved, t.right))) == Nodes(t);
    }

    lemma {:induction false} PlugAt(p: Path, t: Tree)
      requires At(p, t)
      ensures At(Top, Plug(p, t))
    {
      if p.Step? {
        ZoomOut(p, t);
        hide At;
        PlugAt(p.up, Join(p.cell, p.side, t, p.other));
      }
    }

    // ---------- Fix-up after insertion ----------

    /** Red uncle: parent and uncle become black, the grandparent red. */
    method RecolourAbove(node: TreeNode, ghost p: Path, ghost t: Tree)
      requires At(p, t) && t.Node? && node == Root(t) && p.Step? && p.up.Step? && p.up.other.Node?
      modifies nodes`colour
      ensures At(p.up.up, Join(Paint(p.up.cell, Red), p.up.side,
                               Join(Paint(p.cell, Black), p.side, t, p.other),
                               PaintRoot(p.up.other, Black)))
    {
      hide At;
      ghost var g := p.up;
      ghost var parent := Join(p.cell, p.side, t, p.other);
      ghost var parent' := PaintRoot(parent, Black);
      Look(p, t);
      ZoomOut(p, t);
      Look(g, parent);
      SetColour(node.parent, Black, g, parent);
      ZoomOut(g, parent');
      ZoomIn(g.up, Join(g.cell, g.side, parent', g.other), Opposite(g.side));
      SetColour(Uncle(node), Black, Step(g.up, g.cell, Opposite(g.side), parent'), g.other);
      ZoomOut(Step(g.up, g.cell, Opposite(g.side), parent'), PaintRoot(g.other, Black));
      SetColour(Grandparent(node), Red, g.up, Join(g.cell, g.side, parent', PaintRoot(g.other, Black)));
    }

    /** An inner grandchild is rotated outwards, and the fix-up goes on from the old parent. */
    method InsertStraighten(node: TreeNode, ghost p: Path, ghost t: Tree) returns (n: TreeNode)
      requires At(p, t) && t.Node? && node == Root(t) && p.Step? && p.up.Step?
      modifies `head, nodes
      ensures var (q, s) := InsertInner(p, t); At(q, s) && s.Node? && n == Root(s)
    {
      hide At;
      ghost var whole := Join(p.cell, p.side, t, p.other);
      Look(p, t);
      ZoomOut(p, t);
      Look(p.up, whole);
      n := node;
      if node == node.parent.right && node.parent == Grandparent(node).left {
        RotateLeft(node.parent, p.up, whole);
        Look(p.up, Node(t.cell, Node(p.cell, p.other, t.left), t.right));
        n := node.left;
        ZoomIn(p.up, Node(t.cell, Node(p.cell, p.other, t.left), t.right), Left);
      } else if node == node.parent.left && node.parent == Grandparent(node).right {
        RotateRight(node.parent, p.up, whole);
        Look(p.up, Node(t.cell, t.left, Node(p.cell, t.right, p.other)));
        n := node.right;
        ZoomIn(p.up, Node(t.cell, t.left, Node(p.cell, t.right, p.other)), Right);
      }
    }

    /** Black uncle and outer grandchild: one rotation at the grandparent ends the repair. */
    method InsertFinish(node: TreeNode, ghost p: Path, ghost t: Tree)
      requires At(p, t) && t.Node? && node == Root(t) && p.Step? && p.up.Step? && p.side == p.up.side
      modifies `head, nodes
      ensures At(p.up.up, Join(Paint(p.cell, Black), p.side, t,
                               Join(Paint(p.up.cell, Red), p.side, p.other, p.up.other)))
    {
      hide At;
      ghost var g := p.up;
      ghost var parent := Join(p.cell, p.side, t, p.other);
      ghost var parent' := PaintRoot(parent, Black);
      ghost var above := Join(g.cell, g.side, parent', g.other);
      Look(p, t);
      ZoomOut(p, t);
      Look(g, parent);
      SetColour(node.parent, Black, g, parent);
      ZoomOut(g, parent');
      SetColour(Grandparent(node), Red, g.up, above);
      if node == node.parent.left && node.parent == Grandparent(node).left {
        RotateRight(Grandparent(node), g.up, PaintRoot(above, Red));
      } else {
        assert node == node.parent.right && node.parent == Grandparent(node).right;
        RotateLeft(Grandparent(node), g.up, PaintRoot(above, Red));
      }
    }

    method InsertFixup(node: TreeNode, ghost p: Path, ghost t: Tree)
      requires At(p, t) && t.Node? && node == Root(t) && PathRedOk(p)
      modifies `head, nodes
      ensures At(Top, InsertFix(p, t))
      decreases p
    {
      hide At;
      Look(p, t);
      if p.Step? {
        ZoomOut(p, t);
        Look(p.up, Join(p.cell, p.side, t, p.other));
      }
      if node.parent == null {
        SetColour(node, Black, p, t);
        return;
      }
      if IsRedNode(node.parent) {
        if IsRedNode(Uncle(node)) {
          var g := Grandparent(node);
          RecolourAbove(node, p, t);
          InsertFixup(g, p.up.up, Join(Paint(p.up.cell, Red), p.up.side,
                                       Join(Paint(p.cell, Black), p.side, t, p.other),
                                       PaintRoot(p.up.other, Black)));
          return;
        }
        var n := InsertStraighten(node, p, t);
        ghost var (q, s) := InsertInner(p, t);
        InsertFinish(n, q, s);
        PlugAt(q.up.up, Join(Paint(q.cell, Black), q.side, s,
                             Join(Paint(q.up.cell, Red), q.side, q.other, q.up.other)));
      } else {
        PlugAt(p, t);
      }
    }

    // ---------- Fix-up before unlinking a node ----------

    /** The position of the sibling, seen from the same whole tree. */
    lemma Swing(p: Path, t: Tree)
      requires At(p, t) && p.Step?
      ensures At(Step(p.up, p.cell, Opposite(p.side), t), p.other)
    {
      hide At;
      ZoomOut(p, t);
      ZoomIn(p.up, Join(p.cell, p.side, t, p.other), Opposite(p.side));
    }

    method SetParentColour(node: TreeNode, colour: Colour, ghost p: Path, ghost t: Tree)
      requires At(p, t) && t.Node? && node == Root(t) && p.Step?
      modifies nodes`colour
      ensures At(p.(cell := Paint(p.cell, colour)), t)
    {
      hide At;
      Look(p, t);
      ZoomOut(p, t);
      SetColour(node.parent, colour, p.up, Join(p.cell, p.side, t, p.other));
      ZoomIn(p.up, Join(Paint(p.cell, colour), p.side, t, p.other), p.side);
    }

    method SetSiblingColour(node: TreeNode, colour: Colour, ghost p: Path, ghost t: Tree)
      requires At(p, t) && t.Node? && node == Root(t) && p.Step? && p.other.Node?
      modifies nodes`colour
      ensures At(p.(other := PaintRoot(p.other, colour)), t)
    {
      hide At;
      Look(p, t);
      Swing(p, t);
      SetColour(Sibling(node), colour, Step(p.up, p.cell, Opposite(p.side), t), p.other);
      Swing(Step(p.up, p.cell, Opposite(p.side), t), PaintRoot(p.other, colour));
    }

    /** Paint the sibling's child on the given side. */
    method SetNephewColour(node: TreeNode, nephew: TreeNode, side: Side, colour: Colour, ghost p: Path, ghost t: Tree)
      requires At(p, t) && t.Node? && node == Root(t) && p.Step? && p.other.Node?
      requires Child(p.other, side).Node? && nephew == Root(Child(p.other, side))
      modifies nodes`colour
      ensures At(p.(other := Join(p.other.cell, side, PaintRoot(Child(p.other, side), colour),
                                  Child(p.other, Opposite(side)))), t)
    {
      hide At;
      ghost var s, sp := p.other, Step(p.up, p.cell, Opposite(p.side), t);
      Swing(p, t);
      ZoomIn(sp, s, side);
      ghost var np := Step(sp, s.cell, side, Child(s, Opposite(side)));
      SetColour(nephew, colour, np, Child(s, side));
      ZoomOut(np, PaintRoot(Child(s, side), colour));
      Swing(sp, Join(s.cell, side, PaintRoot(Child(s, side), colour), Child(s, Opposite(side))));
    }

    /** Rotate the parent towards the focused node; the sibling comes out on top. */
    method RotateParent(node: TreeNode, ghost p: Path, ghost t: Tree)
      requires At(p, t) && t.Node? && node == Root(t) && p.Step? && p.other.Node?
      modifies `head, nodes
      ensures var s := p.other;
        At(Step(Step(p.up, s.cell, p.side, Child(s, Opposite(p.side))), p.cell, p.side, Child(s, p.side)), t)
    {
      hide At;
      ghost var s, whole := p.other, Join(p.cell, p.side, t, p.other);
      Look(p, t);
      ZoomOut(p, t);
      if node == node.parent.left {
        RotateLeft(node.parent, p.up, whole);
      } else {
        RotateRight(node.parent, p.up, whole);
      }
      ghost var lower := Join(p.cell, p.side, t, Child(s, p.side));
      ZoomIn(p.up, Join(s.cell, p.side, lower, Child(s, Opposite(p.side))), p.side);
      ZoomIn(Step(p.up, s.cell, p.side, Child(s, Opposite(p.side))), lower, p.side);
    }

    method LowerRedSibling(node: TreeNode, ghost p: Path, ghost t: Tree)
      requires At(p, t) && t.Node? && node == Root(t) && p.Step? && p.other.Node?
      modifies `head, nodes
      ensures At(LowerSibling(p), t)
    {
      hide At;
      SetParentColour(node, Red, p, t);
      ghost var q := p.(cell := Paint(p.cell, Red));
      SetSiblingColour(node, Black, q, t);
      RotateParent(node, q.(other := PaintRoot(p.other, Black)), t);
    }

    /** A red near nephew with a black far nephew is rotated to the far side. */
    method StraightenRedNephew(node: TreeNode, ghost p: Path, ghost t: Tree)
      requires At(p, t) && t.Node? && node == Root(t) && p.Step? && p.other.Node? && !IsRed(p.other)
      modifies `head, nodes
      ensures At(StraightenNephew(p), t)
    {
      hide At;
      ghost var sp := Step(p.up, p.cell, Opposite(p.side), t);
      Look(p, t);
      Swing(p, t);
      Look(sp, p.other);
      if node == node.parent.left && !IsRedNode(Sibling(node)) &&
         IsRedNode(Sibling(node).left) && !IsRedNode(Sibling(node).right) {
        SetSiblingColour(node, Red, p, t);
        ghost var q := p.(other := PaintRoot(p.other, Red));
        SetNephewColour(node, Sibling(node).left, Left, Black, q, t);
        ghost var r := q.(other := Join(q.other.cell, Left, PaintRoot(p.other.left, Black), p.other.right));
        Swing(r, t);
        RotateRight(Sibling(node), sp, r.other);
        Swing(sp, StraightenNephew(p).other);
      } else if node == node.parent.right && !IsRedNode(Sibling(node)) &&
                IsRedNode(Sibling(node).right) && !IsRedNode(Sibling(node).left) {
        SetSiblingColour(node, Red, p, t);
        ghost var q := p.(other := PaintRoot(p.other, Red));
        SetNephewColour(node, Sibling(node).right, Right, Black, q, t);
        ghost var r := q.(other := Join(q.other.cell, Right, PaintRoot(p.other.right, Black), p.other.left));
        Swing(r, t);
        RotateLeft(Sibling(node), sp, r.other);
        Swing(sp, StraightenNephew(p).other);
      }
    }

    /** The sibling takes the parent's colour and is rotated above it. */
    method RaiseBlackSibling(node: TreeNode, ghost p: Path, ghost t: Tree)
      requires At(p, t) && t.Node? && node == Root(t) && p.Step? && p.other.Node?
      requires IsRed(Child(p.other, Opposite(p.side)))
      modifies `head, nodes
      ensures At(RaiseSibling(p), t)
    {
      hide At;
      ghost var far := Child(p.other, Opposite(p.side));
      Look(p, t);
      Swing(p, t);
      Look(Step(p.up, p.cell, Opposite(p.side), t), p.other);
      SetSiblingColour(node, NodeColour(node.parent), p, t);
      ghost var q := p.(other := PaintRoot(p.other, p.cell.colour));
      SetParentColour(node, Black, q, t);
      ghost var r := q.(cell := Paint(p.cell, Black));
      if node == node.parent.left {
        SetNephewColour(node, Sibling(node).right, Right, Black, r, t);
      } else {
        SetNephewColour(node, Sibling(node).left, Left, Black, r, t);
      }
      RotateParent(node, r.(other := Join(r.other.cell, Opposite(p.side), PaintRoot(far, Black), Child(p.other, p.side))), t);
    }

    /** The cases that need no further recursion. */
    method FinishRemoval(node: TreeNode, ghost p: Path, ghost t: Tree)
      requires At(p, t) && t.Node? && node == Root(t) && p.Step? && p.other.Node? && !IsRed(p.other)
      requires p.cell.colour == Red || IsRed(p.other.left) || IsRed(p.other.right)
      modifies `head, nodes
      ensures At(RemoveFinish(p), t)
    {
      hide At;
      Look(p, t);
      Swing(p, t);
      Look(Step(p.up, p.cell, Opposite(p.side), t), p.other);
      if IsRedNode(node.parent) && !IsRedNode(Sibling(node)) &&
         !IsRedNode(Sibling(node).left) && !IsRedNode(Sibling(node).right) {
        SetSiblingColour(node, Red, p, t);
        SetParentColour(node, Black, p.(other := PaintRoot(p.other, Red)), t);
        return;
      }
      StraightenRedNephew(node, p, t);
      RaiseBlackSibling(node, StraightenNephew(p), t);
    }

    /**
      Repairs black heights for the coming loss of `node`, which stays linked in
      meanwhile. Every sibling and nephew the code touches is proved to exist.
     */
    method RemoveFixup(node: TreeNode, ghost p: Path, ghost t: Tree, ghost h: nat)
      requires At(p, t) && t.Node? && node == Root(t)
      requires FitsHeight(p, h + 1) && PathRedOk(p)
      modifies `head, nodes
      ensures At(RemoveFix(p), t)
      decreases p
    {
      hide At;
      Look(p, t);
      if node.parent == null {
        return;
      }
      ghost var q := p;
      Swing(p, t);
      Look(Step(p.up, p.cell, Opposite(p.side), t), p.other);
      SiblingShape(p, h);
      if IsRedNode(Sibling(node)) {
        LowerRedSibling(node, p, t);
        q := LowerSibling(p);
        Look(q, t);
        Swing(q, t);
        Look(Step(q.up, q.cell, Opposite(q.side), t), q.other);
      }
      if !IsRedNode(node.parent) && !IsRedNode(Sibling(node)) &&
         !IsRedNode(Sibling(node).left) && !IsRedNode(Sibling(node).right) {
        SetSiblingColour(node, Red, q, t);
        ghost var other := PaintRoot(q.other, Red);
        ZoomOut(q.(other := other), t);
        RemoveFixup(node.parent, q.up, Join(q.cell, q.side, t, other), h + 1);
        ZoomIn(RemoveFix(q.up), Join(q.cell, q.side, t, other), q.side);
        return;
      }
      FinishRemoval(node, q, t);
    }

    // ---------- The operations ----------

    ghost predicate Valid()
      reads this, Nodes(tree)
    {
      && TotalOrder(compare) && At(Top, tree) && SearchTree(compare, tree)
      && nmemb >= |Inorder(tree)|
    }

    /** The finite map the tree stands for. */
    ghost function Contents(): map<Key, Value>
      reads this
    {
      MapOf(Inorder(tree))
    }

    constructor (compare: (Key, Key) -> int)
      requires TotalOrder(compare)
      ensures Valid() && Contents() == map[] && nmemb == 0 && nodes == {}
      ensures this.compare == compare
    {
      this.compare := compare;
      head, nmemb := null, 0;
      tree, nodes := Leaf, {};
    }

    /**
      The search loop. It stops at the node holding `key`, or at null, and looks at no
      more nodes than the tree is high.
     */
    method LookupNode(key: Key) returns (node: TreeNode?, ghost p: Path, ghost s: Tree, ghost visits: nat)
      requires At(Top, tree)
      ensures node == Root(LookupTree(compare, tree, key)) && visits <= Height(tree)
      ensures (p, s) == Descend(compare, Top, tree, key) && At(p, s)
    {
      node, p, s, visits := head, Top, tree, 0;
      Look(p, s);
      while node != null
        invariant At(p, s) && node == Root(s)
        invariant Descend(compare, p, s, key) == Descend(compare, Top, tree, key)
        invariant visits + Height(s) <= Height(tree)
        decreases s
      {
        visits := visits + 1;
        var result := compare(key, node.key);
        Look(p, s);
        if result == 0 {
          break;
        } else if result < 0 {
          ZoomIn(p, s, Left);
          node, p, s := node.left, Step(p, s.cell, Left, s.right), s.left;
        } else {
          ZoomIn(p, s, Right);
          node, p, s := node.right, Step(p, s.cell, Right, s.left), s.right;
        }
      }
    }

    /** Find the node of `key`, in at most 2 * log2(n + 1) comparisons for n keys. */
    method Search(key: Key) returns (node: TreeNode?, ghost visits: nat)
      requires Valid()
      ensures node != null <==> key in Contents()
      ensures node != null ==> node in nodes && node.key == key && node.value == Contents()[key]
      ensures LogBound(visits, |Contents()|)
    {
      hide At, TotalOrder, LogBound, MapOf, Inorder, RedBlack, Sorted, Descend;
      ghost var p, s;
      node, p, s, visits := LookupNode(key);
      Look(p, s);
      LookupCorrect(compare, tree, key);
      MapOfSize(compare, Inorder(tree));
      HeightLogarithmic(tree);
      LogBoundBelow(visits, Height(tree), |Inorder(tree)|);
    }

    /** Hang a new red leaf at a free place below `parent`. */
    method InsertNode(parent: TreeNode?, side: Side, key: Key, value: Value, ghost p: Path) returns (node: TreeNode)
      requires At(p, Leaf) && parent == ParentOf(p) && (p.Step? ==> side == p.side)
      modifies `head, `nodes, nodes
      ensures At(p, Node(Cell(Entry(node, key, value), Red), Leaf, Leaf))
      ensures fresh(node) && nodes == old(nodes) + {node}
    {
      Look(p, Leaf);
      node := new TreeNode(parent, key, value);
      if parent == null {
        head := node;
      } else if side == Left {
        parent.left := node;
      } else {
        parent.right := node;
      }
      nodes := nodes + {node};
    }

    /** The new value is copied over the old one. */
    method SetValue(node: TreeNode, value: Value, ghost p: Path, ghost s: Tree)
      requires At(p, s) && s.Node? && node == Root(s)
      modifies nodes`value
      ensures At(p, Overwrite(s, value))
    {
      Unfold(s, node.parent);
      node.value := value;
    }

    /** One call bumps `nmemb` even when it only overwrites. */
    method Insert(key: Key, value: Value) returns (ghost n: TreeNode)
      requires Valid()
      modifies this, nodes
      ensures Valid() && fresh(nodes - old(nodes))
      ensures tree == InsertTree(compare, old(tree), n, key, value)
      ensures Contents() == old(Contents())[key := value]
      ensures if key in old(Contents()) then nodes == old(nodes) else fresh(n) && nodes == old(nodes) + {n}
      ensures nmemb == old(nmemb) + 1
    {
      hide SearchTree, TotalOrder, MapOf, Inorder, RedBlack;
      IsRedBlack(compare, tree);
      LookupCorrect(compare, tree, key);
      n := InsertInto(key, value);
      InsertCorrect(compare, old(tree), n, key, value);
      InsertCount(compare, old(tree), n, key, value);
      nmemb := nmemb + 1;
    }

    /** Place the key, then rebalance if a new node was hung. */
    method InsertInto(key: Key, value: Value) returns (ghost n: TreeNode)
      requires At(Top, tree) && RedBlack(tree)
      modifies `head, `tree, `nodes, nodes
      ensures tree == InsertTree(compare, old(tree), n, key, value) && At(Top, tree)
      ensures if LookupTree(compare, old(tree), key).Node? then nodes == old(nodes) else fresh(n) && nodes == old(nodes) + {n}
    {
      hide At;
      var inserted: TreeNode?;
      ghost var p, s;
      inserted, p, s := Place(key, value);
      if inserted != null {
        n := inserted;
        PlugRedBlack(p, Leaf);
        InsertFixup(inserted, p, Node(Cell(Entry(n, key, value), Red), Leaf, Leaf));
        Footprint(Top, InsertFix(p, Node(Cell(Entry(n, key, value), Red), Leaf, Leaf)));
        tree := InsertFix(p, Node(Cell(Entry(n, key, value), Red), Leaf, Leaf));
      } else {
        n := s.cell.entry.node;
        PlugAt(p, Overwrite(s, value));
        Footprint(Top, Plug(p, Overwrite(s, value)));
        tree := Plug(p, Overwrite(s, value));
      }
    }

    /** Walk down from the head, then overwrite the value found or hang a new red leaf. */
    method Place(key: Key, value: Value) returns (inserted: TreeNode?, ghost p: Path, ghost s: Tree)
      requires At(Top, tree)
      modifies `head, `nodes, nodes
      ensures (p, s) == Descend(compare, Top, tree, key) && Plug(p, s) == tree
      ensures inserted != null <==> s.Leaf?
      ensures inserted != null ==>
        At(p, Node(Cell(Entry(inserted, key, value), Red), Leaf, Leaf)) && fresh(inserted) && nodes == old(nodes) + {inserted}
      ensures inserted == null ==> At(p, Overwrite(s, value)) && nodes == old(nodes)
    {
      hide At;
      p, s, inserted := Top, tree, null;
      Look(p, s);
      if head == null {
        inserted := InsertNode(null, Left, key, value, Top);
      } else {
        var node: TreeNode := head;
        while true
          invariant At(p, s) && node == Root(s) && inserted == null && nodes == old(nodes)
          invariant Descend(compare, p, s, key) == Descend(compare, Top, tree, key)
          invariant Plug(p, s) == tree
          decreases s
        {
          Look(p, s);
          var result := compare(key, node.key);
          if result == 0 {
            SetValue(node, value, p, s);
            break;
          } else if result < 0 {
            ZoomIn(p, s, Left);
            p, s := Step(p, s.cell, Left, s.right), s.left;
            if node.left == null {
              inserted := InsertNode(node, Left, key, value, p);
              break;
            } else {
              node := node.left;
            }
          } else {
            ZoomIn(p, s, Right);
            p, s := Step(p, s.cell, Right, s.left), s.right;
            if node.right == null {
              inserted := InsertNode(node, Right, key, value, p);
              break;
            } else {
              node := node.right;
            }
          }
        }
      }
    }

    // ---------- Deletion ----------

    method MaximumNode(start: TreeNode, ghost p: Path, ghost t: Tree) returns (node: TreeNode)
      requires At(p, t) && t.Node? && start == Root(t)
      ensures node == Root(Rightmost(p, t).1) && At(Rightmost(p, t).0, Rightmost(p, t).1)
    {
      node := start;
      ghost var q, s := p, t;
      Look(q, s);
      while node.right != null
        invariant At(q, s) && s.Node? && node == Root(s) && Rightmost(q, s) == Rightmost(p, t)
        invariant node.right == Root(s.right)
        decreases s
      {
        ZoomIn(q, s, Right);
        node := node.right;
        q, s := Step(q, s.cell, Right, s.left), s.right;
        Look(q, s);
      }
    }

    /** The rightmost node of a linked subtree is linked too. */
    lemma {:induction false} RightmostAt(p: Path, t: Tree)
      requires At(p, t) && t.Node?
      ensures At(Rightmost(p, t).0, Rightmost(p, t).1)
      decreases t
    {
      if t.right.Node? {
        ZoomIn(p, t, Right);
        hide At;
        RightmostAt(Step(p, t.cell, Right, t.left), t.right);
      }
    }

    method SetPair(node: TreeNode, pred: TreeNode, ghost p: Path, ghost s: Tree, ghost e: Entry)
      requires At(p, s) && s.Node? && node == Root(s) && pred.key == e.key && pred.value == e.value
      modifies nodes`key, nodes`value
      ensures At(p, CopyPair(s, e))
    {
      Unfold(s, node.parent);
      node.key, node.value := pred.key, pred.value;
    }

    /** Take a node with at most one child out of the tree. */
    method Splice(node: TreeNode, child: TreeNode?, ghost p: Path, ghost m: Tree)
      requires At(p, m) && m.Node? && (m.left.Leaf? || m.right.Leaf?)
      requires node == Root(m) && child == Root(OnlyChild(m))
      modifies `head, `nodes, nodes
      ensures At(p, OnlyChild(m)) && nodes == old(nodes) - {node} && node.parent == ParentOf(p)
    {
      hide Linked, Distinct, Nodes, LinkedPath, PathNodes, DistinctPath;
      ghost var c := OnlyChild(m);
      Unfold(m, ParentOf(p));
      Unfold(c, node);
      ReplaceNode(node, child, p);
      nodes := nodes - {node};
      if c.Node? {
        Fold(c.cell, c.left, c.right, ParentOf(p));
      }
      LeafLinked(ParentOf(p));
    }

    /** Erase a key; an absent key changes nothing. */
    method Delete(key: Key)
      requires Valid()
      modifies this, nodes
      ensures Valid() && nodes <= old(nodes)
      ensures tree == DeleteTree(compare, old(tree), key)
      ensures Contents() == old(Contents()) - {key}
      ensures key !in old(Contents()) ==> nodes == old(nodes)
      ensures key in old(Contents()) ==> exists gone :: gone in old(nodes) && nodes == old(nodes) - {gone}
      ensures nmemb == old(nmemb) - (if key in old(Contents()) then 1 else 0)
    {
      hide SearchTree, TotalOrder, MapOf, Inorder;
      ghost var p, s, visits;
      var node: TreeNode?;
      node, p, s, visits := LookupNode(key);
      DeleteCorrect(compare, tree, key);
      DeleteCount(compare, tree, key);
      DescendWhole(compare, tree, key);
      LookupCorrect(compare, tree, key);
      IsRedBlack(compare, tree);
      Look(p, s);
      if node == null {
        return;
      }
      DeleteAt(node, p, s);
      nmemb := nmemb - 1;
    }

    /** Replace by the predecessor if need be, rebalance, and splice out. */
    method DeleteAt(found: TreeNode, ghost p: Path, ghost s: Tree)
      requires At(p, s) && s.Node? && found == Root(s) && RedBlack(Plug(p, s))
      modifies `head, `tree, `nodes, nodes
      ensures tree == Unlink(Doomed(p, s).0, Doomed(p, s).1) && At(Top, tree)
      ensures var gone := Root(Doomed(p, s).1); gone in old(nodes) && nodes == old(nodes) - {gone}
    {
      hide At, RedBlack, Plug, Unlink, Inorder, Around, RightmostRest;
      var node := found;
      ghost var (q, m) := Doomed(p, s);
      Look(p, s);
      DoomedRedBlack(p, s);
      if node.left != null && node.right != null {
        ZoomIn(p, s, Left);
        Footprint(p, s);
        Footprint(Step(p, s.cell, Left, s.right), s.left);
        var pred := MaximumNode(node.left, Step(p, s.cell, Left, s.right), s.left);
        RightmostPlug(Step(p, s.cell, Left, s.right), s.left);
        Look(Rightmost(Step(p, s.cell, Left, s.right), s.left).0, Rightmost(Top, s.left).1);
        SetPair(node, pred, p, s, Predecessor(s));
        ghost var u := CopyPair(s, Predecessor(s));
        ZoomIn(p, u, Left);
        RightmostAt(Step(p, u.cell, Left, u.right), u.left);
        RightmostPlug(Step(p, u.cell, Left, u.right), u.left);
        node := pred;
      }
      UnlinkNode(node, q, m);
    }

    method UnlinkNode(node: TreeNode, ghost q: Path, ghost m: Tree)
      requires At(q, m) && m.Node? && node == Root(m) && (m.left.Leaf? || m.right.Leaf?)
      requires RedBlack(Plug(q, m))
      modifies `head, `tree, `nodes, nodes
      ensures tree == Unlink(q, m) && At(Top, tree) && node in old(nodes) && nodes == old(nodes) - {node}
    {
      hide At, RedBlack, RemoveFix;
      Look(q, m);
      var child := if node.right == null then node.left else node.right;
      Rebalance(node, child, q, m);
      ghost var r := if m.cell.colour == Black then RemoveFix(q) else q;
      ghost var c := OnlyChild(m);
      Splice(node, child, r, if m.cell.colour == Black then PaintRoot(m, ColourOf(c)) else m);
      if node.parent == null && child != null {
        SetColour(child, Black, r, c);
        c := PaintRoot(c, Black);
      }
      PlugAt(r, c);
      Footprint(Top, Plug(r, c));
      tree := Plug(r, c);
    }

    /** A black doomed node takes its child's colour and the black heights are repaired. */
    method Rebalance(node: TreeNode, child: TreeNode?, ghost q: Path, ghost m: Tree)
      requires At(q, m) && m.Node? && node == Root(m) && (m.left.Leaf? || m.right.Leaf?)
      requires RedBlack(Plug(q, m)) && child == Root(OnlyChild(m))
      modifies `head, nodes
      ensures if m.cell.colour == Black then At(RemoveFix(q), PaintRoot(m, ColourOf(OnlyChild(m)))) else At(q, m)
    {
      hide At, RedBlack, HasBlackHeight, NoRedRed, FitsHeight, PathRedOk, RemoveFix;
      Look(q, m);
      PlugRedBlack(q, m);
      RemovableShape(m);
      if !IsRedNode(node) {
        SetColour(node, NodeColour(child), q, m);
        RemoveFixup(node, q, PaintRoot(m, ColourOf(OnlyChild(m))), 0);
      }
    }

    method Clear()
      requires Valid()
      modifies this
      ensures Valid() && Contents() == map[] && nmemb == 0 && nodes == {}
    {
      head, nmemb := null, 0;
      tree, nodes := Leaf, {};
    }

    // ---------- Iteration ----------

    method RbMin(start: TreeNode, ghost p: Path, ghost t: Tree) returns (node: TreeNode)
      requires At(p, t) && t.Node? && start == Root(t)
      ensures Inorder(t) != [] && node == Inorder(t)[0].node
    {
      node := start;
      ghost var q, s := p, t;
      Look(q, s);
      while node.left != null
        invariant At(q, s) && s.Node? && node == Root(s) && node.left == Root(s.left)
        invariant Inorder(s)[0] == Inorder(t)[0]
        decreases s
      {
        ZoomIn(q, s, Left);
        node := node.left;
        q, s := Step(q, s.cell, Left, s.right), s.left;
        Look(q, s);
      }
    }

    method RbMax(start: TreeNode, ghost p: Path, ghost t: Tree) returns (node: TreeNode)
      requires At(p, t) && t.Node? && start == Root(t)
      ensures Inorder(t) != [] && node == Inorder(t)[|Inorder(t)| - 1].node
    {
      node := start;
      ghost var q, s := p, t;
      Look(q, s);
      while node.right != null
        invariant At(q, s) && s.Node? && node == Root(s) && node.right == Root(s.right)
        invariant Inorder(s)[|Inorder(s)| - 1] == Inorder(t)[|Inorder(t)| - 1]
        decreases s
      {
        ZoomIn(q, s, Right);
        node := node.right;
        q, s := Step(q, s.cell, Right, s.left), s.right;
        Look(q, s);
      }
    }

    lemma {:induction false} PositionAt(p: Path, t: Tree, i: nat)
      requires At(p, t) && i < |Inorder(t)|
      ensures At(Position(p, t, i).0, Position(p, t, i).1)
      decreases t
    {
      var n := |Inorder(t.left)|;
      if i < n {
        ZoomIn(p, t, Left);
        hide At;
        PositionAt(Step(p, t.cell, Left, t.right), t.left, i);
      } else if i > n {
        ZoomIn(p, t, Right);
        hide At;
        PositionAt(Step(p, t.cell, Right, t.left), t.right, i - n - 1);
      }
    }

    /** Step to the in-order successor; null after the last node. */
    method NextRbTree(node: TreeNode, ghost i: nat) returns (r: TreeNode?)
      requires At(Top, tree) && i < |Inorder(tree)| && node == Inorder(tree)[i].node
      ensures r == NodeAt(tree, i + 1)
    {
      hide At, Inorder, Around, Before, Position;
      ghost var (q, s) := Position(Top, tree, i);
      PositionIs(Top, tree, i);
      PositionAt(Top, tree, i);
      WholeAround(tree);
      Look(q, s);
      AroundRight(q, s);
      if node.right != null {
        ZoomIn(q, s, Right);
        r := RbMin(node.right, Step(q, s.cell, Right, s.left), s.right);
      } else {
        var n, parent := node, node.parent;
        while parent != null && n == parent.right
          invariant At(q, s) && s.Node? && n == Root(s) && parent == ParentOf(q)
          invariant Around(q, Inorder(s)) == Inorder(tree) && |Before(q)| + |Inorder(s)| == i + 1
          decreases q
        {
          Look(q, s);
          ZoomOut(q, s);
          AroundUp(q, s);
          s := Join(q.cell, q.side, s, q.other);
          q := q.up;
          n := parent;
          parent := parent.parent;
        }
        Look(q, s);
        Neighbours(q, s);
        r := parent;
      }
    }

    /** Step to the in-order predecessor; null before the first node. */
    method PrevRbTree(node: TreeNode, ghost i: nat) returns (r: TreeNode?)
      requires At(Top, tree) && i < |Inorder(tree)| && node == Inorder(tree)[i].node
      ensures r == NodeAt(tree, i - 1)
    {
      hide At, Inorder, Around, Before, Position;
      ghost var (q, s) := Position(Top, tree, i);
      PositionIs(Top, tree, i);
      PositionAt(Top, tree, i);
      WholeAround(tree);
      Look(q, s);
      AroundRight(q, s);
      if node.left != null {
        ZoomIn(q, s, Left);
        r := RbMax(node.left, Step(q, s.cell, Left, s.right), s.left);
      } else {
        var n, parent := node, node.parent;
        while parent != null && n == parent.left
          invariant At(q, s) && s.Node? && n == Root(s) && parent == ParentOf(q)
          invariant Around(q, Inorder(s)) == Inorder(tree) && |Before(q)| == i
          decreases q
        {
          Look(q, s);
          ZoomOut(q, s);
          AroundUp(q, s);
          s := Join(q.cell, q.side, s, q.other);
          q := q.up;
          n := parent;
          parent := parent.parent;
        }
        Look(q, s);
        Neighbours(q, s);
        r := parent;
      }
    }

    /** Begin at the minimum and step until null: every key once, in increasing order. */
    method Traverse() returns (visited: seq<TreeNode>)
      requires Valid()
      ensures |visited| == |Contents()|
      ensures forall i :: 0 <= i < |visited| ==>
        visited[i] in nodes && visited[i].key in Contents() && visited[i].value == Contents()[visited[i].key]
      ensures forall i, j :: 0 <= i < j < |visited| ==> compare(visited[i].key, visited[j].key) < 0
    {
      visited := Walk();
      EntriesHeld();
    }

    method Walk() returns (visited: seq<TreeNode>)
      requires At(Top, tree)
      ensures |visited| == |Inorder(tree)| && AreFirst(visited, tree)
    {
      hide AreFirst, At, Inorder;
      visited := [];
      NoneVisited(tree);
      Footprint(Top, tree);
      var node: TreeNode? := null;
      if head != null {
        node := RbMin(head, Top, tree);
      }
      while node != null
        invariant At(Top, tree) && AreFirst(visited, tree)
        invariant |visited| <= |Inorder(tree)| && node == NodeAt(tree, |visited|)
        decreases |Inorder(tree)| - |visited|
      {
        FirstOneMore(visited, tree);
        visited := visited + [node];
        node := NextRbTree(node, |visited| - 1);
      }
    }

    lemma EntriesHeld()
      requires Valid()
      ensures |Inorder(tree)| == |Contents()|
      ensures forall i, j :: 0 <= i < j < |Inorder(tree)| ==>
        compare(Inorder(tree)[i].node.key, Inorder(tree)[j].node.key) < 0
      ensures forall i :: 0 <= i < |Inorder(tree)| ==>
        var e := Inorder(tree)[i];
        e.node in nodes && e.node.key == e.key && e.node.value == e.value
        && e.key in Contents() && Contents()[e.key] == e.value
    {
      hide TotalOrder, At, RedBlack, MapOf, Inorder;
      forall i | 0 <= i < |Inorder(tree)|
        ensures var e := Inorder(tree)[i];
          e.node in nodes && e.node.key == e.key && e.node.value == e.value
          && e.key in Contents() && Contents()[e.key] == e.value
      {
        var (q, s) := Position(Top, tree, i);
        PositionIs(Top, tree, i);
        PositionAt(Top, tree, i);
        Look(q, s);
        MapOfHas(compare, Inorder(tree), i);
      }
      MapOfSize(compare, Inorder(tree));
    }
  }

  // ---------- Positions by index ----------

  /** The `i`-th node in key order; null outside the tree. */
  function NodeAt(t: Tree, i: int): TreeNode? {
    if 0 <= i < |Inorder(t)| then Inorder(t)[i].node else null
  }

  /** `visited` are the first nodes of `t` in key order. */
  predicate AreFirst(visited: seq<TreeNode>, t: Tree) {
    |visited| <= |Inorder(t)| && forall i :: 0 <= i < |visited| ==> visited[i] == Inorder(t)[i].node
  }

  lemma NoneVisited(t: Tree)
    ensures AreFirst([], t) && (t.Leaf? ==> Inorder(t) == [])
  {
  }

  lemma IsRedBlack(cmp: (Key, Key) -> int, t: Tree)
    requires SearchTree(cmp, t)
    ensures RedBlack(t)
  {
  }

  lemma FirstOneMore(visited: seq<TreeNode>, t: Tree)
    requires AreFirst(visited, t) && |visited| < |Inorder(t)|
    ensures AreFirst(visited + [Inorder(t)[|visited|].node], t)
  {
  }

  function Position(p: Path, t: Tree, i: nat): (Path, Tree)
    requires i < |Inorder(t)|
    decreases t
  {
    var n := |Inorder(t.left)|;
    if i < n then Position(Step(p, t.cell, Left, t.right), t.left, i)
    else if i == n then (p, t)
    else Position(Step(p, t.cell, Right, t.left), t.right, i - n - 1)
  }

  lemma {:induction false} PositionIs(p: Path, t: Tree, i: nat)
    requires i < |Inorder(t)|
    ensures var (q, s) := Position(p, t, i);
      && s.Node? && s.cell.entry == Inorder(t)[i]
      && Around(q, Inorder(s)) == Around(p, Inorder(t))
      && |Before(q)| + |Inorder(s.left)| == |Before(p)| + i
    decreases t
  {
    hide Before, Around;
    var n := |Inorder(t.left)|;
    PathDown(p, t);
    if i < n {
      PositionIs(Step(p, t.cell, Left, t.right), t.left, i);
    } else if i > n {
      PositionIs(Step(p, t.cell, Right, t.left), t.right, i - n - 1);
    }
  }

  lemma PathDown(p: Path, t: Tree)
    requires t.Node?
    ensures var q := Step(p, t.cell, Left, t.right);
      Around(q, Inorder(t.left)) == Around(p, Inorder(t)) && Before(q) == Before(p)
    ensures var q := Step(p, t.cell, Right, t.left);
      Around(q, Inorder(t.right)) == Around(p, Inorder(t)) && |Before(q)| == |Before(p)| + |Inorder(t.left)| + 1
  {
  }

  lemma WholeAround(t: Tree)
    ensures Around(Top, Inorder(t)) == Inorder(t) && Before(Top) == []
  {
  }

  /** The same sequence, seen from the parent. */
  lemma AroundUp(q: Path, s: Tree)
    requires q.Step?
    ensures var up := Join(q.cell, q.side, s, q.other);
      && Around(q.up, Inorder(up)) == Around(q, Inorder(s))
      && (q.side == Left ==> Before(q.up) == Before(q))
      && (q.side == Right ==> |Before(q.up)| + |Inorder(up)| == |Before(q)| + |Inorder(s)|)
  {
  }

  /** What stands next to a whole subtree: its parent on one side, or nothing. */
  lemma Neighbours(q: Path, s: Tree)
    requires s.Node?
    ensures var whole, from := Around(q, Inorder(s)), |Before(q)|;
      var to := from + |Inorder(s)|;
      && from < to <= |whole|
      && if q.Top? then from == 0 && to == |whole|
         else if q.side == Left then to < |whole| && whole[to] == q.cell.entry
         else from > 0 && whole[from - 1] == q.cell.entry
  {
    AroundIs(q, Inorder(s));
  }

  /** The entries next to a node that has children are the ends of its subtrees. */
  lemma AroundRight(q: Path, s: Tree)
    requires s.Node?
    ensures var whole, i := Around(q, Inorder(s)), |Before(q)| + |Inorder(s.left)|;
      && i < |whole| && whole[i] == s.cell.entry
      && (s.right.Node? ==> Inorder(s.right) != [] && i + 1 < |whole| && whole[i + 1] == Inorder(s.right)[0])
      && (s.left.Node? ==> Inorder(s.left) != [] && i > 0 && whole[i - 1] == Inorder(s.left)[|Inorder(s.left)| - 1])
      && (s.left.Leaf? ==> i == |Before(q)|)
      && (s.right.Leaf? ==> i + 1 == |Before(q)| + |Inorder(s)|)
  {
    RootSplits(q, s);
  }

  // ---------- Colours and relatives, as the code computes them ----------

  function NodeColour(node: TreeNode?): Colour
    reads node
  {
    if node == null then Black else node.colour
  }

  predicate IsRedNode(node: TreeNode?)
    reads node
  {
    NodeColour(node) == Red
  }

  function Grandparent(node: TreeNode): TreeNode
    requires node.parent != null && node.parent.parent != null
    reads node, node.parent
  {
    node.parent.parent
  }

  function Sibling(node: TreeNode): TreeNode?
    requires node.parent != null
    reads node, node.parent
  {
    if node == node.parent.left then node.parent.right else node.parent.left
  }

  function Uncle(node: TreeNode): TreeNode?
    requires node.parent != null && node.parent.parent != null
    reads node, node.parent, node.parent.parent
  {
    Sibling(node.parent)
  }

  lemma LeafLinked(parent: TreeNode?)
    ensures Linked(Leaf, parent) && Distinct(Leaf) && Nodes(Leaf) == {}
  {
  }
}
