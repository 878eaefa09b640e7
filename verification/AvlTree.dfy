/** The intrusive, nonrecursive AVL tree of the kernel: rotations, and rebalancing after an insertion and a removal. */
module Avl {
  import opened Machine
  import opened AvlTrees
  import opened AvlBalance
  import opened AvlMemory
  import opened AvlOrder

  class AvlTree {
    var root: Word
    var nodes: Cells
    ghost var tree: Tree

    /** The memory holds the tree, which has every node once and the right balance factor at each. */
    ghost predicate Valid()
      reads this
    {
      Holds(nodes, root, 0, tree) && Distinct(tree) && Balanced(tree)
    }

    ghost predicate Stands(c: Context, t: Tree)
      reads this
    {
      Stand(nodes, root, c, t)
    }

    // ---------- fields of nodes

    method SetChild(parent: Word, s: Side, child: Word)
      requires parent in nodes
      modifies this`nodes
      ensures nodes == old(nodes)[parent := old(nodes)[parent].WithChild(s, child)]
    {
      if s.Left? {
        nodes := nodes[parent := nodes[parent].(left := child)];
      } else {
        nodes := nodes[parent := nodes[parent].(right := child)];
      }
    }

    method SetParentBalance(node: Word, parent: Word, bal: int)
      requires node in nodes && parent % 4 == 0 && -1 <= bal <= 1
      modifies this`nodes
      ensures nodes == old(nodes)[node := old(nodes)[node].(parentBalance := Packed(parent, bal))]
    {
      nodes := nodes[node := nodes[node].(parentBalance := parent + (bal + 1))];
    }

    method Relink(node: Word, s: Side, child: Word, parent: Word, bal: int)
      requires node in nodes && parent % 4 == 0 && -1 <= bal <= 1
      modifies this`nodes
      ensures nodes == old(nodes)[node := old(nodes)[node].WithChild(s, child).(parentBalance := Packed(parent, bal))]
    {
      SetChild(node, s, child);
      SetParentBalance(node, parent, bal);
    }

    method SetParent(node: Word, parent: Word)
      requires node in nodes && parent % 4 == 0
      modifies this`nodes
      ensures nodes == old(nodes)[node := old(nodes)[node].WithParent(parent)]
    {
      nodes := nodes[node := nodes[node].(parentBalance := parent + nodes[node].parentBalance % 4)];
    }

    /** Adding to the packed word changes the balance factor only. */
    method AdjustBalanceFactor(node: Word, amount: int)
      requires node in nodes && -1 <= nodes[node].Balance() + amount <= 1
      modifies this`nodes
      ensures nodes == old(nodes)[node := old(nodes)[node].(parentBalance := Packed(old(nodes)[node].Parent(), old(nodes)[node].Balance() + amount))]
    {
      nodes := nodes[node := nodes[node].(parentBalance := nodes[node].parentBalance + amount)];
    }

    /** The hole of c points to the new child. */
    method ReplaceChild(parent: Word, oldChild: Word, newChild: Word, ghost c: Context)
      requires HoldsAround(nodes, root, c, oldChild) && DistinctAround(c)
      requires oldChild != 0 && oldChild !in Around(c) && parent == ParentOf(c)
      modifies this`root, this`nodes
      ensures HoldsAround(nodes, root, c, newChild)
      ensures SameOutside(old(nodes), nodes, Around(c) * {parent})
    {
      ghost var m := nodes;
      if parent != 0 {
        var s := if oldChild == nodes[parent].left then Left else Right;
        assert s == c.side by {
          HoldsNodes(m, m[c.at].To(c.side.Other()), c.at, c.other);
        }
        SetChild(parent, s, newChild);
        AroundMoved(m, nodes, root, c, oldChild, newChild);
      } else {
        AroundNodes(m, root, c, oldChild);
        root := newChild;
      }
    }

    // ---------- rotations

    method Rotate(a: Word, s: Side, ghost c: Context, ghost t: Tree)
      requires Stands(c, t) && t.Node? && a == t.at && Child(t, s.Other()).Node?
      modifies this`root, this`nodes
      ensures Stands(c, Rotated(s, t))
      ensures SameOutside(old(nodes), nodes, Around(c) + Nodes(t))
    {
      hide Make, Holds, HoldsAround, Nodes, Distinct, DistinctAround, Around, Rotated, RotatedCells;
      ghost var m := nodes;
      StandsAt(m, root, c, t);
      ChildAt(m, a, ParentOf(c), t, s.Other());
      var p := nodes[a].Parent();
      var b := Pivot(a, s, p, t);
      RotatedHolds(m, nodes, p, s, t);
      AroundKept(m, nodes, root, c, a);
      ghost var m' := nodes;
      ReplaceChild(p, a, b, c);
      RotatedSame(s, t);
      HoldsKept(m', nodes, b, p, Rotated(s, t));
    }

    /** The pointers between the nodes of a rotation, and up from its new root. */
    method Pivot(a: Word, s: Side, p: Word, ghost t: Tree) returns (b: Word)
      requires Holds(nodes, a, p, t) && Distinct(t) && t.Node? && Child(t, s.Other()).Node? && p % 4 == 0
      modifies this`nodes
      ensures b == Child(t, s.Other()).at
      ensures RotatedCells(old(nodes), nodes, p, s, t)
      ensures SameOutside(old(nodes), nodes, Nodes(t))
    {
      hide Make, Holds, Nodes, Distinct;
      ChildAt(nodes, a, p, t, s.Other());
      b := nodes[a].To(s.Other());
      ChildAt(nodes, b, a, Child(t, s.Other()), s);
      RootNode(t);
      var e := nodes[b].To(s);
      SetChild(a, s.Other(), e);
      SetParent(a, b);
      SetChild(b, s, a);
      SetParent(b, p);
      Adopt(e, a);
    }

    method DoubleRotate(b: Word, a: Word, s: Side, ghost c: Context, ghost t: Tree) returns (e: Word)
      requires Stands(c, t) && t.Node? && a == t.at && Child(t, s.Other()).Node? && Child(Child(t, s.Other()), s).Node?
      requires b == Child(t, s.Other()).at
      modifies this`root, this`nodes
      ensures Stands(c, DoubleRotated(s, t)) && e == DoubleRotated(s, t).at
      ensures SameOutside(old(nodes), nodes, Around(c) + Nodes(t))
    {
      hide Make, Holds, HoldsAround, Nodes, Distinct, DistinctAround, Around, DoubleRotated, DoubleRotatedCells;
      ghost var m := nodes;
      StandsAt(m, root, c, t);
      ChildAt(m, a, ParentOf(c), t, s.Other());
      var p := nodes[a].Parent();
      e := DoublePivot(b, a, s, p, t);
      DoubleRotatedHolds(m, nodes, p, s, t);
      AroundKept(m, nodes, root, c, a);
      ghost var m' := nodes;
      ReplaceChild(p, a, e, c);
      DoubleRotatedSame(s, t);
      HoldsKept(m', nodes, e, p, DoubleRotated(s, t));
    }

    /** The pointers between the nodes of a double rotation, up from its new root, and the balance factors. */
    method DoublePivot(b: Word, a: Word, s: Side, p: Word, ghost t: Tree) returns (e: Word)
      requires Holds(nodes, a, p, t) && Distinct(t) && t.Node? && Child(t, s.Other()).Node? && p % 4 == 0
      requires b == Child(t, s.Other()).at && Child(Child(t, s.Other()), s).Node?
      modifies this`nodes
      ensures e == Child(Child(t, s.Other()), s).at
      ensures DoubleRotatedCells(old(nodes), nodes, p, s, t)
      ensures SameOutside(old(nodes), nodes, Nodes(t))
    {
      hide Make, Holds, Nodes, Distinct, Handed, Packed, Cell.WithChild, Cell.WithParent;
      var o := s.Other();
      GrandchildAt(nodes, a, p, t, s);
      e := nodes[b].To(s);
      var f, g := nodes[e].To(o), nodes[e].To(s);
      Interlink(b, a, e, s, p);
      ghost var m := nodes;
      Adopt(g, a);
      Adopt(f, b);
      DoublePivoted(old(nodes), m, nodes, p, s, t);
    }

    /** The pointers between the three nodes of a double rotation, and their balance factors. */
    method Interlink(b: Word, a: Word, e: Word, s: Side, p: Word)
      requires {a, b, e} <= nodes.Keys && a != b && a != e && b != e && p % 4 == 0 && e % 4 == 0 && -1 <= nodes[e].Balance() <= 1
      modifies this`nodes
      ensures Interlinked(old(nodes), nodes, p, s, a, b, e)
    {
      hide Handed, Packed, Cell.WithChild, Cell.WithParent;
      var o := s.Other();
      var f, g := nodes[e].To(o), nodes[e].To(s);
      var factor := nodes[e].Balance();
      Relink(a, o, g, e, Handed(o, factor));
      Relink(b, s, f, e, Handed(s, factor));
      SetChild(e, s, a);
      Relink(e, o, b, p, 0);
    }

    /** A child that is there gets its parent. */
    method Adopt(child: Word, parent: Word)
      requires child != 0 ==> child in nodes && parent % 4 == 0
      modifies this`nodes
      ensures child == 0 ==> nodes == old(nodes)
      ensures child != 0 ==> nodes == old(nodes)[child := old(nodes)[child].WithParent(parent)]
    {
      if child != 0 {
        SetParent(child, parent);
      }
    }

    // ---------- the rounds of the two loops

    method AdjustAt(node: Word, amount: int, ghost c: Context, ghost t: Tree)
      requires Stands(c, t) && t.Node? && node == t.at && -1 <= t.bal + amount <= 1
      modifies this`nodes
      ensures Stands(c, t.(bal := t.bal + amount))
      ensures SameOutside(old(nodes), nodes, Nodes(t))
    {
      StandsAt(nodes, root, c, t);
      hide Make, Holds, HoldsAround, Nodes, Distinct, DistinctAround, Around;
      AdjustBalanceFactor(node, amount);
      StandsAdjusted(old(nodes), nodes, root, c, t, t.bal + amount);
    }

    method HandleSubtreeGrowth(node: Word, parent: Word, s: Side, ghost c: Context, ghost t: Tree) returns (done: bool)
      requires Stands(c, t) && CanGrow(c, t) && node == t.at && parent == c.at && s == c.side
      modifies this`root, this`nodes
      ensures Stands(c.up, Grown(c, t))
      ensures done <==> c.bal != 0
      ensures SameOutside(old(nodes), nodes, Around(c) + Nodes(t))
    {
      hide Make, Holds, HoldsAround, Nodes, Distinct, DistinctAround, Around, Rotated, DoubleRotated;
      StandsAt(nodes, root, c, t);
      var oldBalance := nodes[parent].Balance();
      StandsUp(nodes, root, c, t);
      if oldBalance == 0 {
        AdjustAt(parent, s.Sign(), c.up, Stale(c, t));
        return false;
      }
      if oldBalance + s.Sign() == 0 {
        AdjustAt(parent, s.Sign(), c.up, Stale(c, t));
        return true;
      }
      if Turn(s, nodes[node].Balance()) > 0 {
        Rotate(parent, s.Other(), c.up, Stale(c, t));
        RotatedSame(s.Other(), Stale(c, t));
        Even(node, parent, s, -s.Sign(), c.up, Rotated(s.Other(), Stale(c, t)));
      } else {
        var _ := DoubleRotate(node, parent, s.Other(), c.up, Stale(c, t));
      }
      done := true;
    }

    /** Both nodes of a single rotation become even. */
    method Even(node: Word, parent: Word, s: Side, amount: int, ghost c: Context, ghost r: Tree)
      requires Stands(c, r) && r.Node? && node == r.at && Child(r, s.Other()).Node? && parent == Child(r, s.Other()).at
      requires r.bal + amount == 0 && Child(r, s.Other()).bal + amount == 0
      modifies this`nodes
      ensures Stands(c, Make(s, Child(r, s), r.at, 0, Child(r, s.Other()).(bal := 0)))
      ensures SameOutside(old(nodes), nodes, Around(c) + Nodes(r))
    {
      hide Make, Holds, HoldsAround, Nodes, Distinct, DistinctAround, Around;
      ghost var o := s.Other();
      ghost var low := Child(r, o);
      ghost var below := Under(o, r.at, r.bal, Child(r, s), c);
      StandsDown(nodes, root, c, r, o);
      AdjustAt(parent, amount, below, low);
      OneBalance(low, 0);
      StandsUp(nodes, root, below, low.(bal := 0));
      AdjustAt(node, amount, c, Make(o, low.(bal := 0), r.at, r.bal, Child(r, s)));
      MakeAll(s, Make(o, low.(bal := 0), r.at, 0, Child(r, s)));
    }

    // ---------- insertion

    /** The new node is below its parent already. */
    method RebalanceAfterInsert(inserted: Word, ghost c: Context)
      requires HoldsAround(nodes, root, c, inserted) && DistinctAround(c) && Steady(c, 0)
      requires CellAt(nodes, inserted, ParentOf(c), 0) && inserted !in Around(c)
      modifies this
      ensures Valid() && InOrder(tree) == Before(c) + [inserted] + After(c) && Nodes(tree) == Around(c) + {inserted}
      ensures SameOutside(old(nodes), nodes, Around(c) + {inserted})
    {
      hide Make, Holds, HoldsAround, Nodes, Distinct, DistinctAround, Around, InOrder, Before, After, Balanced, Height;
      SetChild(inserted, Left, 0);
      SetChild(inserted, Right, 0);
      ghost var t := Node(Leaf, inserted, 0, Leaf);
      AroundKept(old(nodes), nodes, root, c, inserted);
      StandsNew(nodes, root, c, inserted);
      var parent := nodes[inserted].Parent();
      StandsAt(nodes, root, c, t);
      if parent == 0 {
        tree := Fill(c, t);
        StandsWhole(nodes, root, c, t);
        return;
      }
      BeginGrowth(inserted, parent, c, t);
    }

    /** The first round, which never rotates, and the loop if there is more to do. */
    method BeginGrowth(node: Word, parent: Word, ghost c: Context, ghost t: Tree)
      requires Stands(c, t) && c != Top && t.Node? && node == t.at && parent == c.at
      requires Balanced(t) && Height(t) == 1 && Steady(c, 0)
      modifies this
      ensures Valid() && InOrder(tree) == Before(c) + InOrder(t) + After(c) && Nodes(tree) == Around(c) + Nodes(t)
      ensures SameOutside(old(nodes), nodes, Around(c) + Nodes(t))
    {
      hide Make, Holds, HoldsAround, Nodes, Distinct, DistinctAround, Around, InOrder, Before, After, Balanced, Height, Grown, Stand;
      SideOfHole(nodes, root, c, t);
      var s := if node == nodes[parent].left then Left else Right;
      FirstGrowth(c, t);
      StandsUp(nodes, root, c, t);
      AdjustAt(parent, s.Sign(), c.up, Stale(c, t));
      StaleInOrder(c, t);
      GrownSame(c, t);
      ghost var r := Grown(c, t);
      StandsAt(nodes, root, c.up, r);
      if nodes[parent].Balance() == 0 {
        tree := Fill(c.up, r);
        StandsWhole(nodes, root, c.up, r);
        return;
      }
      PropagateGrowth(parent, c.up, r);
    }

    /** The loop up the tree: the subtree at the node given has grown by one level and leans to one side. */
    method PropagateGrowth(grown: Word, ghost c: Context, ghost t: Tree)
      requires Stands(c, t) && t.Node? && grown == t.at && Balanced(t) && t.bal != 0 && Steady(c, Height(t) - 1)
      modifies this
      ensures Valid() && InOrder(tree) == Before(c) + InOrder(t) + After(c) && Nodes(tree) == Around(c) + Nodes(t)
      ensures SameOutside(old(nodes), nodes, Around(c) + Nodes(t))
    {
      hide Make, Holds, HoldsAround, Nodes, Distinct, DistinctAround, Around, InOrder, Before, After, Balanced, Height, Grown, Stand;
      var parent, done := grown, false;
      ghost var d, u := c, t;
      while !done
        invariant Stands(d, u) && Balanced(u) && u.Node?
        invariant if done then Steady(d, Height(u)) else parent == u.at && u.bal != 0 && Steady(d, Height(u) - 1)
        invariant Before(d) + InOrder(u) + After(d) == Before(c) + InOrder(t) + After(c)
        invariant Around(d) + Nodes(u) == Around(c) + Nodes(t)
        invariant SameOutside(old(nodes), nodes, Around(c) + Nodes(t))
        decreases d
      {
        var node := parent;
        StandsAt(nodes, root, d, u);
        parent := nodes[node].Parent();
        if parent == 0 {
          break;
        }
        SideOfHole(nodes, root, d, u);
        GrownBalanced(d, u);
        GrownSame(d, u);
        StaleInOrder(d, u);
        StandsUp(nodes, root, d, u);
        SteadyUp(d, Height(u) - 1);
        if node == nodes[parent].left {
          done := HandleSubtreeGrowth(node, parent, Left, d, u);
        } else {
          done := HandleSubtreeGrowth(node, parent, Right, d, u);
        }
        d, u := d.up, Grown(d, u);
      }
      tree := Fill(d, u);
      StandsWhole(nodes, root, d, u);
    }

    // ---------- removal

    /** One round of the loop; s is the side away from the subtree that has shrunk. */
    method HandleSubtreeShrink(parent: Word, s: Side, ghost c: Context, ghost t: Tree) returns (next: Word, leftDeleted: bool)
      requires Stands(c, t) && CanShrink(c) && parent == c.at && s == c.side.Other()
      modifies this`root, this`nodes
      ensures Stands(c.up, Shrunk(c, t))
      ensures next == if Settled(c) then 0 else ParentOf(c.up)
      ensures next != 0 ==> c.up != Top && (leftDeleted <==> c.up.side == Left)
      ensures SameOutside(old(nodes), nodes, Around(c) + Nodes(t))
    {
      hide Make, Holds, HoldsAround, Nodes, Distinct, DistinctAround, Around, Rotated, DoubleRotated;
      leftDeleted := false;
      StandsAt(nodes, root, c, t);
      var oldBalance := nodes[parent].Balance();
      StandsUp(nodes, root, c, t);
      if oldBalance == 0 {
        AdjustAt(parent, s.Sign(), c.up, Stale(c, t));
        return 0, false;
      }
      var node;
      if oldBalance + s.Sign() == 0 {
        AdjustAt(parent, s.Sign(), c.up, Stale(c, t));
        node := parent;
      } else {
        ChildAt(nodes, parent, ParentOf(c.up), Stale(c, t), s);
        StandsDown(nodes, root, c.up, Stale(c, t), s);
        StandsAt(nodes, root, Under(s, c.at, c.bal, t, c.up), c.other);
        node := nodes[parent].To(s);
        if Turn(s, nodes[node].Balance()) >= 0 {
          var balance := nodes[node].Balance();
          Rotate(parent, s.Other(), c.up, Stale(c, t));
          RotatedSame(s.Other(), Stale(c, t));
          StandsAt(nodes, root, c.up, Rotated(s.Other(), Stale(c, t)));
          if nodes[node].Balance() == 0 {
            AdjustAt(node, s.Other().Sign(), c.up, Rotated(s.Other(), Stale(c, t)));
            return 0, false;
          }
          Even(node, parent, s, s.Other().Sign(), c.up, Rotated(s.Other(), Stale(c, t)));
        } else {
          node := DoubleRotate(node, parent, s.Other(), c.up, Stale(c, t));
        }
      }
      StandsAt(nodes, root, c.up, Shrunk(c, t));
      next := nodes[node].Parent();
      if next != 0 {
        SideOfHole(nodes, root, c.up, Shrunk(c, t));
        leftDeleted := node == nodes[next].left;
      }
    }

    /** The loop up the tree: the hole's subtree has shrunk by one level. */
    method PropagateShrink(shrunk: Word, left: bool, ghost c: Context, ghost t: Tree)
      requires Stands(c, t) && c != Top && shrunk == c.at && (left <==> c.side == Left)
      requires Balanced(t) && Steady(c, Height(t) + 1)
      modifies this
      ensures Valid() && InOrder(tree) == Before(c) + InOrder(t) + After(c) && Nodes(tree) == Around(c) + Nodes(t)
      ensures SameOutside(old(nodes), nodes, Around(c) + Nodes(t))
    {
      hide Make, Holds, HoldsAround, Nodes, Distinct, DistinctAround, Around, InOrder, Before, After, Balanced, Height, Shrunk, Stand;
      var parent, leftDeleted := shrunk, left;
      ghost var d, u := c, t;
      StandsAt(nodes, root, d, u);
      while parent != 0
        invariant Stands(d, u) && Balanced(u)
        invariant if parent == 0 then Steady(d, Height(u)) else d != Top && parent == d.at && (leftDeleted <==> d.side == Left) && Steady(d, Height(u) + 1)
        invariant Before(d) + InOrder(u) + After(d) == Before(c) + InOrder(t) + After(c)
        invariant Around(d) + Nodes(u) == Around(c) + Nodes(t)
        invariant SameOutside(old(nodes), nodes, Around(c) + Nodes(t))
        decreases d
      {
        ShrunkBalanced(d, u);
        ShrunkSame(d, u);
        StaleInOrder(d, u);
        StandsUp(nodes, root, d, u);
        SteadyUp(d, Height(u) + 1);
        ghost var settled := Settled(d);
        if leftDeleted {
          parent, leftDeleted := HandleSubtreeShrink(parent, Right, d, u);
        } else {
          parent, leftDeleted := HandleSubtreeShrink(parent, Left, d, u);
        }
        d, u := d.up, Shrunk(d, u);
        StandsAt(nodes, root, d, u);
      }
      tree := Fill(d, u);
      StandsWhole(nodes, root, d, u);
    }

    /** The detached node y gets the left child and the last word of x. */
    method Inherit(x: Word, y: Word)
      requires x in nodes && {x, y, nodes[x].left} <= nodes.Keys && x != y && nodes[x].left != y && nodes[x].left != x && y % 4 == 0
      modifies this`nodes
      ensures nodes.Keys == old(nodes.Keys) && SameOutside(old(nodes), nodes, {y, old(nodes)[x].left})
      ensures nodes[y] == Cell(old(nodes)[x].left, old(nodes)[y].right, old(nodes)[x].parentBalance)
      ensures nodes[old(nodes)[x].left] == old(nodes)[old(nodes)[x].left].WithParent(y)
    {
      SetChild(y, Left, nodes[x].left);
      SetParent(nodes[x].left, y);
      nodes := nodes[y := nodes[y].(parentBalance := nodes[x].parentBalance)];
    }

    /** The successor is the right child. */
    method SwapWithChild(x: Word, y: Word, ghost c: Context, ghost t: Tree)
      requires Stands(c, t) && t.Node? && x == t.at && t.left.Node? && t.right.Node? && y == t.right.at && t.right.left == Leaf
      modifies this`root, this`nodes
      ensures Stands(Under(Right, y, t.bal, t.left, c), t.right.right)
      ensures SameOutside(old(nodes), nodes, Around(c) + Nodes(t))
    {
      hide Make, Holds, HoldsAround, Nodes, Distinct, DistinctAround, Around;
      ghost var m := nodes;
      StandsAt(nodes, root, c, t);
      ChildAt(nodes, x, ParentOf(c), t, Left);
      ChildAt(nodes, x, ParentOf(c), t, Right);
      ChildAt(nodes, y, x, t.right, Right);
      Siblings(t, Left);
      Inherit(x, y);
      ghost var m1 := nodes;
      AroundKept(m, m1, root, c, x);
      ReplaceChild(nodes[x].Parent(), x, y, c);
      ChildTookPlace(m, m1, nodes, old(root), root, c, t);
    }

    /** The leftmost node y below the right child, and its parent q. */
    method Successor(x: Word, right: Word, ghost c: Context, ghost t: Tree) returns (q: Word, y: Word, ghost inner: Context, ghost v: Tree)
      requires Stands(c, t) && t.Node? && x == t.at && t.left.Node? && t.right.Node? && right == t.right.at && t.right.left.Node?
      ensures inner != Top && Leftmost(inner) && Fill(inner, v) == t.right && v.Node? && v.left == Leaf
      ensures Stands(Onto(inner, Under(Right, x, t.bal, t.left, c)), v) && q == inner.at && y == v.at
    {
      hide Holds, HoldsAround, Nodes, Distinct, DistinctAround, Around, Stand;
      ghost var base := Under(Right, x, t.bal, t.left, c);
      StandsDown(nodes, root, c, t, Right);
      StandsDown(nodes, root, base, t.right, Left);
      inner, v := Under(Left, right, t.right.bal, t.right.right, Top), t.right.left;
      LeftAt(nodes, root, base, t.right);
      assert Onto(Top, base) == base;
      q, y := right, nodes[right].left;
      LeftAt(nodes, root, Onto(inner, base), v);
      while nodes[y].left != 0
        invariant inner != Top && Leftmost(inner) && Fill(inner, v) == t.right && v.Node?
        invariant Stands(Onto(inner, base), v) && q == inner.at && y == v.at
        invariant y in nodes && nodes[y].left == Root(v.left) && (v.left.Node? <==> nodes[y].left != 0)
        decreases v
      {
        StandsDown(nodes, root, Onto(inner, base), v, Left);
        q := y;
        y := nodes[y].left;
        inner, v := Under(Left, v.at, v.bal, v.right, inner), v.left;
        LeftAt(nodes, root, Onto(inner, base), v);
      }
    }

    /** The node y leaves its parent q, and its right child takes its place. */
    method Detach(q: Word, y: Word, ghost c: Context, ghost v: Tree)
      requires Stands(c, v) && c != Top && c.side == Left && q == c.at && v.Node? && y == v.at
      modifies this`nodes
      ensures Stands(c, v.right) && y !in Around(c) + Nodes(v.right)
      ensures SameOutside(old(nodes), nodes, Around(c) + Nodes(v.right))
    {
      hide Make, Holds, HoldsAround, Nodes, Distinct, DistinctAround, Around;
      StandsAt(nodes, root, c, v);
      ChildAt(nodes, y, q, v, Right);
      ghost var m := nodes;
      SetChild(q, Left, nodes[y].right);
      Adopt(nodes[q].left, q);
      StandsChild(m, nodes, root, root, c, v, Right);
    }

    /** The detached node y gets the pointers of x. */
    method TakePlace(x: Word, y: Word, ghost inner: Context, ghost c: Context, ghost bal: int, ghost l: Tree, ghost u: Tree)
      requires inner != Top && l.Node? && Stands(Onto(inner, Under(Right, x, bal, l, c)), u)
      requires y in nodes && y != 0 && y % 4 == 0 && y !in Around(Onto(inner, Under(Right, x, bal, l, c))) + Nodes(u)
      modifies this`root, this`nodes
      ensures Stands(Onto(inner, Under(Right, y, bal, l, c)), u)
      ensures SameOutside(old(nodes), nodes, {y} + Around(Onto(inner, Under(Right, x, bal, l, c))))
    {
      hide Holds, Nodes, Distinct, Onto, Around, DistinctAround, HoldsAround, Between, Outermost;
      ghost var base := Under(Right, x, bal, l, c);
      ghost var r := Outermost(inner, Root(u));
      ghost var m := nodes;
      Place(m, root, inner, c, x, bal, l, u);
      SetChild(y, Right, nodes[x].right);
      SetParent(nodes[x].right, y);
      Inherit(x, y);
      ghost var m1 := nodes;
      AroundKept(m, m1, root, c, x);
      ReplaceChild(nodes[x].Parent(), x, y, c);
      TookPlace(m, m1, nodes, old(root), root, inner, c, x, y, bal, l, u);
    }

    method SwapWithSuccessor(x: Word, ghost c: Context, ghost t: Tree)
      returns (parent: Word, leftDeleted: bool, ghost c': Context, ghost u: Tree)
      requires Stands(c, t) && t.Node? && x == t.at && t.left.Node? && t.right.Node? && Balanced(t) && Steady(c, Height(t))
      modifies this`root, this`nodes
      ensures Stands(c', u) && c' != Top && parent == c'.at && (leftDeleted <==> c'.side == Left)
      ensures Balanced(u) && Steady(c', Height(u) + 1)
      ensures Before(c') + InOrder(u) + After(c') == Before(c) + InOrder(t.left) + InOrder(t.right) + After(c)
      ensures Around(c') + Nodes(u) == Around(c) + Nodes(t) - {x}
      ensures SameOutside(old(nodes), nodes, Around(c) + Nodes(t))
    {
      hide Holds, Nodes, Distinct, Onto, Around, DistinctAround, HoldsAround, Between, Outermost, Stand, Balanced, Steady, Height, InOrder, Before, After;
      ChildrenAt(nodes, root, c, t);
      assert Distinct(t) && Nodes(t) !! Around(c) by {
        StandsDistinct(nodes, root, c, t);
      }
      var y := nodes[x].right;
      if nodes[y].left == 0 {
        SwapWithChild(x, y, c, t);
        parent, leftDeleted := y, false;
        c', u := Under(Right, y, t.bal, t.left, c), t.right.right;
        ChildSwapped(c, t);
      } else {
        ghost var inner, v;
        parent, y, inner, v := Successor(x, y, c, t);
        ghost var base := Under(Right, x, t.bal, t.left, c);
        StandsAt(nodes, root, Onto(inner, base), v);
        SuccessorSwapped(c, t, inner, v);
        Detach(parent, y, Onto(inner, base), v);
        TakePlace(x, y, inner, c, t.bal, t.left, v.right);
        leftDeleted := true;
        c', u := Onto(inner, Under(Right, y, t.bal, t.left, c)), v.right;
      }
    }

    /** The child, if there is one, moves up to where the node was. */
    method Unlink(node: Word, child: Word, parent: Word, ghost c: Context, ghost t: Tree, ghost s: Side) returns (leftDeleted: bool)
      requires Stands(c, t) && t.Node? && node == t.at && child == Root(Child(t, s)) && parent == ParentOf(c)
      modifies this`root, this`nodes
      ensures Stands(c, Child(t, s)) && (c != Top ==> (leftDeleted <==> c.side == Left))
      ensures SameOutside(old(nodes), nodes, Around(c) + Nodes(t))
    {
      hide Make, Holds, HoldsAround, Nodes, Distinct, DistinctAround, Around;
      StandsAt(nodes, root, c, t);
      ChildAt(nodes, node, ParentOf(c), t, s);
      ghost var m := nodes;
      leftDeleted := false;
      if parent != 0 {
        SideOfHole(nodes, root, c, t);
        if node == nodes[parent].left {
          SetChild(parent, Left, child);
          leftDeleted := true;
        } else {
          SetChild(parent, Right, child);
        }
        Adopt(child, parent);
      } else {
        Adopt(child, parent);
        root := child;
      }
      StandsChild(m, nodes, old(root), root, c, t, s);
    }

    method Remove(node: Word)
      requires Valid() && node in Nodes(tree)
      modifies this
      ensures Valid() && Removed(old(InOrder(tree)), InOrder(tree), node)
      ensures Nodes(tree) == old(Nodes(tree)) - {node}
      ensures SameOutside(old(nodes), nodes, old(Nodes(tree)))
    {
      hide Holds, HoldsAround, Nodes, Distinct, DistinctAround, Around, Stand, Balanced, Steady, Height, InOrder, Before, After;
      ghost var c, t := PlaceOf(node);
      RemovedBetween(Before(c), InOrder(t.left), node, InOrder(t.right), After(c));
      NodeParts(t);
      LeftAt(nodes, root, c, t);
      RightAt(nodes, root, c, t);
      var parent, leftDeleted;
      ghost var c', u := c, t;
      if nodes[node].left != 0 && nodes[node].right != 0 {
        parent, leftDeleted, c', u := SwapWithSuccessor(node, c, t);
      } else {
        ghost var s := if nodes[node].left != 0 then Left else Right;
        var child := if nodes[node].left != 0 then nodes[node].left else nodes[node].right;
        parent := nodes[node].Parent();
        OneChild(c, t, s);
        leftDeleted := Unlink(node, child, parent, c, t, s);
        u := Child(t, s);
        if parent == 0 {
          tree := Fill(c, u);
          SteadyTop(c, Height(u));
          StandsWhole(nodes, root, c, u);
          return;
        }
      }
      PropagateShrink(parent, leftDeleted, c', u);
    }

    /** The place of a node in the tree. */
    lemma PlaceOf(node: Word) returns (c: Context, t: Tree)
      requires Valid() && node in Nodes(tree)
      ensures Stands(c, t) && t.Node? && t.at == node && Fill(c, t) == tree && Balanced(t) && Steady(c, Height(t))
      ensures InOrder(tree) == Before(c) + InOrder(t) + After(c) && Nodes(tree) == Around(c) + Nodes(t)
      ensures Distinct(t) && Nodes(t) !! Around(c) && t.at in Nodes(t)
      ensures node in nodes && nodes[node].Parent() == ParentOf(c) && (ParentOf(c) == 0 <==> c == Top)
    {
      hide Holds, HoldsAround, Nodes, Distinct, DistinctAround, Around;
      c, t := Locate(nodes, root, Top, root, tree, node);
      FillBalanced(c, t);
      FillDistinct(c, t);
      FillInOrder(c, t);
      StandsAt(nodes, root, c, t);
    }

    // ---------- searching and inserting

    /** The node that compares equal, or null. */
    method Lookup(key: Word -> int) returns (cur: Word)
      requires Valid()
      ensures cur != 0 ==> cur in Nodes(tree) && key(cur) == 0
      ensures cur == 0 && Falling(key, InOrder(tree)) ==> forall y :: y in Nodes(tree) ==> key(y) != 0
    {
      hide Make, Holds, HoldsAround, Nodes, Distinct, DistinctAround, Around, InOrder, Before, After, Balanced, Stand, Splits, Falling;
      cur := root;
      ghost var c, t := Top, tree;
      StandsAll();
      while cur != 0
        invariant Stands(c, t) && cur == Root(t) && Fill(c, t) == tree && (cur != 0 <==> t.Node?)
        invariant Falling(key, InOrder(tree)) ==> Splits(key, c)
        decreases t
      {
        Here(c, t);
        var res := key(cur);
        if res == 0 {
          break;
        }
        ghost var s := if res < 0 then Left else Right;
        if Falling(key, InOrder(tree)) {
          SearchStep(key, c, t, s);
        }
        StandsDown(nodes, root, c, t, s);
        MakeAll(s, t);
        cur := if res < 0 then nodes[cur].left else nodes[cur].right;
        c, t := Under(s, t.at, t.bal, Child(t, s.Other()), c), Child(t, s);
      }
      if cur == 0 && Falling(key, InOrder(tree)) {
        NothingFound(key, c, t);
      }
    }

    /** Inserts the item and returns null, or returns a node that compares equal. */
    method Insert(item: Word, cmp: Comparison) returns (found: Word)
      requires Valid() && item in nodes && item != 0 && item % 4 == 0 && item !in Nodes(tree)
      modifies this
      ensures Valid()
      ensures found != 0 ==> found in Nodes(tree) && cmp(item, found) == 0 && nodes == old(nodes) && tree == old(tree)
      ensures found == 0 ==> Nodes(tree) == old(Nodes(tree)) + {item} && exists k :: InsertedAt(old(InOrder(tree)), InOrder(tree), item, k)
      ensures found == 0 && Falling(Against(cmp, item), old(InOrder(tree))) ==>
                exists k :: InsertedAt(old(InOrder(tree)), InOrder(tree), item, k) && Placed(Against(cmp, item), old(InOrder(tree)), k)
      ensures SameOutside(old(nodes), nodes, old(Nodes(tree)) + {item})
    {
      hide Make, Holds, HoldsAround, Nodes, Distinct, DistinctAround, Around, InOrder, Before, After, Balanced, Stand, Splits, Falling, InsertedAt, Placed;
      ghost var key := Against(cmp, item);
      var cur, side := 0, Left;
      var next := root;
      ghost var c, t := Top, tree;
      StandsAll();
      while next != 0
        invariant Stands(c, t) && next == Root(t) && Fill(c, t) == tree && (next != 0 <==> t.Node?)
        invariant cur == ParentOf(c) && (c != Top ==> side == c.side)
        invariant root == old(root) && nodes == old(nodes) && tree == old(tree)
        invariant Falling(key, InOrder(tree)) ==> Splits(key, c)
        decreases t
      {
        Here(c, t);
        cur := next;
        var res := cmp(item, cur);
        if res == 0 {
          return cur;
        }
        side := if res < 0 then Left else Right;
        if Falling(key, InOrder(tree)) {
          SearchStep(key, c, t, side);
        }
        StandsDown(nodes, root, c, t, side);
        MakeAll(side, t);
        next := nodes[cur].To(side);
        c, t := Under(side, t.at, t.bal, Child(t, side.Other()), c), Child(t, side);
      }
      Gap(c, t);
      ghost var m := nodes;
      if cur == 0 {
        root := item;
      } else {
        SetChild(cur, side, item);
      }
      nodes := nodes[item := nodes[item].(parentBalance := cur + 1)];
      Hang(m, nodes, old(root), root, c, item);
      RebalanceAfterInsert(item, c);
      PlacedAt(key, c, item);
      found := 0;
    }

    lemma StandsAll()
      requires Valid()
      ensures Stands(Top, tree) && (tree.Node? <==> root != 0) && root == Root(tree)
      ensures forall key :: Splits(key, Top)
    {
    }

    /** The node at which a search has arrived. */
    lemma Here(c: Context, t: Tree)
      requires Stands(c, t) && t.Node? && Fill(c, t) == tree
      ensures t.at in Nodes(tree) && t.at in nodes && InOrder(tree) == Before(c) + InOrder(t) + After(c)
      ensures nodes[t.at].left == Root(t.left) && nodes[t.at].right == Root(t.right)
      ensures (t.left.Node? <==> nodes[t.at].left != 0) && (t.right.Node? <==> nodes[t.at].right != 0)
    {
      hide Make, Holds, HoldsAround, Nodes, Distinct, DistinctAround, Around, InOrder, Before, After, Balanced, Stand;
      StandsAt(nodes, root, c, t);
      LeftAt(nodes, root, c, t);
      RightAt(nodes, root, c, t);
      FillInOrder(c, t);
      FillDistinct(c, t);
    }

    lemma NothingFound(key: Word -> int, c: Context, t: Tree)
      requires Fill(c, t) == tree && t == Leaf && Splits(key, c)
      ensures forall y :: y in Nodes(tree) ==> key(y) != 0
    {
      FillInOrder(c, t);
      SearchedAll(key, c);
      forall y | y in Nodes(tree)
        ensures key(y) != 0
      {
        InOrderNodes(tree, y);
        assert y in Before(c) + After(c);
      }
    }

    /** The gap at which a search without a result ends. */
    lemma Gap(c: Context, t: Tree)
      requires Stands(c, t) && t == Leaf && Fill(c, t) == tree && Balanced(tree)
      ensures HoldsAround(nodes, root, c, 0) && DistinctAround(c) && Steady(c, 0)
      ensures InOrder(tree) == Before(c) + After(c) && Nodes(tree) == Around(c)
      ensures ParentOf(c) % 4 == 0 && (ParentOf(c) == 0 <==> c == Top) && (c != Top ==> c.at in nodes && c.at in Around(c))
    {
      hide Holds, HoldsAround, Nodes, Distinct, DistinctAround, Around, InOrder, Before, After, Balanced, Steady, Fill;
      GapParts(c);
      StandsAt(nodes, root, c, t);
    }

    // ---------- going through the tree

    /** Down on side s as far as it goes. */
    method Descend(start: Word, s: Side, ghost c: Context, ghost t: Tree) returns (last: Word)
      requires Stands(c, t) && t.Node? && start == t.at
      ensures last == Extreme(InOrder(t), s)
    {
      hide Make, Holds, HoldsAround, Nodes, Distinct, DistinctAround, Around, InOrder, Stand, Extreme;
      last := start;
      ghost var d, u := c, t;
      LeftAt(nodes, root, d, u);
      RightAt(nodes, root, d, u);
      while nodes[last].To(s) != 0
        invariant Stands(d, u) && u.Node? && last == u.at && Extreme(InOrder(u), s) == Extreme(InOrder(t), s)
        invariant last in nodes && nodes[last].To(s) == Root(Child(u, s)) && (Child(u, s).Node? <==> nodes[last].To(s) != 0)
        decreases u
      {
        ExtremeStep(u, s);
        StandsDown(nodes, root, d, u, s);
        last := nodes[last].To(s);
        d, u := Under(s, u.at, u.bal, Child(u, s.Other()), d), Child(u, s);
        LeftAt(nodes, root, d, u);
        RightAt(nodes, root, d, u);
      }
      ExtremeStep(u, s);
    }

    method FirstOrLastInOrder(s: Side) returns (first: Word)
      requires Valid()
      ensures first == Extreme(InOrder(tree), s)
    {
      hide Make, Holds, HoldsAround, Nodes, Distinct, DistinctAround, Around, Stand;
      StandsAll();
      first := root;
      if first != 0 {
        first := Descend(first, s, Top, tree);
      }
    }

    /** The next node in order, or the previous one. */
    method NextOrPrevInOrder(node: Word, s: Side, ghost k: nat) returns (next: Word)
      requires Valid() && k < |InOrder(tree)| && node == InOrder(tree)[k]
      ensures next == Neighbour(InOrder(tree), k, s)
    {
      hide Make, Holds, HoldsAround, Nodes, Distinct, DistinctAround, Around, InOrder, Stand, Extreme, Neighbour, Fill, Balanced;
      InOrderNodes(tree, node);
      ghost var c, t := PlaceOf(node);
      NeighbourIs(c, t, k, s);
      LeftAt(nodes, root, c, t);
      RightAt(nodes, root, c, t);
      if nodes[node].To(s) != 0 {
        StandsDown(nodes, root, c, t, s);
        next := Descend(nodes[node].To(s), s.Other(), Under(s, t.at, t.bal, Child(t, s.Other()), c), Child(t, s));
      } else {
        next := Climb(node, s, c, t);
      }
    }

    /** Up while coming from side s. */
    method Climb(start: Word, s: Side, ghost c: Context, ghost t: Tree) returns (next: Word)
      requires Stands(c, t) && t.Node? && start == t.at
      ensures next == Nearest(c, s)
    {
      hide Make, Holds, HoldsAround, Nodes, Distinct, DistinctAround, Around, Stand;
      var node := start;
      ghost var d, u := c, t;
      StandsAt(nodes, root, d, u);
      next := nodes[node].Parent();
      if d != Top {
        SideOfHole(nodes, root, d, u);
      }
      while next != 0 && node == nodes[next].To(s)
        invariant Stands(d, u) && u.Node? && node == u.at && Nearest(d, s) == Nearest(c, s)
        invariant next == ParentOf(d) && (d == Top <==> next == 0)
        invariant d != Top ==> next in nodes && (node == nodes[next].To(s) <==> d.side == s)
        decreases d
      {
        StandsUp(nodes, root, d, u);
        node := next;
        d, u := d.up, Make(d.side, u, d.at, d.bal, d.other);
        StandsAt(nodes, root, d, u);
        next := nodes[next].Parent();
        if d != Top {
          SideOfHole(nodes, root, d, u);
        }
      }
    }

    /** Going from the first node to the next ones meets every node once, in order. */
    method ForEachInOrder() returns (visited: seq<Word>)
      requires Valid()
      ensures visited == InOrder(tree)
    {
      hide Holds, Nodes, Distinct, InOrder, Balanced;
      visited := [];
      var cur := FirstOrLastInOrder(Left);
      NonNull();
      while cur != 0
        invariant |visited| <= |InOrder(tree)| && visited == InOrder(tree)[..|visited|]
        invariant cur == if |visited| == |InOrder(tree)| then 0 else InOrder(tree)[|visited|]
        decreases |InOrder(tree)| - |visited|
      {
        var next := NextOrPrevInOrder(cur, Right, |visited|);
        visited := visited + [cur];
        cur := next;
      }
    }

    lemma NonNull()
      requires Valid()
      ensures forall k :: 0 <= k < |InOrder(tree)| ==> InOrder(tree)[k] != 0
    {
      HoldsNodes(nodes, root, 0, tree);
      forall k | 0 <= k < |InOrder(tree)|
        ensures InOrder(tree)[k] != 0
      {
        InOrderNodes(tree, InOrder(tree)[k]);
      }
    }
  }
}
