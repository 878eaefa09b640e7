/** Trees of nodes in memory: child pointers, and the parent pointer packed with the balance factor into one word. */
module AvlMemory {
  import opened Machine
  import opened AvlTrees

  /** The low two bits of the last word are the balance factor plus one, the others the parent. */
  datatype Cell = Cell(left: Word, right: Word, parentBalance: Word) {
    function To(s: Side): Word {
      if s.Left? then left else right
    }

    function WithChild(s: Side, child: Word): (r: Cell)
      ensures r.To(s) == child && r.To(s.Other()) == To(s.Other()) && r.parentBalance == parentBalance
    {
      if s.Left? then this.(left := child) else this.(right := child)
    }

    function Parent(): Word {
      parentBalance / 4 * 4
    }

    function Balance(): int {
      parentBalance % 4 - 1
    }

    function WithParent(parent: Word): (r: Cell)
      requires parent % 4 == 0
      ensures r.Parent() == parent && r.Balance() == Balance() && forall s :: r.To(s) == To(s)
    {
      this.(parentBalance := parent + parentBalance % 4)
    }
  }

  type Cells = map<Word, Cell>

  function Packed(parent: Word, bal: int): (w: Word)
    requires parent % 4 == 0 && -1 <= bal <= 1
    ensures w / 4 * 4 == parent && w % 4 - 1 == bal
  {
    parent + bal + 1
  }

  predicate CellAt(m: Cells, a: Word, parent: Word, bal: int) {
    && a != 0 && a % 4 == 0 && a in m
    && parent % 4 == 0 && -1 <= bal <= 1 && m[a].parentBalance == Packed(parent, bal)
  }

  /** The packed word: the two lowest bits are 0, 1 or 2 for a balance factor of -1, 0 or 1. */
  lemma CellBits(m: Cells, a: Word, parent: Word, bal: int)
    requires CellAt(m, a, parent, bal)
    ensures m[a].parentBalance - parent == if bal == -1 then 0 else if bal == 0 then 1 else 2
  {
  }

  /** The address of the root, or null. */
  function Root(t: Tree): Word {
    if t == Leaf then 0 else t.at
  }

  /** The tree t is in memory at a, below the given parent. */
  predicate Holds(m: Cells, a: Word, parent: Word, t: Tree)
    decreases t
  {
    && a == Root(t)
    && (t == Leaf || (CellAt(m, a, parent, t.bal) && Holds(m, m[a].left, a, t.left) && Holds(m, m[a].right, a, t.right)))
  }

  /** The context c is in memory around a hole that points to `hole`. */
  predicate HoldsAround(m: Cells, root: Word, c: Context, hole: Word)
    decreases c
  {
    if c == Top then root == hole
    else
      && CellAt(m, c.at, ParentOf(c.up), c.bal) && m[c.at].To(c.side) == hole
      && Holds(m, m[c.at].To(c.side.Other()), c.at, c.other) && HoldsAround(m, root, c.up, c.at)
  }

  lemma HoldsParts(m: Cells, a: Word, parent: Word, t: Tree, s: Side)
    requires t.Node?
    ensures Holds(m, a, parent, t)
       <==> && a == t.at && CellAt(m, a, parent, t.bal)
            && Holds(m, m[a].To(s), a, Child(t, s)) && Holds(m, m[a].To(s.Other()), a, Child(t, s.Other()))
    ensures Holds(m, a, parent, t) ==> m[a].To(s) == Root(Child(t, s)) && m[a].To(s.Other()) == Root(Child(t, s.Other()))
  {
  }

  lemma MakeHolds(m: Cells, a: Word, parent: Word, s: Side, near: Tree, bal: int, far: Tree)
    ensures Holds(m, a, parent, Make(s, near, a, bal, far))
       <==> CellAt(m, a, parent, bal) && Holds(m, m[a].To(s), a, near) && Holds(m, m[a].To(s.Other()), a, far)
  {
  }

  /** A tree in the hole makes one tree. */
  lemma {:induction false} HoldsFill(m: Cells, root: Word, c: Context, hole: Word, t: Tree)
    requires HoldsAround(m, root, c, hole) && Holds(m, hole, ParentOf(c), t)
    ensures Holds(m, root, 0, Fill(c, t))
    decreases c
  {
    hide Make, Holds, CellAt;
    if c != Top {
      MakeHolds(m, c.at, ParentOf(c.up), c.side, t, c.bal, c.other);
      HoldsFill(m, root, c.up, c.at, Make(c.side, t, c.at, c.bal, c.other));
    }
  }

  /** Every node of a tree in memory stands in a context in memory. */
  lemma {:induction false} Locate(m: Cells, root: Word, c: Context, hole: Word, t: Tree, x: Word) returns (c': Context, t': Tree)
    requires HoldsAround(m, root, c, hole) && Holds(m, hole, ParentOf(c), t) && x in Nodes(t)
    ensures HoldsAround(m, root, c', x) && Holds(m, x, ParentOf(c'), t') && t'.Node? && t'.at == x && Fill(c', t') == Fill(c, t)
    decreases t
  {
    if t.at == x {
      return c, t;
    }
    var s := if x in Nodes(t.left) then Left else Right;
    HoldsParts(m, hole, ParentOf(c), t, s);
    MakeAll(s, t);
    c', t' := Locate(m, root, Under(s, t.at, t.bal, Child(t, s.Other()), c), m[hole].To(s), Child(t, s), x);
  }

  /** Memory determines the tree. */
  lemma {:induction false} TreeUnique(m: Cells, a: Word, parent: Word, t: Tree, parent': Word, t': Tree)
    requires Holds(m, a, parent, t) && Holds(m, a, parent', t')
    ensures t == t'
    decreases t
  {
    if t.Node? {
      assert Packed(parent, t.bal) == Packed(parent', t'.bal);
      TreeUnique(m, m[a].left, a, t.left, a, t'.left);
      TreeUnique(m, m[a].right, a, t.right, a, t'.right);
    }
  }

  // ---------- what stays when memory changes

  ghost predicate SameOn(m: Cells, m': Cells, xs: set<Word>) {
    forall x :: x in xs && x in m ==> x in m' && m'[x] == m[x]
  }

  /** Only the given nodes may have changed. */
  ghost predicate SameOutside(m: Cells, m': Cells, xs: set<Word>) {
    m'.Keys == m.Keys && forall x :: x in m && x !in xs ==> m'[x] == m[x]
  }

  lemma {:induction false} HoldsNodes(m: Cells, a: Word, parent: Word, t: Tree)
    requires Holds(m, a, parent, t)
    ensures Nodes(t) <= m.Keys && 0 !in Nodes(t) && (t.Node? <==> a != 0) && (t.Node? ==> a in Nodes(t))
    decreases t
  {
    if t.Node? {
      HoldsNodes(m, m[a].left, a, t.left);
      HoldsNodes(m, m[a].right, a, t.right);
    }
  }

  lemma {:induction false} HoldsKept(m: Cells, m': Cells, a: Word, parent: Word, t: Tree)
    requires Holds(m, a, parent, t) && SameOn(m, m', Nodes(t))
    ensures Holds(m', a, parent, t)
    decreases t
  {
    if t.Node? {
      HoldsKept(m, m', m[a].left, a, t.left);
      HoldsKept(m, m', m[a].right, a, t.right);
    }
  }

  /** The tree gets another parent. */
  lemma HoldsMoved(m: Cells, m': Cells, a: Word, parent: Word, parent': Word, t: Tree)
    requires Holds(m, a, parent, t) && Distinct(t) && parent' % 4 == 0 && SameOn(m, m', Nodes(t) - {a})
    requires a != 0 ==> a in m && a in m' && m'[a] == m[a].WithParent(parent')
    ensures Holds(m', a, parent', t)
  {
    if t.Node? {
      HoldsKept(m, m', m[a].left, a, t.left);
      HoldsKept(m, m', m[a].right, a, t.right);
    }
  }

  lemma {:induction false} AroundNodes(m: Cells, root: Word, c: Context, hole: Word)
    requires HoldsAround(m, root, c, hole)
    ensures Around(c) <= m.Keys && 0 !in Around(c) && ParentOf(c) % 4 == 0
    decreases c
  {
    if c != Top {
      HoldsNodes(m, m[c.at].To(c.side.Other()), c.at, c.other);
      AroundNodes(m, root, c.up, c.at);
    }
  }

  lemma {:induction false} AroundKept(m: Cells, m': Cells, root: Word, c: Context, hole: Word)
    requires HoldsAround(m, root, c, hole) && SameOn(m, m', Around(c))
    ensures HoldsAround(m', root, c, hole)
    decreases c
  {
    if c != Top {
      HoldsKept(m, m', m[c.at].To(c.side.Other()), c.at, c.other);
      AroundKept(m, m', root, c.up, c.at);
    }
  }

  /** The hole points elsewhere. */
  lemma AroundMoved(m: Cells, m': Cells, root: Word, c: Context, hole: Word, hole': Word)
    requires HoldsAround(m, root, c, hole) && DistinctAround(c) && c != Top
    requires c.at in m' && m'[c.at] == m[c.at].WithChild(c.side, hole') && SameOn(m, m', Around(c) - {c.at})
    ensures HoldsAround(m', root, c, hole')
  {
    HoldsKept(m, m', m[c.at].To(c.side.Other()), c.at, c.other);
    AroundKept(m, m', root, c.up, c.at);
  }

  /** In the middle of an operation: t is in the hole of c. */
  ghost predicate Stand(m: Cells, root: Word, c: Context, t: Tree) {
    && HoldsAround(m, root, c, Root(t)) && Holds(m, Root(t), ParentOf(c), t)
    && DistinctAround(c) && Distinct(t) && Nodes(t) !! Around(c)
  }

  lemma StandsDistinct(m: Cells, root: Word, c: Context, t: Tree)
    requires Stand(m, root, c, t)
    ensures Distinct(t) && DistinctAround(c) && Nodes(t) !! Around(c)
  {
  }

  /** The nodes that the next steps read and write. */
  lemma StandsAt(m: Cells, root: Word, c: Context, t: Tree)
    requires Stand(m, root, c, t)
    ensures Nodes(t) <= m.Keys && Around(c) <= m.Keys && 0 !in Nodes(t) && 0 !in Around(c)
    ensures ParentOf(c) % 4 == 0 && ParentOf(c) !in Nodes(t) && (c != Top ==> ParentOf(c) in Around(c))
    ensures t.Node? ==> t.at in Nodes(t) && CellAt(m, t.at, ParentOf(c), t.bal)
    ensures c != Top ==> CellAt(m, c.at, ParentOf(c.up), c.bal)
  {
    HoldsNodes(m, Root(t), ParentOf(c), t);
    AroundNodes(m, root, c, Root(t));
  }

  /** The child on side s. */
  lemma ChildAt(m: Cells, a: Word, parent: Word, t: Tree, s: Side)
    requires t.Node? && Holds(m, a, parent, t) && Distinct(t)
    ensures a == t.at && CellAt(m, a, parent, t.bal) && m[a].To(s) == Root(Child(t, s)) && Holds(m, m[a].To(s), a, Child(t, s))
    ensures Distinct(Child(t, s)) && Nodes(Child(t, s)) <= Nodes(t) && a !in Nodes(Child(t, s))
    ensures Child(t, s).Node? <==> m[a].To(s) != 0
    ensures Child(t, s).Node? ==> m[a].To(s) in Nodes(Child(t, s)) && m[a].To(s) in m
  {
  }

  /** From the hole of a context up to its node. */
  lemma StandsUp(m: Cells, root: Word, c: Context, t: Tree)
    requires c != Top && Stand(m, root, c, t)
    ensures Stand(m, root, c.up, Make(c.side, t, c.at, c.bal, c.other))
    ensures Around(c.up) + Nodes(Make(c.side, t, c.at, c.bal, c.other)) == Around(c) + Nodes(t)
  {
    hide Make, Holds, Nodes, Distinct;
    MakeHolds(m, c.at, ParentOf(c.up), c.side, t, c.bal, c.other);
    MakeNodes(c.side, t, c.at, c.bal, c.other);
  }

  /** And down to the child on side s. */
  lemma StandsDown(m: Cells, root: Word, c: Context, t: Tree, s: Side)
    requires t.Node? && Stand(m, root, c, t)
    ensures Stand(m, root, Under(s, t.at, t.bal, Child(t, s.Other()), c), Child(t, s))
    ensures Around(Under(s, t.at, t.bal, Child(t, s.Other()), c)) + Nodes(Child(t, s)) == Around(c) + Nodes(t)
  {
    hide Make, Holds, Nodes, Distinct;
    MakeAll(s, t);
    HoldsParts(m, t.at, ParentOf(c), t, s);
    MakeNodes(s, Child(t, s), t.at, t.bal, Child(t, s.Other()));
  }

  /** The root's balance factor alone changes. */
  lemma StandsAdjusted(m: Cells, m': Cells, root: Word, c: Context, t: Tree, bal: int)
    requires t.Node? && Stand(m, root, c, t) && -1 <= bal <= 1 && t.at in m && ParentOf(c) % 4 == 0
    requires m' == m[t.at := m[t.at].(parentBalance := Packed(ParentOf(c), bal))]
    ensures Stand(m', root, c, t.(bal := bal))
  {
    hide Around;
    AroundKept(m, m', root, c, t.at);
    HoldsKept(m, m', m[t.at].left, t.at, t.left);
    HoldsKept(m, m', m[t.at].right, t.at, t.right);
  }

  /** The parent's pointer tells the side. */
  lemma SideOfHole(m: Cells, root: Word, c: Context, t: Tree)
    requires c != Top && t.Node? && Stand(m, root, c, t)
    ensures c.at in m && (t.at == m[c.at].left <==> c.side == Left) && (t.at == m[c.at].right <==> c.side == Right)
  {
    HoldsNodes(m, m[c.at].To(c.side.Other()), c.at, c.other);
  }

  /** The whole tree at the end of an operation. */
  lemma StandsWhole(m: Cells, root: Word, c: Context, t: Tree)
    requires Stand(m, root, c, t) && Balanced(t) && Steady(c, Height(t))
    ensures Holds(m, root, 0, Fill(c, t)) && Distinct(Fill(c, t)) && Balanced(Fill(c, t))
    ensures InOrder(Fill(c, t)) == Before(c) + InOrder(t) + After(c)
    ensures Nodes(Fill(c, t)) == Around(c) + Nodes(t)
  {
    HoldsFill(m, root, c, Root(t), t);
    FillBalanced(c, t);
    FillDistinct(c, t);
    FillInOrder(c, t);
  }

  /** A new node without children in the hole. */
  lemma StandsNew(m: Cells, root: Word, c: Context, x: Word)
    requires HoldsAround(m, root, c, x) && DistinctAround(c) && x !in Around(c) && CellAt(m, x, ParentOf(c), 0)
    requires m[x].left == 0 && m[x].right == 0
    ensures Stand(m, root, c, Node(Leaf, x, 0, Leaf))
    ensures InOrder(Node(Leaf, x, 0, Leaf)) == [x] && Nodes(Node(Leaf, x, 0, Leaf)) == {x}
    ensures Balanced(Node(Leaf, x, 0, Leaf)) && Height(Node(Leaf, x, 0, Leaf)) == 1
  {
    assert Holds(m, 0, x, Leaf);
  }

  /** The inner grandchild and its children. */
  lemma GrandchildAt(m: Cells, a: Word, parent: Word, t: Tree, s: Side)
    requires Holds(m, a, parent, t) && Distinct(t) && t.Node? && Child(t, s.Other()).Node? && Child(Child(t, s.Other()), s).Node?
    ensures var o := s.Other();
            var b := Child(t, o);
            var e := Child(b, s);
            var f, g := Root(Child(e, o)), Root(Child(e, s));
            && a == t.at && m.Keys >= {a, b.at, e.at} && {a, b.at, e.at} <= Nodes(t) && a != b.at && a != e.at && b.at != e.at
            && a % 4 == 0 && b.at % 4 == 0 && e.at % 4 == 0
            && m[a].To(o) == b.at && m[b.at].To(s) == e.at && m[e.at].To(o) == f && m[e.at].To(s) == g
            && m[e.at].Balance() == e.bal && -1 <= e.bal <= 1
            && (Child(e, o).Node? <==> f != 0) && (f != 0 ==> f in m && f in Nodes(t) && f != a && f != b.at && f != e.at && f != g)
            && (Child(e, s).Node? <==> g != 0) && (g != 0 ==> g in m && g in Nodes(t) && g != a && g != b.at && g != e.at)
  {
    hide Holds, Make, Nodes, Distinct;
    var o := s.Other();
    var b := Child(t, o);
    var e := Child(b, s);
    RootNode(t);
    ChildAt(m, a, parent, t, o);
    ChildAt(m, b.at, a, b, s);
    ChildAt(m, e.at, b.at, e, o);
    ChildAt(m, e.at, b.at, e, s);
    Siblings(e, s);
  }

  lemma Siblings(t: Tree, s: Side)
    requires t.Node? && Distinct(t)
    ensures Nodes(Child(t, s)) !! Nodes(Child(t, s.Other()))
  {
  }

  // ---------- a node takes the place of another

  /** The root of what a context makes around a hole. */
  function Outermost(c: Context, hole: Word): Word {
    if c == Top then hole else Outermost(c.up, c.at)
  }

  /** The inner context is in memory, below the parent given. */
  predicate Between(m: Cells, inner: Context, above: Word, hole: Word)
    decreases inner
  {
    inner == Top
    || (&& CellAt(m, inner.at, if inner.up == Top then above else inner.up.at, inner.bal) && m[inner.at].To(inner.side) == hole
        && Holds(m, m[inner.at].To(inner.side.Other()), inner.at, inner.other) && Between(m, inner.up, above, inner.at))
  }

  lemma {:induction false} OntoHolds(m: Cells, root: Word, inner: Context, c: Context, hole: Word)
    requires c != Top
    ensures HoldsAround(m, root, Onto(inner, c), hole)
       <==> HoldsAround(m, root, c, Outermost(inner, hole)) && Between(m, inner, c.at, hole)
    decreases inner
  {
    if inner != Top {
      OntoHolds(m, root, inner.up, c, inner.at);
    }
  }

  /** The outermost node of the inner context gets another parent. */
  lemma {:induction false} BetweenMoved(m: Cells, m': Cells, inner: Context, above: Word, above': Word, hole: Word)
    requires inner != Top && DistinctAround(inner) && Between(m, inner, above, hole) && above' % 4 == 0
    requires var r := Outermost(inner, hole);
             r in m && r in m' && m'[r] == m[r].WithParent(above') && SameOn(m, m', Around(inner) - {r})
    ensures Between(m', inner, above', hole)
    decreases inner
  {
    HoldsKept(m, m', m[inner.at].To(inner.side.Other()), inner.at, inner.other) by {
      OutermostIn(inner, hole);
    }
    if inner.up != Top {
      OutermostIn(inner.up, inner.at);
      BetweenMoved(m, m', inner.up, above, above', inner.at);
    }
  }

  /** The outermost node is none of the side trees. */
  lemma {:induction false} OutermostIn(c: Context, hole: Word)
    requires c != Top && DistinctAround(c)
    ensures Outermost(c, hole) in Around(c) && Outermost(c, hole) !in Nodes(c.other)
    ensures c.up != Top ==> Outermost(c, hole) in Around(c.up)
    decreases c
  {
    if c.up != Top {
      OutermostIn(c.up, c.at);
    }
  }

  /** Where a node was, its child now is: what the pointers must be. */
  ghost predicate PassedDown(m: Cells, m': Cells, root: Word, root': Word, c: Context, u: Tree) {
    && (if c == Top then root' == Root(u) else root' == root && c.at in m)
    && var m1 := if c == Top then m else m[c.at := m[c.at].WithChild(c.side, Root(u))];
       if u == Leaf then m' == m1
       else u.at in m1 && ParentOf(c) % 4 == 0 && m' == m1[u.at := m1[u.at].WithParent(ParentOf(c))]
  }

  lemma StandsChild(m: Cells, m': Cells, root: Word, root': Word, c: Context, t: Tree, s: Side)
    requires t.Node? && Stand(m, root, c, t) && PassedDown(m, m', root, root', c, Child(t, s))
    ensures Stand(m', root', c, Child(t, s)) && t.at !in Around(c) + Nodes(Child(t, s))
    ensures SameOutside(m, m', Around(c) + Nodes(Child(t, s)))
  {
    hide Holds, HoldsAround, Nodes, Around, Distinct, DistinctAround, CellAt;
    var u := Child(t, s);
    StandsAt(m, root, c, t);
    ChildAt(m, t.at, ParentOf(c), t, s);
    HoldsNodes(m, Root(u), t.at, u);
    HoldsMoved(m, m', Root(u), t.at, ParentOf(c), u);
    if c == Top {
      AroundTop(m', root');
    } else {
      AroundMoved(m, m', root, c, t.at, Root(u));
    }
  }

  lemma AroundTop(m: Cells, root: Word)
    ensures HoldsAround(m, root, Top, root)
  {
  }

  /** The pointers of a detached node y that has taken the place of x, but for the one down to it. */
  ghost predicate Inherited(m: Cells, m': Cells, x: Word, y: Word, l: Tree, r: Word)
    requires {x, r, Root(l)} <= m.Keys && y % 4 == 0
  {
    && {y, r, Root(l)} <= m'.Keys && m'[y] == Cell(Root(l), r, m[x].parentBalance)
    && m'[r] == m[r].WithParent(y) && m'[Root(l)] == m[Root(l)].WithParent(y)
    && SameOutside(m, m', {y, r, Root(l)})
  }

  lemma TookPlace(m: Cells, m1: Cells, m': Cells, root: Word, root': Word, inner: Context, c: Context, x: Word, y: Word, bal: int, l: Tree, u: Tree)
    requires inner != Top && l.Node? && Stand(m, root, Onto(inner, Under(Right, x, bal, l, c)), u)
    requires y != 0 && y % 4 == 0 && y !in Around(Onto(inner, Under(Right, x, bal, l, c))) + Nodes(u)
    requires var r := Outermost(inner, Root(u));
             {x, r, Root(l)} <= m.Keys && Inherited(m, m1, x, y, l, r)
    requires HoldsAround(m', root', c, y) && SameOutside(m1, m', Around(c))
    ensures Stand(m', root', Onto(inner, Under(Right, y, bal, l, c)), u)
  {
    hide Holds, Nodes, Distinct, Onto, Around, DistinctAround, HoldsAround, Between, Outermost;
    var was, now := Under(Right, x, bal, l, c), Under(Right, y, bal, l, c);
    var r := Outermost(inner, Root(u));
    OntoParts(inner, was);
    OntoParts(inner, now);
    OntoHolds(m, root, inner, was, Root(u));
    OntoHolds(m', root', inner, now, Root(u));
    OutermostIn(inner, Root(u));
    RootNode(l);
    ApartFrom(c, x, bal, l);
    ApartFrom(c, y, bal, l);
    Regions(m, m1, m', Around(inner), Nodes(l), Around(c), Nodes(u), y, r, Root(l));
    PlaceHolds(m, m', root, root', c, x, y, bal, l, r);
    BetweenMoved(m, m', inner, x, y, Root(u));
    OntoInner(inner, was);
    OntoInner(inner, now);
    HoldsKept(m, m', Root(u), inner.at, u);
  }

  /** Around the subtree on the right of y. */
  lemma PlaceHolds(m: Cells, m': Cells, root: Word, root': Word, c: Context, x: Word, y: Word, bal: int, l: Tree, r: Word)
    requires HoldsAround(m, root, Under(Right, x, bal, l, c), r) && l.Node? && Distinct(l) && SameOn(m, m', Nodes(l) - {Root(l)})
    requires y != 0 && y % 4 == 0 && x in m && y in m' && m'[y] == Cell(Root(l), r, m[x].parentBalance)
    requires Root(l) in m && Root(l) in m' && m'[Root(l)] == m[Root(l)].WithParent(y) && HoldsAround(m', root', c, y)
    ensures HoldsAround(m', root', Under(Right, y, bal, l, c), r)
  {
    hide Holds, Nodes, Distinct;
    RootOfHeld(m, m[x].left, x, l);
    HoldsMoved(m, m', Root(l), x, y, l);
  }

  lemma RootOfHeld(m: Cells, a: Word, parent: Word, t: Tree)
    requires Holds(m, a, parent, t)
    ensures a == Root(t)
  {
  }

  /** Only y, r and l are written, and then the part c. */
  lemma Regions(m: Cells, m1: Cells, m': Cells, inner: set<Word>, left: set<Word>, c: set<Word>, u: set<Word>, y: Word, r: Word, l: Word)
    requires r in inner && l in left && y !in inner + left + c + u
    requires inner !! left && inner !! c && inner !! u && left !! c && left !! u && c !! u
    requires SameOutside(m, m1, {y, r, l}) && SameOutside(m1, m', c) && {y, r, l} <= m1.Keys
    ensures {y, r, l} <= m'.Keys && m'[y] == m1[y] && m'[r] == m1[r] && m'[l] == m1[l]
    ensures SameOn(m, m', left - {l}) && SameOn(m, m', inner - {r}) && SameOn(m, m', u)
  {
  }

  /** The same for the right child of x, which has nothing on its left. */
  lemma ChildTookPlace(m: Cells, m1: Cells, m': Cells, root: Word, root': Word, c: Context, t: Tree)
    requires t.Node? && t.left.Node? && t.right.Node? && t.right.left == Leaf && Stand(m, root, c, t)
    requires var y, l := t.right.at, t.left.at;
             && {t.at, y, l} <= m.Keys && {y, l} <= m1.Keys && y % 4 == 0
             && m1[y] == Cell(l, m[y].right, m[t.at].parentBalance) && m1[l] == m[l].WithParent(y) && SameOutside(m, m1, {y, l})
    requires HoldsAround(m', root', c, t.right.at) && SameOutside(m1, m', Around(c))
    ensures Stand(m', root', Under(Right, t.right.at, t.bal, t.left, c), t.right.right)
  {
    hide Holds, Nodes, Distinct, Around, DistinctAround, HoldsAround;
    var x, y, l, u := t.at, t.right.at, t.left, t.right.right;
    StandsAt(m, root, c, t);
    ChildAt(m, x, ParentOf(c), t, Left);
    ChildAt(m, x, ParentOf(c), t, Right);
    ChildAt(m, y, x, t.right, Right);
    Siblings(t, Left);
    FewerRegions(m, m1, m', Nodes(l), Around(c), Nodes(u), y, l.at);
    ApartFrom(c, y, t.bal, l);
    HoldsKept(m, m', Root(u), y, u);
    HoldsMoved(m, m', Root(l), x, y, l);
    UnderHolds(m', root', c, y, t.bal, l, Root(u));
  }

  lemma FewerRegions(m: Cells, m1: Cells, m': Cells, left: set<Word>, c: set<Word>, u: set<Word>, y: Word, l: Word)
    requires l in left && y !in left + c + u && left !! c && left !! u && c !! u
    requires SameOutside(m, m1, {y, l}) && SameOutside(m1, m', c) && {y, l} <= m1.Keys
    ensures {y, l} <= m'.Keys && m'[y] == m1[y] && m'[l] == m1[l]
    ensures SameOn(m, m', left - {l}) && SameOn(m, m', u)
  {
  }

  lemma UnderHolds(m: Cells, root: Word, c: Context, y: Word, bal: int, l: Tree, hole: Word)
    requires CellAt(m, y, ParentOf(c), bal) && m[y].right == hole && Holds(m, m[y].left, y, l) && HoldsAround(m, root, c, y)
    ensures HoldsAround(m, root, Under(Right, y, bal, l, c), hole)
  {
  }

  lemma ApartFrom(c: Context, x: Word, bal: int, l: Tree)
    ensures Around(Under(Right, x, bal, l, c)) == {x} + Nodes(l) + Around(c)
    ensures DistinctAround(Under(Right, x, bal, l, c))
       <==> x !in Nodes(l) && x !in Around(c) && Nodes(l) !! Around(c) && Distinct(l) && DistinctAround(c)
  {
  }

  /** The left child of a subtree in its place. */
  lemma LeftAt(m: Cells, root: Word, c: Context, t: Tree)
    requires t.Node? && Stand(m, root, c, t)
    ensures t.at in m && m[t.at].left == Root(t.left) && (t.left.Node? <==> m[t.at].left != 0)
  {
    ChildAt(m, t.at, ParentOf(c), t, Left);
  }

  lemma RightAt(m: Cells, root: Word, c: Context, t: Tree)
    requires t.Node? && Stand(m, root, c, t)
    ensures t.at in m && m[t.at].right == Root(t.right) && (t.right.Node? <==> m[t.at].right != 0)
  {
    ChildAt(m, t.at, ParentOf(c), t, Right);
  }

  /** The item is in the hole, with its parent, and even. */
  lemma Hang(m: Cells, m': Cells, root: Word, root': Word, c: Context, item: Word)
    requires HoldsAround(m, root, c, 0) && DistinctAround(c) && item !in Around(c) && item in m && item != 0 && item % 4 == 0
    requires ParentOf(c) % 4 == 0 && (c != Top ==> c.at in m && c.at in Around(c))
    requires if c == Top then root' == item else root' == root
    requires var m1 := if c == Top then m else m[c.at := m[c.at].WithChild(c.side, item)];
             item in m1 && m' == m1[item := m1[item].(parentBalance := ParentOf(c) + 1)]
    ensures HoldsAround(m', root', c, item) && CellAt(m', item, ParentOf(c), 0)
    ensures SameOutside(m, m', Around(c) + {item})
  {
    hide Holds, Nodes, Distinct;
    if c != Top {
      AroundMoved(m, m', root, c, 0, item);
    }
  }

  /** Both children of a subtree in its place, and what is left of the right one. */
  lemma ChildrenAt(m: Cells, root: Word, c: Context, t: Tree)
    requires t.Node? && t.right.Node? && Stand(m, root, c, t)
    ensures {t.at, t.right.at} <= m.Keys && m[t.at].right == t.right.at
    ensures t.right.left.Node? <==> m[t.right.at].left != 0
  {
    ChildAt(m, t.at, ParentOf(c), t, Right);
    ChildAt(m, t.right.at, t.at, t.right, Left);
  }

  /** The node x whose place is taken: its pointers and what they lead to are apart. */
  lemma Place(m: Cells, root: Word, inner: Context, c: Context, x: Word, bal: int, l: Tree, u: Tree)
    requires inner != Top && l.Node? && Stand(m, root, Onto(inner, Under(Right, x, bal, l, c)), u)
    ensures var base := Under(Right, x, bal, l, c);
            var r := Outermost(inner, Root(u));
            && {x, r, Root(l)} <= m.Keys && m[x].right == r && m[x].left == Root(l) && r != x && r != Root(l) && x != Root(l) && x != 0
            && {x, r, Root(l)} <= Around(Onto(inner, base)) && m[x].Parent() == ParentOf(c) && ParentOf(c) % 4 == 0
            && HoldsAround(m, root, c, x) && DistinctAround(c) && x !in Around(c) && r !in Around(c) && Root(l) !in Around(c)
            && Around(c) <= Around(Onto(inner, base)) && Around(c) <= m.Keys
  {
    hide Holds, Nodes, Distinct, Onto, Around, DistinctAround, Between, Outermost;
    var base := Under(Right, x, bal, l, c);
    var r := Outermost(inner, Root(u));
    OntoParts(inner, base);
    OntoHolds(m, root, inner, base, Root(u));
    OutermostIn(inner, Root(u));
    RootNode(l);
    ApartFrom(c, x, bal, l);
    RootOfHeld(m, m[x].left, x, l);
    AroundNodes(m, root, Onto(inner, base), Root(u));
  }

  // ---------- rotations in memory

  /** The pointers that a single rotation sets. */
  ghost predicate RotatedCells(m: Cells, m': Cells, parent: Word, s: Side, t: Tree)
    requires parent % 4 == 0 && t.Node? && Child(t, s.Other()).Node?
  {
    var b := Child(t, s.Other());
    var e := Child(b, s);
    && t.at in m && t.at in m' && b.at in m && b.at in m' && t.at % 4 == 0 && b.at % 4 == 0
    && m'[t.at] == m[t.at].WithChild(s.Other(), Root(e)).WithParent(b.at)
    && m'[b.at] == m[b.at].WithChild(s, t.at).WithParent(parent)
    && (e.Node? ==> e.at in m && e.at in m' && m'[e.at] == m[e.at].WithParent(t.at))
    && SameOn(m, m', Nodes(t) - {t.at, b.at, Root(e)})
  }

  lemma RotatedHolds(m: Cells, m': Cells, parent: Word, s: Side, t: Tree)
    requires parent % 4 == 0 && t.Node? && Child(t, s.Other()).Node? && Distinct(t)
    requires Holds(m, t.at, parent, t) && RotatedCells(m, m', parent, s, t)
    ensures Holds(m', Child(t, s.Other()).at, parent, Rotated(s, t))
  {
    hide Make, Holds, Nodes, Distinct;
    var o := s.Other();
    var b, c := Child(t, o), Child(t, s);
    var d, e := Child(b, o), Child(b, s);
    MakeAll(o, t);
    MakeAll(o, b);
    MakeNodes(o, b, t.at, t.bal, c);
    MakeNodes(o, d, b.at, b.bal, e);
    HoldsParts(m, t.at, parent, t, s);
    HoldsParts(m, b.at, t.at, b, s);
    HoldsNodes(m, m[b.at].To(s), b.at, e);
    HoldsNodes(m, m[b.at].To(o), b.at, d);
    HoldsNodes(m, m[t.at].To(s), t.at, c);
    HoldsKept(m, m', m[t.at].To(s), t.at, c);
    HoldsKept(m, m', m[b.at].To(o), b.at, d);
    HoldsMoved(m, m', m[b.at].To(s), b.at, t.at, e);
    MakeHolds(m', t.at, b.at, o, e, t.bal, c);
    MakeHolds(m', b.at, parent, o, d, b.bal, Make(o, e, t.at, t.bal, c));
  }

  /** The pointers and balance factors that a double rotation sets. */
  ghost predicate DoubleRotatedCells(m: Cells, m': Cells, parent: Word, s: Side, t: Tree)
    requires parent % 4 == 0 && t.Node? && Child(t, s.Other()).Node? && Child(Child(t, s.Other()), s).Node?
  {
    var o := s.Other();
    var b := Child(t, o);
    var e := Child(b, s);
    var f, g := Child(e, o), Child(e, s);
    && {t.at, b.at, e.at} <= m.Keys && {t.at, b.at, e.at} <= m'.Keys && e.at % 4 == 0 && -1 <= e.bal <= 1
    && m'[t.at] == m[t.at].WithChild(o, Root(g)).(parentBalance := Packed(e.at, Handed(o, e.bal)))
    && m'[b.at] == m[b.at].WithChild(s, Root(f)).(parentBalance := Packed(e.at, Handed(s, e.bal)))
    && m'[e.at] == m[e.at].WithChild(s, t.at).WithChild(o, b.at).(parentBalance := Packed(parent, 0))
    && (g.Node? ==> t.at % 4 == 0 && g.at in m && g.at in m' && m'[g.at] == m[g.at].WithParent(t.at))
    && (f.Node? ==> b.at % 4 == 0 && f.at in m && f.at in m' && m'[f.at] == m[f.at].WithParent(b.at))
    && SameOn(m, m', Nodes(t) - {t.at, b.at, e.at, Root(f), Root(g)})
  }

  /** The three nodes of a double rotation. */
  ghost predicate Interlinked(m: Cells, m': Cells, parent: Word, s: Side, a: Word, b: Word, e: Word)
    requires {a, b, e} <= m.Keys && parent % 4 == 0 && e % 4 == 0 && -1 <= m[e].Balance() <= 1
  {
    var o := s.Other();
    && {a, b, e} <= m'.Keys && SameOutside(m, m', {a, b, e})
    && m'[a] == m[a].WithChild(o, m[e].To(s)).(parentBalance := Packed(e, Handed(o, m[e].Balance())))
    && m'[b] == m[b].WithChild(s, m[e].To(o)).(parentBalance := Packed(e, Handed(s, m[e].Balance())))
    && m'[e] == m[e].WithChild(s, a).WithChild(o, b).(parentBalance := Packed(parent, 0))
  }

  lemma DoublePivoted(m: Cells, m1: Cells, m': Cells, parent: Word, s: Side, t: Tree)
    requires parent % 4 == 0 && t.Node? && Child(t, s.Other()).Node? && Child(Child(t, s.Other()), s).Node? && Distinct(t)
    requires Holds(m, t.at, parent, t)
    requires var o := s.Other();
             var b := Child(t, o);
             var e := Child(b, s);
             var f, g := Root(Child(e, o)), Root(Child(e, s));
             && {t.at, b.at, e.at} <= m.Keys && e.at % 4 == 0 && -1 <= m[e.at].Balance() <= 1
             && Interlinked(m, m1, parent, s, t.at, b.at, e.at)
             && (g != 0 ==> t.at % 4 == 0 && g in m1) && (f != 0 ==> b.at % 4 == 0 && f in m1)
             && var m2 := if g == 0 then m1 else m1[g := m1[g].WithParent(t.at)];
                m' == if f == 0 then m2 else m2[f := m2[f].WithParent(b.at)]
    ensures DoubleRotatedCells(m, m', parent, s, t)
    ensures SameOutside(m, m', Nodes(t))
  {
    hide Make, Holds, Nodes, Distinct, Handed, Packed, Cell.WithChild, Cell.WithParent;
    GrandchildAt(m, t.at, parent, t, s);
  }

  lemma DoubleRotatedHolds(m: Cells, m': Cells, parent: Word, s: Side, t: Tree)
    requires parent % 4 == 0 && t.Node? && Child(t, s.Other()).Node? && Child(Child(t, s.Other()), s).Node? && Distinct(t)
    requires Holds(m, t.at, parent, t) && DoubleRotatedCells(m, m', parent, s, t)
    ensures Holds(m', Child(Child(t, s.Other()), s).at, parent, DoubleRotated(s, t))
  {
    hide Make, Holds, Nodes, Distinct, Handed;
    var o := s.Other();
    var b, c := Child(t, o), Child(t, s);
    var d, e := Child(b, o), Child(b, s);
    var f, g := Child(e, o), Child(e, s);
    var x, y := Handed(s, e.bal), Handed(o, e.bal);
    SubtreesHold(m, m', parent, s, t);
    MakeHolds(m', b.at, e.at, o, d, x, f);
    MakeHolds(m', t.at, e.at, o, g, y, c);
    MakeHolds(m', e.at, parent, o, Make(o, d, b.at, x, f), 0, Make(o, g, t.at, y, c));
  }

  /** No node of the subtrees is among those written, but for the two that get another parent. */
  lemma SubtreesApart(s: Side, t: Tree)
    requires t.Node? && Child(t, s.Other()).Node? && Child(Child(t, s.Other()), s).Node? && Distinct(t) && 0 !in Nodes(t)
    ensures var o := s.Other();
            var b, c := Child(t, o), Child(t, s);
            var d, e := Child(b, o), Child(b, s);
            var f, g := Child(e, o), Child(e, s);
            var rest := Nodes(t) - {t.at, b.at, e.at, Root(f), Root(g)};
            && t.at != b.at && t.at != e.at && b.at != e.at
            && Nodes(c) <= rest && Nodes(d) <= rest && Nodes(f) - {Root(f)} <= rest && Nodes(g) - {Root(g)} <= rest
            && Distinct(f) && Distinct(g)
  {
    hide Make, Distinct, Nodes;
    var o := s.Other();
    var b, c := Child(t, o), Child(t, s);
    var d, e := Child(b, o), Child(b, s);
    var f, g := Child(e, o), Child(e, s);
    MakeAll(o, t);
    MakeAll(o, b);
    MakeAll(o, e);
    MakeNodes(o, b, t.at, t.bal, c);
    MakeNodes(o, d, b.at, b.bal, e);
    MakeNodes(o, f, e.at, e.bal, g);
    RootNode(f);
    RootNode(g);
  }

  lemma RootNode(t: Tree)
    ensures t.Node? ==> Root(t) in Nodes(t)
  {
  }

  /** The four subtrees below the three nodes, at their new parents. */
  lemma SubtreesHold(m: Cells, m': Cells, parent: Word, s: Side, t: Tree)
    requires parent % 4 == 0 && t.Node? && Child(t, s.Other()).Node? && Child(Child(t, s.Other()), s).Node? && Distinct(t)
    requires Holds(m, t.at, parent, t) && DoubleRotatedCells(m, m', parent, s, t)
    ensures var o := s.Other();
            var b, c := Child(t, o), Child(t, s);
            var d, e := Child(b, o), Child(b, s);
            && t.at != 0 && t.at % 4 == 0 && b.at != 0 && b.at % 4 == 0 && e.at != 0 && t.at != b.at && t.at != e.at && b.at != e.at
            && m[t.at].To(s) == Root(c) && m[b.at].To(o) == Root(d) && Root(e) == e.at
            && Holds(m', Root(d), b.at, d) && Holds(m', Root(c), t.at, c)
            && Holds(m', Root(Child(e, o)), b.at, Child(e, o)) && Holds(m', Root(Child(e, s)), t.at, Child(e, s))
  {
    hide Make, Holds, Nodes, Distinct, Handed, Packed;
    var o := s.Other();
    var b, c := Child(t, o), Child(t, s);
    var d, e := Child(b, o), Child(b, s);
    var f, g := Child(e, o), Child(e, s);
    HoldsNodes(m, t.at, parent, t);
    SubtreesApart(s, t);
    HoldsParts(m, t.at, parent, t, s);
    HoldsParts(m, b.at, t.at, b, s);
    HoldsParts(m, e.at, b.at, e, s);
    HoldsNodes(m, Root(f), e.at, f);
    HoldsNodes(m, Root(g), e.at, g);
    HoldsNodes(m, Root(d), b.at, d);
    HoldsNodes(m, Root(c), t.at, c);
    HoldsKept(m, m', Root(c), t.at, c);
    HoldsKept(m, m', Root(d), b.at, d);
    HoldsMoved(m, m', Root(f), e.at, b.at, f);
    HoldsMoved(m, m', Root(g), e.at, t.at, g);
  }
}
