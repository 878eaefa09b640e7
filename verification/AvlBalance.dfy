/** One round of the two rebalancing loops on trees, and what it does to heights. */
module AvlBalance {
  import opened Machine
  import opened Arithmetic
  import opened AvlTrees

  /** The tree at a node whose subtree on side s has become t, before anything is repaired. */
  function Stale(c: Context, t: Tree): (r: Tree)
    requires c != Top
    ensures r.Node?
  {
    Make(c.side, t, c.at, c.bal, c.other)
  }

  /** The hole of c is on the deep side, so that one more level there calls for a rotation. */
  predicate Deep(c: Context)
    requires c != Top
  {
    c.bal != 0 && c.bal + c.side.Sign() != 0
  }

  predicate Leans(t: Tree, s: Side)
    requires t.Node?
  {
    Turn(s, t.bal) > 0
  }

  /** Filling in the node of the context is filling in its hole. */
  lemma StaleInOrder(c: Context, t: Tree)
    requires c != Top
    ensures Before(c.up) + InOrder(Stale(c, t)) + After(c.up) == Before(c) + InOrder(t) + After(c)
  {
    FillInOrder(c, t);
    FillInOrder(c.up, Stale(c, t));
  }

  // ---------- growth

  /** The inner child is there when a double rotation needs it. */
  predicate CanGrow(c: Context, t: Tree) {
    c != Top && t.Node? && (Deep(c) && !Leans(t, c.side) ==> Child(t, c.side.Other()).Node?)
  }

  /** The repaired tree when t has grown by one level. */
  function Grown(c: Context, t: Tree): (r: Tree)
    requires CanGrow(c, t)
    ensures r.Node?
  {
    var a := Stale(c, t);
    if !Deep(c) then a.(bal := c.bal + c.side.Sign())
    else if Leans(t, c.side) then
      var r := Rotated(c.side.Other(), a);
      Make(c.side, Child(r, c.side), r.at, 0, Child(r, c.side.Other()).(bal := 0))
    else DoubleRotated(c.side.Other(), a)
  }

  lemma GrownSame(c: Context, t: Tree)
    requires CanGrow(c, t)
    ensures InOrder(Grown(c, t)) == InOrder(Stale(c, t)) && Nodes(Grown(c, t)) == Nodes(Stale(c, t))
    ensures Distinct(Stale(c, t)) ==> Distinct(Grown(c, t))
  {
    var s, a := c.side, Stale(c, t);
    if !Deep(c) {
      MakeNodes(s, t, c.at, c.bal, c.other);
      MakeNodes(s, t, c.at, c.bal + s.Sign(), c.other);
    } else if Leans(t, s) {
      RotatedSame(s.Other(), a);
      hide Make, InOrder, Nodes, Distinct, Joined;
      var r := Rotated(s.Other(), a);
      Rebalanced(s, r);
    } else {
      DoubleRotatedSame(s.Other(), a);
    }
  }

  /** New balance factors at the root and the node below it on the other side. */
  lemma Rebalanced(s: Side, r: Tree)
    requires r.Node? && Child(r, s.Other()).Node?
    ensures var r' := Make(s, Child(r, s), r.at, 0, Child(r, s.Other()).(bal := 0));
            InOrder(r') == InOrder(r) && Nodes(r') == Nodes(r) && (Distinct(r) ==> Distinct(r'))
  {
    hide Make, InOrder, Nodes, Distinct, Joined;
    var o := s.Other();
    var x := Child(r, o);
    MakeAll(s, r);
    MakeAll(s, x);
    MakeAll(s, x.(bal := 0));
    MakeNodes(s, Child(r, s), r.at, r.bal, x);
    MakeNodes(s, Child(r, s), r.at, 0, x.(bal := 0));
    OneBalance(x, 0);
  }

  /**
   A subtree that has grown by one level and leans to one side: its parent's subtree is balanced again, and has grown by one
   level itself, leaning now, exactly when it was even before.
   */
  lemma GrownBalanced(c: Context, t: Tree)
    requires c != Top && t.Node? && Balanced(t) && t.bal != 0 && Steady(c, Height(t) - 1)
    ensures CanGrow(c, t) && Balanced(Grown(c, t))
    ensures Height(Grown(c, t)) == 1 + Max(Height(t) - 1, Height(c.other)) + if c.bal == 0 then 1 else 0
    ensures c.bal == 0 ==> Grown(c, t).bal != 0 && Grown(c, t).at == c.at
  {
    var s, o := c.side, c.side.Other();
    hide Make, Balanced, Height, Steady, Grown;
    Parts(c, Height(t) - 1);
    if !Deep(c) {
      GrownPlain(c, t);
    } else if Leans(t, s) {
      GrownSingle(c, t);
    } else {
      GrownDouble(c, t);
    }
  }

  lemma GrownPlain(c: Context, t: Tree)
    requires c != Top && t.Node? && Balanced(t) && Balanced(c.other) && -1 <= c.bal <= 1 && !Deep(c)
    requires c.bal == Tilt(c.side, Height(t) - 1, Height(c.other))
    ensures CanGrow(c, t) && Balanced(Grown(c, t)) && Height(Grown(c, t)) == 1 + Max(Height(t), Height(c.other))
    ensures Grown(c, t).at == c.at && Grown(c, t).bal == c.bal + c.side.Sign()
  {
    hide Make, Balanced, Height;
    MakeBalance(c.side, t, c.at, c.bal + c.side.Sign(), c.other);
  }

  /** The first round never rotates: the other side of a new leaf's parent has at most one level. */
  lemma FirstGrowth(c: Context, t: Tree)
    requires c != Top && t.Node? && Steady(c, 0) && Balanced(t) && Height(t) == 1
    ensures CanGrow(c, t) && !Deep(c) && Balanced(Grown(c, t)) && Grown(c, t) == Stale(c, t).(bal := c.bal + c.side.Sign())
    ensures Grown(c, t).bal == 0 ==> Steady(c.up, Height(Grown(c, t)))
    ensures Grown(c, t).bal != 0 ==> Steady(c.up, Height(Grown(c, t)) - 1)
  {
    hide Make, Balanced, Height;
    MakeBalance(c.side, t, c.at, c.bal + c.side.Sign(), c.other);
  }

  lemma SteadyUp(c: Context, h: int)
    requires c != Top && Steady(c, h)
    ensures Steady(c.up, 1 + Max(h, Height(c.other)))
  {
  }

  lemma GrownSingle(c: Context, t: Tree)
    requires c != Top && t.Node? && Balanced(t) && Balanced(c.other) && Height(t) == Height(c.other) + 2 && Deep(c) && Leans(t, c.side)
    ensures CanGrow(c, t) && Balanced(Grown(c, t)) && Height(Grown(c, t)) == Height(t)
  {
    hide Make, Balanced, Height, Grown;
    var s, o := c.side, c.side.Other();
    PartsOf(s, t);
    GrownRotated(c, t);
    SingleParts(s, Child(t, s), t.at, 0, Child(t, o), c.at, 0, c.other);
  }

  lemma GrownDouble(c: Context, t: Tree)
    requires c != Top && t.Node? && Balanced(t) && Balanced(c.other) && Height(t) == Height(c.other) + 2 && Deep(c)
    requires t.bal != 0 && !Leans(t, c.side)
    ensures CanGrow(c, t) && Balanced(Grown(c, t)) && Height(Grown(c, t)) == Height(t)
  {
    InnerChild(c.side, t);
    hide Make, Balanced, Height, DoubleRotated;
    DoubleParts(c.side.Other(), Stale(c, t));
  }

  lemma InnerChild(s: Side, t: Tree)
    requires t.Node? && Balanced(t) && t.bal != 0 && !Leans(t, s)
    ensures Child(t, s.Other()).Node?
  {
  }

  lemma GrownRotated(c: Context, t: Tree)
    requires CanGrow(c, t) && Deep(c) && Leans(t, c.side)
    ensures Grown(c, t) == Make(c.side, Child(t, c.side), t.at, 0, Make(c.side, Child(t, c.side.Other()), c.at, 0, c.other))
  {
  }

  lemma SingleParts(s: Side, d: Tree, b: Word, y: int, e: Tree, a: Word, x: int, c: Tree)
    requires Balanced(d) && Balanced(e) && Balanced(c) && -1 <= x <= 1 && -1 <= y <= 1
    requires x == Tilt(s, Height(e), Height(c)) && y == Tilt(s, Height(d), 1 + Max(Height(e), Height(c)))
    ensures var r := Make(s, d, b, y, Make(s, e, a, x, c));
            Balanced(r) && Height(r) == 1 + Max(Height(d), 1 + Max(Height(e), Height(c)))
  {
    hide Make, Balanced, Height, Tilt;
    MakeBalance(s, e, a, x, c);
    MakeBalance(s, d, b, y, Make(s, e, a, x, c));
  }

  lemma Parts(c: Context, h: int)
    requires c != Top && Steady(c, h)
    ensures -1 <= c.bal <= 1 && c.bal == Tilt(c.side, h, Height(c.other)) && Balanced(c.other)
  {
  }

  lemma PartsOf(s: Side, t: Tree)
    requires t.Node? && Balanced(t)
    ensures Height(t) == 1 + Max(Height(Child(t, s)), Height(Child(t, s.Other())))
    ensures -1 <= t.bal <= 1 && t.bal == Tilt(s, Height(Child(t, s)), Height(Child(t, s.Other())))
    ensures Balanced(Child(t, s)) && Balanced(Child(t, s.Other()))
  {
  }

  /** What the grandchild's factor says about its children is what is left to their new parents. */
  lemma Halves(s: Side, e: int, f: nat, g: nat)
    requires e == Tilt(s, g, f) && -1 <= e <= 1
    ensures Handed(s, e) == Tilt(s, f, Max(f, g)) && Handed(s.Other(), e) == Tilt(s, Max(f, g), g)
  {
  }

  /** The double rotation of a node two levels deeper on side o than on side s, whose child there leans to s. */
  lemma DoubleParts(s: Side, t: Tree)
    requires t.Node? && Child(t, s.Other()).Node? && Child(Child(t, s.Other()), s).Node?
    requires var b := Child(t, s.Other()); Balanced(b) && Balanced(Child(t, s)) && Leans(b, s) && Height(b) == Height(Child(t, s)) + 2
    ensures Balanced(DoubleRotated(s, t)) && Height(DoubleRotated(s, t)) == Height(Child(t, s.Other()))
  {
    hide Make, Balanced, Height, Handed;
    var o := s.Other();
    var b, c := Child(t, o), Child(t, s);
    var d, e := Child(b, o), Child(b, s);
    var f, g := Child(e, o), Child(e, s);
    var x, y := Handed(s, e.bal), Handed(o, e.bal);
    PartsOf(o, b);
    PartsOf(o, e);
    Halves(s, e.bal, Height(f), Height(g));
    MakeBalance(o, d, b.at, x, f);
    MakeBalance(o, g, t.at, y, c);
    MakeBalance(o, Make(o, d, b.at, x, f), e.at, 0, Make(o, g, t.at, y, c));
  }

  // ---------- shrinkage

  predicate CanShrink(c: Context) {
    c != Top && (Shallow(c) ==> c.other.Node? && (Leans(c.other, c.side) ==> Child(c.other, c.side).Node?))
  }

  /** The hole of c is on the shallow side, so that one level less there calls for a rotation. */
  predicate Shallow(c: Context)
    requires c != Top
  {
    c.bal != 0 && c.bal - c.side.Sign() != 0
  }

  /** The repaired tree when t has shrunk by one level. */
  function Shrunk(c: Context, t: Tree): (r: Tree)
    requires CanShrink(c)
    ensures r.Node?
  {
    var s, a := c.side, Stale(c, t);
    if !Shallow(c) then a.(bal := c.bal - s.Sign())
    else if Leans(c.other, s) then DoubleRotated(s, a)
    else
      var r := Rotated(s, a);
      if c.other.bal == 0 then r.(bal := s.Sign())
      else Make(s.Other(), Child(r, s.Other()), r.at, 0, Child(r, s).(bal := 0))
  }

  /** The loop stops at a node that was even, and behind a rotation that met an even child. */
  predicate Settled(c: Context)
    requires CanShrink(c)
  {
    c.bal == 0 || (Shallow(c) && c.other.bal == 0)
  }

  lemma ShrunkSame(c: Context, t: Tree)
    requires CanShrink(c)
    ensures InOrder(Shrunk(c, t)) == InOrder(Stale(c, t)) && Nodes(Shrunk(c, t)) == Nodes(Stale(c, t))
    ensures Distinct(Stale(c, t)) ==> Distinct(Shrunk(c, t))
  {
    var s, a := c.side, Stale(c, t);
    if !Shallow(c) {
      MakeNodes(s, t, c.at, c.bal, c.other);
      MakeNodes(s, t, c.at, c.bal - s.Sign(), c.other);
    } else if Leans(c.other, s) {
      DoubleRotatedSame(s, a);
    } else {
      RotatedSame(s, a);
      hide Make, InOrder, Nodes, Distinct, Joined;
      var r := Rotated(s, a);
      Rebalanced(s.Other(), r);
      OneBalance(r, s.Sign());
    }
  }

  lemma OneBalance(r: Tree, b: int)
    requires r.Node?
    ensures InOrder(r.(bal := b)) == InOrder(r) && Nodes(r.(bal := b)) == Nodes(r) && (Distinct(r) ==> Distinct(r.(bal := b)))
  {
  }

  /** A subtree that has shrunk by one level: its parent's subtree is balanced again, and has kept its height exactly if settled. */
  lemma ShrunkBalanced(c: Context, t: Tree)
    requires c != Top && Balanced(t) && Steady(c, Height(t) + 1)
    ensures CanShrink(c) && Balanced(Shrunk(c, t))
    ensures Height(Shrunk(c, t)) == 1 + Max(Height(t) + 1, Height(c.other)) - if Settled(c) then 0 else 1
  {
    var s := c.side;
    Parts(c, Height(t) + 1);
    OuterChildren(c, t);
    hide Make, Balanced, Height, Steady;
    if !Shallow(c) {
      MakeBalance(s, t, c.at, c.bal - s.Sign(), c.other);
    } else if Leans(c.other, s) {
      ShrunkDouble(c, t);
    } else {
      ShrunkSingle(c, t);
    }
  }

  lemma ShrunkDouble(c: Context, t: Tree)
    requires CanShrink(c) && Balanced(t) && Balanced(c.other) && Height(c.other) == Height(t) + 2 && Shallow(c) && Leans(c.other, c.side)
    ensures Balanced(Shrunk(c, t)) && Height(Shrunk(c, t)) == Height(c.other)
  {
    hide Make, Balanced, Height, DoubleRotated;
    DoubleParts(c.side, Stale(c, t));
  }

  lemma ShrunkSingle(c: Context, t: Tree)
    requires CanShrink(c) && Balanced(t) && Balanced(c.other) && Height(c.other) == Height(t) + 2 && Shallow(c) && !Leans(c.other, c.side)
    requires c.bal == Tilt(c.side, Height(t) + 1, Height(c.other))
    ensures Balanced(Shrunk(c, t)) && Height(Shrunk(c, t)) == Height(c.other) + if c.other.bal == 0 then 1 else 0
  {
    hide Make, Balanced, Height, Shrunk;
    var s, o := c.side, c.side.Other();
    var b := c.other;
    var x, y := if b.bal == 0 then c.bal else 0, if b.bal == 0 then s.Sign() else 0;
    PartsOf(s, b);
    ShrunkRotated(c, t);
    SingleParts(o, Child(b, o), b.at, y, Child(b, s), c.at, x, t);
  }

  lemma OuterChildren(c: Context, t: Tree)
    requires c != Top && Balanced(t) && Steady(c, Height(t) + 1)
    ensures CanShrink(c)
  {
  }

  lemma ShrunkRotated(c: Context, t: Tree)
    requires CanShrink(c) && Shallow(c) && !Leans(c.other, c.side)
    ensures var s, b := c.side, c.other;
            Shrunk(c, t) == Make(s.Other(), Child(b, s.Other()), b.at, if b.bal == 0 then s.Sign() else 0,
                                 Make(s.Other(), Child(b, s), c.at, if b.bal == 0 then c.bal else 0, t))
  {
  }

  /** A node with no child on the other side of s, and what is left without it. */
  lemma OneChild(c: Context, t: Tree, s: Side)
    requires t.Node? && Child(t, s.Other()) == Leaf && Balanced(t) && Steady(c, Height(t))
    ensures Balanced(Child(t, s)) && Steady(c, Height(Child(t, s)) + 1)
    ensures Before(c) + InOrder(Child(t, s)) + After(c) == Before(c) + InOrder(t.left) + InOrder(t.right) + After(c)
    ensures Nodes(t) == Nodes(Child(t, s)) + {t.at} && (Distinct(t) ==> t.at !in Nodes(Child(t, s)))
  {
    hide Before, After;
    PartsOf(s, t);
    NodeParts(t);
    assert InOrder(t.left) + InOrder(t.right) == InOrder(Child(t, s));
    assert Before(c) + (InOrder(t.left) + InOrder(t.right)) + After(c) == Before(c) + InOrder(t.left) + InOrder(t.right) + After(c);
  }

  lemma SteadyTop(c: Context, h: int)
    requires c == Top
    ensures Steady(c, h)
  {
  }

  // ---------- the successor in the place of a node

  /** The right child moves up, and its place is one level lower. */
  lemma ChildSwapped(c: Context, t: Tree)
    requires t.Node? && t.left.Node? && t.right.Node? && t.right.left == Leaf && Balanced(t) && Steady(c, Height(t))
    requires Distinct(t) && Nodes(t) !! Around(c)
    ensures var c', u := Under(Right, t.right.at, t.bal, t.left, c), t.right.right;
            && Balanced(u) && Steady(c', Height(u) + 1)
            && Before(c') + InOrder(u) + After(c') == Before(c) + InOrder(t.left) + InOrder(t.right) + After(c)
            && Around(c') + Nodes(u) == Around(c) + Nodes(t) - {t.at}
  {
    hide Balanced, Before, After;
    PartsOf(Right, t);
    PartsOf(Right, t.right);
    UnderRight(c, t.right.at, t.bal, t.left);
    var b, l, u, a := Before(c), InOrder(t.left), InOrder(t.right.right), After(c);
    assert b + (l + [t.right.at]) + u + a == b + l + ([] + [t.right.at] + u) + a;
  }

  lemma UnderRight(c: Context, at: Word, bal: int, l: Tree)
    ensures Before(Under(Right, at, bal, l, c)) == Before(c) + (InOrder(l) + [at])
    ensures After(Under(Right, at, bal, l, c)) == After(c)
  {
  }

  /** The leftmost node of the right subtree moves up, and its place is one level lower. */
  lemma SuccessorSwapped(c: Context, t: Tree, inner: Context, v: Tree)
    requires t.Node? && t.left.Node? && t.right.Node? && Balanced(t) && Steady(c, Height(t))
    requires inner != Top && Leftmost(inner) && Fill(inner, v) == t.right && v.Node? && v.left == Leaf
    requires Distinct(t) && Nodes(t) !! Around(c)
    ensures var c', u := Onto(inner, Under(Right, v.at, t.bal, t.left, c)), v.right;
            && c' != Top && c'.at == inner.at && c'.side == Left
            && Balanced(u) && Steady(c', Height(u) + 1)
            && Before(c') + InOrder(u) + After(c') == Before(c) + InOrder(t.left) + InOrder(t.right) + After(c)
            && Around(c') + Nodes(u) == Around(c) + Nodes(t) - {t.at}
    ensures var base := Under(Right, t.at, t.bal, t.left, c);
            && Onto(inner, base) != Top && Onto(inner, base).at == inner.at && Onto(inner, base).side == Left
            && Around(Onto(inner, base)) + Nodes(v) == Around(c) + Nodes(t) && {v.at} + Nodes(v.right) <= Nodes(v)
  {
    hide Balanced, Before, After, InOrder, Nodes, Around, Steady, Onto, Fill;
    var base, base' := Under(Right, t.at, t.bal, t.left, c), Under(Right, v.at, t.bal, t.left, c);
    OntoInner(inner, base);
    OntoInner(inner, base');
    SwappedHeights(c, t, inner, v);
    OntoParts(inner, base);
    OntoParts(inner, base');
    OntoOrder(inner, base');
    UnderRight(c, v.at, t.bal, t.left);
    LeftmostBefore(inner);
    FillInOrder(inner, v);
    FillDistinct(inner, v);
    NodeParts(t);
    NodeParts(v);
    AroundRight(c, t.at, t.bal, t.left);
    AroundRight(c, v.at, t.bal, t.left);
    Spliced(Before(c), InOrder(t.left), v.at, InOrder(v.right), After(inner), After(c));
  }

  lemma SwappedHeights(c: Context, t: Tree, inner: Context, v: Tree)
    requires t.Node? && Balanced(t) && Steady(c, Height(t)) && Fill(inner, v) == t.right && v.Node? && v.left == Leaf
    ensures Balanced(v.right) && Steady(Onto(inner, Under(Right, v.at, t.bal, t.left, c)), Height(v.right) + 1)
  {
    hide Balanced, Steady, Onto;
    var base := Under(Right, t.at, t.bal, t.left, c);
    FillBalanced(c, t);
    MakeAll(Right, t);
    OntoFill(inner, base, v);
    FillBalanced(Onto(inner, base), v);
    PartsOf(Right, v);
    OntoSteady(inner, base, v.at, Height(v));
  }

  lemma NodeParts(t: Tree)
    requires t.Node?
    ensures Nodes(t) == Nodes(t.left) + {t.at} + Nodes(t.right) && InOrder(t) == InOrder(t.left) + [t.at] + InOrder(t.right)
    ensures t.left == Leaf ==> Nodes(t.left) == {} && InOrder(t.left) == []
    ensures Distinct(t) ==> t.at !in Nodes(t.left) && t.at !in Nodes(t.right)
  {
  }

  lemma AroundRight(c: Context, at: Word, bal: int, l: Tree)
    ensures Around(Under(Right, at, bal, l, c)) == {at} + Nodes(l) + Around(c)
  {
  }

  lemma Spliced(b: seq<Word>, l: seq<Word>, y: Word, u: seq<Word>, a': seq<Word>, a: seq<Word>)
    ensures b + (l + [y]) + [] + u + (a' + a) == b + l + ([] + ([] + [y] + u) + a') + a
  {
  }

  // ---------- how deep a tree can be

  /** The fewest nodes of a balanced tree of height h. */
  function Fewest(h: nat): nat {
    if h == 0 then 0 else if h == 1 then 1 else 1 + Fewest(h - 1) + Fewest(h - 2)
  }

  lemma {:induction false} FewestGrows(h: nat)
    ensures Fewest(h) <= Fewest(h + 1)
  {
    if h > 1 {
      FewestGrows(h - 1);
      FewestGrows(h - 2);
    }
  }

  /** A balanced tree of height h has at least that many nodes. */
  lemma {:induction false} HeightBound(t: Tree)
    requires Balanced(t)
    ensures |InOrder(t)| >= Fewest(Height(t))
  {
    hide Fewest;
    assert Fewest(0) == 0 by {
      FewestOfNone();
    }
    if t.Node? {
      HeightBound(t.left);
      HeightBound(t.right);
      FewestStep(Height(t.left), Height(t.right));
    }
  }

  lemma FewestOfNone()
    ensures Fewest(0) == 0
  {
  }

  lemma FewestStep(a: nat, b: nat)
    requires -1 <= a - b <= 1
    ensures Fewest(1 + Max(a, b)) <= 1 + Fewest(a) + Fewest(b)
  {
    if a == b && a > 0 {
      FewestGrows(a - 1);
    }
  }

  /** And there is one that has no more. */
  lemma {:induction false} BoundIsSharp(h: nat) returns (t: Tree)
    ensures Balanced(t) && Height(t) == h && |InOrder(t)| == Fewest(h)
  {
    if h == 0 {
      return Leaf;
    }
    if h == 1 {
      return Node(Leaf, 4, 0, Leaf);
    }
    var l := BoundIsSharp(h - 1);
    var r := BoundIsSharp(h - 2);
    t := Node(l, 4, -1, r);
  }

  /** So n nodes have a height of at most twice the logarithm of n + 1. */
  lemma {:induction false} HeightIsLogarithmic(t: Tree, k: nat)
    requires Balanced(t) && |InOrder(t)| + 1 < Pow2(k)
    ensures Height(t) < 2 * k
  {
    HeightBound(t);
    if Height(t) >= 2 * k {
      FewestMonotone(2 * k, Height(t));
      FewestDoubles(k);
      assert false;
    }
  }

  lemma {:induction false} FewestMonotone(h: nat, h': nat)
    requires h <= h'
    ensures Fewest(h) <= Fewest(h')
    decreases h'
  {
    if h < h' {
      FewestMonotone(h, h' - 1);
      FewestGrows(h' - 1);
    }
  }

  lemma {:induction false} FewestDoubles(k: nat)
    ensures Fewest(2 * k) + 1 >= Pow2(k)
  {
    if k > 0 {
      FewestDoubles(k - 1);
      FewestGrows(2 * k - 2);
    }
  }
}
