/** Trees with stored balance factors, the contexts they stand in, and what the AVL steps make of them. */
module AvlTrees {
  import opened Machine

  /** The stored balance factor should be the height on the right minus the height on the left. */
  datatype Tree = Leaf | Node(left: Tree, at: Word, bal: int, right: Tree)

  datatype Side = Left | Right {
    function Other(): Side {
      if Left? then Right else Left
    }

    function Sign(): int {
      if Left? then -1 else 1
    }
  }

  function Child(t: Tree, s: Side): Tree
    requires t.Node?
  {
    if s.Left? then t.left else t.right
  }

  /** The node with `near` on side s and `far` on the other side. */
  function Make(s: Side, near: Tree, at: Word, bal: int, far: Tree): (t: Tree)
    ensures t.Node? && t.at == at && t.bal == bal && Child(t, s) == near && Child(t, s.Other()) == far
  {
    if s.Left? then Node(near, at, bal, far) else Node(far, at, bal, near)
  }

  lemma MakeAll(s: Side, t: Tree)
    requires t.Node?
    ensures t == Make(s, Child(t, s), t.at, t.bal, Child(t, s.Other()))
    ensures t == Make(s.Other(), Child(t, s.Other()), t.at, t.bal, Child(t, s))
  {
  }

  /** A balance factor times the sign of a side. */
  function Turn(s: Side, bal: int): int {
    if s.Left? then -bal else bal
  }

  function Max(a: int, b: int): int {
    if a < b then b else a
  }

  function Height(t: Tree): nat {
    if t == Leaf then 0 else 1 + Max(Height(t.left), Height(t.right))
  }

  function InOrder(t: Tree): seq<Word> {
    if t == Leaf then [] else InOrder(t.left) + [t.at] + InOrder(t.right)
  }

  function Nodes(t: Tree): set<Word> {
    if t == Leaf then {} else Nodes(t.left) + {t.at} + Nodes(t.right)
  }

  /** No node occurs twice. */
  predicate Distinct(t: Tree) {
    t == Leaf
    || (t.at !in Nodes(t.left) && t.at !in Nodes(t.right) && Nodes(t.left) !! Nodes(t.right) && Distinct(t.left) && Distinct(t.right))
  }

  /** Every stored balance factor is the difference of the heights, and is -1, 0 or 1. */
  predicate Balanced(t: Tree) {
    t == Leaf || (-1 <= t.bal <= 1 && t.bal == Height(t.right) - Height(t.left) && Balanced(t.left) && Balanced(t.right))
  }

  /** The balance factor of a node with these heights on side s and on the other side. */
  function Tilt(s: Side, near: int, far: int): int {
    if s.Left? then far - near else near - far
  }

  lemma MakeBalance(s: Side, near: Tree, at: Word, bal: int, far: Tree)
    ensures Height(Make(s, near, at, bal, far)) == 1 + Max(Height(near), Height(far))
    ensures Balanced(Make(s, near, at, bal, far))
       <==> -1 <= bal <= 1 && bal == Tilt(s, Height(near), Height(far)) && Balanced(near) && Balanced(far)
  {
  }

  lemma MakeNodes(s: Side, near: Tree, at: Word, bal: int, far: Tree)
    ensures Nodes(Make(s, near, at, bal, far)) == Nodes(near) + {at} + Nodes(far)
    ensures Distinct(Make(s, near, at, bal, far))
       <==> at !in Nodes(near) && at !in Nodes(far) && Nodes(near) !! Nodes(far) && Distinct(near) && Distinct(far)
    ensures InOrder(Make(s, near, at, bal, far)) == Joined(s, InOrder(near), at, InOrder(far))
  {
  }

  function Joined(s: Side, near: seq<Word>, at: Word, far: seq<Word>): seq<Word> {
    if s.Left? then near + [at] + far else far + [at] + near
  }

  lemma {:induction false} InOrderNodes(t: Tree, x: Word)
    ensures x in InOrder(t) <==> x in Nodes(t)
  {
    if t.Node? {
      InOrderNodes(t.left, x);
      InOrderNodes(t.right, x);
    }
  }

  /** The sequence s' is s without x. */
  ghost predicate Removed(s: seq<Word>, s': seq<Word>, x: Word) {
    exists k :: 0 <= k < |s| && s[k] == x && s' == s[..k] + s[k + 1..]
  }

  lemma RemovedBetween(u: seq<Word>, l: seq<Word>, x: Word, r: seq<Word>, v: seq<Word>)
    ensures Removed(u + (l + [x] + r) + v, u + l + r + v, x)
  {
    var s, k := u + (l + [x] + r) + v, |u| + |l|;
    assert s[k] == x && s[..k] == u + l && s[k + 1..] == r + v;
    assert u + l + r + v == s[..k] + s[k + 1..];
  }

  // ---------- contexts

  /** A tree with a hole: the hole is on side `side` of the node `at`, and `other` on its other side. */
  datatype Context = Top | Under(side: Side, at: Word, bal: int, other: Tree, up: Context)

  function Fill(c: Context, t: Tree): Tree {
    match c
    case Top => t
    case Under(s, at, bal, other, up) => Fill(up, Make(s, t, at, bal, other))
  }

  function ParentOf(c: Context): Word {
    if c == Top then 0 else c.at
  }

  function Around(c: Context): set<Word> {
    if c == Top then {} else {c.at} + Nodes(c.other) + Around(c.up)
  }

  predicate DistinctAround(c: Context) {
    c == Top
    || (c.at !in Nodes(c.other) && c.at !in Around(c.up) && Nodes(c.other) !! Around(c.up) && Distinct(c.other) && DistinctAround(c.up))
  }

  function Before(c: Context): seq<Word> {
    if c == Top then [] else Before(c.up) + if c.side.Left? then [] else InOrder(c.other) + [c.at]
  }

  function After(c: Context): seq<Word> {
    if c == Top then [] else (if c.side.Left? then [c.at] + InOrder(c.other) else []) + After(c.up)
  }

  /** Balanced around a hole that holds a tree of height h. */
  predicate Steady(c: Context, h: int) {
    c == Top
    || (-1 <= c.bal <= 1 && c.bal == Tilt(c.side, h, Height(c.other)) && Balanced(c.other) && Steady(c.up, 1 + Max(h, Height(c.other))))
  }

  lemma {:induction false} FillBalanced(c: Context, t: Tree)
    ensures Balanced(Fill(c, t)) <==> Balanced(t) && Steady(c, Height(t))
  {
    hide Make, Balanced, Height;
    if c != Top {
      MakeBalance(c.side, t, c.at, c.bal, c.other);
      FillBalanced(c.up, Make(c.side, t, c.at, c.bal, c.other));
    }
  }

  lemma {:induction false} FillDistinct(c: Context, t: Tree)
    ensures Nodes(Fill(c, t)) == Around(c) + Nodes(t)
    ensures Distinct(Fill(c, t)) <==> DistinctAround(c) && Distinct(t) && Nodes(t) !! Around(c)
  {
    hide Make, Distinct, Nodes;
    if c != Top {
      MakeNodes(c.side, t, c.at, c.bal, c.other);
      FillDistinct(c.up, Make(c.side, t, c.at, c.bal, c.other));
    }
  }

  lemma {:induction false} FillInOrder(c: Context, t: Tree)
    ensures InOrder(Fill(c, t)) == Before(c) + InOrder(t) + After(c)
  {
    hide Make, InOrder;
    if c != Top {
      MakeNodes(c.side, t, c.at, c.bal, c.other);
      FillInOrder(c.up, Make(c.side, t, c.at, c.bal, c.other));
      var b, a, o, i := Before(c.up), After(c.up), InOrder(c.other), InOrder(t);
      if c.side.Left? {
        assert b + (i + [c.at] + o) + a == (b + []) + i + ([c.at] + o + a);
      } else {
        assert b + (o + [c.at] + i) + a == (b + (o + [c.at])) + i + ([] + a);
      }
    }
  }

  /** An empty hole. */
  lemma GapParts(c: Context)
    ensures InOrder(Fill(c, Leaf)) == Before(c) + After(c) && Nodes(Fill(c, Leaf)) == Around(c)
    ensures Balanced(Fill(c, Leaf)) ==> Steady(c, 0)
  {
    FillInOrder(c, Leaf);
    FillBalanced(c, Leaf);
    FillDistinct(c, Leaf);
    hide Fill, Before, After, Around, Steady;
    assert Before(c) + [] + After(c) == Before(c) + After(c);
  }

  /** The next node behind the hole, or in front of it. */
  function Nearest(c: Context, s: Side): Word {
    if c == Top then 0 else if c.side == s then Nearest(c.up, s) else c.at
  }

  /** The last node of a sequence, or the first. */
  function Extreme(s: seq<Word>, side: Side): Word {
    if s == [] then 0 else if side.Left? then s[0] else s[|s| - 1]
  }

  lemma {:induction false} NearestIs(c: Context)
    ensures Nearest(c, Right) == Extreme(After(c), Left) && Nearest(c, Left) == Extreme(Before(c), Right)
  {
    if c != Top {
      NearestIs(c.up);
    }
  }

  lemma ExtremeStep(t: Tree, s: Side)
    requires t.Node?
    ensures Extreme(InOrder(t), s) == if Child(t, s) == Leaf then t.at else Extreme(InOrder(Child(t, s)), s)
  {
    assert t.left.Node? ==> t.left.at in InOrder(t.left);
    assert t.right.Node? ==> t.right.at in InOrder(t.right);
  }

  /** What comes after position k of a sequence, or before it. */
  function Neighbour(s: seq<Word>, k: nat, side: Side): Word
    requires k < |s|
  {
    if side.Left? then if k == 0 then 0 else s[k - 1]
    else if k + 1 == |s| then 0 else s[k + 1]
  }

  /** The neighbour of a node is in the subtree on that side, or is the nearest around it. */
  lemma NeighbourIs(c: Context, t: Tree, k: nat, s: Side)
    requires t.Node? && Distinct(Fill(c, t)) && k < |InOrder(Fill(c, t))| && InOrder(Fill(c, t))[k] == t.at
    ensures Neighbour(InOrder(Fill(c, t)), k, s)
         == if Child(t, s) == Leaf then Nearest(c, s) else Extreme(InOrder(Child(t, s)), s.Other())
  {
    hide Distinct, Fill, Nearest, InOrder, Before, After;
    FillInOrder(c, t);
    DistinctInOrder(Fill(c, t));
    NearestIs(c);
    InOrderParts(t);
    Beside(Before(c), InOrder(t.left), t.at, InOrder(t.right), After(c), k);
  }

  lemma InOrderParts(t: Tree)
    requires t.Node?
    ensures InOrder(t) == InOrder(t.left) + [t.at] + InOrder(t.right)
    ensures (t.left == Leaf <==> InOrder(t.left) == []) && (t.right == Leaf <==> InOrder(t.right) == [])
  {
    assert t.left.Node? ==> t.left.at in InOrder(t.left);
    assert t.right.Node? ==> t.right.at in InOrder(t.right);
  }

  lemma Beside(b: seq<Word>, l: seq<Word>, x: Word, r: seq<Word>, a: seq<Word>, k: nat)
    requires var s := b + (l + [x] + r) + a;
             (forall i, j :: 0 <= i < j < |s| ==> s[i] != s[j]) && k < |s| && s[k] == x
    ensures var s := b + (l + [x] + r) + a;
            && Neighbour(s, k, Right) == (if r == [] then Extreme(a, Left) else Extreme(r, Left))
            && Neighbour(s, k, Left) == (if l == [] then Extreme(b, Right) else Extreme(l, Right))
  {
    var s := b + (l + [x] + r) + a;
    assert s[|b| + |l|] == x;
  }

  lemma {:induction false} DistinctInOrder(t: Tree)
    requires Distinct(t)
    ensures forall i, j :: 0 <= i < j < |InOrder(t)| ==> InOrder(t)[i] != InOrder(t)[j]
  {
    if t.Node? {
      DistinctInOrder(t.left);
      DistinctInOrder(t.right);
      forall x
        ensures x in InOrder(t.left) <==> x in Nodes(t.left)
        ensures x in InOrder(t.right) <==> x in Nodes(t.right)
      {
        InOrderNodes(t.left, x);
        InOrderNodes(t.right, x);
      }
      hide Nodes, Distinct;
      NoneTwice(InOrder(t.left), t.at, InOrder(t.right));
    }
  }

  lemma NoneTwice(l: seq<Word>, x: Word, r: seq<Word>)
    requires forall i, j :: 0 <= i < j < |l| ==> l[i] != l[j]
    requires forall i, j :: 0 <= i < j < |r| ==> r[i] != r[j]
    requires x !in l && x !in r && forall y :: y in l ==> y !in r
    ensures forall i, j :: 0 <= i < j < |l + [x] + r| ==> (l + [x] + r)[i] != (l + [x] + r)[j]
  {
    var s := l + [x] + r;
    forall i, j | 0 <= i < j < |s|
      ensures s[i] != s[j]
    {
      if i < |l| && j > |l| {
        assert s[i] in l && s[j] in r;
      }
    }
  }

  // ---------- a context inside another

  /** The context `inner` in the hole of the context `c`. */
  function Onto(inner: Context, c: Context): Context {
    if inner == Top then c else Under(inner.side, inner.at, inner.bal, inner.other, Onto(inner.up, c))
  }

  lemma {:induction false} OntoParts(inner: Context, c: Context)
    ensures Around(Onto(inner, c)) == Around(inner) + Around(c)
    ensures DistinctAround(Onto(inner, c)) <==> DistinctAround(inner) && DistinctAround(c) && Around(inner) !! Around(c)
  {
    hide Nodes, Distinct;
    if inner != Top {
      OntoParts(inner.up, c);
    }
  }

  lemma {:induction false} OntoOrder(inner: Context, c: Context)
    ensures Before(Onto(inner, c)) == Before(c) + Before(inner) && After(Onto(inner, c)) == After(inner) + After(c)
  {
    hide InOrder;
    if inner != Top {
      OntoOrder(inner.up, c);
    }
  }

  lemma OntoInner(inner: Context, c: Context)
    requires inner != Top
    ensures Onto(inner, c) != Top && Onto(inner, c).at == inner.at && Onto(inner, c).side == inner.side
  {
  }

  lemma {:induction false} OntoFill(inner: Context, c: Context, t: Tree)
    ensures Fill(Onto(inner, c), t) == Fill(c, Fill(inner, t))
    decreases inner
  {
    if inner != Top {
      OntoFill(inner.up, c, Make(inner.side, t, inner.at, inner.bal, inner.other));
    }
  }

  /** The number of a node does not matter to the heights. */
  lemma {:induction false} OntoSteady(inner: Context, c: Context, at: Word, h: int)
    requires c != Top
    ensures Steady(Onto(inner, c), h) <==> Steady(Onto(inner, c.(at := at)), h)
  {
    if inner != Top {
      OntoSteady(inner.up, c, at, 1 + Max(h, Height(inner.other)));
    }
  }

  /** The hole is on the left of every node. */
  predicate Leftmost(c: Context) {
    c == Top || (c.side == Left && Leftmost(c.up))
  }

  lemma {:induction false} LeftmostBefore(c: Context)
    requires Leftmost(c)
    ensures Before(c) == []
  {
    if c != Top {
      LeftmostBefore(c.up);
    }
  }

  // ---------- rotations

  /** The child on the other side goes up, and the root goes down on side s. */
  function Rotated(s: Side, t: Tree): (r: Tree)
    requires t.Node? && Child(t, s.Other()).Node?
    ensures r.Node? && r.at == Child(t, s.Other()).at && r.bal == Child(t, s.Other()).bal
    ensures Child(r, s).Node? && Child(r, s).at == t.at && Child(r, s).bal == t.bal
  {
    var b := Child(t, s.Other());
    Make(s.Other(), Child(b, s.Other()), b.at, b.bal, Make(s.Other(), Child(b, s), t.at, t.bal, Child(t, s)))
  }

  /** The balance factor left to the node on the side away from s of a grandchild with factor e. */
  function Handed(s: Side, e: int): (r: int)
    ensures -1 <= e <= 1 ==> -1 <= r <= 1
  {
    if Turn(s, e) <= 0 then 0 else -e
  }

  /** The inner grandchild goes up between the two, and the balance factors follow from its own. */
  function DoubleRotated(s: Side, t: Tree): Tree
    requires t.Node? && Child(t, s.Other()).Node? && Child(Child(t, s.Other()), s).Node?
  {
    var b := Child(t, s.Other());
    var e := Child(b, s);
    Make(s.Other(),
         Make(s.Other(), Child(b, s.Other()), b.at, Handed(s, e.bal), Child(e, s.Other())),
         e.at, 0,
         Make(s.Other(), Child(e, s), t.at, Handed(s.Other(), e.bal), Child(t, s)))
  }

  /** The in-order sequence and the set of nodes stay. */
  lemma RotatedSame(s: Side, t: Tree)
    requires t.Node? && Child(t, s.Other()).Node?
    ensures InOrder(Rotated(s, t)) == InOrder(t) && Nodes(Rotated(s, t)) == Nodes(t)
    ensures Distinct(t) ==> Distinct(Rotated(s, t))
  {
    hide Make, InOrder, Nodes, Distinct, Joined;
    var o := s.Other();
    var b, c := Child(t, o), Child(t, s);
    var d, e := Child(b, o), Child(b, s);
    MakeAll(s, t);
    MakeAll(s, b);
    MakeNodes(o, b, t.at, t.bal, c);
    MakeNodes(o, d, b.at, b.bal, e);
    MakeNodes(o, e, t.at, t.bal, c);
    MakeNodes(o, d, b.at, b.bal, Make(o, e, t.at, t.bal, c));
    Regrouped(o, InOrder(d), b.at, InOrder(e), t.at, InOrder(c));
  }

  lemma Regrouped(s: Side, d: seq<Word>, b: Word, e: seq<Word>, a: Word, c: seq<Word>)
    ensures Joined(s, Joined(s, d, b, e), a, c) == Joined(s, d, b, Joined(s, e, a, c))
  {
    if s.Left? {
      assert d + [b] + e + [a] + c == d + [b] + (e + [a] + c);
    } else {
      assert c + [a] + (e + [b] + d) == c + [a] + e + [b] + d;
    }
  }

  lemma DoubleRotatedSame(s: Side, t: Tree)
    requires t.Node? && Child(t, s.Other()).Node? && Child(Child(t, s.Other()), s).Node?
    ensures InOrder(DoubleRotated(s, t)) == InOrder(t) && Nodes(DoubleRotated(s, t)) == Nodes(t)
    ensures Distinct(t) ==> Distinct(DoubleRotated(s, t))
  {
    hide Make, InOrder, Nodes, Distinct, Joined, Handed;
    var o := s.Other();
    var b, c := Child(t, o), Child(t, s);
    var d, e := Child(b, o), Child(b, s);
    var f, g := Child(e, o), Child(e, s);
    var x, y := Handed(s, e.bal), Handed(o, e.bal);
    MakeAll(s, t);
    MakeAll(s, b);
    MakeAll(s, e);
    MakeNodes(o, b, t.at, t.bal, c);
    MakeNodes(o, d, b.at, b.bal, e);
    MakeNodes(o, f, e.at, e.bal, g);
    MakeNodes(o, d, b.at, x, f);
    MakeNodes(o, g, t.at, y, c);
    MakeNodes(o, Make(o, d, b.at, x, f), e.at, 0, Make(o, g, t.at, y, c));
    Regrouped(o, InOrder(d), b.at, InOrder(f), e.at, InOrder(g));
    Regrouped(o, Joined(o, InOrder(d), b.at, InOrder(f)), e.at, InOrder(g), t.at, InOrder(c));
  }

  /** The tree without its balance factors. */
  function Shape(t: Tree): Tree {
    if t == Leaf then Leaf else Node(Shape(t.left), t.at, 0, Shape(t.right))
  }

  /** A double rotation is a rotation of the child and one of the root, but for the balance factors. */
  lemma DoubleIsTwo(s: Side, t: Tree)
    requires t.Node? && Child(t, s.Other()).Node? && Child(Child(t, s.Other()), s).Node?
    ensures Shape(DoubleRotated(s, t))
         == Shape(Rotated(s, Make(s.Other(), Rotated(s.Other(), Child(t, s.Other())), t.at, t.bal, Child(t, s))))
  {
  }
}
