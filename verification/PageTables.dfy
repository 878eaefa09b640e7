/**
 The 4-level page tables built by the boot loader, as a tree in physical memory.

 A table is named by the address bits that lead to it: Node(depth, prefix) is reached from the root by the
 first `depth` 9-bit indices of the page number, which written in base 512 are `prefix`.  The processor's walk
 (Intel SDM Vol. 3A, section 4.5) is Walk; the tree represents a finite map from page numbers to frames.
 */
module PageTables {
  import opened Arithmetic
  import opened Machine

  /** Virtual page number: bits 12..47 of a virtual address. */
  type Vpn = v: int | 0 <= v < 0x10_0000_0000

  datatype Node = Node(depth: nat, prefix: nat)

  function VpnOfAddress(a: Word): Vpn {
    a / 4096 % 0x10_0000_0000
  }

  /** The leading 9 * depth bits of a page number. */
  function Prefix(v: Vpn, depth: nat): nat
    requires depth <= 4
  {
    match depth
    case 0 => 0
    case 1 => v / 0x800_0000
    case 2 => v / 0x4_0000
    case 3 => v / 512
    case _ => v
  }

  /** The index used in the table at `depth` on the way to page v. */
  function IndexAt(v: Vpn, depth: nat): Index
    requires depth <= 3
  {
    Prefix(v, depth + 1) % 512
  }

  function PathNode(v: Vpn, depth: nat): Node
    requires depth <= 4
  {
    Node(depth, Prefix(v, depth))
  }

  function Parent(x: Node): Node
    requires x.depth > 0
  {
    Node(x.depth - 1, x.prefix / 512)
  }

  /** Bits 0 (present) and 1 (read/write) of an entry, with the frame in bits 12..51. */
  function Entry(f: Frame): (w: Word)
    ensures Present(w) && FrameOf(w) == f && w % 4096 == 3 && w < 0x10_0000_0000_0000
  {
    4096 * f + 3
  }

  predicate Present(w: Word) {
    w % 2 == 1
  }

  function FrameOf(w: Word): Frame {
    w / 4096 % 0x100_0000_0000
  }

  /** Follows one entry of the table in frame t. */
  function Step(m: Memory, t: Frame, i: Index): Option<Frame> {
    if Present(Load(m, t, i)) then Some(FrameOf(Load(m, t, i))) else None
  }

  /** The frame that the walk from the root reaches for node x, if every entry on the way is present. */
  function Walk(m: Memory, root: Frame, x: Node): Option<Frame>
    decreases x.depth
  {
    if x.depth == 0 then
      if x.prefix == 0 then Some(root) else None
    else
      match Walk(m, root, Parent(x))
      case None => None
      case Some(t) => Step(m, t, x.prefix % 512)
  }

  /** What the processor finds for a virtual address: the frame it is mapped to. */
  function Translate(m: Memory, root: Frame, a: Word): Option<Frame> {
    Walk(m, root, Node(4, VpnOfAddress(a)))
  }

  // ---------- the same from the words in memory

  /** The word that the processor reads in the table at frame t: eight bytes an entry. */
  function EntryWord(m: Memory, t: Frame, i: Index): Word {
    m[t * 4096 / 8 + i]
  }

  /** Bits 12..51 of a word. */
  function Pointed(w: Word): Frame {
    w / 4096 % 0x100_0000_0000
  }

  /** The words on the way to an address: bits 39..47, 30..38, 21..29 and 12..20 are the indices. */
  function WordsOnTheWay(m: Memory, root: Frame, a: Word): (ws: (Word, Word, Word, Word)) {
    var w0 := EntryWord(m, root, a / 0x80_0000_0000 % 512);
    var w1 := EntryWord(m, Pointed(w0), a / 0x4000_0000 % 512);
    var w2 := EntryWord(m, Pointed(w1), a / 0x20_0000 % 512);
    var w3 := EntryWord(m, Pointed(w2), a / 0x1000 % 512);
    (w0, w1, w2, w3)
  }

  /** Present and read/write are set; the other flags, bits 2..11 and 52..63, are clear. */
  predicate PlainWord(w: Word) {
    w % 4096 == 3 && w < 0x10_0000_0000_0000
  }

  /** The processor finds frame f for the address, and may write there. */
  predicate Writable(m: Memory, root: Frame, a: Word, f: Frame) {
    var (w0, w1, w2, w3) := WordsOnTheWay(m, root, a);
    PlainWord(w0) && PlainWord(w1) && PlainWord(w2) && PlainWord(w3) && Pointed(w3) == f
  }

  /** The processor meets an entry that is not present. */
  predicate Faults(m: Memory, root: Frame, a: Word) {
    var (w0, w1, w2, w3) := WordsOnTheWay(m, root, a);
    w0 % 2 == 0 || w1 % 2 == 0 || w2 % 2 == 0 || w3 % 2 == 0
  }

  /** Every present entry of every table that the walk reaches is plain. */
  ghost predicate Plain(m: Memory, root: Frame) {
    forall x: Node, i: Index :: x.depth <= 3 && Walk(m, root, x).Some? ==> PlainEntry(m, Walk(m, root, x).value, i)
  }

  predicate PlainEntry(m: Memory, t: Frame, i: Index) {
    Present(Load(m, t, i)) ==> PlainWord(Load(m, t, i))
  }

  lemma EntryIsPlain(f: Frame)
    ensures PlainWord(Entry(f))
  {
  }

  /** The walk reads those words. */
  lemma WalkReads(m: Memory, root: Frame, a: Word)
    ensures var (w0, w1, w2, w3) := WordsOnTheWay(m, root, a);
            var v := VpnOfAddress(a);
            && Translate(m, root, a) == (if Faults(m, root, a) then None else Some(Pointed(w3)))
            && (Translate(m, root, a).Some? ==>
                && Walk(m, root, PathNode(v, 1)) == Some(Pointed(w0)) && Walk(m, root, PathNode(v, 2)) == Some(Pointed(w1))
                && Walk(m, root, PathNode(v, 3)) == Some(Pointed(w2)))
  {
    var v := VpnOfAddress(a);
    IndicesOfAddress(a);
    hide VpnOfAddress, Prefix, Load, Walk;
    PathStart(m, root, v);
    ReadStep(m, root, v, 0);
    ReadStep(m, root, v, 1);
    ReadStep(m, root, v, 2);
    ReadStep(m, root, v, 3);
  }

  lemma IndicesOfAddress(a: Word)
    ensures var v := VpnOfAddress(a);
            && IndexAt(v, 0) == a / 0x80_0000_0000 % 512 && IndexAt(v, 1) == a / 0x4000_0000 % 512
            && IndexAt(v, 2) == a / 0x20_0000 % 512 && IndexAt(v, 3) == a / 0x1000 % 512 && PathNode(v, 4) == Node(4, v)
  {
    CutIndex(a, 0x800_0000, 1);
    CutIndex(a, 0x4_0000, 512);
    CutIndex(a, 512, 0x4_0000);
    CutIndex(a, 1, 0x800_0000);
  }

  /** An index cut out of the page number is one cut out of the address. */
  lemma CutIndex(a: Word, span: nat, above: nat)
    requires (span, above) in {(0x800_0000, 1), (0x4_0000, 512), (512, 0x4_0000), (1, 0x800_0000)}
    ensures VpnOfAddress(a) / span % 512 == a / (4096 * span) % 512
  {
    var p := a / 4096;
    WrapDiv(p, span, 512 * above);
    WrapWrap(p / span, 512, above);
  }

  lemma PathStart(m: Memory, root: Frame, v: Vpn)
    ensures Walk(m, root, PathNode(v, 0)) == Some(root)
  {
  }

  lemma ReadStep(m: Memory, root: Frame, v: Vpn, depth: nat)
    requires depth <= 3
    ensures Walk(m, root, PathNode(v, depth + 1))
         == match Walk(m, root, PathNode(v, depth))
            case None => None
            case Some(t) =>
              var w := EntryWord(m, t, IndexAt(v, depth));
              if w % 2 == 0 then None else Some(Pointed(w))
  {
    PrefixStep(v, depth);
  }

  /** With plain tables, whatever translates may be written. */
  lemma PlainWritable(m: Memory, root: Frame, a: Word)
    requires Plain(m, root)
    ensures match Translate(m, root, a)
            case None => Faults(m, root, a)
            case Some(f) => Writable(m, root, a, f)
  {
    hide Walk, VpnOfAddress;
    WalkReads(m, root, a);
    var v := VpnOfAddress(a);
    if Translate(m, root, a).Some? {
      PathStart(m, root, v);
      IndicesOfAddress(a);
      assert PlainEntry(m, Walk(m, root, PathNode(v, 0)).value, IndexAt(v, 0));
      assert PlainEntry(m, Walk(m, root, PathNode(v, 1)).value, IndexAt(v, 1));
      assert PlainEntry(m, Walk(m, root, PathNode(v, 2)).value, IndexAt(v, 2));
      assert PlainEntry(m, Walk(m, root, PathNode(v, 3)).value, IndexAt(v, 3));
    }
  }

  function Lookup(view: map<Vpn, Frame>, v: Vpn): Option<Frame> {
    if v in view then Some(view[v]) else None
  }

  /** A way to reach frames: the walk, with memory and root fixed. */
  type Reach = Node -> Option<Frame>

  function ReachFrom(m: Memory, root: Frame): Reach {
    x => Walk(m, root, x)
  }

  /** Exactly the nodes in `tables` are reached at depths 0 to 3. */
  ghost predicate Populated(w: Reach, tables: set<Node>) {
    && (forall x: Node :: x.depth <= 3 ==> (w(x).Some? <==> x in tables))
    && (forall x: Node :: x in tables ==> x.depth <= 3)
  }

  /** Every table lies in a frame root..next - 1. */
  ghost predicate InZone(w: Reach, root: nat, next: nat, tables: set<Node>) {
    forall x: Node :: x in tables && w(x).Some? ==> root <= w(x).value < next
  }

  /** No frame holds two tables. */
  ghost predicate Distinct(w: Reach, tables: set<Node>) {
    forall x: Node, y: Node :: x in tables && y in tables && w(x) == w(y) ==> x == y
  }

  /** The leaf entries are exactly `view`. */
  ghost predicate Leaves(w: Reach, view: map<Vpn, Frame>) {
    forall v: Vpn :: w(Node(4, v)) == Lookup(view, v)
  }

  /**
   The tree invariant.  The tables are exactly `tables`; they lie in distinct frames among root..next - 1, of which
   there are as many as tables; and the leaf entries are exactly `view`.
   */
  ghost predicate Tree(w: Reach, root: nat, next: nat, tables: set<Node>, view: map<Vpn, Frame>) {
    && Populated(w, tables)
    && InZone(w, root, next, tables)
    && Distinct(w, tables)
    && |tables| == next - root
    && Leaves(w, view)
  }

  /** Reading the invariant at one node. */
  lemma TreeAt(m: Memory, root: Frame, next: nat, tables: set<Node>, view: map<Vpn, Frame>, x: Node)
    requires Tree(ReachFrom(m, root), root, next, tables, view)
    ensures x.depth <= 3 ==> (Walk(m, root, x).Some? <==> x in tables)
    ensures x in tables ==> x.depth <= 3 && root <= Walk(m, root, x).value < next
    ensures x.depth == 4 && x.prefix < 0x10_0000_0000 ==> Walk(m, root, x) == Lookup(view, x.prefix)
  {
    assert ReachFrom(m, root)(x) == Walk(m, root, x);
  }

  ghost function Interval(lo: int, hi: int): (s: set<int>)
    requires lo <= hi
    ensures forall x :: x in s <==> lo <= x < hi
    ensures |s| == hi - lo
    decreases hi - lo
  {
    if lo == hi then {} else Interval(lo, hi - 1) + {hi - 1}
  }

  lemma SubsetOfSameSize<T>(a: set<T>, b: set<T>)
    requires a <= b && |a| == |b|
    ensures a == b
  {
    assert b == a + (b - a);
  }

  lemma {:induction false} FramesOfTables(w: Reach, root: nat, next: nat, tables: set<Node>)
    requires Distinct(w, tables) && InZone(w, root, next, tables)
    requires forall x: Node :: x in tables ==> w(x).Some?
    ensures |set x | x in tables :: w(x).value as int| == |tables|
    decreases |tables|
  {
    if tables != {} {
      var x :| x in tables;
      var rest := tables - {x};
      FramesOfTables(w, root, next, rest);
      assert (set y | y in tables :: w(y).value as int) == (set y | y in rest :: w(y).value as int) + {w(x).value as int};
    }
  }

  /** Every page handed out holds a table that the walk reaches. */
  lemma EveryPageUsed(w: Reach, root: nat, next: nat, tables: set<Node>, view: map<Vpn, Frame>, f: Frame)
    requires Tree(w, root, next, tables, view)
    requires root <= f < next
    ensures exists x: Node :: x in tables && w(x) == Some(f)
  {
    FramesOfTables(w, root, next, tables);
    SubsetOfSameSize(set x | x in tables :: w(x).value as int, Interval(root, next));
    assert f as int in Interval(root, next);
  }

  /** w' is w, with node c reaching frame f. */
  ghost predicate Updated(w: Reach, w': Reach, c: Node, f: Frame) {
    forall y: Node :: y.depth <= 4 ==> w'(y) == if y == c then Some(f) else w(y)
  }

  /** A lone root without present entries is the tree of the empty map. */
  lemma RootOnly(w: Reach, root: Frame)
    requires forall x: Node :: w(x) == if x == Node(0, 0) then Some(root) else None
    ensures Tree(w, root, root + 1, {Node(0, 0)}, map[])
  {
  }

  /** A new table in the next free frame keeps the tree invariant. */
  lemma NewTable(w: Reach, w': Reach, root: nat, free: Frame, tables: set<Node>, view: map<Vpn, Frame>, c: Node)
    requires Tree(w, root, free, tables, view)
    requires c.depth <= 3 && c !in tables && Updated(w, w', c, free)
    ensures Tree(w', root, free + 1, tables + {c}, view)
  {
  }

  /** A new leaf keeps the tree invariant and updates the map. */
  lemma NewLeaf(w: Reach, w': Reach, root: nat, next: nat, tables: set<Node>, view: map<Vpn, Frame>, v: Vpn, f: Frame)
    requires Tree(w, root, next, tables, view)
    requires Updated(w, w', Node(4, v), f)
    ensures Tree(w', root, next, tables, view[v := f])
  {
  }

  lemma PrefixStep(v: Vpn, depth: nat)
    requires depth <= 3
    ensures Parent(PathNode(v, depth + 1)) == PathNode(v, depth)
    ensures PathNode(v, depth + 1).prefix % 512 == IndexAt(v, depth)
  {
  }

  /** One step of the walk along the path to page v. */
  lemma WalkStep(m: Memory, root: Frame, v: Vpn, depth: nat)
    requires depth <= 3 && Walk(m, root, PathNode(v, depth)).Some?
    ensures Walk(m, root, PathNode(v, depth + 1)) == Step(m, Walk(m, root, PathNode(v, depth)).value, IndexAt(v, depth))
  {
    PrefixStep(v, depth);
  }

  /** No table reached so far lies in frame f, and no two of them share a frame. */
  ghost predicate Separate(w: Reach, f: nat) {
    && (forall x: Node :: x.depth <= 3 && w(x).Some? ==> w(x).value != f)
    && (forall x: Node, y: Node :: x.depth <= 3 && y.depth <= 3 && w(x).Some? && w(x) == w(y) ==> x == y)
  }

  /** Linking a zeroed fresh frame into a non-present entry adds one node to the walk and changes nothing else. */
  lemma {:induction false} LinkWalk(m: Memory, root: Frame, free: Frame, c: Node, m': Memory, y: Node)
    requires Separate(ReachFrom(m, root), free)
    requires 1 <= c.depth <= 3 && Walk(m, root, Parent(c)).Some? && Walk(m, root, c) == None
    requires m' == Store(ZeroPage(m, free), Walk(m, root, Parent(c)).value, c.prefix % 512, Entry(free))
    requires y.depth <= 4
    ensures Walk(m', root, y) == if y == c then Some(free) else Walk(m, root, y)
    decreases y.depth
  {
    if y.depth > 0 {
      var p, t := Parent(c), Walk(m, root, Parent(c)).value;
      LinkWalk(m, root, free, c, m', Parent(y));
      assert ReachFrom(m, root)(p) == Some(t) && t != free;
      if Parent(y) != c && Parent(y) != p && Walk(m, root, Parent(y)).Some? {
        assert ReachFrom(m, root)(Parent(y)) == Walk(m, root, Parent(y));
      }
    }
  }

  /** Writing a leaf entry changes the walk at that page and nowhere else. */
  lemma {:induction false} LeafWalk(m: Memory, root: Frame, next: nat, v: Vpn, f: Frame, m': Memory, y: Node)
    requires Separate(ReachFrom(m, root), next)
    requires Walk(m, root, PathNode(v, 3)).Some?
    requires m' == Store(m, Walk(m, root, PathNode(v, 3)).value, IndexAt(v, 3), Entry(f))
    requires y.depth <= 4
    ensures Walk(m', root, y) == if y == PathNode(v, 4) then Some(f) else Walk(m, root, y)
    decreases y.depth
  {
    if y.depth > 0 {
      LeafWalk(m, root, next, v, f, m', Parent(y));
    }
  }

  /** The new table has no present entry, and the entry that leads to it is plain. */
  lemma LinkPlain(m: Memory, root: Frame, free: Frame, c: Node, m': Memory)
    requires Plain(m, root) && Separate(ReachFrom(m, root), free)
    requires 1 <= c.depth <= 3 && Walk(m, root, Parent(c)).Some? && Walk(m, root, c) == None
    requires m' == Store(ZeroPage(m, free), Walk(m, root, Parent(c)).value, c.prefix % 512, Entry(free))
    ensures Plain(m', root)
  {
    hide Walk, Store, ZeroPage, Load, Entry;
    EntryIsPlain(free);
    forall x: Node, i: Index | x.depth <= 3 && Walk(m', root, x).Some?
      ensures PlainEntry(m', Walk(m', root, x).value, i)
    {
      LinkWalk(m, root, free, c, m', x);
      if x != c {
        assert PlainEntry(m, Walk(m, root, x).value, i);
        assert ReachFrom(m, root)(x) == Walk(m, root, x);
      }
    }
  }

  lemma LeafPlain(m: Memory, root: Frame, next: nat, v: Vpn, f: Frame, m': Memory)
    requires Plain(m, root) && Separate(ReachFrom(m, root), next)
    requires Walk(m, root, PathNode(v, 3)).Some?
    requires m' == Store(m, Walk(m, root, PathNode(v, 3)).value, IndexAt(v, 3), Entry(f))
    ensures Plain(m', root)
  {
    hide Walk, Store, Load, Entry, Prefix;
    EntryIsPlain(f);
    forall x: Node, i: Index | x.depth <= 3 && Walk(m', root, x).Some?
      ensures PlainEntry(m', Walk(m', root, x).value, i)
    {
      LeafWalk(m, root, next, v, f, m', x);
      assert PlainEntry(m, Walk(m, root, x).value, i);
    }
  }
}
