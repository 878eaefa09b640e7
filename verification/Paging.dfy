/**
 mapPages as a function on the state it works on (memory and the page stack), and the proof that it refines the
 update of a finite map.
 */
module Paging {
  import opened Machine
  import opened PageTables

  /**
   Memory together with the page stack: free frames next .. next + pages - 1.  `exhausted` records that
   allocatePage has returned NULL at least once.
   */
  datatype Pager = Pager(mem: Memory, next: nat, pages: nat, exhausted: bool) {
    predicate Valid() {
      pages >= 1 && next + pages <= 0x100_0000_0000
    }
  }

  /**
   allocatePageAndZero.  The last page is never handed out: NULL, that is frame 0, is returned instead.  A page at
   address 0 looks like NULL, so it is handed out without being cleared.
   */
  function AllocateZeroed(s: Pager): (r: (Frame, Pager))
    requires s.Valid()
    ensures r.1.Valid() && r.1.next + r.1.pages == s.next + s.pages
  {
    if s.pages == 1 then (0, s.(exhausted := true))
    else (s.next, Pager(if s.next == 0 then s.mem else ZeroPage(s.mem, s.next), s.next + 1, s.pages - 1, s.exhausted))
  }

  /** One round of the loop: from table t to the table below its entry i, which is created if it is not there. */
  function Descend(s: Pager, t: Frame, i: Index): (r: (Frame, Pager))
    requires s.Valid()
    ensures r.1.Valid() && r.1.next + r.1.pages == s.next + s.pages && (s.exhausted ==> r.1.exhausted)
  {
    if Present(Load(s.mem, t, i)) then
      (FrameOf(Load(s.mem, t, i)), s)
    else
      var (f, s') := AllocateZeroed(s);
      (f, s'.(mem := Store(s'.mem, t, i, Entry(f))))
  }

  /** The first `depth` rounds. */
  function DescendTo(s: Pager, root: Frame, v: Vpn, depth: nat): (r: (Frame, Pager))
    requires s.Valid() && depth <= 3
    ensures r.1.Valid() && r.1.next + r.1.pages == s.next + s.pages && (s.exhausted ==> r.1.exhausted)
  {
    if depth == 0 then (root, s)
    else
      var (t, s') := DescendTo(s, root, v, depth - 1);
      Descend(s', t, IndexAt(v, depth - 1))
  }

  function MapPage(s: Pager, root: Frame, phys: Word, virt: Word): (r: Pager)
    requires s.Valid()
    ensures r.Valid() && r.next + r.pages == s.next + s.pages && (s.exhausted ==> r.exhausted)
  {
    var (t, s') := DescendTo(s, root, VpnOfAddress(virt), 3);
    s'.(mem := Store(s'.mem, t, IndexAt(VpnOfAddress(virt), 3), Entry(FrameOfAddress(phys))))
  }

  /** The tables on the way to page v, down to `depth`, without the root. */
  ghost function PathTables(v: Vpn, depth: nat): set<Node>
    requires depth <= 3
  {
    set k: nat | 1 <= k <= depth :: PathNode(v, k)
  }

  /** The tables that a map with these pages needs: the root and one per distinct 9-, 18- and 27-bit prefix. */
  ghost function Tables(vpns: set<Vpn>): set<Node> {
    {Node(0, 0)} + set v, k: nat | v in vpns && 1 <= k <= 3 :: PathNode(v, k)
  }

  /** The tables that mapping page v would add. */
  ghost function Missing(vpns: set<Vpn>, v: Vpn, depth: nat): set<Node>
    requires depth <= 3
  {
    PathTables(v, depth) - Tables(vpns)
  }

  /** The page tables under `root` represent exactly `view`, with exactly the tables that `view` needs, all of it writable. */
  ghost predicate Represents(s: Pager, root: Frame, view: map<Vpn, Frame>) {
    s.Valid() && root > 0 && Tree(ReachFrom(s.mem, root), root, s.next, Tables(view.Keys), view) && Plain(s.mem, root)
  }

  /** Linking a fresh table keeps the tree invariant. */
  lemma LinkTree(m: Memory, root: Frame, free: Frame, tables: set<Node>, view: map<Vpn, Frame>, c: Node, m': Memory)
    requires Tree(ReachFrom(m, root), root, free, tables, view)
    requires 1 <= c.depth <= 3 && c !in tables && Parent(c) in tables
    requires m' == Store(ZeroPage(m, free), Walk(m, root, Parent(c)).value, c.prefix % 512, Entry(free))
    ensures Tree(ReachFrom(m', root), root, free + 1, tables + {c}, view)
    ensures Walk(m', root, c) == Some(free)
    ensures Plain(m, root) ==> Plain(m', root)
  {
    if Plain(m, root) {
      LinkPlain(m, root, free, c, m');
    }
    var w, w' := ReachFrom(m, root), ReachFrom(m', root);
    forall y: Node | y.depth <= 4
      ensures w'(y) == if y == c then Some(free) else w(y)
    {
      LinkWalk(m, root, free, c, m', y);
    }
    NewTable(w, w', root, free, tables, view, c);
  }

  /** Writing a leaf keeps the tree invariant and updates the map. */
  lemma LeafTree(m: Memory, root: Frame, next: nat, tables: set<Node>, view: map<Vpn, Frame>, v: Vpn, f: Frame, m': Memory)
    requires Tree(ReachFrom(m, root), root, next, tables, view)
    requires Walk(m, root, PathNode(v, 3)).Some?
    requires m' == Store(m, Walk(m, root, PathNode(v, 3)).value, IndexAt(v, 3), Entry(f))
    ensures Tree(ReachFrom(m', root), root, next, tables, view[v := f])
    ensures Plain(m, root) ==> Plain(m', root)
  {
    if Plain(m, root) {
      LeafPlain(m, root, next, v, f, m');
    }
    var w, w' := ReachFrom(m, root), ReachFrom(m', root);
    forall y: Node | y.depth <= 4
      ensures w'(y) == if y == PathNode(v, 4) then Some(f) else w(y)
    {
      LeafWalk(m, root, next, v, f, m', y);
    }
    NewLeaf(w, w', root, next, tables, view, v, f);
  }

  lemma PathTablesStep(v: Vpn, depth: nat)
    requires depth <= 2
    ensures PathTables(v, depth + 1) == PathTables(v, depth) + {PathNode(v, depth + 1)}
  {
    forall k: nat | 1 <= k <= depth + 1
      ensures PathNode(v, k) in PathTables(v, depth) + {PathNode(v, depth + 1)}
    {
      if k <= depth {
        assert PathNode(v, k) in PathTables(v, depth);
      }
    }
  }

  lemma NotOnPath(v: Vpn, depth: nat)
    requires depth <= 2
    ensures PathNode(v, depth + 1) !in PathTables(v, depth)
  {
  }

  lemma MissingStep(vpns: set<Vpn>, v: Vpn, depth: nat)
    requires depth <= 2
    ensures Missing(vpns, v, depth + 1)
         == Missing(vpns, v, depth) + if PathNode(v, depth + 1) in Tables(vpns) then {} else {PathNode(v, depth + 1)}
    ensures |Missing(vpns, v, depth + 1)|
         == |Missing(vpns, v, depth)| + if PathNode(v, depth + 1) in Tables(vpns) then 0 else 1
  {
    PathTablesStep(v, depth);
    assert PathNode(v, depth + 1) !in Missing(vpns, v, depth);
  }

  /** What the memory looks like after `depth` rounds, when no allocation failed. */
  ghost predicate Descended(s: Pager, r: (Frame, Pager), root: Frame, view: map<Vpn, Frame>, v: Vpn, depth: nat)
    requires depth <= 3
  {
    && Tree(ReachFrom(r.1.mem, root), root, r.1.next, Tables(view.Keys) + PathTables(v, depth), view)
    && Walk(r.1.mem, root, PathNode(v, depth)) == Some(r.0)
    && r.1.next == s.next + |Missing(view.Keys, v, depth)| > 0
    && r.1.exhausted == s.exhausted
    && Plain(r.1.mem, root)
  }

  /** One round of the loop against the tree invariant. */
  lemma DescendOnce(s: Pager, t: Frame, root: Frame, tables: set<Node>, view: map<Vpn, Frame>, v: Vpn, depth: nat)
    requires s.Valid() && depth <= 2 && s.next > 0
    requires Tree(ReachFrom(s.mem, root), root, s.next, tables, view)
    requires Walk(s.mem, root, PathNode(v, depth)) == Some(t)
    ensures var c := PathNode(v, depth + 1);
            var (t', s') := Descend(s, t, IndexAt(v, depth));
            && (c in tables ==> s' == s && Walk(s.mem, root, c) == Some(t'))
            && (c !in tables && s.pages >= 2 ==>
                && Tree(ReachFrom(s'.mem, root), root, s.next + 1, tables + {c}, view)
                && Walk(s'.mem, root, c) == Some(t')
                && s'.next == s.next + 1 && s'.exhausted == s.exhausted
                && (Plain(s.mem, root) ==> Plain(s'.mem, root)))
            && (c !in tables && s.pages == 1 ==> s'.exhausted)
  {
    hide Tree, Plain, Walk, ReachFrom, Load, Store, ZeroPage, Entry, Prefix;
    var p, c := PathNode(v, depth), PathNode(v, depth + 1);
    PrefixStep(v, depth);
    WalkStep(s.mem, root, v, depth);
    TreeAt(s.mem, root, s.next, tables, view, p);
    TreeAt(s.mem, root, s.next, tables, view, c);
    if c !in tables && s.pages >= 2 {
      LinkTree(s.mem, root, s.next, tables, view, c, Descend(s, t, IndexAt(v, depth)).1.mem);
    }
  }

  lemma DescendStep(s: Pager, r: (Frame, Pager), root: Frame, view: map<Vpn, Frame>, v: Vpn, depth: nat)
    requires depth <= 2 && r.1.Valid() && Descended(s, r, root, view, v, depth)
    requires s.next + s.pages == r.1.next + r.1.pages
    requires s.pages > |Missing(view.Keys, v, depth + 1)|
    ensures Descended(s, Descend(r.1, r.0, IndexAt(v, depth)), root, view, v, depth + 1)
  {
    hide Tree, Plain, Tables, PathTables, Missing, Prefix, Walk, ReachFrom, Descend;
    var c := PathNode(v, depth + 1);
    var tables := Tables(view.Keys) + PathTables(v, depth);
    DescendOnce(r.1, r.0, root, tables, view, v, depth);
    PathTablesStep(v, depth);
    MissingStep(view.Keys, v, depth);
    NotOnPath(v, depth);
    assert tables + {c} == Tables(view.Keys) + PathTables(v, depth + 1);
    assert c in tables ==> tables + {c} == tables;
  }

  /** With enough pages the rounds build exactly the missing tables. */
  lemma {:induction false} DescendToTree(s: Pager, root: Frame, view: map<Vpn, Frame>, v: Vpn, depth: nat)
    requires depth <= 3 && Represents(s, root, view)
    requires s.pages > |Missing(view.Keys, v, depth)|
    ensures Descended(s, DescendTo(s, root, v, depth), root, view, v, depth)
  {
    hide Tree, Plain, Tables, PathTables, Prefix, ReachFrom, Descend;
    if depth == 0 {
      NoPathTables(view.Keys, v);
      NextPositive(s, root, view);
    } else {
      MissingStep(view.Keys, v, depth - 1);
      DescendToTree(s, root, view, v, depth - 1);
      DescendStep(s, DescendTo(s, root, v, depth - 1), root, view, v, depth - 1);
    }
  }

  /** With too few, allocatePage returns NULL on the way. */
  lemma {:induction false} DescendToExhausts(s: Pager, root: Frame, view: map<Vpn, Frame>, v: Vpn, depth: nat)
    requires depth <= 3 && Represents(s, root, view)
    requires s.pages <= |Missing(view.Keys, v, depth)|
    ensures DescendTo(s, root, v, depth).1.exhausted
  {
    hide Tree, Plain, Tables, PathTables, Prefix, ReachFrom, Descend, Missing, Walk;
    if depth == 0 {
      NoPathTables(view.Keys, v);
    } else {
      MissingStep(view.Keys, v, depth - 1);
      if s.pages <= |Missing(view.Keys, v, depth - 1)| {
        DescendToExhausts(s, root, view, v, depth - 1);
      } else {
        var (t, s') := DescendTo(s, root, v, depth - 1);
        DescendToTree(s, root, view, v, depth - 1);
        NotOnPath(v, depth - 1);
        DescendOnce(s', t, root, Tables(view.Keys) + PathTables(v, depth - 1), view, v, depth - 1);
      }
    }
  }

  lemma NoPathTables(vpns: set<Vpn>, v: Vpn)
    ensures PathTables(v, 0) == {} && Missing(vpns, v, 0) == {}
    ensures Tables(vpns) + PathTables(v, 0) == Tables(vpns)
    ensures PathNode(v, 0) == Node(0, 0)
  {
  }

  lemma TablesStep(vpns: set<Vpn>, v: Vpn)
    ensures Tables(vpns + {v}) == Tables(vpns) + PathTables(v, 3)
    ensures |Tables(vpns + {v})| == |Tables(vpns)| + |Missing(vpns, v, 3)|
  {
    forall x | x in Tables(vpns + {v})
      ensures x in Tables(vpns) + PathTables(v, 3)
    {
      if x != Node(0, 0) {
        var u: Vpn, k: nat :| u in vpns + {v} && 1 <= k <= 3 && x == PathNode(u, k);
        assert u in vpns ==> x in Tables(vpns);
      }
    }
    forall x | x in PathTables(v, 3)
      ensures x in Tables(vpns + {v})
    {
      var k: nat :| 1 <= k <= 3 && x == PathNode(v, k);
      assert v in vpns + {v};
    }
    assert Tables(vpns) + PathTables(v, 3) == Tables(vpns) + Missing(vpns, v, 3);
  }

  /**
   mapPages refines a finite-map update.  With more pages on the stack than tables missing on the way to the page
   (never more than three), the tables afterwards represent the old map with that one page remapped, the pages
   taken are exactly the missing tables, and no allocation fails.  With fewer, allocatePage returns NULL.
   */
  lemma MapPageRefines(s: Pager, root: Frame, view: map<Vpn, Frame>, phys: Word, virt: Word)
    requires Represents(s, root, view)
    ensures var v := VpnOfAddress(virt);
            var need := |Missing(view.Keys, v, 3)|;
            var s' := MapPage(s, root, phys, virt);
            && need <= 3
            && (s.pages > need ==>
                && Represents(s', root, view[v := FrameOfAddress(phys)])
                && s'.next == s.next + need
                && s'.exhausted == s.exhausted)
            && (s.pages <= need ==> s'.exhausted)
  {
    hide Tree, Plain, Tables, PathTables, Missing, Prefix, Walk, ReachFrom, DescendTo, Store;
    var v := VpnOfAddress(virt);
    AtMostThree(view.Keys, v);
    if s.pages <= |Missing(view.Keys, v, 3)| {
      DescendToExhausts(s, root, view, v, 3);
    } else {
      DescendToTree(s, root, view, v, 3);
      var (t, s') := DescendTo(s, root, v, 3);
      var f := FrameOfAddress(phys);
      TablesStep(view.Keys, v);
      assert view[v := f].Keys == view.Keys + {v};
      LeafTree(s'.mem, root, s'.next, Tables(view.Keys) + PathTables(v, 3), view, v, f, MapPage(s, root, phys, virt).mem);
    }
  }

  lemma AtMostThree(vpns: set<Vpn>, v: Vpn)
    ensures |Missing(vpns, v, 3)| <= 3
    ensures PathNode(v, 3) in PathTables(v, 3)
  {
    MissingStep(vpns, v, 0);
    MissingStep(vpns, v, 1);
    MissingStep(vpns, v, 2);
    NoPathTables(vpns, v);
  }

  /** The address-level reading: the page just mapped translates to its frame, every other page as before. */
  lemma MapPageTranslates(s: Pager, root: Frame, view: map<Vpn, Frame>, phys: Word, virt: Word, a: Word)
    requires Represents(s, root, view) && s.pages >= 4
    ensures Translate(MapPage(s, root, phys, virt).mem, root, a)
         == if VpnOfAddress(a) == VpnOfAddress(virt) then Some(FrameOfAddress(phys)) else Translate(s.mem, root, a)
    ensures match Translate(MapPage(s, root, phys, virt).mem, root, a)
            case None => Faults(MapPage(s, root, phys, virt).mem, root, a)
            case Some(f) => Writable(MapPage(s, root, phys, virt).mem, root, a, f)
  {
    hide Tree, Plain, Tables, Missing, Walk, ReachFrom, MapPage;
    var s' := MapPage(s, root, phys, virt);
    var view' := view[VpnOfAddress(virt) := FrameOfAddress(phys)];
    MapPageRefines(s, root, view, phys, virt);
    TreeAt(s.mem, root, s.next, Tables(view.Keys), view, Node(4, VpnOfAddress(a)));
    TreeAt(s'.mem, root, s'.next, Tables(view'.Keys), view', Node(4, VpnOfAddress(a)));
    PlainWritable(s'.mem, root, a);
  }

  /** The root's own frame is in use, so the free pages start above frame 0. */
  lemma NextPositive(s: Pager, root: Frame, view: map<Vpn, Frame>)
    requires Represents(s, root, view)
    ensures s.next > root
  {
    assert Node(0, 0) in Tables(view.Keys);
  }

  /** A freshly zeroed PML4 is the tree of the empty map, whatever memory held before, unless it is at address 0. */
  lemma EmptyTree(s: Pager)
    requires s.Valid() && s.pages >= 2 && s.next > 0
    ensures AllocateZeroed(s).0 == s.next
    ensures Represents(AllocateZeroed(s).1, s.next, map[])
  {
    hide Tree;
    var root: Frame, m := s.next, AllocateZeroed(s).1.mem;
    assert Tables({}) == {Node(0, 0)};
    forall x: Node
      ensures ReachFrom(m, root)(x) == if x == Node(0, 0) then Some(root) else None
    {
      if x.depth > 0 {
        EmptyWalk(m, root, x);
      }
    }
    EmptyPlain(m, root);
    hide Plain;
    RootOnly(ReachFrom(m, root), root);
    var empty: map<Vpn, Frame> := map[];
    assert empty.Keys == {};
  }

  lemma {:induction false} EmptyWalk(m: Memory, root: Frame, x: Node)
    requires x.depth > 0 && forall i: Index :: Load(m, root, i) == 0
    ensures Walk(m, root, x) == None
    decreases x.depth
  {
    if x.depth > 1 {
      EmptyWalk(m, root, Parent(x));
    }
  }

  lemma EmptyPlain(m: Memory, root: Frame)
    requires forall i: Index :: Load(m, root, i) == 0
    ensures Plain(m, root)
  {
    forall x: Node, i: Index | x.depth <= 3 && Walk(m, root, x).Some?
      ensures PlainEntry(m, Walk(m, root, x).value, i)
    {
      if x.depth > 0 {
        EmptyWalk(m, root, x);
      }
    }
  }

  /** The new PML4 translates nothing at this address. */
  ghost predicate NothingAt(s: Pager, a: Word)
    requires s.Valid()
  {
    Translate(AllocateZeroed(s).1.mem, AllocateZeroed(s).0, a) == None
  }

  /**
   The new PML4 translates nothing, whatever memory held before, exactly when the free pages do not start at address 0:
   there it keeps what memory held.
   */
  lemma RootClearedIff(next: nat, pages: nat, exhausted: bool)
    requires pages >= 2 && next + pages <= 0x100_0000_0000
    ensures (forall m: Memory, a: Word :: NothingAt(Pager(m, next, pages, exhausted), a)) <==> next > 0
  {
    if next == 0 {
      StaleRoot(pages, exhausted);
    } else {
      forall m: Memory, a: Word
        ensures NothingAt(Pager(m, next, pages, exhausted), a)
      {
        EmptyWalk(AllocateZeroed(Pager(m, next, pages, exhausted)).1.mem, next, Node(4, VpnOfAddress(a)));
      }
    }
  }

  /** Memory in which every word has the present bit. */
  lemma StaleRoot(pages: nat, exhausted: bool)
    requires 2 <= pages <= 0x100_0000_0000
    ensures exists m: Memory, a: Word :: !NothingAt(Pager(m, 0, pages, exhausted), a)
  {
    var m: Memory := seq(RAM_WORDS, _ => 1);
    assert forall f: Frame, i: Index :: Load(m, f, i) == 1;
    assert Walk(m, 0, Node(0, 0)) == Some(0);
    assert Walk(m, 0, Node(1, 0)) == Some(0);
    assert Walk(m, 0, Node(2, 0)) == Some(0);
    assert Walk(m, 0, Node(3, 0)) == Some(0);
    assert Walk(m, 0, Node(4, 0)) == Some(0);
    assert !NothingAt(Pager(m, 0, pages, exhausted), 0);
  }
}
