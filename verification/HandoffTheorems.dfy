/**
 What the handoff guarantees: enough pages, the right translation for every page, and a memory map that keeps the
 page tables out of free memory.
 */
module HandoffTheorems {
  import opened Arithmetic
  import opened Machine
  import opened PageTables
  import opened Paging
  import opened Runs
  import opened Budget
  import opened MapSlots
  import opened MapSplit
  import opened Handoff

  ghost function TableCount(ranges: seq<Range>): nat {
    |Tables(Pages(Flatten(ranges)))|
  }

  function RootOf(zone: Descriptor): Frame
    requires zone.Physical()
  {
    zone.physAddr / 4096
  }

  /**
   The handoff as a whole.  allocatePage returns NULL at some point exactly when the region does not have one page
   more than the tables needed: the root and one table for each distinct 9-, 18- and 27-bit prefix of a mapped page
   number.  Otherwise the tables represent the overwriting of the empty map by all requests in order, and exactly
   that many pages have been taken.
   */
  lemma BuildTablesRefines(mem: Memory, zone: Descriptor, ranges: seq<Range>)
    requires zone.Physical() && zone.physAddr > 0
    ensures var r := BuildTables(mem, zone, ranges);
            && (r.exhausted <==> zone.pages <= TableCount(ranges))
            && (zone.pages > TableCount(ranges) ==>
                && Represents(r, RootOf(zone), Overwrite(map[], Flatten(ranges)))
                && r.next == RootOf(zone) + TableCount(ranges)
                && r.pages == zone.pages - TableCount(ranges))
  {
    hide Represents, MapAll, Flatten;
    var reqs := Flatten(ranges);
    var empty: map<Vpn, Frame> := map[];
    NoTables();
    assert empty.Keys + Pages(reqs) == Pages(reqs);
    if zone.pages >= 2 {
      EmptyTree(StartOf(mem, zone));
      MapAllRefines(AllocateZeroed(StartOf(mem, zone)).1, RootOf(zone), empty, reqs);
    } else {
      assert Node(0, 0) in Tables(Pages(reqs));
    }
  }

  lemma NoTables()
    ensures Tables({}) == {Node(0, 0)}
  {
  }

  /**
   The check the loader's comment asks for: if the region has more pages than one for the root and the budget of
   each range, no allocation fails.
   */
  lemma BudgetPreventsExhaustion(mem: Memory, zone: Descriptor, ranges: seq<Range>)
    requires zone.Physical() && zone.physAddr > 0
    requires zone.pages > 1 + TableBudget(ranges)
    ensures !BuildTables(mem, zone, ranges).exhausted
    ensures TableCount(ranges) <= 1 + TableBudget(ranges)
  {
    hide Tables, Pages, Flatten, BuildTables;
    BudgetSuffices({}, ranges);
    NoTables();
    assert {} + Pages(Flatten(ranges)) == Pages(Flatten(ranges));
    BuildTablesRefines(mem, zone, ranges);
  }

  /** Each request of a list of ranges is one page of one range. */
  lemma FlattenMembers(ranges: seq<Range>, q: Request)
    ensures q in Flatten(ranges) <==> exists i, k :: 0 <= i < |ranges| && 0 <= k < ranges[i].pages && q == RangeRequests(ranges[i])[k]
  {
    hide Flatten, RangeRequests;
    if q in Flatten(ranges) {
      var i, k := MemberFrom(ranges, q);
    }
    if i, k :| 0 <= i < |ranges| && 0 <= k < ranges[i].pages && q == RangeRequests(ranges[i])[k] {
      MemberOf(ranges, i, k);
    }
  }

  lemma {:induction false} MemberFrom(ranges: seq<Range>, q: Request) returns (i: nat, k: nat)
    requires q in Flatten(ranges)
    ensures i < |ranges| && k < ranges[i].pages && q == RangeRequests(ranges[i])[k]
    decreases |ranges|
  {
    hide RangeRequests;
    i := |ranges| - 1;
    if q in Flatten(ranges[..i]) {
      i, k := MemberFrom(ranges[..i], q);
    } else {
      k :| 0 <= k < |RangeRequests(ranges[i])| && RangeRequests(ranges[i])[k] == q;
    }
  }

  lemma {:induction false} MemberOf(ranges: seq<Range>, i: nat, k: nat)
    requires i < |ranges| && k < ranges[i].pages
    ensures RangeRequests(ranges[i])[k] in Flatten(ranges)
    decreases |ranges|
  {
    hide RangeRequests;
    if i < |ranges| - 1 {
      MemberOf(ranges[..|ranges| - 1], i, k);
    }
  }

  /** Page k of a range after the handoff. */
  ghost predicate PageMapped(m: Memory, root: Frame, r: Range, k: nat) {
    Translate(m, root, VirtAt(r, k)) == Some(FrameOfAddress(PhysAt(r, k)))
  }

  /** Every page of every range translates to its own frame. */
  ghost predicate AllMapped(m: Memory, root: Frame, ranges: seq<Range>) {
    forall i, k :: 0 <= i < |ranges| && 0 <= k < ranges[i].pages ==> PageMapped(m, root, ranges[i], k)
  }

  /** An address outside all requested pages does not translate. */
  ghost predicate NothingElse(m: Memory, root: Frame, ranges: seq<Range>) {
    forall a: Word :: VpnOfAddress(a) !in Pages(Flatten(ranges)) ==> Translate(m, root, a) == None
  }

  /** Whatever translates may be written, and the rest faults. */
  ghost predicate AllWritable(m: Memory, root: Frame) {
    forall a: Word :: MayWrite(m, root, a)
  }

  ghost predicate MayWrite(m: Memory, root: Frame, a: Word) {
    match Translate(m, root, a)
    case None => Faults(m, root, a)
    case Some(f) => Writable(m, root, a, f)
  }

  /** By how many pages, modulo 2^36, a range is moved: page numbers are frames plus the shift. */
  function Shift(r: Range): (d: nat)
    ensures d < 0x10_0000_0000
  {
    (r.virt / 4096 - r.phys / 4096) % 0x10_0000_0000
  }

  /** No page of one range has the page number of a page of a range with another shift. */
  ghost predicate ShiftsApart(ranges: seq<Range>) {
    forall i, k, j, l :: 0 <= i < |ranges| && 0 <= k < ranges[i].pages && 0 <= j < |ranges| && 0 <= l < ranges[j].pages
      && Shift(ranges[i]) != Shift(ranges[j])
      ==> VpnOfAddress(VirtAt(ranges[i], k)) != VpnOfAddress(VirtAt(ranges[j], l))
  }

  /** Frames of ranges with one shift that differ do so within the 36 bits that a page number has. */
  ghost predicate NoAlias(ranges: seq<Range>) {
    forall i, k, j, l :: 0 <= i < |ranges| && 0 <= k < ranges[i].pages && 0 <= j < |ranges| && 0 <= l < ranges[j].pages
      && Shift(ranges[i]) == Shift(ranges[j]) && SamePage(PhysAt(ranges[i], k), PhysAt(ranges[j], l))
      ==> FrameOfAddress(PhysAt(ranges[i], k)) == FrameOfAddress(PhysAt(ranges[j], l))
  }

  /** The frames agree in the low 36 bits. */
  predicate SamePage(p: Word, q: Word) {
    FrameOfAddress(p) % 0x10_0000_0000 == FrameOfAddress(q) % 0x10_0000_0000
  }

  /** Memory below 2^48 has no such frames. */
  lemma BelowNoAlias(ranges: seq<Range>)
    requires forall i :: 0 <= i < |ranges| ==> ranges[i].phys + 4096 * ranges[i].pages <= 0x1_0000_0000_0000
    ensures NoAlias(ranges)
  {
    hide FrameOfAddress, PhysAt, SamePage, Shift;
    forall i, k, j, l | 0 <= i < |ranges| && 0 <= k < ranges[i].pages && 0 <= j < |ranges| && 0 <= l < ranges[j].pages
      && Shift(ranges[i]) == Shift(ranges[j]) && SamePage(PhysAt(ranges[i], k), PhysAt(ranges[j], l))
      ensures FrameOfAddress(PhysAt(ranges[i], k)) == FrameOfAddress(PhysAt(ranges[j], l))
    {
      LowFrames(ranges[i], k, ranges[j], l);
    }
  }

  lemma LowFrames(r: Range, k: nat, q: Range, l: nat)
    requires k < r.pages && r.phys + 4096 * r.pages <= 0x1_0000_0000_0000
    requires l < q.pages && q.phys + 4096 * q.pages <= 0x1_0000_0000_0000
    requires SamePage(PhysAt(r, k), PhysAt(q, l))
    ensures FrameOfAddress(PhysAt(r, k)) == FrameOfAddress(PhysAt(q, l))
  {
    hide FrameOfAddress, PhysAt;
    LowFrame(r, k);
    LowFrame(q, l);
  }

  lemma LowFrame(r: Range, k: nat)
    requires k < r.pages && r.phys + 4096 * r.pages <= 0x1_0000_0000_0000
    ensures FrameOfAddress(PhysAt(r, k)) == r.phys / 4096 + k < 0x10_0000_0000
  {
    RangeFrame(r, k);
  }

  /** The page number of any page of any range is its frame plus the shift. */
  lemma ShiftedPage(r: Range, k: nat)
    ensures VpnOfAddress(VirtAt(r, k)) == (FrameOfAddress(PhysAt(r, k)) + Shift(r)) % 0x10_0000_0000
  {
    RangePage(r, k);
    RangeFrame(r, k);
    hide VirtAt, PhysAt, VpnOfAddress, FrameOfAddress;
    FrameSum(r.phys / 4096 + k, Shift(r));
    ShiftSum(r.virt / 4096, r.phys / 4096, k);
  }

  /** Cutting a frame to 40 bits does not show in the low 36. */
  lemma FrameSum(x: nat, y: nat)
    ensures (x % 0x100_0000_0000 + y) % 0x10_0000_0000 == (x + y) % 0x10_0000_0000
  {
    WrapWrap(x, 0x10_0000_0000, 16);
    WrapAdd(y, x, 0x10_0000_0000);
    WrapAdd(y, x % 0x100_0000_0000, 0x10_0000_0000);
  }

  lemma ShiftSum(v: nat, p: nat, k: nat)
    ensures (p + k + (v - p) % 0x10_0000_0000) % 0x10_0000_0000 == (v + k) % 0x10_0000_0000
  {
    WrapAdd(p + k, v - p, 0x10_0000_0000);
  }

  /** Any requests disagree about a page exactly when two shifts meet or two frames alias. */
  lemma ConflictIffShiftsMeet(ranges: seq<Range>)
    ensures NoConflict(Flatten(ranges)) <==> ShiftsApart(ranges) && NoAlias(ranges)
  {
    hide NoConflict, ShiftsApart, NoAlias, Flatten;
    if ShiftsApart(ranges) && NoAlias(ranges) {
      ApartNoConflict(ranges);
    }
    if NoConflict(Flatten(ranges)) {
      NoConflictApart(ranges);
      NoConflictNoAlias(ranges);
    }
  }

  lemma ApartNoConflict(ranges: seq<Range>)
    requires ShiftsApart(ranges) && NoAlias(ranges)
    ensures NoConflict(Flatten(ranges))
  {
    hide ShiftsApart, NoAlias, VpnOfAddress, FrameOfAddress, PhysAt, VirtAt, Flatten;
    var reqs := Flatten(ranges);
    forall a, b | 0 <= a < |reqs| && 0 <= b < |reqs| && reqs[a].Page() == reqs[b].Page()
      ensures reqs[a].Target() == reqs[b].Target()
    {
      FlattenMembers(ranges, reqs[a]);
      FlattenMembers(ranges, reqs[b]);
      var i, k :| 0 <= i < |ranges| && 0 <= k < ranges[i].pages && reqs[a] == RangeRequests(ranges[i])[k];
      var j, l :| 0 <= j < |ranges| && 0 <= l < ranges[j].pages && reqs[b] == RangeRequests(ranges[j])[l];
      SamePageSameTarget(ranges, i, k, j, l);
    }
  }

  /** Without conflicts, pages that share a number share their frame. */
  lemma NoConflictAt(ranges: seq<Range>, i: nat, k: nat, j: nat, l: nat)
    requires NoConflict(Flatten(ranges)) && i < |ranges| && k < ranges[i].pages && j < |ranges| && l < ranges[j].pages
    requires VpnOfAddress(VirtAt(ranges[i], k)) == VpnOfAddress(VirtAt(ranges[j], l))
    ensures FrameOfAddress(PhysAt(ranges[i], k)) == FrameOfAddress(PhysAt(ranges[j], l))
  {
    hide VpnOfAddress, FrameOfAddress, PhysAt, VirtAt, Flatten;
    var p, q := RangeRequests(ranges[i])[k], RangeRequests(ranges[j])[l];
    FlattenMembers(ranges, p);
    FlattenMembers(ranges, q);
  }

  lemma NoConflictApart(ranges: seq<Range>)
    requires NoConflict(Flatten(ranges))
    ensures ShiftsApart(ranges)
  {
    hide NoConflict, VpnOfAddress, FrameOfAddress, PhysAt, VirtAt, Flatten, Shift;
    forall i, k, j, l | 0 <= i < |ranges| && 0 <= k < ranges[i].pages && 0 <= j < |ranges| && 0 <= l < ranges[j].pages
      && Shift(ranges[i]) != Shift(ranges[j])
      ensures VpnOfAddress(VirtAt(ranges[i], k)) != VpnOfAddress(VirtAt(ranges[j], l))
    {
      ShiftedPage(ranges[i], k);
      ShiftedPage(ranges[j], l);
      SumsDiffer(FrameOfAddress(PhysAt(ranges[i], k)), Shift(ranges[i]), Shift(ranges[j]));
      if VpnOfAddress(VirtAt(ranges[i], k)) == VpnOfAddress(VirtAt(ranges[j], l)) {
        NoConflictAt(ranges, i, k, j, l);
      }
    }
  }

  lemma SumsDiffer(f: nat, x: nat, y: nat)
    requires x < 0x10_0000_0000 && y < 0x10_0000_0000 && x != y
    ensures (f + x) % 0x10_0000_0000 != (f + y) % 0x10_0000_0000
  {
  }

  lemma NoConflictNoAlias(ranges: seq<Range>)
    requires NoConflict(Flatten(ranges))
    ensures NoAlias(ranges)
  {
    hide NoConflict, VpnOfAddress, FrameOfAddress, PhysAt, VirtAt, Flatten, Shift, SamePage;
    forall i, k, j, l | 0 <= i < |ranges| && 0 <= k < ranges[i].pages && 0 <= j < |ranges| && 0 <= l < ranges[j].pages
      && Shift(ranges[i]) == Shift(ranges[j]) && SamePage(PhysAt(ranges[i], k), PhysAt(ranges[j], l))
      ensures FrameOfAddress(PhysAt(ranges[i], k)) == FrameOfAddress(PhysAt(ranges[j], l))
    {
      SameShiftPages(ranges[i], ranges[j], k, l);
      NoConflictAt(ranges, i, k, j, l);
    }
  }

  /** With one shift, page numbers agree exactly when frames agree in the low 36 bits. */
  lemma SameShiftPages(r: Range, q: Range, k: nat, l: nat)
    requires Shift(r) == Shift(q)
    ensures VpnOfAddress(VirtAt(r, k)) == VpnOfAddress(VirtAt(q, l)) <==> SamePage(PhysAt(r, k), PhysAt(q, l))
  {
    hide VpnOfAddress, FrameOfAddress, PhysAt, VirtAt, Shift;
    ShiftedPage(r, k);
    ShiftedPage(q, l);
    CancelShift(FrameOfAddress(PhysAt(r, k)), FrameOfAddress(PhysAt(q, l)), Shift(r));
  }

  lemma CancelShift(f: nat, g: nat, o: nat)
    ensures (f + o) % 0x10_0000_0000 == (g + o) % 0x10_0000_0000 <==> f % 0x10_0000_0000 == g % 0x10_0000_0000
  {
  }

  lemma SamePageSameTarget(ranges: seq<Range>, i: nat, k: nat, j: nat, l: nat)
    requires ShiftsApart(ranges) && NoAlias(ranges)
    requires i < |ranges| && k < ranges[i].pages && j < |ranges| && l < ranges[j].pages
    requires VpnOfAddress(VirtAt(ranges[i], k)) == VpnOfAddress(VirtAt(ranges[j], l))
    ensures FrameOfAddress(PhysAt(ranges[i], k)) == FrameOfAddress(PhysAt(ranges[j], l))
  {
    hide VpnOfAddress, FrameOfAddress, PhysAt, VirtAt, Shift, SamePage;
    if Shift(ranges[i]) == Shift(ranges[j]) {
      SameShiftPages(ranges[i], ranges[j], k, l);
    }
  }

  /**
   With enough pages, every page of every range translates to its own frame exactly when no two requests disagree about
   a page; and nothing else translates, in any case.
   */
  lemma HandoffHonours(mem: Memory, zone: Descriptor, ranges: seq<Range>)
    requires zone.Physical() && zone.physAddr > 0 && zone.pages > TableCount(ranges)
    ensures var m := BuildTables(mem, zone, ranges).mem;
            && (AllMapped(m, RootOf(zone), ranges) <==> NoConflict(Flatten(ranges)))
            && NothingElse(m, RootOf(zone), ranges) && AllWritable(m, RootOf(zone))
  {
    hide BuildTables, TableCount, Tree, Plain, Tables, NoConflict, Flatten, RangeRequests, Faults, Writable, WordsOnTheWay;
    var r, root, reqs := BuildTables(mem, zone, ranges), RootOf(zone), Flatten(ranges);
    var view := Overwrite(map[], reqs);
    BuildTablesRefines(mem, zone, ranges);
    HonouredIffNoConflict(map[], reqs);
    forall a: Word
      ensures Translate(r.mem, root, a) == Lookup(view, VpnOfAddress(a))
    {
      TreeAt(r.mem, root, r.next, Tables(view.Keys), view, Node(4, VpnOfAddress(a)));
    }
    MappedIffHonoured(r.mem, root, ranges, view);
    forall a: Word | VpnOfAddress(a) !in Pages(reqs)
      ensures Translate(r.mem, root, a) == None
    {
      OverwriteUntouched(map[], reqs, VpnOfAddress(a));
    }
    forall a: Word
      ensures MayWrite(r.mem, root, a)
    {
      PlainWritable(r.mem, root, a);
    }
  }

  /** In terms of the ranges: exactly when no two shifts meet and no two frames alias. */
  lemma HandoffTranslates(mem: Memory, zone: Descriptor, ranges: seq<Range>)
    requires zone.Physical() && zone.physAddr > 0 && zone.pages > TableCount(ranges)
    ensures var m := BuildTables(mem, zone, ranges).mem;
            && (AllMapped(m, RootOf(zone), ranges) <==> ShiftsApart(ranges) && NoAlias(ranges))
            && NothingElse(m, RootOf(zone), ranges) && AllWritable(m, RootOf(zone))
  {
    hide BuildTables, TableCount, NoConflict, ShiftsApart, NoAlias, Flatten, AllMapped, NothingElse, AllWritable;
    HandoffHonours(mem, zone, ranges);
    ConflictIffShiftsMeet(ranges);
  }

  lemma MappedIffHonoured(m: Memory, root: Frame, ranges: seq<Range>, view: map<Vpn, Frame>)
    requires forall a: Word :: Translate(m, root, a) == Lookup(view, VpnOfAddress(a))
    ensures AllMapped(m, root, ranges) <==> Honoured(view, Flatten(ranges))
  {
    hide Translate, Lookup, Flatten, VpnOfAddress, FrameOfAddress, PhysAt, VirtAt;
    var reqs := Flatten(ranges);
    if AllMapped(m, root, ranges) {
      forall n | 0 <= n < |reqs|
        ensures Lookup(view, reqs[n].Page()) == Some(reqs[n].Target())
      {
        FlattenMembers(ranges, reqs[n]);
        var i, k :| 0 <= i < |ranges| && 0 <= k < ranges[i].pages && reqs[n] == RangeRequests(ranges[i])[k];
        assert PageMapped(m, root, ranges[i], k);
      }
    }
    if Honoured(view, reqs) {
      forall i, k | 0 <= i < |ranges| && 0 <= k < ranges[i].pages
        ensures PageMapped(m, root, ranges[i], k)
      {
        var q := RangeRequests(ranges[i])[k];
        FlattenMembers(ranges, q);
        var n :| 0 <= n < |reqs| && reqs[n] == q;
        assert Lookup(view, reqs[n].Page()) == Some(reqs[n].Target());
      }
    }
  }

  /** A range is left where it is, or moved by the offset. */
  predicate ShiftIs(r: Range, moved: bool, offset: Word) {
    if moved then r.virt == Add64(r.phys, offset) else r.virt == r.phys
  }

  /** Pages left in place have shift 0; pages moved by the offset have its page number, one more if the byte offsets carry. */
  lemma ShiftOf(r: Range, moved: bool, offset: Word)
    requires ShiftIs(r, moved, offset)
    ensures !moved ==> Shift(r) == 0
    ensures moved ==>
              var carry := if r.phys % 4096 + offset % 4096 >= 4096 then 1 else 0;
              Shift(r) == (VpnOfAddress(offset) + carry) % 0x10_0000_0000
  {
    if moved {
      var carry := if r.phys % 4096 + offset % 4096 >= 4096 then 1 else 0;
      var sum := r.phys / 4096 + offset / 4096 + carry;
      DivModUnique(r.phys + offset, 4096, sum, r.phys % 4096 + offset % 4096 - 4096 * carry);
      WrapDiv(r.phys + offset, 4096, 0x10_0000_0000_0000);
      WrapWrap(sum, 0x10_0000_0000, 0x1_0000);
      ShiftOfSum(sum % 0x10_0000_0000_0000, r.phys / 4096, sum);
      WrapAdd(carry, offset / 4096, 0x10_0000_0000);
    }
  }

  lemma ShiftOfSum(v: nat, p: nat, sum: nat)
    requires v % 0x10_0000_0000 == sum % 0x10_0000_0000
    ensures (v - p) % 0x10_0000_0000 == (sum - p) % 0x10_0000_0000
  {
    var back: int := 0 - p;
    WrapAdd(back, v, 0x10_0000_0000);
    WrapAdd(back, sum, 0x10_0000_0000);
  }

  /** Which ranges the handoff moves: all memory but the runtime services', and the framebuffer; not the loader's own page. */
  lemma HandoffShifts(ds: seq<Descriptor>, rip: Word, fb: Framebuffer, offset: Word, i: nat)
    requires i < |ds| + 2
    ensures var ranges := HandoffRanges(RebaseAll(ds, offset), rip, fb, offset);
            |ranges| == |ds| + 2 && ShiftIs(ranges[i], if i < |ds| then !ds[i].Runtime() else i == |ds| + 1, offset)
  {
    var ranges := HandoffRanges(RebaseAll(ds, offset), rip, fb, offset);
    if i < |ds| {
      assert ranges[i] == DescriptorRange(Rebase(ds[i], offset));
    } else if i == |ds| + 1 {
      assert ranges[i] == FramebufferRange(fb, offset);
    }
  }

  /** The walk reaches frame f as a table, not as a mapped page. */
  ghost predicate HoldsTable(m: Memory, root: Frame, f: Frame) {
    exists x: Node :: x.depth <= 3 && Walk(m, root, x) == Some(f)
  }

  /**
   After the call, the descriptor in the chosen slot covers exactly the page tables, unless that is slot 1: its pages are
   as many as the tables, every table reached by the walk lies in it, and each of its pages is a table.  The remainder
   begins right behind the tables, wherever it has been written.
   */
  lemma PagingDescriptorExact(mem: Memory, bytes: seq<Byte>, start: nat, e: nat, n: nat, i: nat, ranges: seq<Range>, offset: Word)
    requires Layout(|bytes|, start, e, n) && i < n
    requires SlotOf(bytes, start, e, n, i).Physical() && SlotOf(bytes, start, e, n, i).physAddr > 0
    requires SlotOf(bytes, start, e, n, i).pages > TableCount(ranges)
    ensures SlotBehind(start, e, i) + DESCRIPTOR_SIZE <= |bytes|
    ensures var d := SlotOf(bytes, start, e, n, i);
            var r := BuildTables(mem, d, ranges);
            var final := Finalized(bytes, start, e, n, i, r.pages, offset);
            var paging, rest := SlotOf(final, start, e, n, i), DescriptorAt(final, SlotBehind(start, e, i));
            && (i != 1 ==> paging == d.(memtype := 0x80AA_AAAA, pages := TableCount(ranges)))
            && rest.memtype == 7 && rest.virtAddr == (rest.physAddr + offset) % TWO64
            && rest.physAddr == d.physAddr + 4096 * TableCount(ranges) && rest.pages == d.pages - TableCount(ranges)
            && ExactlyTables(r.mem, RootOf(d), d.physAddr, TableCount(ranges))
  {
    hide BuildTables, TableCount, Finalized, SlotOf, DescriptorAt, SlotBehind, ExactlyTables;
    var d := SlotOf(bytes, start, e, n, i);
    var r := BuildTables(mem, d, ranges);
    BuildTablesRefines(mem, d, ranges);
    PagingSlotIff(bytes, start, e, n, i, r.pages, offset);
    RemainderWritten(bytes, start, e, n, i, r.pages, offset);
    PartsOfZone(d, r.pages, TableCount(ranges), offset);
    TablesOfZone(mem, d, ranges);
  }

  /** The frames of `count` pages from `base` on are exactly those that hold tables. */
  ghost predicate ExactlyTables(m: Memory, root: Frame, base: Word, count: nat) {
    && (forall x: Node :: x.depth <= 3 && Walk(m, root, x).Some? ==> base <= 4096 * Walk(m, root, x).value < base + 4096 * count)
    && (forall f: Frame :: base <= 4096 * f < base + 4096 * count ==> HoldsTable(m, root, f))
  }

  lemma PartsOfZone(d: Descriptor, left: Word, used: nat, offset: Word)
    requires d.Physical() && left == d.pages - used
    ensures PagingPart(d, left) == d.(memtype := 0x80AA_AAAA, pages := used)
    ensures RemainingPart(d, left, offset).memtype == 7
    ensures RemainingPart(d, left, offset).virtAddr == (RemainingPart(d, left, offset).physAddr + offset) % TWO64
    ensures RemainingPart(d, left, offset).physAddr == d.physAddr + 4096 * used && RemainingPart(d, left, offset).pages == left
  {
  }

  lemma TablesOfZone(mem: Memory, d: Descriptor, ranges: seq<Range>)
    requires d.Physical() && d.physAddr > 0 && d.pages > TableCount(ranges)
    ensures ExactlyTables(BuildTables(mem, d, ranges).mem, RootOf(d), d.physAddr, TableCount(ranges))
  {
    hide BuildTables, TableCount, Tree, Tables, Flatten;
    var r, root := BuildTables(mem, d, ranges), RootOf(d);
    var view := Overwrite(map[], Flatten(ranges));
    var tables := Tables(view.Keys);
    BuildTablesRefines(mem, d, ranges);
    forall x: Node | x.depth <= 3 && Walk(r.mem, root, x).Some?
      ensures root <= Walk(r.mem, root, x).value < r.next
    {
      TreeAt(r.mem, root, r.next, tables, view, x);
    }
    forall f: Frame | d.physAddr <= 4096 * f < d.physAddr + 4096 * TableCount(ranges)
      ensures HoldsTable(r.mem, root, f)
    {
      assert root <= f < r.next;
      EveryPageUsed(ReachFrom(r.mem, root), root, r.next, tables, view, f);
      var x: Node :| x in tables && ReachFrom(r.mem, root)(x) == Some(f);
      TreeAt(r.mem, root, r.next, tables, view, x);
    }
  }

  /**
   What pml4size receives is the number of tables, in 32 bits, unless the zone is in slot 1; there the field is made of the
   remainder's virtual address and page count.
   */
  lemma Pml4SizeIs(mem: Memory, bytes: seq<Byte>, start: nat, e: nat, n: nat, i: nat, ranges: seq<Range>, offset: Word)
    requires Layout(|bytes|, start, e, n) && i < n
    requires SlotOf(bytes, start, e, n, i).Physical() && SlotOf(bytes, start, e, n, i).physAddr > 0
    requires SlotOf(bytes, start, e, n, i).pages > TableCount(ranges)
    ensures var d := SlotOf(bytes, start, e, n, i);
            var left := BuildTables(mem, d, ranges).pages;
            SlotOf(Finalized(bytes, start, e, n, i, left, offset), start, e, n, i).pages
            == if i != 1 then TableCount(ranges)
               else RemainingPart(d, left, offset).virtAddr / 0x100_0000_0000_0000 + 256 * (left % 0x100_0000_0000_0000)
  {
    hide BuildTables, TableCount, Finalized, SlotOf;
    var d := SlotOf(bytes, start, e, n, i);
    var left := BuildTables(mem, d, ranges).pages;
    BuildTablesRefines(mem, d, ranges);
    if i == 1 {
      PagesInSlotOne(bytes, start, e, n, left, offset);
    } else {
      PagingSlotIff(bytes, start, e, n, i, left, offset);
      PartsOfZone(d, left, TableCount(ranges), offset);
    }
  }

  /**
   The loader's promise, from what it can check before paging: a region of more pages than the budget.  Then no allocation
   fails, only what was asked for translates, and all of it does exactly when no pages of different shifts meet and no
   frames of one shift alias.
   */
  lemma HandoffFromFirmwareMap(mem: Memory, ds: seq<Descriptor>, zone: nat, rip: Word, fb: Framebuffer, offset: Word)
    requires zone < |ds| && ds[zone].Physical() && ds[zone].physAddr > 0
    requires ds[zone].pages > 1 + TableBudget(HandoffRanges(RebaseAll(ds, offset), rip, fb, offset))
    ensures var ranges := HandoffRanges(RebaseAll(ds, offset), rip, fb, offset);
            var r := BuildTables(mem, RebaseAll(ds, offset)[zone], ranges);
            var root := RootOf(RebaseAll(ds, offset)[zone]);
            && !r.exhausted
            && NothingElse(r.mem, root, ranges) && AllWritable(r.mem, root)
            && (AllMapped(r.mem, root, ranges) <==> ShiftsApart(ranges) && NoAlias(ranges))
  {
    hide BuildTables, TableBudget, TableCount, ShiftsApart, NoAlias, AllMapped, NothingElse, AllWritable, HandoffRanges;
    var rebased := RebaseAll(ds, offset);
    var ranges := HandoffRanges(rebased, rip, fb, offset);
    BudgetPreventsExhaustion(mem, rebased[zone], ranges);
    HandoffTranslates(mem, rebased[zone], ranges);
  }

  // ---------- the same in the firmware's own terms

  /** The address k pages behind a, in 64 bits. */
  function PagesOn(a: Word, k: nat): Word {
    (a + 4096 * k) % TWO64
  }

  /** The 36 bits of an address that choose its page, and the 40 bits that name a frame. */
  function PageNumber(a: Word): nat {
    a / 4096 % 0x10_0000_0000
  }

  function FrameNumber(a: Word): Frame {
    a / 4096 % 0x100_0000_0000
  }

  /** Runtime services' code and data, types 5 and 6, stay where they are; all other memory moves by the offset. */
  function MovedTo(d: Descriptor, offset: Word): Word {
    if d.memtype == 5 || d.memtype == 6 then d.physAddr else (d.physAddr + offset) % TWO64
  }

  /** Every page of the firmware's memory map is mapped. */
  ghost predicate MemoryMapped(m: Memory, root: Frame, ds: seq<Descriptor>, offset: Word) {
    forall i, k: nat :: 0 <= i < |ds| && k < ds[i].pages ==>
      Writable(m, root, PagesOn(MovedTo(ds[i], offset), k), FrameNumber(PagesOn(ds[i].physAddr, k)))
  }

  /** The page that the loader runs on is mapped to itself. */
  ghost predicate LoaderMapped(m: Memory, root: Frame, rip: Word) {
    Writable(m, root, rip, FrameNumber(rip))
  }

  /** Every whole page of the framebuffer, four bytes a pixel, is mapped to the one at its address minus the offset. */
  ghost predicate FramebufferMapped(m: Memory, root: Frame, fb: Framebuffer, offset: Word) {
    forall k: nat :: k < fb.width * fb.height * 4 / 4096 ==>
      Writable(m, root, PagesOn(fb.start, k), FrameNumber(PagesOn((fb.start - offset) % TWO64, k)))
  }

  /** What the firmware's data ask for: virtual address v for physical address p. */
  ghost predicate Asked(ds: seq<Descriptor>, rip: Word, fb: Framebuffer, offset: Word, v: Word, p: Word) {
    || (exists i, k: nat :: 0 <= i < |ds| && k < ds[i].pages
                            && v == PagesOn(MovedTo(ds[i], offset), k) && p == PagesOn(ds[i].physAddr, k))
    || (v == rip && p == rip)
    || (exists k: nat :: k < fb.width * fb.height * 4 / 4096
                         && v == PagesOn(fb.start, k) && p == PagesOn((fb.start - offset) % TWO64, k))
  }

  /** No page is asked for with two frames. */
  ghost predicate NoDispute(ds: seq<Descriptor>, rip: Word, fb: Framebuffer, offset: Word) {
    forall v, p, v', p' :: Asked(ds, rip, fb, offset, v, p) && Asked(ds, rip, fb, offset, v', p') ==>
      PageNumber(v) == PageNumber(v') ==> FrameNumber(p) == FrameNumber(p')
  }

  /** Every address outside the pages asked for faults. */
  ghost predicate OnlyAsked(m: Memory, root: Frame, ds: seq<Descriptor>, rip: Word, fb: Framebuffer, offset: Word) {
    forall a: Word :: Faults(m, root, a) || AskedPage(ds, rip, fb, offset, a)
  }

  ghost predicate AskedPage(ds: seq<Descriptor>, rip: Word, fb: Framebuffer, offset: Word, a: Word) {
    exists v, p :: Asked(ds, rip, fb, offset, v, p) && PageNumber(v) == PageNumber(a)
  }

  /** The requests of the handoff are exactly those. */
  lemma AskedIff(ds: seq<Descriptor>, rip: Word, fb: Framebuffer, offset: Word, v: Word, p: Word)
    ensures Asked(ds, rip, fb, offset, v, p) <==> Request(p, v) in Flatten(HandoffRanges(RebaseAll(ds, offset), rip, fb, offset))
  {
    hide Flatten, HandoffRanges;
    var ranges := HandoffRanges(RebaseAll(ds, offset), rip, fb, offset);
    FlattenMembers(ranges, Request(p, v));
    if Asked(ds, rip, fb, offset, v, p) {
      if i, k: nat :| 0 <= i < |ds| && k < ds[i].pages && v == PagesOn(MovedTo(ds[i], offset), k) && p == PagesOn(ds[i].physAddr, k) {
        DescriptorAsked(ds, rip, fb, offset, i, k);
      } else if k: nat :| k < fb.width * fb.height * 4 / 4096 && v == PagesOn(fb.start, k) && p == PagesOn((fb.start - offset) % TWO64, k) {
        FramebufferAsked(ds, rip, fb, offset, k);
      } else {
        LoaderAsked(ds, rip, fb, offset, 0);
      }
    }
    if i, k :| 0 <= i < |ranges| && 0 <= k < ranges[i].pages && Request(p, v) == RangeRequests(ranges[i])[k] {
      RangesAre(ds, rip, fb, offset);
      if i < |ds| {
        DescriptorAsked(ds, rip, fb, offset, i, k);
      } else if i == |ds| {
        LoaderAsked(ds, rip, fb, offset, k);
      } else {
        FramebufferAsked(ds, rip, fb, offset, k);
      }
    }
  }

  lemma RangesAre(ds: seq<Descriptor>, rip: Word, fb: Framebuffer, offset: Word)
    ensures var ranges := HandoffRanges(RebaseAll(ds, offset), rip, fb, offset);
            && |ranges| == |ds| + 2
            && (forall i :: 0 <= i < |ds| ==> ranges[i] == Range(ds[i].physAddr, MovedTo(ds[i], offset), ds[i].pages))
            && ranges[|ds|] == Range(rip, rip, 1)
            && ranges[|ds| + 1] == Range((fb.start - offset) % TWO64, fb.start, fb.width * fb.height * 4 / 4096)
  {
    var ranges := HandoffRanges(RebaseAll(ds, offset), rip, fb, offset);
    forall i | 0 <= i < |ds|
      ensures ranges[i] == Range(ds[i].physAddr, MovedTo(ds[i], offset), ds[i].pages)
    {
      assert ranges[i] == DescriptorRange(Rebase(ds[i], offset));
    }
    assert ranges[|ds| + 1] == FramebufferRange(fb, offset);
  }

  /** Page k of a range is k pages behind its start. */
  lemma PageOfRange(r: Range, k: nat)
    requires k < r.pages
    ensures RangeRequests(r)[k] == Request(PagesOn(r.phys, k), PagesOn(r.virt, k))
  {
    WrapAdd(r.phys, k * 4096, TWO64);
    WrapAdd(r.virt, k * 4096, TWO64);
  }

  lemma DescriptorAsked(ds: seq<Descriptor>, rip: Word, fb: Framebuffer, offset: Word, i: nat, k: nat)
    requires i < |ds| && k < ds[i].pages
    ensures var ranges := HandoffRanges(RebaseAll(ds, offset), rip, fb, offset);
            && i < |ranges| && k < ranges[i].pages
            && RangeRequests(ranges[i])[k] == Request(PagesOn(ds[i].physAddr, k), PagesOn(MovedTo(ds[i], offset), k))
  {
    hide HandoffRanges, RangeRequests, PagesOn;
    RangesAre(ds, rip, fb, offset);
    PageOfRange(Range(ds[i].physAddr, MovedTo(ds[i], offset), ds[i].pages), k);
  }

  lemma LoaderAsked(ds: seq<Descriptor>, rip: Word, fb: Framebuffer, offset: Word, k: nat)
    requires k < 1
    ensures var ranges := HandoffRanges(RebaseAll(ds, offset), rip, fb, offset);
            |ds| < |ranges| && k < ranges[|ds|].pages && RangeRequests(ranges[|ds|])[k] == Request(rip, rip)
  {
    hide HandoffRanges, RangeRequests;
    RangesAre(ds, rip, fb, offset);
    PageOfRange(Range(rip, rip, 1), k);
  }

  lemma FramebufferAsked(ds: seq<Descriptor>, rip: Word, fb: Framebuffer, offset: Word, k: nat)
    requires k < fb.width * fb.height * 4 / 4096
    ensures var ranges := HandoffRanges(RebaseAll(ds, offset), rip, fb, offset);
            && |ds| + 1 < |ranges| && k < ranges[|ds| + 1].pages
            && RangeRequests(ranges[|ds| + 1])[k] == Request(PagesOn((fb.start - offset) % TWO64, k), PagesOn(fb.start, k))
  {
    hide HandoffRanges, RangeRequests, PagesOn;
    RangesAre(ds, rip, fb, offset);
    PageOfRange(Range((fb.start - offset) % TWO64, fb.start, fb.width * fb.height * 4 / 4096), k);
  }

  /**
   The handoff from the firmware's own data.  With a region of more pages than the budget, every page of the memory map,
   the loader's page and every whole page of the framebuffer can be written at the address meant, exactly when no page is
   asked for with two frames; and in any case every address outside these pages faults.
   */
  lemma HandoffMapsFirmware(mem: Memory, ds: seq<Descriptor>, zone: nat, rip: Word, fb: Framebuffer, offset: Word)
    requires zone < |ds| && ds[zone].Physical() && ds[zone].physAddr > 0
    requires ds[zone].pages > 1 + TableBudget(HandoffRanges(RebaseAll(ds, offset), rip, fb, offset))
    ensures var m := BuildTables(mem, RebaseAll(ds, offset)[zone], HandoffRanges(RebaseAll(ds, offset), rip, fb, offset)).mem;
            var root := ds[zone].physAddr / 4096;
            && (MemoryMapped(m, root, ds, offset) && LoaderMapped(m, root, rip) && FramebufferMapped(m, root, fb, offset)
                <==> NoDispute(ds, rip, fb, offset))
            && OnlyAsked(m, root, ds, rip, fb, offset)
  {
    hide BuildTables, TableBudget, TableCount, NoConflict, NoDispute, Flatten, AllMapped, NothingElse, AllWritable, HandoffRanges,
         MemoryMapped, LoaderMapped, FramebufferMapped, OnlyAsked;
    var rebased := RebaseAll(ds, offset);
    var ranges := HandoffRanges(rebased, rip, fb, offset);
    var root := ds[zone].physAddr / 4096;
    var m := BuildTables(mem, rebased[zone], ranges).mem;
    BudgetPreventsExhaustion(mem, rebased[zone], ranges);
    HandoffHonours(mem, rebased[zone], ranges);
    NoDisputeIff(ds, rip, fb, offset);
    MappedIff(m, root, ds, rip, fb, offset);
    OthersFault(m, root, ds, rip, fb, offset);
  }

  lemma NoDisputeIff(ds: seq<Descriptor>, rip: Word, fb: Framebuffer, offset: Word)
    ensures NoDispute(ds, rip, fb, offset) <==> NoConflict(Flatten(HandoffRanges(RebaseAll(ds, offset), rip, fb, offset)))
  {
    hide Flatten, HandoffRanges, Asked;
    var reqs := Flatten(HandoffRanges(RebaseAll(ds, offset), rip, fb, offset));
    if NoDispute(ds, rip, fb, offset) {
      forall i, j | 0 <= i < |reqs| && 0 <= j < |reqs| && reqs[i].Page() == reqs[j].Page()
        ensures reqs[i].Target() == reqs[j].Target()
      {
        AskedIff(ds, rip, fb, offset, reqs[i].virt, reqs[i].phys);
        AskedIff(ds, rip, fb, offset, reqs[j].virt, reqs[j].phys);
      }
    }
    if NoConflict(reqs) {
      forall v, p, v', p' | Asked(ds, rip, fb, offset, v, p) && Asked(ds, rip, fb, offset, v', p') && PageNumber(v) == PageNumber(v')
        ensures FrameNumber(p) == FrameNumber(p')
      {
        AskedIff(ds, rip, fb, offset, v, p);
        AskedIff(ds, rip, fb, offset, v', p');
        var i :| 0 <= i < |reqs| && reqs[i] == Request(p, v);
        var j :| 0 <= j < |reqs| && reqs[j] == Request(p', v');
        assert reqs[i].Page() == reqs[j].Page();
      }
    }
  }

  /** The page k of range i after the handoff, as the processor sees it. */
  lemma PageWritable(m: Memory, root: Frame, r: Range, k: nat)
    requires AllWritable(m, root) && k < r.pages
    ensures PageMapped(m, root, r, k) <==> Writable(m, root, PagesOn(r.virt, k), FrameNumber(PagesOn(r.phys, k)))
  {
    hide Translate, Writable, Faults, PagesOn;
    PageOfRange(r, k);
    var a := PagesOn(r.virt, k);
    assert MayWrite(m, root, a);
    OneFrame(m, root, a, FrameNumber(PagesOn(r.phys, k)));
  }

  lemma OneFrame(m: Memory, root: Frame, a: Word, f: Frame)
    ensures Writable(m, root, a, f) ==> Translate(m, root, a) == Some(f)
  {
    hide Translate, WordsOnTheWay;
    WalkReads(m, root, a);
  }

  lemma MappedIff(m: Memory, root: Frame, ds: seq<Descriptor>, rip: Word, fb: Framebuffer, offset: Word)
    requires AllWritable(m, root)
    ensures AllMapped(m, root, HandoffRanges(RebaseAll(ds, offset), rip, fb, offset))
       <==> MemoryMapped(m, root, ds, offset) && LoaderMapped(m, root, rip) && FramebufferMapped(m, root, fb, offset)
  {
    hide HandoffRanges, PageMapped, Writable, PagesOn, MovedTo, AllWritable, FrameNumber;
    var ranges := HandoffRanges(RebaseAll(ds, offset), rip, fb, offset);
    RangesAre(ds, rip, fb, offset);
    forall i, k: nat | 0 <= i < |ranges| && k < ranges[i].pages
      ensures PageMapped(m, root, ranges[i], k)
         <==> Writable(m, root, PagesOn(ranges[i].virt, k), FrameNumber(PagesOn(ranges[i].phys, k)))
    {
      PageWritable(m, root, ranges[i], k);
    }
    NoPagesOn(rip);
    if AllMapped(m, root, ranges) {
      assert PageMapped(m, root, ranges[|ds|], 0);
    }
  }

  lemma NoPagesOn(a: Word)
    ensures PagesOn(a, 0) == a
  {
  }

  lemma OthersFault(m: Memory, root: Frame, ds: seq<Descriptor>, rip: Word, fb: Framebuffer, offset: Word)
    requires AllWritable(m, root) && NothingElse(m, root, HandoffRanges(RebaseAll(ds, offset), rip, fb, offset))
    ensures OnlyAsked(m, root, ds, rip, fb, offset)
  {
    hide HandoffRanges, Flatten, Translate, Faults, Writable, Asked;
    var reqs := Flatten(HandoffRanges(RebaseAll(ds, offset), rip, fb, offset));
    forall a: Word
      ensures Faults(m, root, a) || AskedPage(ds, rip, fb, offset, a)
    {
      assert MayWrite(m, root, a);
      if q :| q in reqs && q.Page() == VpnOfAddress(a) {
        AskedIff(ds, rip, fb, offset, q.virt, q.phys);
      }
    }
  }

  // ---------- two more fields

  /**
   bl_rip_pagetable_buf holds the page behind the loader's tables; it is the first of them, as its name says, exactly when
   mapping the loader's page needed none.
   */
  lemma RipTablesStartIff(s: Pager, root: Frame, view: map<Vpn, Frame>, rip: Word)
    requires Represents(s, root, view) && s.pages > |Missing(view.Keys, VpnOfAddress(rip), 3)|
    ensures 4096 * MapPage(s, root, rip, rip).next == 4096 * s.next <==> Missing(view.Keys, VpnOfAddress(rip), 3) == {}
  {
    hide Represents, Missing, MapPage;
    MapPageRefines(s, root, view, rip, rip);
  }

  function FramebufferBytes(fb: Framebuffer): nat {
    fb.width * fb.height * 4
  }

  /** Byte b of the framebuffer lies in a page that is mapped for it. */
  ghost predicate ByteMapped(fb: Framebuffer, offset: Word, b: nat) {
    VpnOfAddress(Add64(fb.start, b % TWO64)) in Pages(RangeRequests(FramebufferRange(fb, offset)))
  }

  /** The mapped pages cover the framebuffer exactly when it is empty or starts and ends on page boundaries. */
  lemma FramebufferCoveredIff(fb: Framebuffer, offset: Word)
    ensures (forall b: nat :: b < FramebufferBytes(fb) ==> ByteMapped(fb, offset, b))
       <==> FramebufferBytes(fb) == 0 || (fb.start % 4096 == 0 && FramebufferBytes(fb) % 4096 == 0)
  {
    SmallFramebuffer(fb);
    hide ByteMapped, FramebufferBytes, FramebufferPages;
    var size, count := FramebufferBytes(fb), FramebufferPages(fb);
    if size > 0 {
      if fb.start % 4096 == 0 && size % 4096 == 0 {
        forall b: nat | b < size
          ensures ByteMapped(fb, offset, b)
        {
          ByteMappedIff(fb, offset, b);
        }
      } else {
        var b: nat := if count == 0 then 0 else 4096 * count - fb.start % 4096;
        ByteMappedIff(fb, offset, b);
        assert b < size && !ByteMapped(fb, offset, b);
      }
    }
  }

  lemma SmallFramebuffer(fb: Framebuffer)
    ensures FramebufferPages(fb) == FramebufferBytes(fb) / 4096 < 0x100_0000
  {
    MulMonotone(0x1_0000, fb.width, fb.height);
  }

  lemma ByteMappedIff(fb: Framebuffer, offset: Word, b: nat)
    requires b < FramebufferBytes(fb)
    ensures ByteMapped(fb, offset, b) <==> (fb.start % 4096 + b) / 4096 < FramebufferPages(fb)
  {
    SmallFramebuffer(fb);
    hide FramebufferPages, FramebufferBytes, VpnOfAddress, Add64, PhysAt, VirtAt;
    var r := FramebufferRange(fb, offset);
    var page := (fb.start % 4096 + b) / 4096;
    ByteOfPage(fb.start, b);
    if page < FramebufferPages(fb) {
      RangePage(r, page);
      assert RangeRequests(r)[page] in RangeRequests(r);
    }
    if ByteMapped(fb, offset, b) {
      var q :| q in RangeRequests(r) && q.Page() == VpnOfAddress(Add64(fb.start, b % TWO64));
      var k :| 0 <= k < r.pages && RangeRequests(r)[k] == q;
      RangePage(r, k);
      SmallWrap(fb.start / 4096, k, page);
    }
  }

  lemma SmallWrap(base: nat, k: nat, page: nat)
    requires (base + k) % 0x10_0000_0000 == (base + page) % 0x10_0000_0000 && k < 0x100_0000 && page < 0x100_0000 + 2
    ensures k == page
  {
  }

  lemma ByteOfPage(start: Word, b: nat)
    ensures VpnOfAddress(Add64(start, b % TWO64)) == (start / 4096 + (start % 4096 + b) / 4096) % 0x10_0000_0000
  {
    WrapAdd(start, b, TWO64);
    WrapDiv(start + b, 4096, 0x10_0000_0000_0000);
    AddMultiple(start % 4096 + b, start / 4096, 4096);
    WrapWrap((start + b) / 4096, 0x10_0000_0000, 0x1_0000);
  }
}
