/**
 enablePagingJumpToEntry up to the jump: rebase the memory map, build page tables for it in the biggest usable
 region, add the page the loader runs on and the framebuffer, and split the region's descriptor.
 */
module Handoff {
  import opened Arithmetic
  import opened Machine
  import opened PageTables
  import opened Paging
  import opened Runs
  import opened Budget
  import opened PageStacks
  import opened MapSlots
  import opened MemoryMaps

  type Pixels = p: int | 0 <= p < 0x1_0000

  datatype Framebuffer = Framebuffer(start: Word, width: Pixels, height: Pixels)

  /** Whole pages of the framebuffer, four bytes a pixel. */
  function FramebufferPages(fb: Framebuffer): nat
  {
    fb.width * fb.height * 4 / 4096
  }

  function FramebufferRange(fb: Framebuffer, offset: Word): Range {
    Range(Sub64(fb.start, offset), fb.start, FramebufferPages(fb))
  }

  function DescriptorRange(d: Descriptor): Range {
    Range(d.physAddr, d.virtAddr, d.pages)
  }

  function MapRanges(ds: seq<Descriptor>): (r: seq<Range>)
    ensures |r| == |ds| && forall i :: 0 <= i < |ds| ==> r[i] == Range(ds[i].physAddr, ds[i].virtAddr, ds[i].pages)
  {
    seq(|ds|, i requires 0 <= i < |ds| => DescriptorRange(ds[i]))
  }

  /** Everything that is mapped, in order, given the rebased memory map. */
  function HandoffRanges(ds: seq<Descriptor>, rip: Word, fb: Framebuffer, offset: Word): seq<Range> {
    MapRanges(ds) + [Range(rip, rip, 1)] + [FramebufferRange(fb, offset)]
  }

  function StartOf(mem: Memory, zone: Descriptor): (s: Pager)
    requires zone.Physical()
    ensures s.Valid()
  {
    Pager(mem, zone.physAddr / 4096, zone.pages, false)
  }

  /** The state after all of the mapping, from the memory that the loader found. */
  function BuildTables(mem: Memory, zone: Descriptor, ranges: seq<Range>): (r: Pager)
    requires zone.Physical()
    ensures r.Valid() && r.next + r.pages == zone.physAddr / 4096 + zone.pages
  {
    var (root, s) := AllocateZeroed(StartOf(mem, zone));
    MapAll(s, root, Flatten(ranges))
  }

  lemma FlattenAppend(a: seq<Range>, r: Range)
    ensures Flatten(a + [r]) == Flatten(a) + RangeRequests(r)
  {
    assert (a + [r])[..|a|] == a;
  }

  method MapMemoryMapToVirtualMemory(memoryMap: MemoryMap, stack: PageStack, ram: array<Word>, pml4: Word)
    requires memoryMap.Valid() && ram.Length == RAM_WORDS && stack.Valid()
    requires pml4 % 4096 == 0 && pml4 < 0x10_0000_0000_0000
    modifies ram, stack
    ensures stack.Valid() && memoryMap.Used() == old(memoryMap.Used())
    ensures StateOf(ram, stack) == MapAll(old(StateOf(ram, stack)), pml4 / 4096, Flatten(MapRanges(memoryMap.Used())))
  {
    hide MapPage, MapAll;
    ghost var s0 := StateOf(ram, stack);
    ghost var ranges := MapRanges(memoryMap.Used());
    MapAllNone(s0, pml4 / 4096);
    for i := 0 to memoryMap.Count()
      invariant stack.Valid() && memoryMap.Used() == old(memoryMap.Used())
      invariant StateOf(ram, stack) == MapAll(s0, pml4 / 4096, Flatten(ranges[..i]))
    {
      var dsc := memoryMap.Entry(i);
      var pageCount, addrp, addrv := dsc.pages, dsc.physAddr, dsc.virtAddr;
      ghost var done, reqs := Flatten(ranges[..i]), RangeRequests(ranges[i]);
      assert done + reqs[..0] == done;
      for page := 0 to pageCount
        invariant stack.Valid() && memoryMap.Used() == old(memoryMap.Used())
        invariant StateOf(ram, stack) == MapAll(s0, pml4 / 4096, done + reqs[..page])
      {
        MapAllOneMore(s0, pml4 / 4096, done, reqs, page);
        MapPages(ram, pml4, stack, Add64(addrp, page * 4096 % TWO64), Add64(addrv, page * 4096 % TWO64));
      }
      assert reqs[..pageCount] == reqs;
      FlattenAppend(ranges[..i], ranges[i]);
      assert ranges[..i] + [ranges[i]] == ranges[..i + 1];
    }
    assert ranges[..memoryMap.Count()] == ranges;
  }

  method MapFramebufferToVirtualMemory(fb: Framebuffer, stack: PageStack, ram: array<Word>, pml4: Word, offset: Word)
    requires ram.Length == RAM_WORDS && stack.Valid()
    requires pml4 % 4096 == 0 && pml4 < 0x10_0000_0000_0000
    modifies ram, stack
    ensures stack.Valid()
    ensures StateOf(ram, stack) == MapAll(old(StateOf(ram, stack)), pml4 / 4096, RangeRequests(FramebufferRange(fb, offset)))
  {
    hide MapPage, MapAll;
    var virt := fb.start;
    var phys := Sub64(fb.start, offset);
    var fbsize := fb.width * fb.height;
    fbsize := fbsize * 4;
    fbsize := fbsize / 4096;
    ghost var s0, reqs := StateOf(ram, stack), RangeRequests(FramebufferRange(fb, offset));
    MapAllNone(s0, pml4 / 4096);
    assert [] + reqs[..0] == [];
    for i := 0 to fbsize
      invariant stack.Valid()
      invariant StateOf(ram, stack) == MapAll(s0, pml4 / 4096, [] + reqs[..i])
    {
      MapAllOneMore(s0, pml4 / 4096, [], reqs, i);
      MapPages(ram, pml4, stack, Add64(phys, i * 4096 % TWO64), Add64(virt, i * 4096 % TWO64));
    }
    assert [] + reqs[..fbsize] == reqs;
  }

  lemma MapAllNone(s: Pager, root: Frame)
    requires s.Valid()
    ensures MapAll(s, root, []) == s
  {
  }

  lemma MapAllOneMore(s: Pager, root: Frame, done: seq<Request>, reqs: seq<Request>, k: nat)
    requires s.Valid() && k < |reqs|
    ensures MapAll(s, root, done + reqs[..k + 1]) == MapPage(MapAll(s, root, done + reqs[..k]), root, reqs[k].phys, reqs[k].virt)
  {
    hide MapPage;
    var all := done + reqs[..k + 1];
    assert all[..|all| - 1] == done + reqs[..k] && all[|all| - 1] == reqs[k];
  }

  /** What bl_rip_pagetable_bufsize receives: a difference of 64-bit page counts, cut to 16 bits. */
  function RipTablesSize(before: Word, after: Word): nat {
    Sub64(after, before) % 0x1_0000
  }

  /** Mapping one page takes at most three tables; the field holds their number only if there are none. */
  lemma RipTablesSizeIff(before: Word, used: nat)
    requires used <= 3 && used <= before
    ensures RipTablesSize(before, before - used) == (0x1_0000 - used) % 0x1_0000
    ensures RipTablesSize(before, before - used) == used <==> used == 0
  {
    assert used > 0 ==> Sub64(before - used, before) == TWO64 - used;
  }

  /** The fields of the kernel header's memory configuration that paging fills in. */
  datatype MemConfig = MemConfig(pml4: Word, pml4size: nat, ripVirtual: Word, ripTables: Word, ripTablesSize: nat)

  /** The mapping phases: the memory map, the page the loader runs on (on a copy of the stack), the framebuffer. */
  method MapAddressSpace(memoryMap: MemoryMap, stack: PageStack, ram: array<Word>, pml4: Word, fb: Framebuffer, offset: Word, rip: Word)
    returns (last: PageStack, ripTables: Word, ripTablesSize: nat)
    requires memoryMap.Valid() && ram.Length == RAM_WORDS && stack.Valid()
    requires pml4 % 4096 == 0 && pml4 < 0x10_0000_0000_0000
    modifies ram, stack
    ensures last.Valid() && memoryMap.Used() == old(memoryMap.Used())
    ensures StateOf(ram, last)
         == MapAll(old(StateOf(ram, stack)), pml4 / 4096, Flatten(HandoffRanges(memoryMap.Used(), rip, fb, offset)))
    ensures var before := MapAll(old(StateOf(ram, stack)), pml4 / 4096, Flatten(MapRanges(memoryMap.Used())));
            var after := MapPage(before, pml4 / 4096, rip, rip);
            ripTables == 4096 * after.next && ripTablesSize == RipTablesSize(before.pages, after.pages)
  {
    hide MapAll, MapPage, RangeRequests;
    ghost var root, s := pml4 / 4096, StateOf(ram, stack);
    ghost var reqs := Flatten(MapRanges(memoryMap.Used()));
    MapMemoryMapToVirtualMemory(memoryMap, stack, ram, pml4);

    var identityStack := new PageStack.Copy(stack);
    MapPages(ram, pml4, identityStack, rip, rip);
    ripTables := identityStack.addr;
    ripTablesSize := RipTablesSize(stack.pages, identityStack.pages);
    last := identityStack;
    MapAllSingle(s, root, reqs, Range(rip, rip, 1));

    MapFramebufferToVirtualMemory(fb, last, ram, pml4, offset);
    HandoffOrder(s, root, memoryMap.Used(), rip, fb, offset);
  }

  /** Rebases the map and finds the region for the page stack. */
  method ChooseZone(memoryMap: MemoryMap, offset: Word) returns (index: nat, biggestFreeZone: Descriptor)
    requires memoryMap.Valid() && memoryMap.Count() > 0
    requires forall i :: 0 <= i < memoryMap.Count() ==> memoryMap.Used()[i].Physical()
    modifies memoryMap.memory
    ensures var start, e, n := memoryMap.start, memoryMap.entrySize, memoryMap.Count();
            memoryMap.memory[..] == Rebased(old(memoryMap.memory[..]), start, e, n, n, offset)
    ensures memoryMap.Used() == RebaseAll(old(memoryMap.Used()), offset)
    ensures IsBiggest(memoryMap.Used(), index)
    ensures index < memoryMap.Count() && memoryMap.Used()[index] == biggestFreeZone && biggestFreeZone.Physical()
  {
    hide Rebased, Slots, SlotOf, Layout;
    RebasedSlots(memoryMap.memory[..], memoryMap.start, memoryMap.entrySize, memoryMap.Count(), offset);
    memoryMap.FixVirtualAddresses(offset);
    index := memoryMap.FindBiggestUsableMemoryRegion();
    biggestFreeZone := memoryMap.Entry(index);
    assert old(memoryMap.Used())[index].Physical();
  }

  /** The two bl_rip fields, from the states before and after the loader's own page is mapped. */
  function RipFields(mem: Memory, zone: Descriptor, ranges: seq<Range>, rip: Word): (Word, nat)
    requires zone.Physical()
  {
    var before, after := BuildTables(mem, zone, ranges), BuildTables(mem, zone, ranges + [Range(rip, rip, 1)]);
    (4096 * after.next % TWO64, RipTablesSize(before.pages % TWO64, after.pages % TWO64))
  }

  /** Mapping the loader's page comes right behind the memory map. */
  lemma WithLoaderPage(mem: Memory, zone: Descriptor, ranges: seq<Range>, rip: Word)
    requires zone.Physical()
    ensures var (root, s) := AllocateZeroed(StartOf(mem, zone));
            var before := MapAll(s, root, Flatten(ranges));
            var after := MapPage(before, root, rip, rip);
            RipFields(mem, zone, ranges, rip) == (4096 * after.next, RipTablesSize(before.pages, after.pages))
  {
    hide MapAll, MapPage, AllocateZeroed, BuildTables, Flatten;
    LoaderPageLast(mem, zone, ranges, rip);
    SmallPager(BuildTables(mem, zone, ranges));
    SmallPager(BuildTables(mem, zone, ranges + [Range(rip, rip, 1)]));
  }

  lemma LoaderPageLast(mem: Memory, zone: Descriptor, ranges: seq<Range>, rip: Word)
    requires zone.Physical()
    ensures var (root, s) := AllocateZeroed(StartOf(mem, zone));
            && BuildTables(mem, zone, ranges) == MapAll(s, root, Flatten(ranges))
            && BuildTables(mem, zone, ranges + [Range(rip, rip, 1)]) == MapPage(MapAll(s, root, Flatten(ranges)), root, rip, rip)
  {
    hide MapAll, MapPage, RangeRequests, AllocateZeroed, Flatten;
    var (root, s) := AllocateZeroed(StartOf(mem, zone));
    FlattenAppend(ranges, Range(rip, rip, 1));
    MapAllSingle(s, root, Flatten(ranges), Range(rip, rip, 1));
  }

  lemma SmallPager(s: Pager)
    requires s.Valid()
    ensures 4096 * s.next % TWO64 == 4096 * s.next && s.pages % TWO64 == s.pages
  {
  }

  /** The page stack, the PML4 and the three mapping phases; `left` is what the stack keeps. */
  method BuildAddressSpace(memoryMap: MemoryMap, zone: Descriptor, ram: array<Word>, fb: Framebuffer, offset: Word, rip: Word)
    returns (pml4: Word, left: Word, ripTables: Word, ripTablesSize: nat)
    requires memoryMap.Valid() && ram.Length == RAM_WORDS && zone.Physical()
    modifies ram
    ensures memoryMap.Used() == old(memoryMap.Used()) && memoryMap.memory[..] == old(memoryMap.memory[..])
    ensures var r := BuildTables(old(ram[..]), zone, HandoffRanges(memoryMap.Used(), rip, fb, offset));
            ram[..] == r.mem && left == r.pages
    ensures pml4 == 4096 * AllocateZeroed(StartOf(old(ram[..]), zone)).0
    ensures (ripTables, ripTablesSize) == RipFields(old(ram[..]), zone, MapRanges(memoryMap.Used()), rip)
  {
    hide MapAll, AllocateZeroed, Flatten, HandoffRanges, MemoryMap.Used;
    WithLoaderPage(ram[..], zone, MapRanges(memoryMap.Used()), rip);
    var pageStack := new PageStack(zone.physAddr, zone.pages);
    assert StateOf(ram, pageStack) == StartOf(old(ram[..]), zone);
    pml4 := pageStack.AllocatePageAndZero(ram);
    pageStack, ripTables, ripTablesSize := MapAddressSpace(memoryMap, pageStack, ram, pml4, fb, offset, rip);
    left := pageStack.pages;
  }

  method EnablePaging(memoryMap: MemoryMap, ram: array<Word>, fb: Framebuffer, physStart: Word, virtStart: Word, rip: Word)
    returns (config: MemConfig, zone: nat)
    requires memoryMap.Valid() && memoryMap.Count() > 0 && ram.Length == RAM_WORDS
    requires forall i :: 0 <= i < memoryMap.Count() ==> memoryMap.Used()[i].Physical()
    modifies memoryMap, memoryMap.memory, ram
    ensures var offset := Sub64(virtStart, physStart);
            var start, e, n := memoryMap.start, memoryMap.entrySize, old(memoryMap.Count());
            var bytes := Rebased(old(memoryMap.memory[..]), start, e, n, n, offset);
            var ds := RebaseAll(old(memoryMap.Used()), offset);
            && ds == Slots(bytes, start, e, n, n)
            && IsBiggest(ds, zone) && ds[zone].Physical()
            && var r := BuildTables(old(ram[..]), ds[zone], HandoffRanges(ds, rip, fb, offset));
            && ram[..] == r.mem
            && memoryMap.memory[..] == Finalized(bytes, start, e, n, zone, r.pages, offset)
            && config.pml4 == 4096 * AllocateZeroed(StartOf(old(ram[..]), ds[zone])).0
            && config.pml4size == SlotOf(memoryMap.memory[..], start, e, n, zone).pages % 0x1_0000_0000
            && config.ripVirtual == rip
            && (config.ripTables, config.ripTablesSize) == RipFields(old(ram[..]), ds[zone], MapRanges(ds), rip)
    ensures memoryMap.addr == (old(memoryMap.addr) + virtStart - physStart) % TWO64
    ensures memoryMap.usedSize == (old(memoryMap.usedSize) + 1) % TWO64
  {
    hide AllocateZeroed, BuildTables, RipFields, MapRanges, Finalized, Rebased, Slots, SlotOf, Layout, HandoffRanges, RebaseAll, IsBiggest;
    var virtualoffset := Sub64(virtStart, physStart);
    var start, e, n := memoryMap.start, memoryMap.entrySize, memoryMap.Count();
    var biggestFreeZone;
    zone, biggestFreeZone := ChooseZone(memoryMap, virtualoffset);
    var index := zone;
    var pml4, left, ripTables, ripTablesSize := BuildAddressSpace(memoryMap, biggestFreeZone, ram, fb, virtualoffset, rip);
    memoryMap.FinalizeMemoryMap(index, left, virtualoffset);
    var slot := SlotOf(memoryMap.memory[..], start, e, n, index);
    WrapAdd(old(memoryMap.addr), virtStart - physStart, TWO64);
    config := MemConfig(pml4, slot.pages % 0x1_0000_0000, rip, ripTables, ripTablesSize);
  }

  lemma MapAllSingle(s: Pager, root: Frame, done: seq<Request>, r: Range)
    requires s.Valid() && r.pages == 1
    ensures MapPage(MapAll(s, root, done), root, r.phys, r.virt) == MapAll(s, root, done + RangeRequests(r))
  {
    hide MapPage, MapAll;
    var reqs := RangeRequests(r);
    MapAllOneMore(s, root, done, reqs, 0);
    assert reqs[..1] == reqs && done + reqs[..0] == done;
    assert PhysAt(r, 0) == r.phys && VirtAt(r, 0) == r.virt;
  }

  /** The three mapping phases together are one run over all ranges. */
  lemma HandoffOrder(s: Pager, root: Frame, ds: seq<Descriptor>, rip: Word, fb: Framebuffer, offset: Word)
    requires s.Valid()
    ensures MapAll(MapAll(s, root, Flatten(MapRanges(ds)) + RangeRequests(Range(rip, rip, 1))), root,
                   RangeRequests(FramebufferRange(fb, offset)))
         == MapAll(s, root, Flatten(HandoffRanges(ds, rip, fb, offset)))
  {
    hide MapAll, RangeRequests;
    var a := MapRanges(ds);
    FlattenAppend(a, Range(rip, rip, 1));
    FlattenAppend(a + [Range(rip, rip, 1)], FramebufferRange(fb, offset));
    MapAllAppend(s, root, Flatten(a + [Range(rip, rip, 1)]), RangeRequests(FramebufferRange(fb, offset)));
  }
}
