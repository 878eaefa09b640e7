/** How much memory the kernel image gets, and where the per-CPU areas, the GDT and the kernel header lie in it. */
module KernelLayout {
  import Arithmetic
  import opened Machine

  const PT_LOAD := 1
  const PERCPU_STACK_SIZE := 0x10000
  const PERCPU_TSS_SIZE := 108
  const GDT_ENTRY_SIZE := 8
  const KERNEL_HEADER_SIZE := 160

  datatype Phdr = Phdr(typ: nat, paddr: Word, memsz: Word)

  function StackBytes(cores: nat): nat { PERCPU_STACK_SIZE * cores }
  function TssBytes(cores: nat): nat { PERCPU_TSS_SIZE * cores }
  function GdtBytes(cores: nat): nat { GDT_ENTRY_SIZE * (5 + cores) }

  /** What lies behind the loaded segments. */
  function Extras(cores: nat): nat {
    StackBytes(cores) + TssBytes(cores) + GdtBytes(cores) + KERNEL_HEADER_SIZE
  }

  function LoadSum(ps: seq<Phdr>): nat {
    if ps == [] then 0
    else LoadSum(ps[..|ps| - 1]) + if ps[|ps| - 1].typ == PT_LOAD then ps[|ps| - 1].memsz else 0
  }

  predicate Loads(ps: seq<Phdr>) {
    exists k :: 0 <= k < |ps| && ps[k].typ == PT_LOAD
  }

  /** End of the last loadable segment in the table; zero without one. */
  function EndOffset(ps: seq<Phdr>): nat {
    if ps == [] then 0
    else if ps[|ps| - 1].typ == PT_LOAD then ps[|ps| - 1].paddr + ps[|ps| - 1].memsz
    else EndOffset(ps[..|ps| - 1])
  }

  /** Adding machine words is adding numbers and wrapping once. */
  lemma AddWrapped(a: nat, b: nat)
    ensures Add64(a % TWO64, b % TWO64) == (a + b) % TWO64
    ensures a + b < TWO64 ==> Add64(a % TWO64, b % TWO64) == a + b
  {
    Arithmetic.WrapAdd(a % TWO64, b, TWO64);
    Arithmetic.WrapAdd(b, a, TWO64);
  }

  method SumLoads(ps: array<Phdr>) returns (loaded: Word)
    ensures loaded == LoadSum(ps[..]) % TWO64
  {
    hide Add64;
    loaded := 0;
    for i := 0 to ps.Length
      invariant loaded == LoadSum(ps[..i]) % TWO64
    {
      assert ps[..i + 1][..i] == ps[..i];
      var more: Word := if ps[i].typ == PT_LOAD then ps[i].memsz else 0;
      AddWrapped(LoadSum(ps[..i]), more);
      loaded := Add64(loaded, more);
    }
    assert ps[..ps.Length] == ps[..];
  }

  /** Stage 4: sums the loadable segments, adds the areas behind them, and turns the total into pages. */
  method TotalSize(ps: array<Phdr>, cores: Word) returns (total: Word, pages: Word)
    ensures total == (LoadSum(ps[..]) + Extras(cores)) % TWO64
    ensures total == (LoadSum(ps[..]) + 0x10000 * cores + 108 * cores + 8 * (5 + cores) + 160) % 0x1_0000_0000_0000_0000
    ensures pages == Pages(total)
  {
    var loaded := SumLoads(ps);
    assert Extras(cores) == 0x10000 * cores + 108 * cores + 8 * (5 + cores) + 160;
    hide Add64, StackBytes, TssBytes, GdtBytes;
    var stacks, gdt, tss := StackBytes(cores) % TWO64, GdtBytes(cores) % TWO64, TssBytes(cores) % TWO64;
    ghost var s := LoadSum(ps[..]);
    AddWrapped(s, GdtBytes(cores));
    AddWrapped(s + GdtBytes(cores), StackBytes(cores));
    AddWrapped(s + GdtBytes(cores) + StackBytes(cores), TssBytes(cores));
    AddWrapped(s + GdtBytes(cores) + StackBytes(cores) + TssBytes(cores), KERNEL_HEADER_SIZE);
    total := Add64(Add64(Add64(Add64(loaded, gdt), stacks), tss), KERNEL_HEADER_SIZE);
    var tmp := total / PAGE_SIZE;
    pages := tmp + if tmp % PAGE_SIZE != 0 then 1 else 0;
  }

  /** The rounding as written: it looks at the low bits of the size in pages. */
  function Pages(total: Word): Word {
    total / PAGE_SIZE + if total / PAGE_SIZE % PAGE_SIZE != 0 then 1 else 0
  }

  /** The rounding that covers the size. */
  function PagesNeeded(total: nat): nat {
    (total + PAGE_SIZE - 1) / PAGE_SIZE
  }

  /**
   The allocation covers the size exactly when the page count is no multiple of 4096 or the size is one of whole pages;
   it is never off by more than a page, and exact only when both tests agree.
   */
  lemma PagesCoverIff(total: Word)
    ensures Pages(total) * PAGE_SIZE >= total <==> total / PAGE_SIZE % PAGE_SIZE != 0 || total % PAGE_SIZE == 0
    ensures total - PAGE_SIZE < Pages(total) * PAGE_SIZE <= total + PAGE_SIZE
    ensures Pages(total) == PagesNeeded(total) <==> (total / PAGE_SIZE % PAGE_SIZE != 0 <==> total % PAGE_SIZE != 0)
    ensures PagesNeeded(total) <= Pages(total) <==> Pages(total) * PAGE_SIZE >= total
  {
    Needed(total);
  }

  lemma Needed(total: nat)
    ensures PagesNeeded(total) == total / PAGE_SIZE + if total % PAGE_SIZE != 0 then 1 else 0
  {
  }

  // ---------- segments and gaps

  /** Loadable segments follow each other in the table as in memory, without overlap. */
  ghost predicate Ascending(ps: seq<Phdr>) {
    forall j, k :: 0 <= j < k < |ps| && ps[j].typ == PT_LOAD && ps[k].typ == PT_LOAD ==> ps[j].paddr + ps[j].memsz <= ps[k].paddr
  }

  /** Bytes between the segments, and in front of the first. */
  function Gaps(ps: seq<Phdr>): int {
    if ps == [] then 0
    else
      var front, last := ps[..|ps| - 1], ps[|ps| - 1];
      Gaps(front) + if last.typ == PT_LOAD then last.paddr - EndOffset(front) else 0
  }

  /** Segments and gaps make up everything in front of the end offset. */
  lemma {:induction false} EndIsLoadAndGaps(ps: seq<Phdr>)
    ensures EndOffset(ps) == LoadSum(ps) + Gaps(ps)
  {
    if ps != [] {
      EndIsLoadAndGaps(ps[..|ps| - 1]);
    }
  }

  lemma {:induction false} EndIsSome(ps: seq<Phdr>)
    ensures EndOffset(ps) == 0 || exists k :: 0 <= k < |ps| && ps[k].typ == PT_LOAD && EndOffset(ps) == ps[k].paddr + ps[k].memsz
  {
    if ps != [] && ps[|ps| - 1].typ != PT_LOAD {
      var front := ps[..|ps| - 1];
      EndIsSome(front);
      if EndOffset(front) != 0 {
        var k :| 0 <= k < |front| && front[k].typ == PT_LOAD && EndOffset(front) == front[k].paddr + front[k].memsz;
        assert ps[k] == front[k];
      }
    }
  }

  /** Segments in ascending order never have less than nothing between them, and none reaches past the end offset. */
  lemma {:induction false} AscendingEnds(ps: seq<Phdr>, k: nat)
    requires Ascending(ps)
    ensures Gaps(ps) >= 0
    ensures k < |ps| && ps[k].typ == PT_LOAD ==> ps[k].paddr + ps[k].memsz <= EndOffset(ps)
    decreases |ps|
  {
    if ps != [] {
      var front := ps[..|ps| - 1];
      AscendingEnds(front, k);
      EndIsSome(front);
      if EndOffset(front) != 0 {
        var j :| 0 <= j < |front| && front[j].typ == PT_LOAD && EndOffset(front) == front[j].paddr + front[j].memsz;
        assert ps[j] == front[j];
      }
    }
  }

  /**
   The whole layout lies in the allocation exactly when the gaps between the segments fit what the rounding leaves over;
   where the rounding leaves nothing over, that takes no gaps and a size of whole pages.
   */
  lemma LayoutFitsIff(ps: seq<Phdr>, cores: nat)
    requires LoadSum(ps) + Extras(cores) < TWO64
    ensures var total := LoadSum(ps) + Extras(cores);
            EndOffset(ps) + Extras(cores) <= Pages(total) * PAGE_SIZE
            <==> Gaps(ps) + total % PAGE_SIZE <= if total / PAGE_SIZE % PAGE_SIZE != 0 then PAGE_SIZE else 0
  {
    hide Extras;
    EndIsLoadAndGaps(ps);
  }

  /** An allocation that covers the size has room for everything when the end offset is within the sum of the segments. */
  lemma CoveredLayoutFits(ps: seq<Phdr>, cores: nat)
    requires LoadSum(ps) + Extras(cores) < TWO64 && EndOffset(ps) <= LoadSum(ps)
    requires Pages(LoadSum(ps) + Extras(cores)) * PAGE_SIZE >= LoadSum(ps) + Extras(cores)
    ensures EndOffset(ps) + Extras(cores) <= Pages(LoadSum(ps) + Extras(cores)) * PAGE_SIZE
    ensures Ascending(ps) ==> Gaps(ps) == 0
  {
    hide Extras, Pages;
    EndIsLoadAndGaps(ps);
    if Ascending(ps) {
      AscendingEnds(ps, 0);
    }
  }

  // ---------- the program configuration

  class ProgramConfig {
    var startp: Word
    var startv: Word
    var totalSize: Word
    var loadSize: Word
    var endOffset: Word
    var stackSection: Word
    var stackSectionSize: Word
    var percpuStackOffset: Word
    var percpuTSSOffset: Word
    var GDTOffset: Word
    var postbootServicesHeader: Word

    /** The areas as half-open ranges: loaded segments, stacks, TSS array, GDT, header. */
    ghost predicate LaidOut(start: nat, end: nat, cores: nat)
      reads this
    {
      && startp == start && endOffset == end
      && percpuStackOffset == start + end
      && percpuTSSOffset == percpuStackOffset + StackBytes(cores)
      && GDTOffset == percpuTSSOffset + TssBytes(cores)
      && postbootServicesHeader == GDTOffset + GdtBytes(cores)
      && postbootServicesHeader + KERNEL_HEADER_SIZE == start + end + Extras(cores)
    }

    /** The loop that remembers the last loadable segment, and stage 6. */
    method Configure(ps: array<Phdr>, cores: Word, start: Word, virtualStart: Word, stack: Word, stackSize: Word)
      requires Loads(ps[..])
      modifies this
      ensures totalSize == (LoadSum(ps[..]) + Extras(cores)) % TWO64
      ensures loadSize == Pages(totalSize) * PAGE_SIZE % TWO64
      ensures startp == start && startv == virtualStart && stackSection == stack && stackSectionSize == stackSize
      ensures endOffset == EndOffset(ps[..]) % TWO64
      ensures exists last :: 0 <= last < ps.Length && ps[last].typ == 1 && (forall k :: last < k < ps.Length ==> ps[k].typ != 1)
                && endOffset == (ps[last].paddr + ps[last].memsz) % 0x1_0000_0000_0000_0000
      ensures start + EndOffset(ps[..]) + Extras(cores) < TWO64 ==> LaidOut(start, EndOffset(ps[..]), cores)
    {
      var total, pages := TotalSize(ps, cores);
      var last := LastLoad(ps);
      hide Add64, StackBytes, TssBytes, GdtBytes, Pages, EndOffset, LoadSum;
      AddWrapped(ps[last].paddr, ps[last].memsz);
      endOffset := Add64(ps[last].paddr, ps[last].memsz);
      startp := start;
      startv := virtualStart;
      totalSize := total;
      loadSize := pages * PAGE_SIZE % TWO64;
      stackSection := stack;
      stackSectionSize := stackSize;
      percpuStackOffset := Add64(startp, endOffset);
      percpuTSSOffset := Add64(percpuStackOffset, StackBytes(cores) % TWO64);
      GDTOffset := Add64(percpuTSSOffset, TssBytes(cores) % TWO64);
      postbootServicesHeader := Add64(GDTOffset, GdtBytes(cores) % TWO64);
      Offsets(start, ps[last].paddr + ps[last].memsz, cores);
    }
  }

  /**
   Area by area: a stack of 64 KiB and a TSS of 108 bytes for each core, five descriptors of eight bytes and one for each
   core, and the header's 160 bytes; each area ends where the next begins, and the last where the layout ends.
   */
  lemma AreasOfCores(p: ProgramConfig, start: nat, end: nat, cores: nat, i: nat, j: nat, d: nat)
    requires p.LaidOut(start, end, cores) && i < j < cores && d < 5 + cores
    ensures start + end <= p.percpuStackOffset + 0x10000 * i
    ensures p.percpuStackOffset + 0x10000 * i + 0x10000 <= p.percpuStackOffset + 0x10000 * j
    ensures p.percpuStackOffset + 0x10000 * j + 0x10000 <= p.percpuTSSOffset
    ensures p.percpuTSSOffset + 108 * i + 108 <= p.percpuTSSOffset + 108 * j
    ensures p.percpuTSSOffset + 108 * j + 108 <= p.GDTOffset
    ensures p.GDTOffset + 8 * d + 8 <= p.postbootServicesHeader
    ensures p.postbootServicesHeader + 160 == start + end + Extras(cores)
    ensures p.percpuTSSOffset == p.percpuStackOffset + 0x10000 * cores && p.GDTOffset == p.percpuTSSOffset + 108 * cores
    ensures p.postbootServicesHeader == p.GDTOffset + 8 * (5 + cores)
  {
  }

  /** Without wrap-around the offsets add up to the areas one after the other. */
  lemma Offsets(start: Word, end: nat, cores: nat)
    ensures start + end + Extras(cores) < TWO64 ==>
              var stacks := Add64(start, end % TWO64);
              var tss := Add64(stacks, StackBytes(cores) % TWO64);
              var gdt := Add64(tss, TssBytes(cores) % TWO64);
              && end % TWO64 == end && stacks == start + end
              && tss == stacks + StackBytes(cores) && gdt == tss + TssBytes(cores)
              && Add64(gdt, GdtBytes(cores) % TWO64) == gdt + GdtBytes(cores)
  {
    if start + end + Extras(cores) < TWO64 {
      hide Add64, StackBytes, TssBytes, GdtBytes;
      NoWrap(start, end);
      NoWrap(start + end, StackBytes(cores));
      NoWrap(start + end + StackBytes(cores), TssBytes(cores));
      NoWrap(start + end + StackBytes(cores) + TssBytes(cores), GdtBytes(cores));
    }
  }

  lemma NoWrap(a: Word, b: nat)
    requires a + b < TWO64
    ensures b % TWO64 == b && Add64(a, b % TWO64) == a + b
  {
  }

  /** The last loadable segment, as the loading loop remembers it. */
  method LastLoad(ps: array<Phdr>) returns (last: nat)
    requires Loads(ps[..])
    ensures last < ps.Length && ps[last].typ == PT_LOAD && EndOffset(ps[..]) == ps[last].paddr + ps[last].memsz
    ensures forall k :: last < k < ps.Length ==> ps[k].typ != PT_LOAD
  {
    var found := -1;
    for i := 0 to ps.Length
      invariant -1 <= found < i
      invariant found != -1 ==> ps[found].typ == PT_LOAD && EndOffset(ps[..i]) == ps[found].paddr + ps[found].memsz
      invariant forall k :: found < k < i ==> ps[k].typ != PT_LOAD
    {
      assert ps[..i + 1][..i] == ps[..i];
      if ps[i].typ == PT_LOAD {
        found := i;
      }
    }
    assert ps[..ps.Length] == ps[..];
    last := found;
  }

  // ---------- sections and symbols by name

  datatype Section = Section(name: nat, text: string)
  datatype Symbol = Symbol(name: nat, text: string, value: Word)

  /** The section loop keeps the last section of the name; unnamed sections do not count. */
  method FindSection(sections: array<Section>, wanted: string) returns (found: int)
    ensures -1 <= found < sections.Length
    ensures found != -1 ==> sections[found].name != 0 && sections[found].text == wanted
    ensures forall k :: found < k < sections.Length ==> sections[k].name == 0 || sections[k].text != wanted
  {
    found := -1;
    for i := 0 to sections.Length
      invariant -1 <= found < i
      invariant found != -1 ==> sections[found].name != 0 && sections[found].text == wanted
      invariant forall k :: found < k < i ==> sections[k].name == 0 || sections[k].text != wanted
    {
      if sections[i].name == 0 {
        continue;
      }
      found := if sections[i].text == wanted then i else found;
    }
  }

  predicate Named(s: Symbol, wanted: string) {
    s.name != 0 && s.text == wanted
  }

  ghost predicate IsFirst(symbols: seq<Symbol>, k: int, wanted: string) {
    0 <= k < |symbols| && Named(symbols[k], wanted) && forall j :: 0 <= j < k ==> !Named(symbols[j], wanted)
  }

  /** The symbol loop takes the value of the first symbol of the name, and zero without one. */
  method FindSymbol(symbols: array<Symbol>, wanted: string) returns (value: Word)
    ensures (forall k :: !IsFirst(symbols[..], k, wanted)) ==> value == 0
    ensures forall k :: IsFirst(symbols[..], k, wanted) ==> value == symbols[k].value
  {
    value := 0;
    var found := false;
    ghost var at := 0;
    var i := 0;
    while i < symbols.Length
      invariant i <= symbols.Length
      invariant !found ==> value == 0 && forall k :: 0 <= k < i ==> !Named(symbols[k], wanted)
      invariant found ==> at < i && Named(symbols[at], wanted) && value == symbols[at].value
      invariant found ==> forall k :: 0 <= k < at ==> !Named(symbols[k], wanted)
    {
      if symbols[i].name != 0 {
        if found {
          break;
        }
        found := symbols[i].text == wanted;
        if found {
          value, at := symbols[i].value, i;
        }
      }
      i := i + 1;
    }
    assert found ==> IsFirst(symbols[..], at, wanted);
  }
}
