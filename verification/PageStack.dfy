/**
 The imperative half of paging: the page stack, and mapPages writing page-table entries into memory in place.
 Addresses are byte addresses here; a word of memory is eight bytes.
 */
module PageStacks {
  import opened Machine
  import opened PageTables
  import opened Paging

  /** page_stack_t.  `exhausted` notes that AllocatePage has returned NULL. */
  class PageStack {
    var addr: Word
    var pages: Word
    ghost var exhausted: bool

    /** A non-empty, page-aligned stretch of physical memory, as the firmware describes it. */
    predicate Valid()
      reads this
    {
      addr % 4096 == 0 && pages >= 1 && addr + 4096 * pages <= 0x10_0000_0000_0000
    }

    constructor (addr: Word, pages: Word)
      ensures this.addr == addr && this.pages == pages && !exhausted
    {
      this.addr, this.pages, exhausted := addr, pages, false;
    }

    /** Structure assignment. */
    constructor Copy(other: PageStack)
      ensures addr == other.addr && pages == other.pages && exhausted == other.exhausted
    {
      addr, pages, exhausted := other.addr, other.pages, other.exhausted;
    }

    method AllocatePage() returns (page: Word)
      requires Valid()
      modifies this
      ensures Valid()
      ensures old(pages) == 1 ==> page == 0 && addr == old(addr) && pages == 1 && exhausted
      ensures old(pages) != 1 ==> page == old(addr) && addr == old(addr) + 4096 && pages == old(pages) - 1 && exhausted == old(exhausted)
    {
      page := addr;
      if pages - 1 == 0 {
        exhausted := true;
        return 0;
      }
      addr := addr + 4096;
      pages := pages - 1;
    }

    method AllocatePageAndZero(ram: array<Word>) returns (page: Word)
      requires Valid() && ram.Length == RAM_WORDS
      modifies this, ram
      ensures Valid()
      ensures page % 4096 == 0 && page < 0x10_0000_0000_0000
      ensures (page / 4096, StateOf(ram, this)) == AllocateZeroed(old(StateOf(ram, this)))
    {
      page := AllocatePage();
      if page != 0 {
        MemSetZero(ram, page);
      }
    }
  }

  /** Memory and page stack together, in frames. */
  ghost function StateOf(ram: array<Word>, stack: PageStack): (s: Pager)
    requires ram.Length == RAM_WORDS && stack.Valid()
    reads ram, stack
    ensures s.Valid()
  {
    Pager(ram[..], stack.addr / 4096, stack.pages, stack.exhausted)
  }

  method MemSetZero(ram: array<Word>, page: Word)
    requires ram.Length == RAM_WORDS && page % 4096 == 0 && page < 0x10_0000_0000_0000
    modifies ram
    ensures ram[..] == ZeroPage(old(ram[..]), page / 4096)
  {
    var base := page / 8;
    for i := 0 to 512
      invariant forall j :: 0 <= j < ram.Length ==> ram[j] == if base <= j < base + i then 0 else old(ram[j])
    {
      ram[base + i] := 0;
    }
    assert base == 512 * (page / 4096);
  }

  /** Memory after one in-place store. */
  method WriteEntry(ram: array<Word>, table: Word, i: Index, w: Word)
    requires ram.Length == RAM_WORDS && table % 4096 == 0 && table < 0x10_0000_0000_0000
    modifies ram
    ensures ram[..] == Store(old(ram[..]), table / 4096, i, w)
  {
    ram[table / 8 + i] := w;
  }

  /** The body of the loop in MapPages: follow entry i of a table, creating the table below it if need be. */
  method EnterTable(ram: array<Word>, table: Word, stack: PageStack, i: Index) returns (below: Word)
    requires ram.Length == RAM_WORDS && table % 4096 == 0 && table < 0x10_0000_0000_0000 && stack.Valid()
    modifies ram, stack
    ensures stack.Valid() && below % 4096 == 0 && below < 0x10_0000_0000_0000
    ensures (below / 4096, StateOf(ram, stack)) == Descend(old(StateOf(ram, stack)), table / 4096, i)
  {
    hide ZeroPage, Store, FrameOfAddress;
    ghost var s := StateOf(ram, stack);
    var entry := ram[table / 8 + i];
    assert entry == Load(s.mem, table / 4096, i);
    if Present(entry) {
      below := 4096 * FrameOf(entry);
    } else {
      below := stack.AllocatePageAndZero(ram);
      FrameOfSmallAddress(below);
      WriteEntry(ram, table, i, Entry(FrameOfAddress(below)));
    }
  }

  /** The four indices, shifted and masked out of the address, the lowest first. */
  method CutIndices(virt: Word) returns (indices: seq<Index>)
    ensures |indices| == 4 && forall d: nat :: d <= 3 ==> indices[3 - d] == IndexAt(VpnOfAddress(virt), d)
  {
    var address := virt / 4096;
    var i0: Index := address % 512;
    address := address / 512;
    var i1: Index := address % 512;
    address := address / 512;
    var i2: Index := address % 512;
    address := address / 512;
    var i3: Index := address % 512;
    indices := [i0, i1, i2, i3];
    IndicesOfPage(virt);
    hide IndexAt, VpnOfAddress;
    forall d: nat | d <= 3
      ensures indices[3 - d] == IndexAt(VpnOfAddress(virt), d)
    {
      assert d == 0 || d == 1 || d == 2 || d == 3;
    }
  }

  method MapPages(ram: array<Word>, root: Word, stack: PageStack, phys: Word, virt: Word)
    requires ram.Length == RAM_WORDS && root % 4096 == 0 && root < 0x10_0000_0000_0000 && stack.Valid()
    modifies ram, stack
    ensures stack.Valid()
    ensures StateOf(ram, stack) == MapPage(old(StateOf(ram, stack)), root / 4096, phys, virt)
  {
    hide IndexAt, VpnOfAddress, Store, Descend, FrameOfAddress;
    var table := root;
    var indices := CutIndices(virt);
    for i := 0 to 3
      invariant stack.Valid() && table % 4096 == 0 && table < 0x10_0000_0000_0000
      invariant (table / 4096, StateOf(ram, stack)) == DescendTo(old(StateOf(ram, stack)), root / 4096, VpnOfAddress(virt), i)
    {
      table := EnterTable(ram, table, stack, indices[3 - i]);
    }
    WriteEntry(ram, table, indices[0], Entry(FrameOfAddress(phys)));
  }

  lemma FrameOfSmallAddress(a: Word)
    requires a < 0x10_0000_0000_0000
    ensures FrameOfAddress(a) == a / 4096
  {
  }

  /** The indices cut out of a virtual address by shifting and masking. */
  lemma IndicesOfPage(virt: Word)
    ensures var a := virt / 4096;
            var v := VpnOfAddress(virt);
            && IndexAt(v, 3) == a % 512
            && IndexAt(v, 2) == a / 512 % 512
            && IndexAt(v, 1) == a / 512 / 512 % 512
            && IndexAt(v, 0) == a / 512 / 512 / 512 % 512
  {
    var a, v := virt / 4096, VpnOfAddress(virt);
    assert a == 0x10_0000_0000 * (a / 0x10_0000_0000) + v;
    assert a / 512 == 0x800_0000 * (a / 0x10_0000_0000) + v / 512;
    assert a / 512 / 512 == 0x4_0000 * (a / 0x10_0000_0000) + v / 0x4_0000;
    assert a / 512 / 512 / 512 == 512 * (a / 0x10_0000_0000) + v / 0x800_0000;
  }
}
