/**
 The UEFI memory map handed to the kernel: rebasing its virtual addresses, finding the region that feeds the page
 stack, and splitting that region's descriptor once paging is set up.
 */
module MemoryMaps {
  import Arithmetic
  import opened Bytes
  import opened Machine
  import opened MapSlots

  /** efi_memory_map.  Slot 0 is `start` bytes into `memory`; `addr` is the pointer to it. */
  class MemoryMap {
    const memory: array<Byte>
    const start: nat
    var addr: Word
    var usedSize: Word
    const entrySize: Word

    constructor (memory: array<Byte>, start: nat, addr: Word, usedSize: Word, entrySize: Word)
      ensures this.memory == memory && this.start == start && this.addr == addr
      ensures this.usedSize == usedSize && this.entrySize == entrySize
    {
      this.memory, this.start, this.addr, this.usedSize, this.entrySize := memory, start, addr, usedSize, entrySize;
    }

    predicate Valid()
      reads this
    {
      entrySize > 0 && Layout(memory.Length, start, entrySize, Count())
    }

    function Count(): nat
      requires entrySize > 0
      reads this
    {
      usedSize / entrySize
    }

    ghost function Used(): (ds: seq<Descriptor>)
      requires Valid()
      reads this, memory
      ensures |ds| == Count()
    {
      Slots(memory[..], start, entrySize, Count(), Count())
    }

    /** The descriptor in slot i, as the macro with a plain index finds it. */
    method Entry(i: nat) returns (d: Descriptor)
      requires Valid() && i < Count()
      ensures d == Used()[i]
    {
      SlotInside(memory.Length, start, entrySize, Count(), i);
      d := DescriptorAt(memory[..], SlotAt(start, entrySize, i));
    }

    method FixVirtualAddresses(offset: Word)
      requires Valid()
      modifies memory
      ensures memory[..] == Rebased(old(memory[..]), start, entrySize, Count(), Count(), offset)
    {
      ghost var was := memory[..];
      var n := Count();
      hide RebasedSlot, Layout, SlotAt;
      for i := 0 to n
        invariant memory[..] == Rebased(was, start, entrySize, n, i, offset)
      {
        SlotInside(memory.Length, start, entrySize, n, i);
        RebaseSlot(SlotAt(start, entrySize, i), offset);
      }
    }

    /** The body of that loop. */
    method RebaseSlot(dsc: nat, offset: Word)
      requires dsc + DESCRIPTOR_SIZE <= memory.Length
      modifies memory
      ensures memory[..] == RebasedSlot(old(memory[..]), dsc, offset)
    {
      hide Put, Field;
      var memtype := Field(memory[..], dsc, 4);
      var notRuntimeRelated := memtype != EFI_RUNTIME_SERVICES_CODE && memtype != EFI_RUNTIME_SERVICES_DATA;
      RebasedTwice(memory[..], dsc, offset);
      Write(memory, dsc + 16, 8, Load64(memory[..], dsc + 8));
      Write(memory, dsc + 16, 8, Add64(Load64(memory[..], dsc + 16), if notRuntimeRelated then offset else 0));
    }

    /**
     The chosen region is at least as large as every usable one.  It is usable itself unless the search never
     moved off slot 0.
     */
    method FindBiggestUsableMemoryRegion() returns (index: nat)
      requires Valid() && Count() > 0
      ensures index < Count()
      ensures IsBiggest(Used(), index)
    {
      index := 0;
      var biFree := Entry(0);
      ghost var ds := Used();
      for i := 0 to Count()
        invariant index < Count() && biFree == ds[index] && BiggestOf(ds, i, index)
      {
        hide BiggestOf, Used, Valid;
        var dsc := Entry(i);
        var usable := dsc.pages > biFree.pages
          && (dsc.memtype == EFI_CONVENTIONAL_MEMORY
              || dsc.memtype == EFI_BOOT_SERVICES_CODE
              || dsc.memtype == EFI_BOOT_SERVICES_DATA);
        BiggestStep(ds, i, index);
        biFree := if usable then dsc else biFree;
        index := if usable then i else index;
      }
    }

    /** The loop that is meant to move all entries from `index` on by one slot, with the slot macro as it expands. */
    method ShiftRight(index: nat)
      requires Valid() && index < Count()
      modifies memory
      ensures memory[..] == Shifted(old(memory[..]), start, entrySize, Count(), index)
    {
      ShiftFrom(Count(), index);
    }

    method ShiftFrom(dscs: nat, index: nat)
      requires Layout(memory.Length, start, entrySize, dscs) && index <= dscs
      modifies memory
      ensures memory[..] == Shifted(old(memory[..]), start, entrySize, dscs, index)
    {
      hide SlotAt, SlotBefore, Copied, Shifted, Layout;
      ghost var was := memory[..];
      var i := dscs;
      while i > index
        invariant index <= i <= dscs && Layout(memory.Length, start, entrySize, i)
        invariant Shifted(memory[..], start, entrySize, i, index) == Shifted(was, start, entrySize, dscs, index)
      {
        ShiftedStep(memory[..], start, entrySize, i, index);
        CopyDescriptor(SlotAt(start, entrySize, i), SlotBefore(start, entrySize, i));
        i := i - 1;
      }
      ShiftedNone(memory[..], start, entrySize, i, index);
    }

    /** *dsc = *prev. */
    method CopyDescriptor(dst: nat, src: nat)
      requires dst + DESCRIPTOR_SIZE <= memory.Length && src + DESCRIPTOR_SIZE <= memory.Length
      modifies memory
      ensures memory[..] == Copied(old(memory[..]), dst, src)
    {
      var prev := memory[src..src + DESCRIPTOR_SIZE];
      for i := 0 to DESCRIPTOR_SIZE
        invariant forall x :: 0 <= x < memory.Length ==> memory[x] == if dst <= x < dst + i then prev[x - dst] else old(memory[x])
      {
        memory[dst + i] := prev[i];
      }
    }

    method FinalizeMemoryMap(index: nat, left: Word, offset: Word)
      requires Valid() && index < Count()
      modifies this, memory
      ensures memory[..] == Finalized(old(memory[..]), start, entrySize, old(Count()), index, left, offset)
      ensures usedSize == Add64(old(usedSize), 1) && addr == Add64(old(addr), offset)
    {
      SlotInside(memory.Length, start, entrySize, Count(), index);
      hide Put, Field, SlotAt, SlotBehind;
      ShiftRight(index);
      SplitSlot(SlotAt(start, entrySize, index), SlotBehind(start, entrySize, index), left, offset);
      usedSize := Add64(usedSize, 1);
      addr := Add64(addr, offset);
    }

    /** The stores through the two descriptor pointers. */
    method SplitSlot(virtualMappingPages: nat, remainingMemoryPages: nat, left: Word, offset: Word)
      requires virtualMappingPages + DESCRIPTOR_SIZE <= memory.Length && remainingMemoryPages + DESCRIPTOR_SIZE <= memory.Length
      modifies memory
      ensures memory[..]
           == WithRemainder(WithPaging(old(memory[..]), virtualMappingPages, left), virtualMappingPages, remainingMemoryPages, left, offset)
    {
      hide Put, Field;
      Write(memory, virtualMappingPages, 4, BOOT_PAGING_MEM_TYPE);
      Write(memory, virtualMappingPages + 24, 8, Sub64(Load64(memory[..], virtualMappingPages + 24), left));
      Write(memory, remainingMemoryPages, 4, EFI_CONVENTIONAL_MEMORY);
      Write(memory, remainingMemoryPages + 8, 8,
            Add64(Load64(memory[..], virtualMappingPages + 8), Load64(memory[..], virtualMappingPages + 24) * 4096 % TWO64));
      Write(memory, remainingMemoryPages + 16, 8, Add64(Load64(memory[..], remainingMemoryPages + 8), offset));
      Write(memory, remainingMemoryPages + 24, 8, left);
    }
  }

  /** Storing the physical address first and then adding to it is one store. */
  lemma RebasedTwice(m: seq<Byte>, a: nat, offset: Word)
    requires a + DESCRIPTOR_SIZE <= |m|
    ensures var d := DescriptorAt(m, a);
            var m1 := Store64(m, a + 16, d.physAddr);
            Store64(m1, a + 16, Add64(Load64(m1, a + 16), if d.Runtime() then 0 else offset)) == RebasedSlot(m, a, offset)
  {
    hide Put, Field;
    var d := DescriptorAt(m, a);
    LoadStored(m, a + 16, d.physAddr);
    PutTwice(m, a + 16, 8, d.physAddr, Rebase(d, offset).virtAddr);
  }

  /** The answer of the region search, for all maps: what it dominates, and how ties and slot 0 are resolved. */
  ghost predicate IsBiggest(ds: seq<Descriptor>, index: nat) {
    BiggestOf(ds, |ds|, index)
  }

  /** The answer so far, after i slots. */
  ghost predicate BiggestOf(ds: seq<Descriptor>, i: nat, index: nat) {
    && i <= |ds| && index < |ds| && (index == 0 || index < i)
    && (index != 0 ==> ds[index].Usable() && ds[index].pages > ds[0].pages)
    && (forall j :: 0 <= j < i && ds[j].Usable() ==> ds[j].pages <= ds[index].pages)
    && (forall j :: 0 <= j < index && (j == 0 || ds[j].Usable()) ==> ds[j].pages < ds[index].pages)
  }

  lemma BiggestStep(ds: seq<Descriptor>, i: nat, index: nat)
    requires i < |ds| && BiggestOf(ds, i, index)
    ensures index < |ds|
    ensures BiggestOf(ds, i + 1, if ds[i].pages > ds[index].pages && ds[i].Usable() then i else index)
  {
  }

  /** The search has one answer. */
  lemma BiggestUnique(ds: seq<Descriptor>, i: nat, j: nat)
    requires IsBiggest(ds, i) && IsBiggest(ds, j)
    ensures i == j
  {
  }

  /** Memory a loader may take: conventional memory, and that of the boot services. */
  predicate Free(d: Descriptor) {
    d.memtype == 3 || d.memtype == 4 || d.memtype == 7
  }

  /** The region found is usable memory exactly when slot 0 is, or some usable region is larger than slot 0. */
  lemma BiggestUsableIff(ds: seq<Descriptor>, index: nat)
    requires IsBiggest(ds, index)
    ensures Free(ds[index]) <==> Free(ds[0]) || exists j :: 0 <= j < |ds| && Free(ds[j]) && ds[j].pages > ds[0].pages
  {
    if Free(ds[index]) && !Free(ds[0]) {
      assert ds[index].pages > ds[0].pages;
    }
  }

  /**
   The map's used size is increased by 1 rather than by one entry, so a reader that divides by the entry size, as
   the loader itself does, sees the descriptor gained by the split exactly when entries are one byte long.
   */
  lemma SplitSeenIff(n: nat, entrySize: Word)
    requires entrySize > 0 && n * entrySize + 1 < TWO64
    ensures (n * entrySize + 1) / entrySize == n + 1 <==> entrySize == 1
  {
    var q, r := (n * entrySize + 1) / entrySize, (n * entrySize + 1) % entrySize;
    assert q * entrySize + r == n * entrySize + 1;
    assert (q - n) * entrySize == 1 - r;
  }
}
