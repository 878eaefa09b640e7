/**
 The UEFI memory map as bytes: descriptors in slots of entry_size bytes, and what the boot loader's stores do to them.
 */
module MapSlots {
  import Arithmetic
  import opened Bytes
  import opened Machine

  const EFI_BOOT_SERVICES_CODE := 3
  const EFI_BOOT_SERVICES_DATA := 4
  const EFI_RUNTIME_SERVICES_CODE := 5
  const EFI_RUNTIME_SERVICES_DATA := 6
  const EFI_CONVENTIONAL_MEMORY := 7

  const BOOT_PAGING_MEM_TYPE := 0x80AA_AAAA

  /** Bytes of a descriptor: a 32-bit type, padding, and four 64-bit fields. */
  const DESCRIPTOR_SIZE := 40

  datatype Descriptor = Descriptor(memtype: nat, physAddr: Word, virtAddr: Word, pages: Word, attribute: Word) {
    predicate Runtime() {
      memtype == EFI_RUNTIME_SERVICES_CODE || memtype == EFI_RUNTIME_SERVICES_DATA
    }

    predicate Usable() {
      memtype == EFI_CONVENTIONAL_MEMORY || memtype == EFI_BOOT_SERVICES_CODE || memtype == EFI_BOOT_SERVICES_DATA
    }

    /** What the UEFI specification promises of a descriptor: page-aligned, not empty, inside physical memory. */
    predicate Physical() {
      physAddr % 4096 == 0 && pages >= 1 && physAddr + 4096 * pages <= 0x10_0000_0000_0000
    }
  }

  function DescriptorAt(m: seq<Byte>, a: nat): Descriptor
    requires a + DESCRIPTOR_SIZE <= |m|
  {
    Descriptor(Field(m, a, 4), Load64(m, a + 8), Load64(m, a + 16), Load64(m, a + 24), Load64(m, a + 32))
  }

  lemma SameDescriptor(m: seq<Byte>, a: nat, m': seq<Byte>, b: nat)
    requires a + DESCRIPTOR_SIZE <= |m| && b + DESCRIPTOR_SIZE <= |m'|
    requires m[a..a + DESCRIPTOR_SIZE] == m'[b..b + DESCRIPTOR_SIZE]
    ensures DescriptorAt(m, a) == DescriptorAt(m', b)
  {
    SamePart(m, a, m', b, 0, 4);
    SamePart(m, a, m', b, 8, 8);
    SamePart(m, a, m', b, 16, 8);
    SamePart(m, a, m', b, 24, 8);
    SamePart(m, a, m', b, 32, 8);
  }

  lemma SamePart(m: seq<Byte>, a: nat, m': seq<Byte>, b: nat, o: nat, n: nat)
    requires a + DESCRIPTOR_SIZE <= |m| && b + DESCRIPTOR_SIZE <= |m'| && o + n <= DESCRIPTOR_SIZE
    requires m[a..a + DESCRIPTOR_SIZE] == m'[b..b + DESCRIPTOR_SIZE]
    ensures Field(m, a + o, n) == Field(m', b + o, n)
  {
    hide Field;
    PartOfSlice(m, a, DESCRIPTOR_SIZE, o, n);
    PartOfSlice(m', b, DESCRIPTOR_SIZE, o, n);
    FieldSame(m, a + o, m', b + o, n);
  }

  lemma PartOfSlice<T>(s: seq<T>, a: nat, size: nat, o: nat, n: nat)
    requires a + size <= |s| && o + n <= size
    ensures s[a + o..a + o + n] == s[a..a + size][o..o + n]
  {
    var t := s[a..a + size];
    var u, v := s[a + o..a + o + n], t[o..o + n];
    forall k | 0 <= k < n
      ensures u[k] == v[k]
    {
      assert t[o + k] == s[a + (o + k)];
    }
  }

  // ---------- where the slot macro points

  /** The slot macro with a plain index. */
  function SlotAt(start: nat, e: nat, i: nat): nat {
    start + i * e
  }

  /** The slot macro with the argument `i - 1`: the multiplication takes the 1 alone. */
  function SlotBefore(start: nat, e: nat, i: nat): int {
    start + i - 1 * e
  }

  /** The slot macro with the argument `k+1`. */
  function SlotBehind(start: nat, e: nat, k: nat): nat {
    start + k + 1 * e
  }

  /** `i - 1` names the slot in front only for one-byte entries, and lies in front of the map for i below the entry size. */
  lemma SlotBeforeIff(start: nat, e: nat, i: nat)
    requires i >= 1 && e >= 1
    ensures SlotBefore(start, e, i) == SlotAt(start, e, i - 1) <==> e == 1
    ensures SlotBefore(start, e, i) < start <==> i < e
  {
    var d := (i - 1) * e - (i - e);
    assert d == i * (e - 1);
    if e > 1 {
      Arithmetic.MulMonotone(i, 1, e - 1);
    }
  }

  /** `k+1` names the slot behind only for slot 0 or one-byte entries. */
  lemma SlotBehindIff(start: nat, e: nat, k: nat)
    requires e >= 1
    ensures SlotBehind(start, e, k) == SlotAt(start, e, k + 1) <==> k == 0 || e == 1
  {
    assert (k + 1) * e - (k + e) == k * (e - 1);
    if k > 0 && e > 1 {
      Arithmetic.MulMonotone(k, 1, e - 1);
    }
  }

  /**
   n used slots from `start` on, with room for one more; entries are no smaller than descriptors, and the bytes in front
   of the map that the code reads exist.
   */
  predicate Layout(size: nat, start: nat, e: nat, n: nat) {
    e >= DESCRIPTOR_SIZE && start >= e && SlotAt(start, e, n + 1) <= size
  }

  lemma SlotsApart(start: nat, e: nat, i: nat, j: nat)
    requires i < j
    ensures SlotAt(start, e, i) + e <= SlotAt(start, e, j)
  {
    Arithmetic.MulMonotone(j, i + 1, e);
    assert (i + 1) * e == i * e + e;
  }

  lemma SlotInside(size: nat, start: nat, e: nat, n: nat, i: nat)
    requires Layout(size, start, e, n) && i <= n
    ensures start <= SlotAt(start, e, i) && SlotAt(start, e, i) + DESCRIPTOR_SIZE <= SlotAt(start, e, i) + e <= size
    ensures 0 <= SlotBefore(start, e, i) <= SlotBefore(start, e, i) + DESCRIPTOR_SIZE <= start + i <= SlotAt(start, e, i)
    ensures SlotBehind(start, e, i) + DESCRIPTOR_SIZE <= size || i == n
    ensures Layout(size, start, e, i)
  {
    SlotsApart(start, e, i, n + 1);
    Arithmetic.MulMonotone(e, 1, i);
    if i < n {
      SlotsApart(start, e, i + 1, n + 1);
      Arithmetic.MulMonotone(e, 1, i + 1);
    }
  }

  /** Slot i of the map. */
  function SlotOf(m: seq<Byte>, start: nat, e: nat, n: nat, i: nat): Descriptor
    requires Layout(|m|, start, e, n) && i <= n
  {
    SlotInside(|m|, start, e, n, i);
    DescriptorAt(m, SlotAt(start, e, i))
  }

  /** The first c slots. */
  function Slots(m: seq<Byte>, start: nat, e: nat, n: nat, c: nat): (r: seq<Descriptor>)
    requires Layout(|m|, start, e, n) && c <= n + 1
    ensures |r| == c && forall i :: 0 <= i < c ==> r[i] == SlotOf(m, start, e, n, i)
  {
    seq(c, i requires 0 <= i < c => SlotOf(m, start, e, n, i))
  }

  // ---------- rebasing

  /** Runtime services stay at their physical address; everything else moves up by the kernel's offset. */
  function Rebase(d: Descriptor, offset: Word): Descriptor {
    d.(virtAddr := if d.Runtime() then d.physAddr else Add64(d.physAddr, offset))
  }

  function RebaseAll(ds: seq<Descriptor>, offset: Word): (r: seq<Descriptor>)
    ensures |r| == |ds| && forall i :: 0 <= i < |ds| ==> r[i] == Rebase(ds[i], offset)
  {
    seq(|ds|, i requires 0 <= i < |ds| => Rebase(ds[i], offset))
  }

  function RebasedSlot(m: seq<Byte>, a: nat, offset: Word): (r: seq<Byte>)
    requires a + DESCRIPTOR_SIZE <= |m|
    ensures |r| == |m|
  {
    Store64(m, a + 16, Rebase(DescriptorAt(m, a), offset).virtAddr)
  }

  /** The bytes after the first i slots have been rebased. */
  function Rebased(m: seq<Byte>, start: nat, e: nat, n: nat, i: nat, offset: Word): (r: seq<Byte>)
    requires Layout(|m|, start, e, n) && i <= n
    ensures |r| == |m|
  {
    if i == 0 then m
    else
      SlotInside(|m|, start, e, n, i - 1);
      RebasedSlot(Rebased(m, start, e, n, i - 1, offset), SlotAt(start, e, i - 1), offset)
  }

  lemma StoredDescriptor(m: seq<Byte>, a: nat, v: Word)
    requires a + DESCRIPTOR_SIZE <= |m|
    ensures DescriptorAt(Store64(m, a + 16, v), a) == DescriptorAt(m, a).(virtAddr := v)
  {
    hide Put, Field;
    LoadStored(m, a + 16, v);
    FieldElsewhere(m, a + 16, 8, v, a, 4);
    LoadElsewhere(m, a + 16, v, a + 8);
    LoadElsewhere(m, a + 16, v, a + 24);
    LoadElsewhere(m, a + 16, v, a + 32);
  }

  /** A store outside a descriptor does not change it. */
  lemma PutOutside(m: seq<Byte>, a: nat, n: nat, v: nat, b: nat)
    requires a + n <= |m| && b + DESCRIPTOR_SIZE <= |m| && (a + n <= b || b + DESCRIPTOR_SIZE <= a)
    ensures DescriptorAt(Put(m, a, n, v), b) == DescriptorAt(m, b)
  {
    hide Digits, DescriptorAt;
    assert Put(m, a, n, v)[b..b + DESCRIPTOR_SIZE] == m[b..b + DESCRIPTOR_SIZE];
    SameDescriptor(Put(m, a, n, v), b, m, b);
  }

  lemma {:induction false} RebasedAt(m: seq<Byte>, start: nat, e: nat, n: nat, i: nat, offset: Word, j: nat)
    requires Layout(|m|, start, e, n) && i <= n && j <= n
    ensures SlotOf(Rebased(m, start, e, n, i, offset), start, e, n, j)
         == if j < i then Rebase(SlotOf(m, start, e, n, j), offset) else SlotOf(m, start, e, n, j)
  {
    hide DescriptorAt, Put, SlotAt;
    if i > 0 {
      RebasedAt(m, start, e, n, i - 1, offset, j);
      var was, a, b := Rebased(m, start, e, n, i - 1, offset), SlotAt(start, e, i - 1), SlotAt(start, e, j);
      SlotInside(|m|, start, e, n, i - 1);
      SlotInside(|m|, start, e, n, j);
      var v := Rebase(DescriptorAt(was, a), offset).virtAddr;
      if j == i - 1 {
        StoredDescriptor(was, a, v);
      } else {
        if j < i - 1 {
          SlotsApart(start, e, j, i - 1);
        } else {
          SlotsApart(start, e, i - 1, j);
        }
        PutOutside(was, a + 16, 8, v, b);
      }
    }
  }

  /** The rebased bytes hold the rebased descriptors. */
  lemma RebasedSlots(m: seq<Byte>, start: nat, e: nat, n: nat, offset: Word)
    requires Layout(|m|, start, e, n)
    ensures Slots(Rebased(m, start, e, n, n, offset), start, e, n, n) == RebaseAll(Slots(m, start, e, n, n), offset)
  {
    hide SlotOf, Rebased;
    forall j | 0 <= j < n
      ensures Slots(Rebased(m, start, e, n, n, offset), start, e, n, n)[j] == RebaseAll(Slots(m, start, e, n, n), offset)[j]
    {
      RebasedAt(m, start, e, n, n, offset, j);
    }
  }

  // ---------- the bytes that finalizeMemoryMap leaves

  /** Structure assignment. */
  function Copied(m: seq<Byte>, dst: nat, src: nat): (r: seq<Byte>)
    requires dst + DESCRIPTOR_SIZE <= |m| && src + DESCRIPTOR_SIZE <= |m|
    ensures |r| == |m|
  {
    m[..dst] + m[src..src + DESCRIPTOR_SIZE] + m[dst + DESCRIPTOR_SIZE..]
  }

  /** The loop that counts i down from c to k + 1. */
  function Shifted(m: seq<Byte>, start: nat, e: nat, c: nat, k: nat): (r: seq<Byte>)
    requires Layout(|m|, start, e, c)
    ensures |r| == |m|
    decreases c
  {
    if c <= k then m
    else
      SlotInside(|m|, start, e, c, c);
      SlotInside(|m|, start, e, c, c - 1);
      Shifted(Copied(m, SlotAt(start, e, c), SlotBefore(start, e, c)), start, e, c - 1, k)
  }

  lemma ShiftedStep(m: seq<Byte>, start: nat, e: nat, i: nat, k: nat)
    requires k < i && Layout(|m|, start, e, i)
    ensures Layout(|m|, start, e, i - 1)
    ensures SlotAt(start, e, i) + DESCRIPTOR_SIZE <= |m| && 0 <= SlotBefore(start, e, i) <= |m| - DESCRIPTOR_SIZE
    ensures Shifted(m, start, e, i, k) == Shifted(Copied(m, SlotAt(start, e, i), SlotBefore(start, e, i)), start, e, i - 1, k)
  {
    hide SlotAt, SlotBefore, Copied, Layout;
    SlotInside(|m|, start, e, i, i);
    SlotInside(|m|, start, e, i, i - 1);
  }

  lemma ShiftedNone(m: seq<Byte>, start: nat, e: nat, i: nat, k: nat)
    requires i <= k && Layout(|m|, start, e, i)
    ensures Shifted(m, start, e, i, k) == m
  {
  }

  /** The paging descriptor's stores, at a. */
  function WithPaging(m: seq<Byte>, a: nat, left: Word): (r: seq<Byte>)
    requires a + DESCRIPTOR_SIZE <= |m|
    ensures |r| == |m|
  {
    var m1 := Put(m, a, 4, BOOT_PAGING_MEM_TYPE);
    Store64(m1, a + 24, Sub64(Load64(m1, a + 24), left))
  }

  /** The remaining descriptor's stores, at r, computed from the descriptor at a as they go. */
  function WithRemainder(m: seq<Byte>, a: nat, r: nat, left: Word, offset: Word): (m': seq<Byte>)
    requires a + DESCRIPTOR_SIZE <= |m| && r + DESCRIPTOR_SIZE <= |m|
    ensures |m'| == |m|
  {
    var m1 := Put(m, r, 4, EFI_CONVENTIONAL_MEMORY);
    var m2 := Store64(m1, r + 8, Add64(Load64(m1, a + 8), Load64(m1, a + 24) * 4096 % TWO64));
    var m3 := Store64(m2, r + 16, Add64(Load64(m2, r + 8), offset));
    Store64(m3, r + 24, left)
  }

  function Finalized(m: seq<Byte>, start: nat, e: nat, n: nat, k: nat, left: Word, offset: Word): (r: seq<Byte>)
    requires Layout(|m|, start, e, n) && k < n
    ensures |r| == |m|
  {
    SlotInside(|m|, start, e, n, k);
    WithRemainder(WithPaging(Shifted(m, start, e, n, k), SlotAt(start, e, k), left),
                  SlotAt(start, e, k), SlotBehind(start, e, k), left, offset)
  }

  // ---------- the result that is meant

  /** The first of the two descriptors a region is split into: the pages handed out by the stack. */
  function PagingPart(d: Descriptor, left: Word): Descriptor {
    d.(memtype := BOOT_PAGING_MEM_TYPE, pages := Sub64(d.pages, left))
  }

  /** The second: the pages left on the stack. */
  function RemainingPart(d: Descriptor, left: Word, offset: Word): Descriptor {
    var phys := Add64(d.physAddr, Sub64(d.pages, left) * 4096 % TWO64);
    d.(memtype := EFI_CONVENTIONAL_MEMORY, physAddr := phys, virtAddr := Add64(phys, offset), pages := left)
  }

  /** The map after the split, as the shift and the two descriptors are meant. */
  function Split(ds: seq<Descriptor>, i: nat, left: Word, offset: Word): seq<Descriptor>
    requires i < |ds|
  {
    ds[..i] + [PagingPart(ds[i], left), RemainingPart(ds[i], left, offset)] + ds[i + 1..]
  }

  /**
   Splitting a region that had `left` of its pages unused: the two parts are adjacent, together they are exactly the
   old region, and the other slots only move.
   */
  lemma SplitConserves(ds: seq<Descriptor>, i: nat, left: Word, offset: Word)
    requires i < |ds| && ds[i].Physical() && left <= ds[i].pages
    ensures var r := Split(ds, i, left, offset);
            && |r| == |ds| + 1
            && r[i].physAddr == ds[i].physAddr
            && r[i].physAddr + 4096 * r[i].pages == r[i + 1].physAddr
            && r[i + 1].physAddr + 4096 * r[i + 1].pages == ds[i].physAddr + 4096 * ds[i].pages
            && r[i].pages + r[i + 1].pages == ds[i].pages
            && r[..i] == ds[..i] && r[i + 2..] == ds[i + 1..]
            && TotalPages(r) == TotalPages(ds)
  {
    var r := Split(ds, i, left, offset);
    var a, b := PagingPart(ds[i], left), RemainingPart(ds[i], left, offset);
    assert a.pages == ds[i].pages - left;
    assert b.physAddr == ds[i].physAddr + 4096 * a.pages;
    TotalAppend(ds[..i], ds[i..]);
    TotalAppend(ds[..i], [a, b] + ds[i + 1..]);
    assert ds == ds[..i] + ds[i..];
    assert r == ds[..i] + ([a, b] + ds[i + 1..]);
    assert ([a, b] + ds[i + 1..])[1..] == [b] + ds[i + 1..];
    assert ([b] + ds[i + 1..])[1..] == ds[i + 1..];
    assert ds[i..][1..] == ds[i + 1..];
  }

  function TotalPages(ds: seq<Descriptor>): nat {
    if ds == [] then 0 else ds[0].pages + TotalPages(ds[1..])
  }

  lemma {:induction false} TotalAppend(a: seq<Descriptor>, b: seq<Descriptor>)
    ensures TotalPages(a + b) == TotalPages(a) + TotalPages(b)
  {
    if a == [] {
      assert a + b == b;
    } else {
      assert (a + b)[1..] == a[1..] + b;
      TotalAppend(a[1..], b);
    }
  }
}
