/**
 What the split of the memory map comes to once the slot macro has expanded: which stores land where they are meant to,
 and when the map becomes the split.
 */
module MapSplit {
  import Arithmetic
  import opened Bytes
  import opened Machine
  import opened MapSlots

  // ---------- the shift

  lemma CopiedAt(m: seq<Byte>, dst: nat, src: nat, x: nat)
    requires dst + DESCRIPTOR_SIZE <= |m| && src + DESCRIPTOR_SIZE <= |m| && x < |m|
    ensures Copied(m, dst, src)[x] == if dst <= x < dst + DESCRIPTOR_SIZE then m[src + (x - dst)] else m[x]
  {
  }

  /** x lies in none of the slots k + 1 to c. */
  ghost predicate Outside(start: nat, e: nat, c: nat, k: nat, x: nat) {
    forall j: nat :: k < j <= c ==> x < SlotAt(start, e, j) || SlotAt(start, e, j) + DESCRIPTOR_SIZE <= x
  }

  /** A byte outside the slots behind k stays. */
  lemma {:induction false} ShiftedOut(m: seq<Byte>, start: nat, e: nat, c: nat, k: nat, x: nat)
    requires Layout(|m|, start, e, c) && x < |m| && Outside(start, e, c, k, x)
    ensures Shifted(m, start, e, c, k)[x] == m[x]
    decreases c
  {
    hide Copied, SlotAt;
    if c > k {
      SlotInside(|m|, start, e, c, c);
      SlotInside(|m|, start, e, c, c - 1);
      var dst, src := SlotAt(start, e, c), SlotBefore(start, e, c);
      ShiftedOut(Copied(m, dst, src), start, e, c - 1, k, x);
      CopiedAt(m, dst, src, x);
    }
  }

  lemma InSlotIsOutside(start: nat, e: nat, c: nat, k: nat, j: nat, x: nat)
    requires e >= DESCRIPTOR_SIZE && x < DESCRIPTOR_SIZE && (j > c || j <= k)
    ensures Outside(start, e, c, k, SlotAt(start, e, j) + x)
  {
    hide SlotAt;
    forall i: nat | k < i <= c
      ensures SlotAt(start, e, j) + x < SlotAt(start, e, i) || SlotAt(start, e, i) + DESCRIPTOR_SIZE <= SlotAt(start, e, j) + x
    {
      if i < j {
        SlotsApart(start, e, i, j);
      } else {
        SlotsApart(start, e, j, i);
      }
    }
  }

  /** Slot j behind k receives the bytes at j minus the entry size, whatever slot j - 1 holds. */
  lemma {:induction false} ShiftedIn(m: seq<Byte>, start: nat, e: nat, c: nat, k: nat, j: nat, x: nat)
    requires Layout(|m|, start, e, c) && k < j <= c && x < DESCRIPTOR_SIZE
    ensures 0 <= SlotBefore(start, e, j) && SlotBefore(start, e, j) + x < |m| && SlotAt(start, e, j) + x < |m|
    ensures Shifted(m, start, e, c, k)[SlotAt(start, e, j) + x] == m[SlotBefore(start, e, j) + x]
    decreases c
  {
    SlotInside(|m|, start, e, c, j);
    SlotInside(|m|, start, e, c, c);
    SlotBeforeIs(start, e, j);
    hide Copied, Shifted, SlotAt, SlotBefore, Layout;
    ShiftedStep(m, start, e, c, k);
    var dst, src := SlotAt(start, e, c), SlotBefore(start, e, c);
    var m' := Copied(m, dst, src);
    if j == c {
      InSlotIsOutside(start, e, c - 1, k, c, x);
      ShiftedOut(m', start, e, c - 1, k, dst + x);
      CopiedAt(m, dst, src, dst + x);
    } else {
      ShiftedIn(m', start, e, c - 1, k, j, x);
      SlotsApart(start, e, j, c);
      CopiedAt(m, dst, src, SlotBefore(start, e, j) + x);
    }
  }

  lemma SlotBeforeIs(start: nat, e: nat, j: nat)
    requires e >= DESCRIPTOR_SIZE
    ensures SlotBefore(start, e, j) + DESCRIPTOR_SIZE <= start + j <= SlotAt(start, e, j)
  {
    Arithmetic.MulMonotone(e, 1, j);
  }

  /** Slots up to k stay. */
  lemma KeptSlot(m: seq<Byte>, start: nat, e: nat, n: nat, k: nat, j: nat)
    requires Layout(|m|, start, e, n) && j <= k <= n
    ensures SlotOf(Shifted(m, start, e, n, k), start, e, n, j) == SlotOf(m, start, e, n, j)
  {
    hide Shifted, DescriptorAt;
    SlotInside(|m|, start, e, n, j);
    var s, a := Shifted(m, start, e, n, k), SlotAt(start, e, j);
    forall x: nat | x < DESCRIPTOR_SIZE
      ensures SameAt(s, a, m, a, x)
    {
      InSlotIsOutside(start, e, n, k, j, x);
      ShiftedOut(m, start, e, n, k, a + x);
    }
    SlicesAgree(s, a, m, a, DESCRIPTOR_SIZE);
    SameDescriptor(s, a, m, a);
  }

  lemma SlicesAgree(s: seq<Byte>, a: nat, t: seq<Byte>, b: nat, n: nat)
    requires a + n <= |s| && b + n <= |t| && forall x: nat :: x < n ==> SameAt(s, a, t, b, x)
    ensures s[a..a + n] == t[b..b + n]
  {
    var u, v := s[a..a + n], t[b..b + n];
    forall x: nat | x < n
      ensures u[x] == v[x]
    {
      assert SameAt(s, a, t, b, x);
    }
  }

  predicate SameAt(s: seq<Byte>, a: nat, t: seq<Byte>, b: nat, x: nat) {
    a + x < |s| && b + x < |t| && s[a + x] == t[b + x]
  }

  /** Slots behind k hold the descriptor that the bytes at j minus the entry size happen to spell. */
  lemma MovedSlot(m: seq<Byte>, start: nat, e: nat, n: nat, k: nat, j: nat)
    requires Layout(|m|, start, e, n) && k < j <= n
    ensures 0 <= SlotBefore(start, e, j) <= |m| - DESCRIPTOR_SIZE
    ensures SlotOf(Shifted(m, start, e, n, k), start, e, n, j) == DescriptorAt(m, SlotBefore(start, e, j))
  {
    hide Shifted, DescriptorAt;
    SlotInside(|m|, start, e, n, j);
    var s, a, b := Shifted(m, start, e, n, k), SlotAt(start, e, j), SlotBefore(start, e, j);
    forall x: nat | x < DESCRIPTOR_SIZE
      ensures SameAt(s, a, m, b, x)
    {
      ShiftedIn(m, start, e, n, k, j, x);
    }
    SlicesAgree(s, a, m, b, DESCRIPTOR_SIZE);
    SameDescriptor(s, a, m, b);
  }

  // ---------- the two descriptors

  lemma PagingWritten(m: seq<Byte>, a: nat, left: Word)
    requires a + DESCRIPTOR_SIZE <= |m|
    ensures DescriptorAt(WithPaging(m, a, left), a) == PagingPart(DescriptorAt(m, a), left)
    ensures Field(WithPaging(m, a, left), a, 4) == BOOT_PAGING_MEM_TYPE
  {
    hide Put, Field, Bound;
    EightBytes();
    var m1 := Put(m, a, 4, BOOT_PAGING_MEM_TYPE);
    PutField(m, a, 4, BOOT_PAGING_MEM_TYPE);
    FieldElsewhere(m, a, 4, BOOT_PAGING_MEM_TYPE, a + 8, 8);
    FieldElsewhere(m, a, 4, BOOT_PAGING_MEM_TYPE, a + 16, 8);
    FieldElsewhere(m, a, 4, BOOT_PAGING_MEM_TYPE, a + 24, 8);
    FieldElsewhere(m, a, 4, BOOT_PAGING_MEM_TYPE, a + 32, 8);
    var v := Sub64(Load64(m1, a + 24), left);
    LoadStored(m1, a + 24, v);
    FieldElsewhere(m1, a + 24, 8, v, a, 4);
    LoadElsewhere(m1, a + 24, v, a + 8);
    LoadElsewhere(m1, a + 24, v, a + 16);
    LoadElsewhere(m1, a + 24, v, a + 32);
  }

  lemma PagingOutside(m: seq<Byte>, a: nat, left: Word, x: nat)
    requires a + DESCRIPTOR_SIZE <= |m| && x < |m| && !(a <= x < a + DESCRIPTOR_SIZE)
    ensures WithPaging(m, a, left)[x] == m[x]
  {
    hide Put, Field;
    var m1 := Put(m, a, 4, BOOT_PAGING_MEM_TYPE);
    PutAt(m, a, 4, BOOT_PAGING_MEM_TYPE, x);
    PutAt(m1, a + 24, 8, Sub64(Load64(m1, a + 24), left), x);
  }

  /** Four fields of a descriptor stored at r: everything but padding and attribute. */
  function Fields(m: seq<Byte>, r: nat, d: Descriptor): (m': seq<Byte>)
    requires r + DESCRIPTOR_SIZE <= |m|
    ensures |m'| == |m|
  {
    Store64(Store64(Store64(Put(m, r, 4, d.memtype), r + 8, d.physAddr), r + 16, d.virtAddr), r + 24, d.pages)
  }

  lemma FieldsOutside(m: seq<Byte>, r: nat, d: Descriptor, x: nat)
    requires r + DESCRIPTOR_SIZE <= |m| && x < |m| && !(r <= x < r + 32)
    ensures Fields(m, r, d)[x] == m[x]
  {
    hide Put;
    var m1 := Put(m, r, 4, d.memtype);
    var m2 := Store64(m1, r + 8, d.physAddr);
    var m3 := Store64(m2, r + 16, d.virtAddr);
    PutAt(m, r, 4, d.memtype, x);
    PutAt(m1, r + 8, 8, d.physAddr, x);
    PutAt(m2, r + 16, 8, d.virtAddr, x);
    PutAt(m3, r + 24, 8, d.pages, x);
  }

  /** Stores at one place do the same to memories that agree at a place. */
  lemma FieldsLocal(m: seq<Byte>, m': seq<Byte>, r: nat, d: Descriptor, x: nat)
    requires |m| == |m'| && r + DESCRIPTOR_SIZE <= |m| && x < |m| && m[x] == m'[x]
    ensures Fields(m, r, d)[x] == Fields(m', r, d)[x]
  {
    hide Put;
    var m1, n1 := Put(m, r, 4, d.memtype), Put(m', r, 4, d.memtype);
    var m2, n2 := Store64(m1, r + 8, d.physAddr), Store64(n1, r + 8, d.physAddr);
    var m3, n3 := Store64(m2, r + 16, d.virtAddr), Store64(n2, r + 16, d.virtAddr);
    PutAt(m, r, 4, d.memtype, x);
    PutAt(m', r, 4, d.memtype, x);
    PutAt(m1, r + 8, 8, d.physAddr, x);
    PutAt(n1, r + 8, 8, d.physAddr, x);
    PutAt(m2, r + 16, 8, d.virtAddr, x);
    PutAt(n2, r + 16, 8, d.virtAddr, x);
    PutAt(m3, r + 24, 8, d.pages, x);
    PutAt(n3, r + 24, 8, d.pages, x);
  }

  /** What was stored is there, and the attribute behind it is not. */
  lemma FieldsAt(m: seq<Byte>, r: nat, d: Descriptor)
    requires r + DESCRIPTOR_SIZE <= |m| && d.memtype < 0x1_0000_0000
    ensures DescriptorAt(Fields(m, r, d), r) == d.(attribute := Load64(m, r + 32))
  {
    hide Put, Field, Bound;
    EightBytes();
    var m1 := Put(m, r, 4, d.memtype);
    var m2 := Store64(m1, r + 8, d.physAddr);
    var m3 := Store64(m2, r + 16, d.virtAddr);
    PutField(m, r, 4, d.memtype);
    FieldElsewhere(m, r, 4, d.memtype, r + 32, 8);
    LoadStored(m1, r + 8, d.physAddr);
    FieldElsewhere(m1, r + 8, 8, d.physAddr, r, 4);
    LoadElsewhere(m1, r + 8, d.physAddr, r + 32);
    LoadStored(m2, r + 16, d.virtAddr);
    FieldElsewhere(m2, r + 16, 8, d.virtAddr, r, 4);
    LoadElsewhere(m2, r + 16, d.virtAddr, r + 8);
    LoadElsewhere(m2, r + 16, d.virtAddr, r + 32);
    LoadStored(m3, r + 24, d.pages);
    FieldElsewhere(m3, r + 24, 8, d.pages, r, 4);
    LoadElsewhere(m3, r + 24, d.pages, r + 8);
    LoadElsewhere(m3, r + 24, d.pages, r + 16);
    LoadElsewhere(m3, r + 24, d.pages, r + 32);
  }

  /** As long as the new type does not overwrite the fields it is computed from, the remainder's stores are its fields. */
  lemma RemainderIsFields(m: seq<Byte>, a: nat, r: nat, d: Descriptor, left: Word, offset: Word)
    requires a + DESCRIPTOR_SIZE <= |m| && r + DESCRIPTOR_SIZE <= |m| && (r + 4 <= a + 8 || a + 32 <= r)
    requires DescriptorAt(m, a) == PagingPart(d, left)
    ensures WithRemainder(m, a, r, left, offset) == Fields(m, r, RemainingPart(d, left, offset))
  {
    hide Put, Field;
    var m1 := Put(m, r, 4, EFI_CONVENTIONAL_MEMORY);
    FieldElsewhere(m, r, 4, EFI_CONVENTIONAL_MEMORY, a + 8, 8);
    FieldElsewhere(m, r, 4, EFI_CONVENTIONAL_MEMORY, a + 24, 8);
    LoadStored(m1, r + 8, RemainingPart(d, left, offset).physAddr);
  }

  /** Where the remainder is written, against the slot it is computed from. */
  lemma Places(start: nat, e: nat, k: nat)
    requires e >= DESCRIPTOR_SIZE
    ensures k == 0 ==> SlotBehind(start, e, k) == SlotAt(start, e, 0) + e == SlotAt(start, e, 1)
    ensures k == 1 ==> SlotBehind(start, e, k) == SlotAt(start, e, 1) + 1
    ensures k >= 2 ==> SlotBehind(start, e, k) + 32 <= SlotAt(start, e, k)
  {
    if k >= 2 {
      assert k * e == e + (k - 1) * e;
      assert (k - 1) * e >= (k - 1) * 40;
    }
  }

  lemma BehindInside(size: nat, start: nat, e: nat, n: nat, k: nat)
    requires Layout(size, start, e, n) && k < n
    ensures SlotBehind(start, e, k) + DESCRIPTOR_SIZE <= size
  {
    SlotInside(size, start, e, n, k);
  }

  /** The memory map's bytes after the call. */
  lemma FinalizedIs(m: seq<Byte>, start: nat, e: nat, n: nat, k: nat, left: Word, offset: Word)
    requires Layout(|m|, start, e, n) && k < n
    ensures SlotAt(start, e, k) + DESCRIPTOR_SIZE <= |m| && SlotBehind(start, e, k) + DESCRIPTOR_SIZE <= |m|
    ensures Finalized(m, start, e, n, k, left, offset)
         == Fields(WithPaging(Shifted(m, start, e, n, k), SlotAt(start, e, k), left), SlotBehind(start, e, k),
                   RemainingPart(SlotOf(m, start, e, n, k), left, offset))
    ensures DescriptorAt(WithPaging(Shifted(m, start, e, n, k), SlotAt(start, e, k), left), SlotAt(start, e, k))
         == PagingPart(SlotOf(m, start, e, n, k), left)
  {
    hide Shifted, WithPaging, WithRemainder, Fields, DescriptorAt, SlotAt, SlotBehind;
    SlotInside(|m|, start, e, n, k);
    BehindInside(|m|, start, e, n, k);
    Places(start, e, k);
    var s, a, r := Shifted(m, start, e, n, k), SlotAt(start, e, k), SlotBehind(start, e, k);
    KeptSlot(m, start, e, n, k, k);
    PagingWritten(s, a, left);
    RemainderIsFields(WithPaging(s, a, left), a, r, SlotOf(m, start, e, n, k), left, offset);
  }

  /** At the place where it is written, the remainder is the one that was meant, attribute aside. */
  lemma RemainderWritten(m: seq<Byte>, start: nat, e: nat, n: nat, k: nat, left: Word, offset: Word)
    requires Layout(|m|, start, e, n) && k < n
    ensures SlotBehind(start, e, k) + DESCRIPTOR_SIZE <= |m|
    ensures var there := DescriptorAt(Finalized(m, start, e, n, k, left, offset), SlotBehind(start, e, k));
            there == RemainingPart(SlotOf(m, start, e, n, k), left, offset).(attribute := there.attribute)
  {
    hide Shifted, WithPaging, Fields, Finalized, DescriptorAt, SlotAt, SlotBehind;
    FinalizedIs(m, start, e, n, k, left, offset);
    var s, a, r := Shifted(m, start, e, n, k), SlotAt(start, e, k), SlotBehind(start, e, k);
    FieldsAt(WithPaging(s, a, left), r, RemainingPart(SlotOf(m, start, e, n, k), left, offset));
  }

  /** A descriptor that the remainder's stores do not reach. */
  lemma FieldsApart(m: seq<Byte>, r: nat, d: Descriptor, b: nat)
    requires r + DESCRIPTOR_SIZE <= |m| && b + DESCRIPTOR_SIZE <= |m| && (r + 32 <= b || b + DESCRIPTOR_SIZE <= r)
    ensures DescriptorAt(Fields(m, r, d), b) == DescriptorAt(m, b)
  {
    hide Fields, DescriptorAt;
    var f := Fields(m, r, d);
    forall x: nat | x < DESCRIPTOR_SIZE
      ensures SameAt(f, b, m, b, x)
    {
      FieldsOutside(m, r, d, b + x);
    }
    SlicesAgree(f, b, m, b, DESCRIPTOR_SIZE);
    SameDescriptor(f, b, m, b);
  }

  lemma PagingApart(m: seq<Byte>, a: nat, left: Word, b: nat)
    requires a + DESCRIPTOR_SIZE <= |m| && b + DESCRIPTOR_SIZE <= |m| && (a + DESCRIPTOR_SIZE <= b || b + DESCRIPTOR_SIZE <= a)
    ensures DescriptorAt(WithPaging(m, a, left), b) == DescriptorAt(m, b)
  {
    hide WithPaging, DescriptorAt;
    var f := WithPaging(m, a, left);
    forall x: nat | x < DESCRIPTOR_SIZE
      ensures SameAt(f, b, m, b, x)
    {
      PagingOutside(m, a, left, b + x);
    }
    SlicesAgree(f, b, m, b, DESCRIPTOR_SIZE);
    SameDescriptor(f, b, m, b);
  }

  // ---------- the paging descriptor

  /** The type of a paging descriptor does not survive stores that begin at its second byte. */
  lemma TypeOverwritten(m: seq<Byte>, a: nat, d: Descriptor)
    requires a + DESCRIPTOR_SIZE < |m| && Field(m, a, 4) == BOOT_PAGING_MEM_TYPE && d.memtype == EFI_CONVENTIONAL_MEMORY
    ensures Field(Fields(m, a + 1, d), a, 4) != BOOT_PAGING_MEM_TYPE
  {
    hide Put, Field;
    var f := Fields(m, a + 1, d);
    SecondByte(m, a + 1, d);
    SecondByteOfType(m, a);
    if Field(f, a, 4) == BOOT_PAGING_MEM_TYPE {
      SameBytes(f, m, a, 4, a + 1);
    }
  }

  lemma SecondByte(m: seq<Byte>, r: nat, d: Descriptor)
    requires r + DESCRIPTOR_SIZE <= |m| && d.memtype == EFI_CONVENTIONAL_MEMORY
    ensures Fields(m, r, d)[r] == 7
  {
    hide Put;
    var m1 := Put(m, r, 4, d.memtype);
    var m2 := Store64(m1, r + 8, d.physAddr);
    var m3 := Store64(m2, r + 16, d.virtAddr);
    PutAt(m, r, 4, d.memtype, r);
    PutAt(m1, r + 8, 8, d.physAddr, r);
    PutAt(m2, r + 16, 8, d.virtAddr, r);
    PutAt(m3, r + 24, 8, d.pages, r);
  }

  lemma SecondByteOfType(m: seq<Byte>, a: nat)
    requires a + 4 <= |m| && Field(m, a, 4) == BOOT_PAGING_MEM_TYPE
    ensures m[a + 1] == 0xAA
  {
    var written := Put(m, a, 4, BOOT_PAGING_MEM_TYPE);
    TypeBytes();
    hide Put, Digits, Field, Bound;
    EightBytes();
    PutField(m, a, 4, BOOT_PAGING_MEM_TYPE);
    PutAt(m, a, 4, BOOT_PAGING_MEM_TYPE, a + 1);
    SameBytes(m, written, a, 4, a + 1);
  }

  lemma TypeBytes()
    ensures Digits(BOOT_PAGING_MEM_TYPE, 4)[1] == 0xAA
  {
    assert Digits(BOOT_PAGING_MEM_TYPE, 4)[1] == Digits(BOOT_PAGING_MEM_TYPE / 256, 3)[0];
  }

  /** The chosen slot becomes the paging descriptor exactly when it is not slot 1, whatever the map holds. */
  lemma PagingSlotIff(m: seq<Byte>, start: nat, e: nat, n: nat, k: nat, left: Word, offset: Word)
    requires Layout(|m|, start, e, n) && k < n
    ensures SlotOf(Finalized(m, start, e, n, k, left, offset), start, e, n, k) == PagingPart(SlotOf(m, start, e, n, k), left)
       <==> k != 1
  {
    hide Shifted, WithPaging, Fields, Finalized, SlotAt, SlotBehind;
    FinalizedIs(m, start, e, n, k, left, offset);
    Places(start, e, k);
    SlotInside(|m|, start, e, n, k);
    BehindInside(|m|, start, e, n, k);
    var p := WithPaging(Shifted(m, start, e, n, k), SlotAt(start, e, k), left);
    var rest := RemainingPart(SlotOf(m, start, e, n, k), left, offset);
    if k == 1 {
      hide Field;
      PagingWritten(Shifted(m, start, e, n, k), SlotAt(start, e, k), left);
      TypeOverwritten(p, SlotAt(start, e, k), rest);
    } else {
      FieldsApart(p, SlotBehind(start, e, k), rest, SlotAt(start, e, k));
    }
  }

  lemma {:induction false} DigitAt(v: nat, n: nat, i: nat)
    requires i < n
    ensures Digits(v, n)[i] == v / Bound(i) % 256
  {
    if i > 0 {
      DigitAt(v / 256, n - 1, i - 1);
      DivideTwice(v, Bound(i - 1));
    }
  }

  lemma DivideTwice(v: nat, b: nat)
    requires b > 0
    ensures v / 256 / b == v / (256 * b)
  {
    Arithmetic.DivModUnique(v, 256 * b, v / 256 / b, (v / 256 % b) * 256 + v % 256);
  }

  /** Eight bytes that start with the last byte of one number and go on with the first seven of another. */
  lemma Straddle(m: seq<Byte>, x: nat, v: Word, w: Word)
    requires x + 16 <= |m|
    ensures Load64(Store64(Store64(m, x, v), x + 8, w), x + 7) == v / 0x100_0000_0000_0000 + 256 * (w % 0x100_0000_0000_0000)
  {
    hide Digits, Bound, Value;
    SevenBytes();
    DigitAt(v, 8, 7);
    PrefixValue(w, 8, 7);
    StraddleBytes(m, x, Digits(v, 8), Digits(w, 8));
    HeadValue(Digits(v, 8)[7], Digits(w, 8)[..7]);
  }

  lemma StraddleBytes(m: seq<Byte>, x: nat, v: seq<Byte>, w: seq<Byte>)
    requires x + 16 <= |m| && |v| == |w| == 8
    ensures var m1 := m[..x] + v + m[x + 8..];
            (m1[..x + 8] + w + m1[x + 16..])[x + 7..x + 15] == [v[7]] + w[..7]
  {
  }

  lemma HeadValue(b: Byte, bs: seq<Byte>)
    ensures Value([b] + bs) == b + 256 * Value(bs)
  {
    assert ([b] + bs)[1..] == bs;
  }

  lemma SevenBytes()
    ensures Bound(7) == 0x100_0000_0000_0000
  {
    assert Bound(4) == 0x1_0000_0000;
  }

  lemma {:induction false} PrefixValue(w: nat, n: nat, i: nat)
    requires i <= n
    ensures Value(Digits(w, n)[..i]) == w % Bound(i)
  {
    if i > 0 {
      PrefixValue(w / 256, n - 1, i - 1);
      assert Digits(w, n)[..i][1..] == Digits(w / 256, n - 1)[..i - 1];
      LowDigits(w, Bound(i - 1));
    }
  }

  lemma LowDigits(w: nat, b: nat)
    requires b > 0
    ensures w % 256 + 256 * (w / 256 % b) == w % (256 * b)
  {
    Arithmetic.DivModUnique(w, 256 * b, w / 256 / b, w % 256 + 256 * (w / 256 % b));
  }

  /** In slot 1 the page count is what the remainder's virtual address and page count leave in its place. */
  lemma PagesInSlotOne(m: seq<Byte>, start: nat, e: nat, n: nat, left: Word, offset: Word)
    requires Layout(|m|, start, e, n) && 1 < n
    ensures var rest := RemainingPart(SlotOf(m, start, e, n, 1), left, offset);
            SlotOf(Finalized(m, start, e, n, 1, left, offset), start, e, n, 1).pages
            == rest.virtAddr / 0x100_0000_0000_0000 + 256 * (left % 0x100_0000_0000_0000)
  {
    hide Shifted, WithPaging, Finalized, SlotAt, SlotBehind, Put, Field;
    FinalizedIs(m, start, e, n, 1, left, offset);
    Places(start, e, 1);
    SlotInside(|m|, start, e, n, 1);
    var r, rest := SlotBehind(start, e, 1), RemainingPart(SlotOf(m, start, e, n, 1), left, offset);
    var p := WithPaging(Shifted(m, start, e, n, 1), SlotAt(start, e, 1), left);
    var m2 := Store64(Put(p, r, 4, rest.memtype), r + 8, rest.physAddr);
    Straddle(m2, r + 16, rest.virtAddr, left);
  }

  // ---------- the other slots, and the whole

  lemma OtherSlot(m: seq<Byte>, start: nat, e: nat, n: nat, k: nat, left: Word, offset: Word, j: nat)
    requires Layout(|m|, start, e, n) && k < j <= n && (k != 0 || j != 1)
    ensures 0 <= SlotBefore(start, e, j) <= |m| - DESCRIPTOR_SIZE
    ensures SlotOf(Finalized(m, start, e, n, k, left, offset), start, e, n, j) == DescriptorAt(m, SlotBefore(start, e, j))
  {
    hide Shifted, WithPaging, Fields, Finalized, DescriptorAt, SlotAt, SlotBehind, SlotBefore;
    FinalizedIs(m, start, e, n, k, left, offset);
    MovedSlot(m, start, e, n, k, j);
    SlotInside(|m|, start, e, n, k);
    SlotInside(|m|, start, e, n, j);
    BehindInside(|m|, start, e, n, k);
    Places(start, e, k);
    SlotsApart(start, e, k, j);
    if k == 0 {
      SlotsApart(start, e, 1, j);
    }
    var s, a := Shifted(m, start, e, n, k), SlotAt(start, e, k);
    PagingApart(s, a, left, SlotAt(start, e, j));
    FieldsApart(WithPaging(s, a, left), SlotBehind(start, e, k), RemainingPart(SlotOf(m, start, e, n, k), left, offset), SlotAt(start, e, j));
  }

  /** Behind slot 0 the remainder is in its slot, with the attribute that the shift brought there. */
  lemma SlotOneBehindZero(m: seq<Byte>, start: nat, e: nat, n: nat, left: Word, offset: Word)
    requires Layout(|m|, start, e, n) && 0 < n
    ensures 0 <= SlotBefore(start, e, 1) <= |m| - DESCRIPTOR_SIZE
    ensures SlotOf(Finalized(m, start, e, n, 0, left, offset), start, e, n, 1)
         == RemainingPart(SlotOf(m, start, e, n, 0), left, offset).(attribute := DescriptorAt(m, SlotBefore(start, e, 1)).attribute)
  {
    hide Shifted, WithPaging, Fields, Finalized, Field, SlotAt, SlotBehind, SlotBefore;
    FinalizedIs(m, start, e, n, 0, left, offset);
    MovedSlot(m, start, e, n, 0, 1);
    SlotInside(|m|, start, e, n, 0);
    SlotInside(|m|, start, e, n, 1);
    Places(start, e, 0);
    SlotsApart(start, e, 0, 1);
    var s, a := Shifted(m, start, e, n, 0), SlotAt(start, e, 0);
    PagingApart(s, a, left, SlotAt(start, e, 1));
    FieldsAt(WithPaging(s, a, left), SlotAt(start, e, 1), RemainingPart(SlotOf(m, start, e, n, 0), left, offset));
  }

  /** In front of the chosen slot only the misplaced remainder can do damage. */
  lemma FrontSlot(m: seq<Byte>, start: nat, e: nat, n: nat, k: nat, left: Word, offset: Word, j: nat)
    requires Layout(|m|, start, e, n) && j < k < n
    ensures SlotAt(start, e, j) + DESCRIPTOR_SIZE <= |m| && SlotBehind(start, e, k) + DESCRIPTOR_SIZE <= |m|
    ensures SlotOf(Finalized(m, start, e, n, k, left, offset), start, e, n, j)
         == DescriptorAt(Fields(m, SlotBehind(start, e, k), RemainingPart(SlotOf(m, start, e, n, k), left, offset)), SlotAt(start, e, j))
  {
    hide Shifted, WithPaging, Fields, Finalized, DescriptorAt, SlotAt, SlotBehind;
    FinalizedIs(m, start, e, n, k, left, offset);
    SlotInside(|m|, start, e, n, j);
    BehindInside(|m|, start, e, n, k);
    SlotsApart(start, e, j, k);
    var s, a, b := Shifted(m, start, e, n, k), SlotAt(start, e, k), SlotAt(start, e, j);
    var r, rest := SlotBehind(start, e, k), RemainingPart(SlotOf(m, start, e, n, k), left, offset);
    var f, g := Fields(WithPaging(s, a, left), r, rest), Fields(m, r, rest);
    forall x: nat | x < DESCRIPTOR_SIZE
      ensures SameAt(f, b, g, b, x)
    {
      InSlotIsOutside(start, e, n, k, j, x);
      ShiftedOut(m, start, e, n, k, b + x);
      PagingOutside(s, a, left, b + x);
      FieldsLocal(WithPaging(s, a, left), m, r, rest, b + x);
    }
    SlicesAgree(f, b, g, b, DESCRIPTOR_SIZE);
    SameDescriptor(f, b, g, b);
  }

  /** Memory contents for which the wrong addresses do no harm to any slot. */
  ghost predicate Harmless(m: seq<Byte>, start: nat, e: nat, n: nat, k: nat, left: Word, offset: Word)
    requires Layout(|m|, start, e, n) && k < n
  {
    forall j: nat :: j <= n ==> HarmlessAt(m, start, e, n, k, RemainingPart(SlotOf(m, start, e, n, k), left, offset), j)
  }

  /**
   The chosen slot must not be slot 1.  In front of it, the bytes stored for the remainder must already stand.  Behind the
   remainder, the source of the copy must spell the descriptor in front.  In the remainder's own slot, the source must end
   in the right attribute if the chosen slot is slot 0, and spell the whole remainder otherwise.
   */
  ghost predicate HarmlessAt(m: seq<Byte>, start: nat, e: nat, n: nat, k: nat, rest: Descriptor, j: nat)
    requires Layout(|m|, start, e, n) && k < n && j <= n
  {
    if j < k then Stands(m, SlotAt(start, e, j), SlotBehind(start, e, k), rest)
    else if j == k then k != 1
    else if j > k + 1 then SourceOf(m, start, e, n, j) == SlotOf(m, start, e, n, j - 1)
    else if k == 0 then SourceOf(m, start, e, n, 1).attribute == rest.attribute
    else SourceOf(m, start, e, n, k + 1) == rest
  }

  /** Byte x of a descriptor belongs to a field, not to the padding. */
  predicate FieldByte(x: int) {
    0 <= x < 4 || 8 <= x < DESCRIPTOR_SIZE
  }

  /** Byte y of a descriptor is stored with the remainder: all fields but the attribute. */
  predicate StoredByte(y: int) {
    0 <= y < 4 || 8 <= y < 32
  }

  /** The byte that is stored there. */
  function ByteOf(d: Descriptor, y: nat): Byte
    requires StoredByte(y)
  {
    if y < 4 then Digits(d.memtype, 4)[y]
    else if y < 16 then Digits(d.physAddr, 8)[y - 8]
    else if y < 24 then Digits(d.virtAddr, 8)[y - 16]
    else Digits(d.pages, 8)[y - 24]
  }

  /** Wherever the remainder stored at r falls into a field of the descriptor at a, its bytes are there already. */
  ghost predicate Stands(m: seq<Byte>, a: nat, r: nat, rest: Descriptor) {
    forall x: nat :: a <= x < |m| && FieldByte(x - a) && StoredByte(x - r) ==> m[x] == ByteOf(rest, x - r)
  }

  lemma FieldsByte(m: seq<Byte>, r: nat, d: Descriptor, x: nat)
    requires r + DESCRIPTOR_SIZE <= |m| && x < |m|
    ensures Fields(m, r, d)[x] == if StoredByte(x - r) then ByteOf(d, x - r) else m[x]
  {
    hide Put, Digits;
    var m1 := Put(m, r, 4, d.memtype);
    var m2 := Store64(m1, r + 8, d.physAddr);
    var m3 := Store64(m2, r + 16, d.virtAddr);
    PutAt(m, r, 4, d.memtype, x);
    PutAt(m1, r + 8, 8, d.physAddr, x);
    PutAt(m2, r + 16, 8, d.virtAddr, x);
    PutAt(m3, r + 24, 8, d.pages, x);
  }

  /** Descriptors at one place are equal exactly when their field bytes are. */
  lemma SameDescriptorIff(m: seq<Byte>, m': seq<Byte>, a: nat)
    requires |m| == |m'| && a + DESCRIPTOR_SIZE <= |m|
    ensures DescriptorAt(m, a) == DescriptorAt(m', a) <==> forall x: nat :: a <= x < |m| && FieldByte(x - a) ==> m[x] == m'[x]
  {
    hide Field;
    if DescriptorAt(m, a) == DescriptorAt(m', a) {
      forall x: nat | a <= x < |m| && FieldByte(x - a)
        ensures m[x] == m'[x]
      {
        FieldByteAgrees(m, m', a, x);
      }
    }
    if forall x: nat :: a <= x < |m| && FieldByte(x - a) ==> m[x] == m'[x] {
      forall x: nat | a <= x < a + 4 || a + 8 <= x < a + 40
        ensures m[x] == m'[x]
      {
        assert FieldByte(x - a);
      }
      FieldSame(m, a, m', a, 4);
      LoadSame(m, m', a + 8);
      LoadSame(m, m', a + 16);
      LoadSame(m, m', a + 24);
      LoadSame(m, m', a + 32);
    }
  }

  lemma FieldByteAgrees(m: seq<Byte>, m': seq<Byte>, a: nat, x: nat)
    requires |m| == |m'| && a + DESCRIPTOR_SIZE <= |m| && DescriptorAt(m, a) == DescriptorAt(m', a)
    requires a <= x < |m| && FieldByte(x - a)
    ensures m[x] == m'[x]
  {
    hide Field;
    if x < a + 4 {
      SameBytes(m, m', a, 4, x);
    } else if x < a + 16 {
      SameWord(m, m', a + 8, x);
    } else if x < a + 24 {
      SameWord(m, m', a + 16, x);
    } else if x < a + 32 {
      SameWord(m, m', a + 24, x);
    } else {
      SameWord(m, m', a + 32, x);
    }
  }

  /** Storing the remainder leaves a descriptor alone exactly when its bytes stand there. */
  lemma StandsIff(m: seq<Byte>, a: nat, r: nat, rest: Descriptor)
    requires a + DESCRIPTOR_SIZE <= |m| && r + DESCRIPTOR_SIZE <= |m|
    ensures DescriptorAt(Fields(m, r, rest), a) == DescriptorAt(m, a) <==> Stands(m, a, r, rest)
  {
    hide Fields, DescriptorAt, Digits;
    SameDescriptorIff(Fields(m, r, rest), m, a);
    forall x: nat | x < |m|
      ensures Fields(m, r, rest)[x] == if StoredByte(x - r) then ByteOf(rest, x - r) else m[x]
    {
      FieldsByte(m, r, rest, x);
    }
  }

  /** The descriptor that the bytes copied into slot j spell. */
  function SourceOf(m: seq<Byte>, start: nat, e: nat, n: nat, j: nat): Descriptor
    requires Layout(|m|, start, e, n) && 1 <= j <= n
  {
    SlotInside(|m|, start, e, n, j);
    DescriptorAt(m, SlotBefore(start, e, j))
  }

  lemma SplitAt(ds: seq<Descriptor>, k: nat, left: Word, offset: Word, j: nat)
    requires k < |ds| && j <= |ds|
    ensures |Split(ds, k, left, offset)| == |ds| + 1
    ensures Split(ds, k, left, offset)[j]
         == if j < k then ds[j] else if j == k then PagingPart(ds[k], left)
            else if j == k + 1 then RemainingPart(ds[k], left, offset) else ds[j - 1]
  {
    hide PagingPart, RemainingPart;
  }

  /** Slot j of the result is the one of the split. */
  ghost predicate SlotRight(m: seq<Byte>, start: nat, e: nat, n: nat, k: nat, left: Word, offset: Word, j: nat)
    requires Layout(|m|, start, e, n) && k < n && j <= n
  {
    SlotOf(Finalized(m, start, e, n, k, left, offset), start, e, n, j) == Split(Slots(m, start, e, n, n), k, left, offset)[j]
  }

  lemma SlotRightIff(m: seq<Byte>, start: nat, e: nat, n: nat, k: nat, left: Word, offset: Word, j: nat)
    requires Layout(|m|, start, e, n) && k < n && j <= n
    ensures SlotRight(m, start, e, n, k, left, offset, j)
       <==> HarmlessAt(m, start, e, n, k, RemainingPart(SlotOf(m, start, e, n, k), left, offset), j)
  {
    hide Finalized, DescriptorAt, Fields, PagingPart, RemainingPart, Split, Stands, SlotAt, SlotBehind;
    SplitAt(Slots(m, start, e, n, n), k, left, offset, j);
    if j < k {
      FrontSlot(m, start, e, n, k, left, offset, j);
      StandsIff(m, SlotAt(start, e, j), SlotBehind(start, e, k), RemainingPart(SlotOf(m, start, e, n, k), left, offset));
    } else if j == k {
      PagingSlotIff(m, start, e, n, k, left, offset);
    } else if k == 0 && j == 1 {
      SlotOneBehindZero(m, start, e, n, left, offset);
    } else {
      OtherSlot(m, start, e, n, k, left, offset, j);
    }
  }

  /** The map becomes the split exactly for the harmless contents. */
  lemma BecomesSplitIff(m: seq<Byte>, start: nat, e: nat, n: nat, k: nat, left: Word, offset: Word)
    requires Layout(|m|, start, e, n) && k < n
    ensures Slots(Finalized(m, start, e, n, k, left, offset), start, e, n, n + 1) == Split(Slots(m, start, e, n, n), k, left, offset)
       <==> Harmless(m, start, e, n, k, left, offset)
  {
    AllSlotsIff(m, start, e, n, k, left, offset);
    hide SlotRight, HarmlessAt, SlotOf, RemainingPart, Finalized, Slots, Split;
    forall j: nat | j <= n
      ensures SlotRight(m, start, e, n, k, left, offset, j)
         <==> HarmlessAt(m, start, e, n, k, RemainingPart(SlotOf(m, start, e, n, k), left, offset), j)
    {
      SlotRightIff(m, start, e, n, k, left, offset, j);
    }
  }

  lemma AllSlotsIff(m: seq<Byte>, start: nat, e: nat, n: nat, k: nat, left: Word, offset: Word)
    requires Layout(|m|, start, e, n) && k < n
    ensures Slots(Finalized(m, start, e, n, k, left, offset), start, e, n, n + 1) == Split(Slots(m, start, e, n, n), k, left, offset)
       <==> forall j: nat :: j <= n ==> SlotRight(m, start, e, n, k, left, offset, j)
  {
    hide Finalized, SlotOf, PagingPart, RemainingPart;
    var r, s := Slots(Finalized(m, start, e, n, k, left, offset), start, e, n, n + 1), Split(Slots(m, start, e, n, n), k, left, offset);
    hide Split;
    SplitAt(Slots(m, start, e, n, n), k, left, offset, 0);
    if forall j: nat :: j <= n ==> SlotRight(m, start, e, n, k, left, offset, j) {
      forall j: nat | j <= n
        ensures r[j] == s[j]
      {
        assert SlotRight(m, start, e, n, k, left, offset, j);
      }
      assert r == s;
    }
  }

  // ---------- no map is safe

  /** The map with another attribute in slot k. */
  function WithAttribute(m: seq<Byte>, start: nat, e: nat, n: nat, k: nat, v: Word): (r: seq<Byte>)
    requires Layout(|m|, start, e, n) && k < n
    ensures |r| == |m|
  {
    SlotInside(|m|, start, e, n, k);
    Store64(m, SlotAt(start, e, k) + 32, v)
  }

  /** It is the same map but for that attribute. */
  lemma WithAttributeAt(m: seq<Byte>, start: nat, e: nat, n: nat, k: nat, v: Word, j: nat)
    requires Layout(|m|, start, e, n) && k < n && j <= n
    ensures SlotOf(WithAttribute(m, start, e, n, k, v), start, e, n, j)
         == if j == k then SlotOf(m, start, e, n, k).(attribute := v) else SlotOf(m, start, e, n, j)
  {
    hide Put, Field, SlotAt;
    SlotInside(|m|, start, e, n, k);
    SlotInside(|m|, start, e, n, j);
    var a := SlotAt(start, e, k);
    if j == k {
      LoadStored(m, a + 32, v);
      FieldElsewhere(m, a + 32, 8, v, a, 4);
      LoadElsewhere(m, a + 32, v, a + 8);
      LoadElsewhere(m, a + 32, v, a + 16);
      LoadElsewhere(m, a + 32, v, a + 24);
    } else {
      if j < k {
        SlotsApart(start, e, j, k);
      } else {
        SlotsApart(start, e, k, j);
      }
      PutOutside(m, a + 32, 8, v, SlotAt(start, e, j));
    }
  }

  /** Rebasing does not see attributes. */
  lemma {:induction false} RebasedWithAttribute(m: seq<Byte>, start: nat, e: nat, n: nat, i: nat, offset: Word, k: nat, v: Word)
    requires Layout(|m|, start, e, n) && k < n && i <= n
    ensures Rebased(WithAttribute(m, start, e, n, k, v), start, e, n, i, offset)
         == WithAttribute(Rebased(m, start, e, n, i, offset), start, e, n, k, v)
  {
    hide RebasedSlot, SlotAt, WithAttribute, Layout;
    if i > 0 {
      RebasedWithAttribute(m, start, e, n, i - 1, offset, k, v);
      SlotInside(|m|, start, e, n, i - 1);
      RebaseStep(Rebased(m, start, e, n, i - 1, offset), start, e, n, i - 1, offset, k, v);
    }
  }

  lemma RebaseStep(m: seq<Byte>, start: nat, e: nat, n: nat, i: nat, offset: Word, k: nat, v: Word)
    requires Layout(|m|, start, e, n) && k < n && i < n
    ensures SlotAt(start, e, i) + DESCRIPTOR_SIZE <= |m|
    ensures RebasedSlot(WithAttribute(m, start, e, n, k, v), SlotAt(start, e, i), offset)
         == WithAttribute(RebasedSlot(m, SlotAt(start, e, i), offset), start, e, n, k, v)
  {
    hide Put, DescriptorAt, SlotAt;
    SlotInside(|m|, start, e, n, k);
    SlotInside(|m|, start, e, n, i);
    WithAttributeAt(m, start, e, n, k, v, i);
    if i < k {
      SlotsApart(start, e, i, k);
    } else if i > k {
      SlotsApart(start, e, k, i);
    }
    var a, b := SlotAt(start, e, i), SlotAt(start, e, k);
    PutsCommute(m, a + 16, Rebase(DescriptorAt(m, a), offset).virtAddr, b + 32, v);
  }

  lemma PutsCommute(m: seq<Byte>, a: nat, v: Word, b: nat, w: Word)
    requires a + 8 <= |m| && b + 8 <= |m| && (a + 8 <= b || b + 8 <= a)
    ensures Store64(Store64(m, b, w), a, v) == Store64(Store64(m, a, v), b, w)
  {
    hide Put;
    var s, t := Store64(Store64(m, b, w), a, v), Store64(Store64(m, a, v), b, w);
    forall x: nat | x < |m|
      ensures s[x] == t[x]
    {
      PutAt(m, b, 8, w, x);
      PutAt(Store64(m, b, w), a, 8, v, x);
      PutAt(m, a, 8, v, x);
      PutAt(Store64(m, a, v), b, 8, w, x);
    }
  }

  /** The firmware's map becomes the split. */
  ghost predicate BecomesSplit(m: seq<Byte>, start: nat, e: nat, n: nat, k: nat, left: Word, offset: Word)
    requires Layout(|m|, start, e, n) && k < n
  {
    var b := Rebased(m, start, e, n, n, offset);
    Slots(Finalized(b, start, e, n, k, left, offset), start, e, n, n + 1) == Split(Slots(b, start, e, n, n), k, left, offset)
  }

  /**
   Whatever the firmware's map and the region chosen, at most one attribute of that region lets the map become the split:
   of any map and the same map with another attribute in the chosen slot, one does not.
   */
  lemma NoMapIsSafe(m: seq<Byte>, start: nat, e: nat, n: nat, k: nat, left: Word, offset: Word, v: Word)
    requires Layout(|m|, start, e, n) && k < n && v != SlotOf(m, start, e, n, k).attribute
    ensures !BecomesSplit(m, start, e, n, k, left, offset)
         || !BecomesSplit(WithAttribute(m, start, e, n, k, v), start, e, n, k, left, offset)
  {
    hide Rebased, Finalized, Split, Slots, Harmless, WithAttribute, SlotOf;
    var b := Rebased(m, start, e, n, n, offset);
    RebasedWithAttribute(m, start, e, n, n, offset, k, v);
    RebasedAt(m, start, e, n, n, offset, k);
    BecomesSplitIff(b, start, e, n, k, left, offset);
    BecomesSplitIff(WithAttribute(b, start, e, n, k, v), start, e, n, k, left, offset);
    if Harmless(b, start, e, n, k, left, offset) && Harmless(WithAttribute(b, start, e, n, k, v), start, e, n, k, left, offset) {
      HarmlessAttribute(b, start, e, n, k, left, offset);
      HarmlessAttribute(WithAttribute(b, start, e, n, k, v), start, e, n, k, left, offset);
      WithAttributeAt(b, start, e, n, k, v, k);
      SourceApart(b, start, e, n, k, v);
      assert false;
    }
  }

  /** A harmless map's chosen slot has the attribute that the bytes copied behind it end in. */
  lemma HarmlessAttribute(m: seq<Byte>, start: nat, e: nat, n: nat, k: nat, left: Word, offset: Word)
    requires Layout(|m|, start, e, n) && k < n && Harmless(m, start, e, n, k, left, offset)
    ensures SourceOf(m, start, e, n, k + 1).attribute == SlotOf(m, start, e, n, k).attribute
  {
    hide SourceOf, SlotOf, Stands, Layout;
    var rest := RemainingPart(SlotOf(m, start, e, n, k), left, offset);
    assert HarmlessAt(m, start, e, n, k, rest, k) && HarmlessAt(m, start, e, n, k, rest, k + 1);
  }

  /** Those bytes do not include the attribute itself. */
  lemma SourceApart(m: seq<Byte>, start: nat, e: nat, n: nat, k: nat, v: Word)
    requires Layout(|m|, start, e, n) && k < n
    ensures SourceOf(WithAttribute(m, start, e, n, k, v), start, e, n, k + 1) == SourceOf(m, start, e, n, k + 1)
  {
    hide Put, DescriptorAt, SlotAt;
    SlotInside(|m|, start, e, n, k);
    SlotInside(|m|, start, e, n, k + 1);
    FrontOfSlot(start, e, k);
    PutOutside(m, SlotAt(start, e, k) + 32, 8, v, SlotBefore(start, e, k + 1));
  }

  lemma FrontOfSlot(start: nat, e: nat, k: nat)
    requires e >= DESCRIPTOR_SIZE
    ensures SlotBefore(start, e, k + 1) + DESCRIPTOR_SIZE <= SlotAt(start, e, k) + 32
  {
    Arithmetic.MulMonotone(e, 1, k);
  }
}
