/** Which corruptions the CRC cannot miss. */
module CrcDetection {
  import opened Crc

  /** Bitwise difference of two bit strings. */
  function Diff(a: seq<bool>, b: seq<bool>): (d: seq<bool>)
    requires |a| == |b|
    ensures |d| == |a|
  {
    seq(|a|, i requires 0 <= i < |a| => a[i] != b[i])
  }

  lemma FeedBitLinear(s: bv32, t: bv32, a: bool, b: bool)
    ensures Plus(FeedBit(s, a), FeedBit(t, b)) == FeedBit(Plus(s, t), a != b)
  {
    var x: bv32, y: bv32 := if a then 1 else 0, if b then 1 else 0;
    BitStepLinear(Plus(s, x), Plus(t, y));
    PlusPairs(s, x, t, y);
    PlusBits(a, b);
    hide BitStep, Plus;
  }

  lemma PlusAssociative(a: bv32, b: bv32, c: bv32)
    ensures Plus(a, Plus(b, c)) == Plus(Plus(a, b), c)
  {
  }

  lemma PlusCommutative(a: bv32, b: bv32)
    ensures Plus(a, b) == Plus(b, a)
  {
  }

  lemma PlusPairs(s: bv32, x: bv32, t: bv32, y: bv32)
    ensures Plus(Plus(s, x), Plus(t, y)) == Plus(Plus(s, t), Plus(x, y))
  {
    hide Plus;
    PlusAssociative(s, x, Plus(t, y));
    PlusAssociative(x, t, y);
    PlusCommutative(x, t);
    PlusAssociative(t, x, y);
    PlusAssociative(s, t, Plus(x, y));
  }

  lemma PlusBits(a: bool, b: bool)
    ensures Plus(if a then 1 else 0, if b then 1 else 0) == if a != b then 1 else 0
  {
  }

  /** Two runs of the register differ by what their difference would produce. */
  lemma {:induction false} FeedLinear(s: bv32, t: bv32, a: seq<bool>, b: seq<bool>)
    requires |a| == |b|
    ensures Plus(FeedBits(s, a), FeedBits(t, b)) == FeedBits(Plus(s, t), Diff(a, b))
    decreases |a|
  {
    hide Plus, FeedBit;
    if a != [] {
      FeedBitLinear(s, t, a[0], b[0]);
      FeedLinear(FeedBit(s, a[0]), FeedBit(t, b[0]), a[1..], b[1..]);
      assert Diff(a, b)[1..] == Diff(a[1..], b[1..]);
    }
  }

  lemma ZeroStep(s: bv32)
    ensures FeedBit(s, false) == 0 <==> s == 0
  {
  }

  /** A difference never dies out by itself, and none arises from nothing. */
  lemma {:induction false} FeedZeros(s: bv32, d: seq<bool>)
    requires true !in d
    ensures FeedBits(s, d) == 0 <==> s == 0
    decreases |d|
  {
    hide FeedBit;
    if d != [] {
      assert d[0] in d;
      ZeroStep(s);
      FeedZeros(FeedBit(s, false), d[1..]);
    }
  }

  function Half(b: bv32): bv32 {
    b >> 1
  }

  predicate Below(s: bv32, bound: bv32) {
    s < bound
  }

  /** 2^j, halved down from 2^31. */
  function Bound(j: nat): (b: bv32)
    requires j <= 31
    ensures b <= 0x8000_0000
    decreases 31 - j
  {
    if j == 31 then 0x8000_0000 else Half(Bound(j + 1))
  }

  lemma BoundZero()
    ensures Bound(0) == 1
  {
    assert Bound(30) == 0x4000_0000 && Bound(29) == 0x2000_0000 && Bound(28) == 0x1000_0000 && Bound(27) == 0x800_0000;
    assert Bound(26) == 0x400_0000 && Bound(25) == 0x200_0000 && Bound(24) == 0x100_0000 && Bound(23) == 0x80_0000;
    assert Bound(22) == 0x40_0000 && Bound(21) == 0x20_0000 && Bound(20) == 0x10_0000 && Bound(19) == 0x8_0000;
    assert Bound(18) == 0x4_0000 && Bound(17) == 0x2_0000 && Bound(16) == 0x1_0000 && Bound(15) == 0x8000;
    assert Bound(14) == 0x4000 && Bound(13) == 0x2000 && Bound(12) == 0x1000 && Bound(11) == 0x800;
    assert Bound(10) == 0x400 && Bound(9) == 0x200 && Bound(8) == 0x100 && Bound(7) == 0x80;
    assert Bound(6) == 0x40 && Bound(5) == 0x20 && Bound(4) == 0x10 && Bound(3) == 0x8;
    assert Bound(2) == 0x4 && Bound(1) == 0x2 && Bound(0) == 0x1;
  }

  predicate FeedbackAt(s: bv32, bit: bool) {
    (s & 1 == 1) != bit
  }

  lemma FeedWithFeedback(s: bv32, bit: bool)
    requires FeedbackAt(s, bit)
    ensures FeedBit(s, bit) >= 0x8000_0000
  {
  }

  lemma FeedWithoutFeedback(s: bv32, bit: bool)
    requires !FeedbackAt(s, bit)
    ensures FeedBit(s, bit) == Half(s)
  {
    hide Plus, BitStep;
    PlusZero(s);
    if bit {
      PlusLowBit(s);
      EvenStep(Plus(s, 1));
    } else {
      LowBit(s);
      EvenStep(s);
    }
  }

  lemma PlusLowBit(s: bv32)
    requires s & 1 == 1
    ensures Plus(s, 1) & 1 == 0 && Plus(s, 1) >> 1 == s >> 1
  {
  }

  lemma HalfBelow(s: bv32, bound: bv32)
    ensures Below(Half(s), Half(bound)) ==> Below(s, bound)
    ensures s >= 0x8000_0000 ==> !Below(s, Half(bound))
  {
  }

  /** If feeding one more bit brings the difference below half a bound, it was below the bound. */
  lemma BackOneBit(s: bv32, bit: bool, bound: bv32)
    requires Below(FeedBit(s, bit), Half(bound))
    ensures Below(s, bound)
  {
    hide FeedBit, Half, Below, FeedbackAt;
    HalfBelow(s, bound);
    HalfBelow(FeedBit(s, bit), bound);
    if FeedbackAt(s, bit) {
      FeedWithFeedback(s, bit);
    } else {
      FeedWithoutFeedback(s, bit);
    }
  }

  lemma ZeroBelowOne()
    ensures Below(0, 1)
  {
  }

  /** A difference that j bits can cancel fits into j bits. */
  lemma {:induction false} CancelledIsShort(s: bv32, d: seq<bool>)
    requires |d| <= 31 && FeedBits(s, d) == 0
    ensures Below(s, Bound(|d|))
    decreases |d|
  {
    hide FeedBit, Below, Half;
    if d == [] {
      BoundZero();
      assert Below(0, 1) by { ZeroBelowOne(); }
    } else {
      CancelledIsShort(FeedBit(s, d[0]), d[1..]);
      assert Half(Bound(|d|)) == Bound(|d| - 1);
      BackOneBit(s, d[0], Bound(|d|));
    }
  }

  /** Two bit strings that differ, and only inside a window of 32 bits. */
  ghost predicate BurstAt(a: seq<bool>, b: seq<bool>, k: nat) {
    |a| == |b| && a != b && forall i :: 0 <= i < |a| && a[i] != b[i] ==> k <= i < k + 32
  }

  /** The register distinguishes any two messages that differ by a burst of at most 32 bits, whatever it held. */
  lemma BurstChangesRegister(s: bv32, a: seq<bool>, b: seq<bool>, k: nat)
    requires BurstAt(a, b, k)
    ensures FeedBits(s, a) != FeedBits(s, b)
  {
    hide Plus, FeedBit, FeedBits, Bound;
    var d := Diff(a, b);
    FeedLinear(s, s, a, b);
    PlusZero(s);
    PlusZero(FeedBits(s, a));
    var i :| 0 <= i < |a| && a[i] != b[i];
    assert d[i];
    BurstIsFelt(d, k);
  }

  lemma BurstIsFelt(d: seq<bool>, k: nat)
    requires true in d && forall i :: 0 <= i < |d| && d[i] ==> k <= i < k + 32
    ensures FeedBits(0, d) != 0
  {
    hide FeedBits, FeedBit, Bound, Below;
    var f := FirstTrue(d);
    var end := if f + 32 <= |d| then f + 32 else |d|;
    var mid, tail := d[f + 1..end], d[end..];
    FeedAppend(0, d[..f], d[f..]);
    assert d == d[..f] + d[f..];
    FeedZeros(0, d[..f]);
    assert d[f..] == [true] + (mid + tail);
    assert FeedBits(0, d[f..]) == FeedBits(FeedBit(0, true), mid + tail) by {
      FeedOneMore(0, true, mid + tail);
    }
    FeedAppend(FeedBit(0, true), mid, tail);
    if FeedBits(FeedBit(0, true), mid) == 0 {
      CancelledIsShort(FeedBit(0, true), mid);
      FirstDifference(|mid|);
    }
    assert true !in tail;
    FeedZeros(FeedBits(FeedBit(0, true), mid), tail);
  }

  lemma FeedOneMore(s: bv32, bit: bool, rest: seq<bool>)
    ensures FeedBits(s, [bit] + rest) == FeedBits(FeedBit(s, bit), rest)
  {
    assert ([bit] + rest)[1..] == rest;
  }

  /** The first differing bit leaves a difference too long for 31 more bits to cancel. */
  lemma FirstDifference(j: nat)
    requires j <= 31
    ensures !Below(FeedBit(0, true), Bound(j))
  {
    assert FeedBit(0, true) == POLYNOMIAL;
  }

  lemma {:induction false} FirstTrue(d: seq<bool>) returns (f: nat)
    requires true in d
    ensures f < |d| && d[f] && true !in d[..f]
    decreases |d|
  {
    if d[0] {
      f := 0;
    } else {
      f := FirstTrue(d[1..]);
      f := f + 1;
      assert d[..f] == [d[0]] + d[1..][..f - 1];
    }
  }

  // ---------- byte strings

  lemma {:induction false} BitsAt(data: seq<bv8>, i: nat, j: nat)
    requires i < |data| && j < 8
    ensures Bits(data)[8 * i + j] == BitsOfByte(data[i])[j]
    decreases |data|
  {
    if i < |data| - 1 {
      BitsAt(data[..|data| - 1], i, j);
    }
  }

  lemma SameHalves(v: bv32, w: bv32)
    requires (v & 1 != 0) == (w & 1 != 0) && Shift1(v) == Shift1(w)
    ensures v == w
  {
  }

  lemma {:induction false} SameLowBits(v: bv32, w: bv32, n: nat)
    requires LowBits(v, n) == LowBits(w, n) && ShiftN(v, n) == ShiftN(w, n)
    ensures v == w
    decreases n
  {
    hide Shift1;
    if n > 0 {
      assert LowBits(v, n)[0] == LowBits(w, n)[0];
      assert LowBits(v, n)[1..] == LowBits(Shift1(v), n - 1) && LowBits(w, n)[1..] == LowBits(Shift1(w), n - 1);
      SameLowBits(Shift1(v), Shift1(w), n - 1);
      SameHalves(v, w);
    }
  }

  lemma WidenInjective(a: bv8, b: bv8)
    requires Widen(a) == Widen(b)
    ensures a == b
  {
  }

  lemma SameBitsSameByte(a: bv8, b: bv8)
    requires BitsOfByte(a) == BitsOfByte(b)
    ensures a == b
  {
    hide LowBits, ShiftN, Widen;
    ByteShiftedAway(a);
    ByteShiftedAway(b);
    SameLowBits(Widen(a), Widen(b), 8);
    WidenInjective(a, b);
  }

  /** Two byte strings that differ, and only inside a window of four bytes. */
  ghost predicate ByteBurst(a: seq<bv8>, b: seq<bv8>, p: nat) {
    |a| == |b| && a != b && forall i :: 0 <= i < |a| && a[i] != b[i] ==> p <= i < p + 4
  }

  lemma ByteBurstIsBurst(a: seq<bv8>, b: seq<bv8>, p: nat)
    requires ByteBurst(a, b, p)
    ensures BurstAt(Bits(a), Bits(b), 8 * p)
  {
    hide BitsOfByte, Bits;
    forall n | 0 <= n < |Bits(a)| && Bits(a)[n] != Bits(b)[n]
      ensures 8 * p <= n < 8 * p + 32
    {
      BitsAt(a, n / 8, n % 8);
      BitsAt(b, n / 8, n % 8);
      assert a[n / 8] != b[n / 8];
    }
    var i :| 0 <= i < |a| && a[i] != b[i];
    assert BitsOfByte(a[i]) != BitsOfByte(b[i]) by {
      if BitsOfByte(a[i]) == BitsOfByte(b[i]) {
        SameBitsSameByte(a[i], b[i]);
      }
    }
    var j :| 0 <= j < 8 && BitsOfByte(a[i])[j] != BitsOfByte(b[i])[j];
    BitsAt(a, i, j);
    BitsAt(b, i, j);
  }

  /** Any burst of up to 32 bits changes the CRC; so does any change inside four consecutive bytes, a fortiori in one. */
  lemma BurstChangesCrc(a: seq<bv8>, b: seq<bv8>, k: nat)
    requires BurstAt(Bits(a), Bits(b), k)
    ensures Crc32(a) != Crc32(b)
  {
    hide FeedBits, Bits;
    BurstChangesRegister(0xFFFF_FFFF, Bits(a), Bits(b), k);
    ComplementInjective(FeedBits(0xFFFF_FFFF, Bits(a)), FeedBits(0xFFFF_FFFF, Bits(b)));
  }

  // ---------- the start value and the final complement

  lemma EmptyCrc()
    ensures Crc32([]) == 0
  {
  }

  /** A run of zero bits changes a register that is not clear in a way that the message behind it cannot hide. */
  lemma LeadingZeroChangesCrc(data: seq<bv8>)
    ensures Crc32([0] + data) != Crc32(data)
  {
    hide FeedBits, Bits, Complement, Plus, Bits8;
    var start: bv32 := 0xFFFF_FFFF;
    var moved := FeedBits(start, BitsOfByte(0));
    BitsInFront(0, data);
    FeedAppend(start, BitsOfByte(0), Bits(data));
    ByteIsBits8(start, 0);
    StartMoves();
    FeedLinear(moved, start, Bits(data), Bits(data));
    FeedZeros(Plus(moved, start), Diff(Bits(data), Bits(data)));
    PlusSame(moved, start);
    PlusSame(FeedBits(moved, Bits(data)), FeedBits(start, Bits(data)));
    ComplementInjective(FeedBits(moved, Bits(data)), FeedBits(start, Bits(data)));
  }

  lemma StartMoves()
    ensures Bits8(Plus(0xFFFF_FFFF, Widen(0))) != 0xFFFF_FFFF
  {
  }

  lemma PlusSame(a: bv32, b: bv32)
    ensures Plus(a, b) == 0 <==> a == b
  {
  }

  lemma {:induction false} BitsInFront(b: bv8, data: seq<bv8>)
    ensures Bits([b] + data) == BitsOfByte(b) + Bits(data)
    decreases |data|
  {
    hide BitsOfByte;
    if data == [] {
      assert [b] + data == [b] && [b][..0] == [];
    } else {
      var front := data[..|data| - 1];
      assert ([b] + data)[..|data|] == [b] + front;
      BitsInFront(b, front);
    }
  }

  lemma ComplementInjective(s: bv32, t: bv32)
    ensures Complement(s) == Complement(t) ==> s == t
  {
  }
}
