/** Sealing an EFI table header with its CRC and checking the seal. */
module CrcHeader {
  import opened Crc
  import opened CrcDetection

  /** The 32-bit little-endian CRC32 field sits at byte 16 of the 24-byte header. */
  const HEADER_SIZE := 24

  /** Puts a byte below the bytes of x. */
  function PushLow(x: bv32, b: bv8): bv32 {
    (x << 8) | Widen(b)
  }

  function LowByte(x: bv32): bv8 {
    (x & 0xFF) as bv8
  }

  /** Little-endian. */
  function Word32(b: seq<bv8>): bv32
    requires |b| == 4
  {
    PushLow(PushLow(PushLow(Widen(b[3]), b[2]), b[1]), b[0])
  }

  function Bytes32(w: bv32): (b: seq<bv8>)
    ensures |b| == 4
  {
    [LowByte(w), LowByte(Shift8(w)), LowByte(Shift8(Shift8(w))), LowByte(Shift8(Shift8(Shift8(w))))]
  }

  lemma PushThenTake(x: bv32, b: bv8)
    ensures LowByte(PushLow(x, b)) == b
  {
  }

  lemma PushThenShift(x: bv32, b: bv8)
    requires x <= 0xFF_FFFF
    ensures Shift8(PushLow(x, b)) == x
  {
  }

  lemma PushGrows(x: bv32, b: bv8)
    ensures x <= 0xFF ==> PushLow(x, b) <= 0xFFFF
    ensures x <= 0xFFFF ==> PushLow(x, b) <= 0xFF_FFFF
  {
  }

  lemma ByteFits(b: bv8)
    ensures Widen(b) <= 0xFF && LowByte(Widen(b)) == b
  {
  }

  lemma BytesRoundTrip(b: seq<bv8>)
    requires |b| == 4
    ensures Bytes32(Word32(b)) == b
  {
    hide PushLow, LowByte, Shift8, Widen;
    var x3 := Widen(b[3]);
    var x2 := PushLow(x3, b[2]);
    var x1 := PushLow(x2, b[1]);
    ByteFits(b[3]);
    PushGrows(x3, b[2]);
    PushGrows(x2, b[1]);
    PushThenTake(x3, b[2]);
    PushThenTake(x2, b[1]);
    PushThenTake(x1, b[0]);
    PushThenShift(x3, b[2]);
    PushThenShift(x2, b[1]);
    PushThenShift(x1, b[0]);
  }

  lemma TakeAndPush(x: bv32)
    ensures PushLow(Shift8(x), LowByte(x)) == x
  {
  }

  lemma LastByte(x: bv32)
    ensures Widen(LowByte(Shift8(Shift8(Shift8(x))))) == Shift8(Shift8(Shift8(x)))
  {
  }

  lemma WordRoundTrip(w: bv32)
    ensures Word32(Bytes32(w)) == w
  {
    hide PushLow, LowByte, Shift8, Widen;
    LastByte(w);
    TakeAndPush(Shift8(Shift8(w)));
    TakeAndPush(Shift8(w));
    TakeAndPush(w);
  }

  // ---------- a message followed by its own CRC

  /** Whatever the message, its own CRC behind it, low byte first, brings the register to one constant. */
  lemma Residue(data: seq<bv8>)
    ensures FeedBits(0xFFFF_FFFF, Bits(data + Bytes32(Crc32(data)))) == 0xDEBB_20E3
  {
    hide FeedBits, Bits, Bytes32, LowBits, ShiftN, Steps, Plus, Complement;
    var s := FeedBits(0xFFFF_FFFF, Bits(data));
    var crc := Crc32(data);
    BitsOfWord(data, crc);
    FeedAppend(0xFFFF_FFFF, Bits(data), LowBits(crc, 32));
    FeedLowBits(s, crc, 32);
    ShiftedAway(crc);
    PlusZero(FeedBits(s, LowBits(crc, 32)));
    PlusComplement(s);
    ResidueSteps();
  }

  lemma PlusComplement(s: bv32)
    ensures Plus(s, Complement(s)) == 0xFFFF_FFFF
  {
  }

  lemma ResidueSteps()
    ensures Steps(0xFFFF_FFFF, 32) == 0xDEBB_20E3
  {
    assert Steps(0xFFFF_FFFF, 32) == Steps(Bits8(0xFFFF_FFFF), 24) by { StepsMore(0xFFFF_FFFF, 24); }
    assert Steps(0x2DFD_1072, 24) == Steps(Bits8(0x2DFD_1072), 16) by { StepsMore(0x2DFD_1072, 16); }
    assert Steps(0xBE26_ED00, 16) == Steps(Bits8(0xBE26_ED00), 8) by { StepsMore(0xBE26_ED00, 8); }
    assert Steps(0x00BE_26ED, 8) == Bits8(0x00BE_26ED) by { StepsEight(0x00BE_26ED); }
    assert Bits8(0xFFFF_FFFF) == 0x2DFD_1072 && Bits8(0x2DFD_1072) == 0xBE26_ED00;
    assert Bits8(0xBE26_ED00) == 0x00BE_26ED && Bits8(0x00BE_26ED) == 0xDEBB_20E3;
  }

  lemma StepsMore(s: bv32, n: nat)
    ensures Steps(s, 8 + n) == Steps(Bits8(s), n)
  {
    hide Bits8;
    StepsAdd(s, 8, n);
    StepsEight(s);
  }

  lemma {:induction false} StepsAdd(s: bv32, m: nat, n: nat)
    ensures Steps(s, m + n) == Steps(Steps(s, m), n)
    decreases m
  {
    hide BitStep;
    if m > 0 {
      StepsAdd(BitStep(s), m - 1, n);
    }
  }

  lemma {:induction false} ShiftAdd(v: bv32, m: nat, n: nat)
    ensures ShiftN(v, m + n) == ShiftN(ShiftN(v, m), n)
    ensures LowBits(v, m + n) == LowBits(v, m) + LowBits(ShiftN(v, m), n)
    decreases m
  {
    hide Shift1;
    if m > 0 {
      ShiftAdd(Shift1(v), m - 1, n);
    }
  }

  lemma ShiftByte(v: bv32)
    ensures ShiftN(v, 8) == Shift8(v)
  {
    hide Shift1, Shift8;
    var s1 := Shift1(v);
    var s2 := Shift1(s1);
    var s3 := Shift1(s2);
    var s4 := Shift1(s3);
    var s5 := Shift1(s4);
    var s6 := Shift1(s5);
    assert ShiftN(v, 8) == ShiftN(s1, 7) && ShiftN(s1, 7) == ShiftN(s2, 6) && ShiftN(s2, 6) == ShiftN(s3, 5);
    assert ShiftN(s3, 5) == ShiftN(s4, 4) && ShiftN(s4, 4) == ShiftN(s5, 3) && ShiftN(s5, 3) == ShiftN(s6, 2);
    EightShifts(v);
  }

  lemma EightShifts(v: bv32)
    ensures Shift1(Shift1(Shift1(Shift1(Shift1(Shift1(Shift1(Shift1(v)))))))) == Shift8(v)
  {
  }

  lemma ShiftedAway(v: bv32)
    ensures ShiftN(v, 32) == 0
  {
    hide ShiftN;
    ShiftAdd(v, 8, 24);
    ShiftByte(v);
    ShiftAdd(Shift8(v), 8, 16);
    ShiftByte(Shift8(v));
    ShiftAdd(Shift8(Shift8(v)), 8, 8);
    ShiftByte(Shift8(Shift8(v)));
    ShiftByte(Shift8(Shift8(Shift8(v))));
  }

  /** The bits of the lowest byte are the lowest eight bits. */
  lemma LowByteBits(v: bv32)
    ensures BitsOfByte(LowByte(v)) == LowBits(v, 8)
  {
    LowByteMask(v);
    SameLow(v, 0xFF & v, 0xFF, 8);
  }

  lemma LowByteMask(v: bv32)
    ensures Widen(LowByte(v)) == 0xFF & v
  {
  }

  /** Bits under a mask of ones are those of the word. */
  lemma {:induction false} SameLow(v: bv32, w: bv32, mask: bv32, n: nat)
    requires w == mask & v && Ones(mask, n)
    ensures LowBits(v, n) == LowBits(w, n)
    decreases n
  {
    if n > 0 {
      SameLow(Shift1(v), Shift1(w), Shift1(mask), n - 1);
    }
  }

  predicate Ones(mask: bv32, n: nat) {
    n > 0 ==> mask & 1 == 1 && Ones(Shift1(mask), n - 1)
  }

  lemma BitsMore(data: seq<bv8>, b: bv8)
    ensures Bits(data + [b]) == Bits(data) + BitsOfByte(b)
  {
    hide BitsOfByte;
    assert (data + [b])[..|data|] == data;
  }

  /** The bits of a word stored low byte first are the bits of the word, the lowest first. */
  lemma BitsOfWord(data: seq<bv8>, w: bv32)
    ensures Bits(data + Bytes32(w)) == Bits(data) + LowBits(w, 32)
  {
    hide BitsOfByte, Bits, LowBits, ShiftN, LowByte, Shift8;
    var w1, w2, w3 := Shift8(w), Shift8(Shift8(w)), Shift8(Shift8(Shift8(w)));
    var d1 := data + [LowByte(w)];
    var d2 := d1 + [LowByte(w1)];
    var d3 := d2 + [LowByte(w2)];
    assert data + Bytes32(w) == d3 + [LowByte(w3)];
    BitsMore(data, LowByte(w));
    BitsMore(d1, LowByte(w1));
    BitsMore(d2, LowByte(w2));
    BitsMore(d3, LowByte(w3));
    LowByteBits(w);
    LowByteBits(w1);
    LowByteBits(w2);
    LowByteBits(w3);
    ShiftByte(w);
    ShiftByte(w1);
    ShiftByte(w2);
    ShiftAdd(w, 8, 24);
    ShiftAdd(w1, 8, 16);
    ShiftAdd(w2, 8, 8);
  }

  // ---------- the field

  function StoredCrc(h: seq<bv8>): bv32
    requires |h| >= HEADER_SIZE
  {
    Word32(h[16..20])
  }

  function WithCrc(h: seq<bv8>, w: bv32): (r: seq<bv8>)
    requires |h| >= HEADER_SIZE
    ensures |r| == |h|
  {
    h[..16] + Bytes32(w) + h[20..]
  }

  /** The CRC a header should carry: that of its first `size` bytes with the field cleared. */
  function ExpectedCrc(h: seq<bv8>, size: nat): bv32
    requires HEADER_SIZE <= |h| && size <= |h|
  {
    Crc32(WithCrc(h, 0)[..size])
  }

  function Seal(h: seq<bv8>, size: nat): seq<bv8>
    requires HEADER_SIZE <= |h| && size <= |h|
  {
    WithCrc(h, ExpectedCrc(h, size))
  }

  /** What the check accepts. */
  predicate Passes(h: seq<bv8>, maxSize: nat, size: nat)
    requires HEADER_SIZE <= |h| && size <= |h|
  {
    size != 0 && (maxSize == 0 || size <= maxSize) && StoredCrc(h) == ExpectedCrc(h, size)
  }

  class TableHeader {
    const bytes: array<bv8>

    constructor (bytes: array<bv8>)
      ensures this.bytes == bytes
    {
      this.bytes := bytes;
    }

    predicate Valid() {
      bytes.Length >= HEADER_SIZE
    }

    method WriteCrc(w: bv32)
      requires Valid()
      modifies bytes
      ensures bytes[..] == WithCrc(old(bytes[..]), w)
    {
      var b := Bytes32(w);
      bytes[16], bytes[17], bytes[18], bytes[19] := b[0], b[1], b[2], b[3];
    }

    method SetCrcAltSize(size: nat)
      requires Valid() && size <= bytes.Length
      modifies bytes
      ensures bytes[..] == Seal(old(bytes[..]), size)
    {
      WriteCrc(0);
      assert bytes[..size] == bytes[..][..size];
      var crc := CalculateCrc(bytes, size);
      WriteCrc(crc);
      WithCrcTwice(old(bytes[..]), 0, crc);
    }

    method CheckCrcAltSize(maxSize: nat, size: nat) returns (f: bool)
      requires Valid() && size <= bytes.Length
      modifies bytes
      ensures bytes[..] == old(bytes[..])
      ensures f <==> Passes(old(bytes[..]), maxSize, size)
    {
      if size == 0 {
        return false;
      }
      if maxSize != 0 && size > maxSize {
        return false;
      }
      var orgCrc := Word32(bytes[16..20]);
      WriteCrc(0);
      assert bytes[..size] == bytes[..][..size];
      var crc := CalculateCrc(bytes, size);
      WriteCrc(orgCrc);
      WithCrcTwice(old(bytes[..]), 0, orgCrc);
      WithOwnCrc(old(bytes[..]));
      assert old(bytes[16..20]) == old(bytes[..])[16..20];
      f := orgCrc == crc;
    }
  }

  lemma WithCrcTwice(h: seq<bv8>, v: bv32, w: bv32)
    requires |h| >= HEADER_SIZE
    ensures WithCrc(WithCrc(h, v), w) == WithCrc(h, w)
  {
    hide Bytes32;
  }

  lemma WithOwnCrc(h: seq<bv8>)
    requires |h| >= HEADER_SIZE
    ensures WithCrc(h, StoredCrc(h)) == h
  {
    hide Bytes32, Word32;
    BytesRoundTrip(h[16..20]);
  }

  /** Sealing and then checking succeeds, for every header and every size within bounds. */
  lemma SealPasses(h: seq<bv8>, maxSize: nat, size: nat)
    requires HEADER_SIZE <= |h| && 0 < size <= |h| && (maxSize == 0 || size <= maxSize)
    ensures Passes(Seal(h, size), maxSize, size)
  {
    hide Bytes32, Word32, Crc32;
    var crc := ExpectedCrc(h, size);
    WithCrcTwice(h, crc, 0);
    assert Seal(h, size)[16..20] == Bytes32(crc);
    WordRoundTrip(crc);
  }

  /** What passes is exactly a header that is its own seal, of a size that is within bounds and not zero. */
  lemma PassesIffSealed(h: seq<bv8>, maxSize: nat, size: nat)
    requires HEADER_SIZE <= |h| && size <= |h|
    ensures Passes(h, maxSize, size) <==> size != 0 && (maxSize == 0 || size <= maxSize) && h == Seal(h, size)
  {
    hide Bytes32, Word32, Crc32;
    WithOwnCrc(h);
    if h == Seal(h, size) && size > 0 {
      SealPasses(h, 0, size);
    }
  }

  /**
   No header that passes still passes after damage to four consecutive bytes of its checked part outside the CRC
   field, or to the CRC field alone.
   */
  lemma DamageIsDetected(h: seq<bv8>, h': seq<bv8>, maxSize: nat, size: nat, p: nat)
    requires HEADER_SIZE <= |h| && size <= |h| && Passes(h, maxSize, size)
    requires |h'| == |h| && h'[size..] == h[size..] && ByteBurst(h, h', p)
    requires p + 4 <= 16 || p == 16 || p >= 20
    ensures !Passes(h', maxSize, size)
  {
    hide Bytes32, Word32, Crc32;
    var c, c' := WithCrc(h, 0), WithCrc(h', 0);
    if p == 16 {
      assert c == c';
      WithOwnCrc(h);
      WithOwnCrc(h');
    } else {
      assert h[16..20] == h'[16..20];
      forall j | size <= j < |h|
        ensures h[j] == h'[j]
      {
        assert h[j] == h[size..][j - size] && h'[j] == h'[size..][j - size];
      }
      var i :| 0 <= i < |h| && h[i] != h'[i];
      assert h[i] == c[i] && h'[i] == c'[i];
      assert c[..size][i] != c'[..size][i];
      assert ByteBurst(c[..size], c'[..size], p);
      ByteBurstIsBurst(c[..size], c'[..size], p);
      BurstChangesCrc(c[..size], c'[..size], 8 * p);
    }
  }
}
