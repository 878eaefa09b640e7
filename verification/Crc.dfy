/**
 The library's CRC-32: the table-driven loop computes the reflected CRC with polynomial 0xEDB88320, bit by bit; what
 errors it detects; and the header seal built on it.
 */
module Crc {
  const POLYNOMIAL: bv32 := 0xEDB8_8320

  // ---------- the definition: one bit at a time, least significant bit of each byte first

  function BitStep(s: bv32): bv32 {
    if s & 1 == 1 then (s >> 1) ^ POLYNOMIAL else s >> 1
  }

  /** Addition of polynomials over the two-element field. */
  function Plus(a: bv32, b: bv32): bv32 {
    a ^ b
  }

  function FeedBit(s: bv32, bit: bool): bv32 {
    BitStep(Plus(s, if bit then 1 else 0))
  }

  function FeedBits(s: bv32, bits: seq<bool>): bv32
    decreases |bits|
  {
    if bits == [] then s else FeedBits(FeedBit(s, bits[0]), bits[1..])
  }

  function Shift1(s: bv32): bv32 {
    s >> 1
  }

  /** The n lowest bits of a word, least significant first. */
  function LowBits(v: bv32, n: nat): (r: seq<bool>)
    ensures |r| == n
    decreases n
  {
    if n == 0 then [] else [v & 1 != 0] + LowBits(Shift1(v), n - 1)
  }

  function Widen(b: bv8): bv32 {
    b as bv32
  }

  function BitsOfByte(b: bv8): (r: seq<bool>)
    ensures |r| == 8
  {
    LowBits(Widen(b), 8)
  }

  function Bits(data: seq<bv8>): (r: seq<bool>)
    ensures |r| == 8 * |data|
  {
    if data == [] then [] else Bits(data[..|data| - 1]) + BitsOfByte(data[|data| - 1])
  }

  function Complement(s: bv32): bv32 {
    s ^ 0xFFFF_FFFF
  }

  function Crc32(data: seq<bv8>): bv32 {
    Complement(FeedBits(0xFFFF_FFFF, Bits(data)))
  }

  // ---------- the table

  function Bits8(s: bv32): bv32 {
    BitStep(BitStep(BitStep(BitStep(BitStep(BitStep(BitStep(BitStep(s))))))))
  }

  // The 256 entries of the array, sixteen to a row; each is the effect of eight bit steps on its index.
  function Row0(c: bv8): (e: bv32)
    ensures c < 16 ==> e == Bits8((0 + c) as bv32)
  {
    match c
      case 0 => 0x00000000 case 1 => 0x77073096 case 2 => 0xEE0E612C case 3 => 0x990951BA
      case 4 => 0x076DC419 case 5 => 0x706AF48F case 6 => 0xE963A535 case 7 => 0x9E6495A3
      case 8 => 0x0EDB8832 case 9 => 0x79DCB8A4 case 10 => 0xE0D5E91E case 11 => 0x97D2D988
      case 12 => 0x09B64C2B case 13 => 0x7EB17CBD case 14 => 0xE7B82D07 case _ => 0x90BF1D91
  }

  function Row1(c: bv8): (e: bv32)
    ensures c < 16 ==> e == Bits8((16 + c) as bv32)
  {
    match c
      case 0 => 0x1DB71064 case 1 => 0x6AB020F2 case 2 => 0xF3B97148 case 3 => 0x84BE41DE
      case 4 => 0x1ADAD47D case 5 => 0x6DDDE4EB case 6 => 0xF4D4B551 case 7 => 0x83D385C7
      case 8 => 0x136C9856 case 9 => 0x646BA8C0 case 10 => 0xFD62F97A case 11 => 0x8A65C9EC
      case 12 => 0x14015C4F case 13 => 0x63066CD9 case 14 => 0xFA0F3D63 case _ => 0x8D080DF5
  }

  function Row2(c: bv8): (e: bv32)
    ensures c < 16 ==> e == Bits8((32 + c) as bv32)
  {
    match c
      case 0 => 0x3B6E20C8 case 1 => 0x4C69105E case 2 => 0xD56041E4 case 3 => 0xA2677172
      case 4 => 0x3C03E4D1 case 5 => 0x4B04D447 case 6 => 0xD20D85FD case 7 => 0xA50AB56B
      case 8 => 0x35B5A8FA case 9 => 0x42B2986C case 10 => 0xDBBBC9D6 case 11 => 0xACBCF940
      case 12 => 0x32D86CE3 case 13 => 0x45DF5C75 case 14 => 0xDCD60DCF case _ => 0xABD13D59
  }

  function Row3(c: bv8): (e: bv32)
    ensures c < 16 ==> e == Bits8((48 + c) as bv32)
  {
    match c
      case 0 => 0x26D930AC case 1 => 0x51DE003A case 2 => 0xC8D75180 case 3 => 0xBFD06116
      case 4 => 0x21B4F4B5 case 5 => 0x56B3C423 case 6 => 0xCFBA9599 case 7 => 0xB8BDA50F
      case 8 => 0x2802B89E case 9 => 0x5F058808 case 10 => 0xC60CD9B2 case 11 => 0xB10BE924
      case 12 => 0x2F6F7C87 case 13 => 0x58684C11 case 14 => 0xC1611DAB case _ => 0xB6662D3D
  }

  function Row4(c: bv8): (e: bv32)
    ensures c < 16 ==> e == Bits8((64 + c) as bv32)
  {
    match c
      case 0 => 0x76DC4190 case 1 => 0x01DB7106 case 2 => 0x98D220BC case 3 => 0xEFD5102A
      case 4 => 0x71B18589 case 5 => 0x06B6B51F case 6 => 0x9FBFE4A5 case 7 => 0xE8B8D433
      case 8 => 0x7807C9A2 case 9 => 0x0F00F934 case 10 => 0x9609A88E case 11 => 0xE10E9818
      case 12 => 0x7F6A0DBB case 13 => 0x086D3D2D case 14 => 0x91646C97 case _ => 0xE6635C01
  }

  function Row5(c: bv8): (e: bv32)
    ensures c < 16 ==> e == Bits8((80 + c) as bv32)
  {
    match c
      case 0 => 0x6B6B51F4 case 1 => 0x1C6C6162 case 2 => 0x856530D8 case 3 => 0xF262004E
      case 4 => 0x6C0695ED case 5 => 0x1B01A57B case 6 => 0x8208F4C1 case 7 => 0xF50FC457
      case 8 => 0x65B0D9C6 case 9 => 0x12B7E950 case 10 => 0x8BBEB8EA case 11 => 0xFCB9887C
      case 12 => 0x62DD1DDF case 13 => 0x15DA2D49 case 14 => 0x8CD37CF3 case _ => 0xFBD44C65
  }

  function Row6(c: bv8): (e: bv32)
    ensures c < 16 ==> e == Bits8((96 + c) as bv32)
  {
    match c
      case 0 => 0x4DB26158 case 1 => 0x3AB551CE case 2 => 0xA3BC0074 case 3 => 0xD4BB30E2
      case 4 => 0x4ADFA541 case 5 => 0x3DD895D7 case 6 => 0xA4D1C46D case 7 => 0xD3D6F4FB
      case 8 => 0x4369E96A case 9 => 0x346ED9FC case 10 => 0xAD678846 case 11 => 0xDA60B8D0
      case 12 => 0x44042D73 case 13 => 0x33031DE5 case 14 => 0xAA0A4C5F case _ => 0xDD0D7CC9
  }

  function Row7(c: bv8): (e: bv32)
    ensures c < 16 ==> e == Bits8((112 + c) as bv32)
  {
    match c
      case 0 => 0x5005713C case 1 => 0x270241AA case 2 => 0xBE0B1010 case 3 => 0xC90C2086
      case 4 => 0x5768B525 case 5 => 0x206F85B3 case 6 => 0xB966D409 case 7 => 0xCE61E49F
      case 8 => 0x5EDEF90E case 9 => 0x29D9C998 case 10 => 0xB0D09822 case 11 => 0xC7D7A8B4
      case 12 => 0x59B33D17 case 13 => 0x2EB40D81 case 14 => 0xB7BD5C3B case _ => 0xC0BA6CAD
  }

  function Row8(c: bv8): (e: bv32)
    ensures c < 16 ==> e == Bits8((128 + c) as bv32)
  {
    match c
      case 0 => 0xEDB88320 case 1 => 0x9ABFB3B6 case 2 => 0x03B6E20C case 3 => 0x74B1D29A
      case 4 => 0xEAD54739 case 5 => 0x9DD277AF case 6 => 0x04DB2615 case 7 => 0x73DC1683
      case 8 => 0xE3630B12 case 9 => 0x94643B84 case 10 => 0x0D6D6A3E case 11 => 0x7A6A5AA8
      case 12 => 0xE40ECF0B case 13 => 0x9309FF9D case 14 => 0x0A00AE27 case _ => 0x7D079EB1
  }

  function Row9(c: bv8): (e: bv32)
    ensures c < 16 ==> e == Bits8((144 + c) as bv32)
  {
    match c
      case 0 => 0xF00F9344 case 1 => 0x8708A3D2 case 2 => 0x1E01F268 case 3 => 0x6906C2FE
      case 4 => 0xF762575D case 5 => 0x806567CB case 6 => 0x196C3671 case 7 => 0x6E6B06E7
      case 8 => 0xFED41B76 case 9 => 0x89D32BE0 case 10 => 0x10DA7A5A case 11 => 0x67DD4ACC
      case 12 => 0xF9B9DF6F case 13 => 0x8EBEEFF9 case 14 => 0x17B7BE43 case _ => 0x60B08ED5
  }

  function Row10(c: bv8): (e: bv32)
    ensures c < 16 ==> e == Bits8((160 + c) as bv32)
  {
    match c
      case 0 => 0xD6D6A3E8 case 1 => 0xA1D1937E case 2 => 0x38D8C2C4 case 3 => 0x4FDFF252
      case 4 => 0xD1BB67F1 case 5 => 0xA6BC5767 case 6 => 0x3FB506DD case 7 => 0x48B2364B
      case 8 => 0xD80D2BDA case 9 => 0xAF0A1B4C case 10 => 0x36034AF6 case 11 => 0x41047A60
      case 12 => 0xDF60EFC3 case 13 => 0xA867DF55 case 14 => 0x316E8EEF case _ => 0x4669BE79
  }

  function Row11(c: bv8): (e: bv32)
    ensures c < 16 ==> e == Bits8((176 + c) as bv32)
  {
    match c
      case 0 => 0xCB61B38C case 1 => 0xBC66831A case 2 => 0x256FD2A0 case 3 => 0x5268E236
      case 4 => 0xCC0C7795 case 5 => 0xBB0B4703 case 6 => 0x220216B9 case 7 => 0x5505262F
      case 8 => 0xC5BA3BBE case 9 => 0xB2BD0B28 case 10 => 0x2BB45A92 case 11 => 0x5CB36A04
      case 12 => 0xC2D7FFA7 case 13 => 0xB5D0CF31 case 14 => 0x2CD99E8B case _ => 0x5BDEAE1D
  }

  function Row12(c: bv8): (e: bv32)
    ensures c < 16 ==> e == Bits8((192 + c) as bv32)
  {
    match c
      case 0 => 0x9B64C2B0 case 1 => 0xEC63F226 case 2 => 0x756AA39C case 3 => 0x026D930A
      case 4 => 0x9C0906A9 case 5 => 0xEB0E363F case 6 => 0x72076785 case 7 => 0x05005713
      case 8 => 0x95BF4A82 case 9 => 0xE2B87A14 case 10 => 0x7BB12BAE case 11 => 0x0CB61B38
      case 12 => 0x92D28E9B case 13 => 0xE5D5BE0D case 14 => 0x7CDCEFB7 case _ => 0x0BDBDF21
  }

  function Row13(c: bv8): (e: bv32)
    ensures c < 16 ==> e == Bits8((208 + c) as bv32)
  {
    match c
      case 0 => 0x86D3D2D4 case 1 => 0xF1D4E242 case 2 => 0x68DDB3F8 case 3 => 0x1FDA836E
      case 4 => 0x81BE16CD case 5 => 0xF6B9265B case 6 => 0x6FB077E1 case 7 => 0x18B74777
      case 8 => 0x88085AE6 case 9 => 0xFF0F6A70 case 10 => 0x66063BCA case 11 => 0x11010B5C
      case 12 => 0x8F659EFF case 13 => 0xF862AE69 case 14 => 0x616BFFD3 case _ => 0x166CCF45
  }

  function Row14(c: bv8): (e: bv32)
    ensures c < 16 ==> e == Bits8((224 + c) as bv32)
  {
    match c
      case 0 => 0xA00AE278 case 1 => 0xD70DD2EE case 2 => 0x4E048354 case 3 => 0x3903B3C2
      case 4 => 0xA7672661 case 5 => 0xD06016F7 case 6 => 0x4969474D case 7 => 0x3E6E77DB
      case 8 => 0xAED16A4A case 9 => 0xD9D65ADC case 10 => 0x40DF0B66 case 11 => 0x37D83BF0
      case 12 => 0xA9BCAE53 case 13 => 0xDEBB9EC5 case 14 => 0x47B2CF7F case _ => 0x30B5FFE9
  }

  function Row15(c: bv8): (e: bv32)
    ensures c < 16 ==> e == Bits8((240 + c) as bv32)
  {
    match c
      case 0 => 0xBDBDF21C case 1 => 0xCABAC28A case 2 => 0x53B39330 case 3 => 0x24B4A3A6
      case 4 => 0xBAD03605 case 5 => 0xCDD70693 case 6 => 0x54DE5729 case 7 => 0x23D967BF
      case 8 => 0xB3667A2E case 9 => 0xC4614AB8 case 10 => 0x5D681B02 case 11 => 0x2A6F2B94
      case 12 => 0xB40BBE37 case 13 => 0xC30C8EA1 case 14 => 0x5A05DF1B case _ => 0x2D02EF8D
  }

  function CRCTable(i: bv8): bv32 {
    match i >> 4
    case 0 => Row0(i & 15)
    case 1 => Row1(i & 15)
    case 2 => Row2(i & 15)
    case 3 => Row3(i & 15)
    case 4 => Row4(i & 15)
    case 5 => Row5(i & 15)
    case 6 => Row6(i & 15)
    case 7 => Row7(i & 15)
    case 8 => Row8(i & 15)
    case 9 => Row9(i & 15)
    case 10 => Row10(i & 15)
    case 11 => Row11(i & 15)
    case 12 => Row12(i & 15)
    case 13 => Row13(i & 15)
    case 14 => Row14(i & 15)
    case _ => Row15(i & 15)
  }

  lemma TableEntry(i: bv8)
    ensures CRCTable(i) == Bits8(Widen(i))
  {
    hide Bits8, BitStep, Row0, Row1, Row2, Row3, Row4, Row5, Row6, Row7, Row8, Row9, Row10, Row11, Row12, Row13, Row14, Row15;
    NibblesOf(i);
  }

  lemma NibblesOf(i: bv8)
    ensures i & 15 < 16 && i >> 4 < 16 && i == ((i >> 4) << 4) + (i & 15)
  {
  }

  // ---------- linearity

  lemma BitStepEvenEven(a: bv32, b: bv32)
    requires a & 1 == 0 && b & 1 == 0
    ensures BitStep(Plus(a, b)) == Plus(BitStep(a), BitStep(b))
  {
  }

  lemma BitStepEvenOdd(a: bv32, b: bv32)
    requires a & 1 == 0 && b & 1 == 1
    ensures BitStep(Plus(a, b)) == Plus(BitStep(a), BitStep(b))
    ensures BitStep(Plus(b, a)) == Plus(BitStep(b), BitStep(a))
  {
  }

  lemma BitStepOddOdd(a: bv32, b: bv32)
    requires a & 1 == 1 && b & 1 == 1
    ensures BitStep(Plus(a, b)) == Plus(BitStep(a), BitStep(b))
  {
  }

  lemma LowBit(a: bv32)
    ensures a & 1 == 0 || a & 1 == 1
  {
  }

  /** A bit step is linear. */
  lemma BitStepLinear(a: bv32, b: bv32)
    ensures BitStep(Plus(a, b)) == Plus(BitStep(a), BitStep(b))
  {
    hide BitStep, Plus;
    LowBit(a);
    LowBit(b);
    if a & 1 == 0 && b & 1 == 0 {
      BitStepEvenEven(a, b);
    } else if a & 1 == 0 {
      BitStepEvenOdd(a, b);
    } else if b & 1 == 0 {
      BitStepEvenOdd(b, a);
    } else {
      BitStepOddOdd(a, b);
    }
  }

  lemma Bits8Linear(a: bv32, b: bv32)
    ensures Bits8(Plus(a, b)) == Plus(Bits8(a), Bits8(b))
  {
    hide BitStep, Plus;
    var a1, b1 := BitStep(a), BitStep(b);
    var a2, b2 := BitStep(a1), BitStep(b1);
    var a3, b3 := BitStep(a2), BitStep(b2);
    var a4, b4 := BitStep(a3), BitStep(b3);
    var a5, b5 := BitStep(a4), BitStep(b4);
    var a6, b6 := BitStep(a5), BitStep(b5);
    BitStepLinear(a, b);
    BitStepLinear(a1, b1);
    BitStepLinear(a2, b2);
    BitStepLinear(a3, b3);
    BitStepLinear(a4, b4);
    BitStepLinear(a5, b5);
    BitStepLinear(a6, b6);
    BitStepLinear(BitStep(a6), BitStep(b6));
  }

  /** Zero bits just shift out. */
  lemma EvenStep(s: bv32)
    requires s & 1 == 0
    ensures BitStep(s) == s >> 1
  {
  }

  lemma Bits8OfHigh(s: bv32)
    requires s & 0xFF == 0
    ensures Bits8(s) == s >> 8
  {
    assert BitStep(s) == s >> 1;
    assert BitStep(s >> 1) == s >> 2;
    assert BitStep(s >> 2) == s >> 3;
    assert BitStep(s >> 3) == s >> 4;
    assert BitStep(s >> 4) == s >> 5;
    assert BitStep(s >> 5) == s >> 6;
    assert BitStep(s >> 6) == s >> 7;
    assert BitStep(s >> 7) == s >> 8;
  }

  function High24(s: bv32): bv32 { s & 0xFFFF_FF00 }
  function Low8(s: bv32): bv32 { s & 0xFF }
  function Shift8(s: bv32): bv32 { s >> 8 }
  function High31(s: bv32): bv32 { s & 0xFFFF_FFFE }
  function Low1(s: bv32): bv32 { s & 1 }

  lemma HighAndLow(s: bv32)
    ensures s == Plus(High24(s), Low8(s)) && High24(s) & 0xFF == 0 && Shift8(High24(s)) == Shift8(s)
  {
  }

  lemma Bits8High(s: bv32)
    ensures Bits8(High24(s)) == Shift8(s)
  {
    HighAndLow(s);
    Bits8OfHigh(High24(s));
  }

  /** Shifting eight bits through at once. */
  lemma Bits8Split(s: bv32)
    ensures Bits8(s) == Plus(Shift8(s), Bits8(Low8(s)))
  {
    hide Bits8, Plus, High24, Low8, Shift8;
    HighAndLow(s);
    Bits8Linear(High24(s), Low8(s));
    Bits8High(s);
  }

  // ---------- the loop

  function Narrow(acc: bv64): bv32
    requires acc <= 0xFFFF_FFFF
  {
    acc as bv32
  }

  /** (UINT8)Crc ^ *pt. */
  function TableIndex(acc: bv64, b: bv8): bv8 {
    ((acc & 0xFF) as bv8) ^ b
  }

  /** (Crc >> 8) ^ entry. */
  function Combine(acc: bv64, entry: bv32): bv64 {
    (acc >> 8) ^ (entry as bv64)
  }

  lemma IndexIsLowByte(acc: bv64, b: bv8)
    requires acc <= 0xFFFF_FFFF
    ensures Low8(Plus(Narrow(acc), Widen(b))) == Widen(TableIndex(acc, b))
  {
  }

  lemma ByteShiftsOut(s: bv32, b: bv8)
    ensures Shift8(Plus(s, Widen(b))) == Shift8(s)
  {
  }

  lemma CombineStaysNarrow(acc: bv64, e: bv32)
    requires acc <= 0xFFFF_FFFF
    ensures Combine(acc, e) <= 0xFFFF_FFFF
  {
  }

  lemma CombineNarrow(acc: bv64, e: bv32)
    requires acc <= 0xFFFF_FFFF && Combine(acc, e) <= 0xFFFF_FFFF
    ensures Narrow(Combine(acc, e)) == Plus(Shift8(Narrow(acc)), e)
  {
  }

  /** A round of the loop does what eight bit steps do, and keeps the 64-bit accumulator below 2^32. */
  lemma RoundIsBits8(acc: bv64, b: bv8)
    requires acc <= 0xFFFF_FFFF
    ensures var acc' := Combine(acc, CRCTable(TableIndex(acc, b)));
            acc' <= 0xFFFF_FFFF && Narrow(acc') == Bits8(Plus(Narrow(acc), Widen(b)))
  {
    hide CRCTable, Bits8, Plus, Combine, TableIndex, Narrow, Widen, Low8, Shift8;
    var entry := CRCTable(TableIndex(acc, b));
    TableEntry(TableIndex(acc, b));
    Bits8Split(Plus(Narrow(acc), Widen(b)));
    IndexIsLowByte(acc, b);
    ByteShiftsOut(Narrow(acc), b);
    CombineStaysNarrow(acc, entry);
    CombineNarrow(acc, entry);
  }

  lemma EvenAndOdd(v: bv32)
    ensures v == Plus(High31(v), Low1(v)) && High31(v) & 1 == 0 && Shift1(High31(v)) == Shift1(v)
    ensures Low1(v) == if v & 1 != 0 then 1 else 0
  {
  }

  lemma StepHigh31(v: bv32)
    ensures BitStep(High31(v)) == Shift1(v)
  {
  }

  lemma PlusRearrange(s: bv32, a: bv32, b: bv32)
    ensures Plus(s, Plus(a, b)) == Plus(Plus(s, b), a)
  {
  }

  /** Adding a word to the state and stepping is feeding its lowest bit and adding the rest shifted. */
  lemma FeedLowest(s: bv32, v: bv32)
    ensures BitStep(Plus(s, v)) == Plus(FeedBit(s, v & 1 != 0), Shift1(v))
  {
    hide BitStep, Plus, High31, Low1, Shift1;
    EvenAndOdd(v);
    PlusRearrange(s, High31(v), Low1(v));
    BitStepLinear(Plus(s, Low1(v)), High31(v));
    StepHigh31(v);
  }

  function Steps(s: bv32, n: nat): bv32
    decreases n
  {
    if n == 0 then s else Steps(BitStep(s), n - 1)
  }

  function ShiftN(s: bv32, n: nat): bv32
    decreases n
  {
    if n == 0 then s else ShiftN(Shift1(s), n - 1)
  }

  lemma {:induction false} FeedLowBits(s: bv32, v: bv32, n: nat)
    ensures Steps(Plus(s, v), n) == Plus(FeedBits(s, LowBits(v, n)), ShiftN(v, n))
    decreases n
  {
    hide Plus, BitStep, Shift1, FeedBit;
    if n > 0 {
      var bit := v & 1 != 0;
      FeedLowest(s, v);
      FeedLowBits(FeedBit(s, bit), Shift1(v), n - 1);
      assert LowBits(v, n)[1..] == LowBits(Shift1(v), n - 1);
    }
  }

  lemma StepsEight(s: bv32)
    ensures Steps(s, 8) == Bits8(s)
  {
    hide BitStep;
    var s1 := BitStep(s);
    var s2 := BitStep(s1);
    var s3 := BitStep(s2);
    var s4 := BitStep(s3);
    var s5 := BitStep(s4);
    var s6 := BitStep(s5);
    assert Steps(s, 8) == Steps(s1, 7) && Steps(s1, 7) == Steps(s2, 6) && Steps(s2, 6) == Steps(s3, 5);
    assert Steps(s3, 5) == Steps(s4, 4) && Steps(s4, 4) == Steps(s5, 3) && Steps(s5, 3) == Steps(s6, 2);
  }

  lemma ByteShiftedAway(b: bv8)
    ensures ShiftN(Widen(b), 8) == 0
  {
    var v := Widen(b);
    assert ShiftN(v, 8) == ShiftN(v >> 1, 7) && ShiftN(v >> 1, 7) == ShiftN(v >> 2, 6);
    assert ShiftN(v >> 2, 6) == ShiftN(v >> 3, 5) && ShiftN(v >> 3, 5) == ShiftN(v >> 4, 4);
    assert ShiftN(v >> 4, 4) == ShiftN(v >> 5, 3) && ShiftN(v >> 5, 3) == ShiftN(v >> 6, 2);
    assert v >> 8 == 0;
  }

  lemma PlusZero(s: bv32)
    ensures Plus(s, 0) == s && Plus(0, s) == s && Plus(s, s) == 0
  {
  }

  /** Feeding the bits of a byte is adding it to the state and stepping eight times. */
  lemma ByteIsBits8(s: bv32, b: bv8)
    ensures FeedBits(s, BitsOfByte(b)) == Bits8(Plus(s, Widen(b)))
  {
    hide Plus, Bits8, Steps, ShiftN, LowBits, FeedBits;
    FeedLowBits(s, Widen(b), 8);
    StepsEight(Plus(s, Widen(b)));
    ByteShiftedAway(b);
    PlusZero(FeedBits(s, BitsOfByte(b)));
  }

  lemma {:induction false} FeedAppend(s: bv32, a: seq<bool>, b: seq<bool>)
    ensures FeedBits(s, a + b) == FeedBits(FeedBits(s, a), b)
    decreases |a|
  {
    hide FeedBit;
    if a == [] {
      assert a + b == b;
    } else {
      assert (a + b)[1..] == a[1..] + b;
      FeedAppend(FeedBit(s, a[0]), a[1..], b);
    }
  }

  /**
   CalculateCrc: the table-driven loop over bytes computes the bit-at-a-time CRC, for byte strings of any length, and
   its 64-bit accumulator never leaves the low 32 bits.
   */
  method CalculateCrc(pt: array<bv8>, size: nat) returns (crc: bv32)
    requires size <= pt.Length
    ensures crc == Crc32(pt[..size])
  {
    hide CRCTable, TableIndex, Combine, FeedBits, BitsOfByte, Plus, Bits8, Narrow, Widen, Complement;
    var acc: bv64 := 0xFFFF_FFFF;
    FeedNone();
    for i := 0 to size
      invariant acc <= 0xFFFF_FFFF && Narrow(acc) == FeedBits(0xFFFF_FFFF, Bits(pt[..i]))
    {
      RoundIsBits8(acc, pt[i]);
      ByteIsBits8(Narrow(acc), pt[i]);
      FeedAppend(0xFFFF_FFFF, Bits(pt[..i]), BitsOfByte(pt[i]));
      assert pt[..i + 1][..i] == pt[..i];
      acc := Combine(acc, CRCTable(TableIndex(acc, pt[i])));
    }
    ComplementNarrow(acc);
    acc := acc ^ 0xFFFF_FFFF;
    crc := Narrow(acc);
  }

  lemma ComplementNarrow(acc: bv64)
    requires acc <= 0xFFFF_FFFF
    ensures acc ^ 0xFFFF_FFFF <= 0xFFFF_FFFF
    ensures Narrow(acc ^ 0xFFFF_FFFF) == Complement(Narrow(acc))
  {
  }

  lemma FeedNone()
    ensures Narrow(0xFFFF_FFFF) == FeedBits(0xFFFF_FFFF, Bits([]))
  {
  }
}
