/** Numbers in memory, little end first. */
module Bytes {
  import opened Machine

  function Value(b: seq<Byte>): nat {
    if b == [] then 0 else (b[0] as int) + 256 * Value(b[1..])
  }

  function Digits(v: nat, n: nat): (b: seq<Byte>)
    ensures |b| == n
  {
    if n == 0 then [] else [v % 256] + Digits(v / 256, n - 1)
  }

  /** 256^n. */
  function Bound(n: nat): (b: nat)
    ensures b > 0
  {
    if n == 0 then 1 else 256 * Bound(n - 1)
  }

  lemma {:induction false} DigitsValue(v: nat, n: nat)
    requires v < Bound(n)
    ensures Value(Digits(v, n)) == v
  {
    if n > 0 {
      DigitsValue(v / 256, n - 1);
      assert Digits(v, n)[1..] == Digits(v / 256, n - 1);
    }
  }

  lemma {:induction false} ValueBound(b: seq<Byte>)
    ensures Value(b) < Bound(|b|)
  {
    if b != [] {
      ValueBound(b[1..]);
    }
  }

  lemma {:induction false} SameValue(b: seq<Byte>, b': seq<Byte>)
    requires |b| == |b'| && Value(b) == Value(b')
    ensures b == b'
  {
    if b != [] {
      assert b[0] == b'[0] && Value(b[1..]) == Value(b'[1..]);
      SameValue(b[1..], b'[1..]);
      assert b == [b[0]] + b[1..] && b' == [b'[0]] + b'[1..];
    }
  }

  lemma EightBytes()
    ensures Bound(8) == TWO64 && Bound(4) == 0x1_0000_0000
  {
  }

  // ---------- fields of n bytes

  function Field(m: seq<Byte>, a: nat, n: nat): (v: nat)
    requires a + n <= |m|
    ensures v < Bound(n)
  {
    ValueBound(m[a..a + n]);
    Value(m[a..a + n])
  }

  function Put(m: seq<Byte>, a: nat, n: nat, v: nat): (r: seq<Byte>)
    requires a + n <= |m|
    ensures |r| == |m|
  {
    m[..a] + Digits(v, n) + m[a + n..]
  }

  lemma PutAt(m: seq<Byte>, a: nat, n: nat, v: nat, x: nat)
    requires a + n <= |m| && x < |m|
    ensures Put(m, a, n, v)[x] == if a <= x < a + n then Digits(v, n)[x - a] else m[x]
  {
    hide Digits;
  }

  lemma PutField(m: seq<Byte>, a: nat, n: nat, v: nat)
    requires a + n <= |m| && v < Bound(n)
    ensures Field(Put(m, a, n, v), a, n) == v
  {
    hide Digits, Value, Bound;
    DigitsValue(v, n);
    assert Put(m, a, n, v)[a..a + n] == Digits(v, n);
  }

  lemma FieldSame(m: seq<Byte>, a: nat, m': seq<Byte>, b: nat, n: nat)
    requires a + n <= |m| && b + n <= |m'| && m[a..a + n] == m'[b..b + n]
    ensures Field(m, a, n) == Field(m', b, n)
  {
  }

  lemma FieldElsewhere(m: seq<Byte>, a: nat, n: nat, v: nat, b: nat, k: nat)
    requires a + n <= |m| && b + k <= |m| && (b + k <= a || a + n <= b)
    ensures Field(Put(m, a, n, v), b, k) == Field(m, b, k)
  {
    hide Digits, Field;
    assert Put(m, a, n, v)[b..b + k] == m[b..b + k];
    FieldSame(Put(m, a, n, v), b, m, b, k);
  }

  /** The last of several stores to one field wins. */
  lemma PutTwice(m: seq<Byte>, a: nat, n: nat, v: nat, w: nat)
    requires a + n <= |m|
    ensures Put(Put(m, a, n, v), a, n, w) == Put(m, a, n, w)
  {
    hide Digits;
  }

  /** Equal fields have equal bytes. */
  lemma SameBytes(m: seq<Byte>, m': seq<Byte>, a: nat, n: nat, x: nat)
    requires a + n <= |m| && a + n <= |m'| && a <= x < a + n && Field(m, a, n) == Field(m', a, n)
    ensures m[x] == m'[x]
  {
    hide Value;
    SameValue(m[a..a + n], m'[a..a + n]);
    assert m[x] == m[a..a + n][x - a] && m'[x] == m'[a..a + n][x - a];
  }

  function Load64(m: seq<Byte>, a: nat): (v: Word)
    requires a + 8 <= |m|
  {
    EightBytes();
    Field(m, a, 8)
  }

  /** The first byte is the lowest. */
  lemma LoadBytes(m: seq<Byte>, a: nat)
    requires a + 8 <= |m|
    ensures var low := m[a] as int + 0x100 * (m[a + 1] as int + 0x100 * (m[a + 2] as int + 0x100 * m[a + 3] as int));
            var high := m[a + 4] as int + 0x100 * (m[a + 5] as int + 0x100 * (m[a + 6] as int + 0x100 * m[a + 7] as int));
            Load64(m, a) == low + 0x1_0000_0000 * high
  {
    ValueBytes(m, a, 8);
    ValueBytes(m, a + 1, 7);
    ValueBytes(m, a + 2, 6);
    ValueBytes(m, a + 3, 5);
    ValueBytes(m, a + 4, 4);
    ValueBytes(m, a + 5, 3);
    ValueBytes(m, a + 6, 2);
    ValueBytes(m, a + 7, 1);
  }

  lemma ValueBytes(m: seq<Byte>, a: nat, n: nat)
    requires n > 0 && a + n <= |m|
    ensures Value(m[a..a + n]) == (m[a] as int) + 256 * Value(m[a + 1..a + n])
  {
    assert m[a..a + n][1..] == m[a + 1..a + n];
  }

  function Store64(m: seq<Byte>, a: nat, v: Word): (r: seq<Byte>)
    requires a + 8 <= |m|
    ensures |r| == |m|
  {
    Put(m, a, 8, v)
  }

  lemma LoadStored(m: seq<Byte>, a: nat, v: Word)
    requires a + 8 <= |m|
    ensures Load64(Store64(m, a, v), a) == v
  {
    hide Put, Field;
    EightBytes();
    PutField(m, a, 8, v);
  }

  lemma LoadElsewhere(m: seq<Byte>, a: nat, v: Word, b: nat)
    requires a + 8 <= |m| && b + 8 <= |m| && (b + 8 <= a || a + 8 <= b)
    ensures Load64(Store64(m, a, v), b) == Load64(m, b)
  {
    hide Put, Field;
    FieldElsewhere(m, a, 8, v, b, 8);
  }

  lemma LoadSame(m: seq<Byte>, m': seq<Byte>, a: nat)
    requires |m| == |m'| && a + 8 <= |m| && forall x :: a <= x < a + 8 ==> m[x] == m'[x]
    ensures Load64(m, a) == Load64(m', a)
  {
    hide Field;
    assert m[a..a + 8] == m'[a..a + 8];
    FieldSame(m, a, m', a, 8);
  }

  lemma StoredElsewhere(m: seq<Byte>, a: nat, v: Word, x: nat)
    requires a + 8 <= |m| && x < |m| && !(a <= x < a + 8)
    ensures Store64(m, a, v)[x] == m[x]
  {
    hide Put;
    PutAt(m, a, 8, v, x);
  }

  lemma SameWord(m: seq<Byte>, m': seq<Byte>, a: nat, x: nat)
    requires |m| == |m'| && a + 8 <= |m| && a <= x < a + 8 && Load64(m, a) == Load64(m', a)
    ensures m[x] == m'[x]
  {
    hide Field;
    SameBytes(m, m', a, 8, x);
  }

  /** A store of n bytes into memory. */
  method Write(mem: array<Byte>, a: nat, n: nat, v: nat)
    requires a + n <= mem.Length
    modifies mem
    ensures mem[..] == Put(old(mem[..]), a, n, v)
  {
    var digits := Digits(v, n);
    hide Digits;
    for i := 0 to n
      invariant forall x :: 0 <= x < mem.Length ==> mem[x] == if a <= x < a + i then digits[x - a] else old(mem[x])
    {
      mem[a + i] := digits[i];
    }
  }
}
