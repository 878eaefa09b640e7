/** The number formatters of the bootloader, which count digits first and then write them backwards. */
module BootNumerals {
  import opened Characters
  import opened Machine
  import opened Numerals

  const PLUS: Char16 := 43
  const LOWER_X: Char16 := 120
  const LOWER_B: Char16 := 98
  const FORMAT_BUFFER_SIZE := 512

  /** Digits with zeros in front. */
  function Padded(ds: seq<nat>, n: nat): (r: seq<nat>)
    ensures |r| == if |ds| > n then |ds| else n
  {
    seq(if n > |ds| then n - |ds| else 0, _ => 0 as nat) + ds
  }

  lemma {:induction false} ValueFrom(front: seq<nat>, ds: seq<nat>, base: Base)
    requires Value(front, base) == 0
    ensures Value(front + ds, base) == Value(ds, base)
    decreases |ds|
  {
    if ds == [] {
      assert front + ds == front;
    } else {
      assert (front + ds)[..|front + ds| - 1] == front + ds[..|ds| - 1];
      ValueFrom(front, ds[..|ds| - 1], base);
    }
  }

  lemma {:induction false} ValueOfZeros(ds: seq<nat>, base: Base)
    requires forall k :: 0 <= k < |ds| ==> ds[k] == 0
    ensures Value(ds, base) == 0
  {
    if ds != [] {
      ValueOfZeros(ds[..|ds| - 1], base);
    }
  }

  lemma PaddedValue(ds: seq<nat>, n: nat, base: Base)
    ensures Value(Padded(ds, n), base) == Value(ds, base)
  {
    var zeros := seq(if n > |ds| then n - |ds| else 0, _ => 0 as nat);
    ValueOfZeros(zeros, base);
    ValueFrom(zeros, ds, base);
  }

  /** A text of digits of the base that evaluates to the number. */
  ghost predicate Evaluates(s: seq<Char16>, base: Base, v: nat) {
    && (forall k :: 0 <= k < |s| ==> 0 <= HexDigit(s[k]) < base)
    && exists ds: seq<nat> :: |ds| == |s| && (forall k :: 0 <= k < |s| ==> ds[k] == HexDigit(s[k])) && Value(ds, base) == v
  }

  /** What the digits of a text evaluate to is unique. */
  lemma EvaluatesOnce(s: seq<Char16>, base: Base, v: nat, w: nat)
    requires Evaluates(s, base, v) && Evaluates(s, base, w)
    ensures v == w
  {
    var ds: seq<nat> :| |ds| == |s| && (forall k :: 0 <= k < |s| ==> ds[k] == HexDigit(s[k])) && Value(ds, base) == v;
    var es: seq<nat> :| |es| == |s| && (forall k :: 0 <= k < |s| ==> es[k] == HexDigit(s[k])) && Value(es, base) == w;
    assert ds == es;
  }

  lemma CharsEvaluate(ds: seq<nat>, base: Base, letter: Char16)
    requires (letter == UPPER_A || letter == LOWER_A) && forall k :: 0 <= k < |ds| ==> ds[k] < base
    ensures Evaluates(Chars(ds, letter), base, Value(ds, base))
  {
    hide Value;
    var s := Chars(ds, letter);
    forall k | 0 <= k < |s|
      ensures HexDigit(s[k]) == ds[k]
    {
    }
  }

  /** The counting loop. */
  method CountDigits(value: nat, base: Base) returns (count: nat)
    ensures count == |Digits(value, base)|
  {
    count := 0;
    var num := value;
    while num > 0
      invariant num >= 0 && count + |Digits(num, base)| == |Digits(value, base)|
      decreases num
    {
      Divided(num, base);
      num := num / base;
      count := count + 1;
    }
  }

  /** The writing loop, from the position `end` backwards. */
  method WriteDigits(buffer: array<Char16>, end: nat, value: nat, base: Base, letter: Char16)
    requires |Digits(value, base)| <= end <= buffer.Length && (letter == UPPER_A || letter == LOWER_A)
    modifies buffer
    ensures var n := |Digits(value, base)|;
            && buffer[end - n..end] == Chars(Digits(value, base), letter)
            && (forall j :: 0 <= j < buffer.Length && !(end - n <= j < end) ==> buffer[j] == old(buffer[j]))
  {
    ghost var all := Digits(value, base);
    var tmp, num := end, value;
    ghost var k := 0;
    while num > 0
      invariant num >= 0 && k <= |all| && tmp == end - k && Digits(num, base) == all[..|all| - k]
      invariant forall j :: tmp <= j < end ==> buffer[j] == DigitChar(all[|all| - end + j], letter)
      invariant forall j :: 0 <= j < buffer.Length && !(tmp <= j < end) ==> buffer[j] == old(buffer[j])
      decreases num
    {
      Divided(num, base);
      assert Digits(num, base) == Digits(num / base, base) + [num % base];
      assert all[|all| - k - 1] == num % base;
      tmp := tmp - 1;
      buffer[tmp] := DigitChar(num % base, letter);
      num := num / base;
      k := k + 1;
    }
  }

  /** A sign and the digits; zero has no sign.  False stands for the null result. */
  method Formatd(value: nat, size: nat, neg: bool, buffer: array<Char16>) returns (ok: bool)
    requires value < TWO64 && buffer.Length >= 2 && (|Digits(value, 10)| <= size ==> |Digits(value, 10)| + 2 <= buffer.Length)
    modifies buffer
    ensures ok <==> |Digits(value, 10)| <= size
    ensures value == 0 ==> buffer[0] == '0' as int && buffer[1] == 0
    ensures ok && value > 0 ==>
              var n := |Digits(value, 10)|;
              && buffer[0] == (if neg then '-' as int else '+' as int) && buffer[n + 1] == 0
              && Evaluates(buffer[1..n + 1], 10, value)
              && (forall j :: n + 2 <= j < buffer.Length ==> buffer[j] == old(buffer[j]))
  {
    if value == 0 {
      buffer[0] := ZERO;
      buffer[1] := NUL;
      return true;
    }
    hide Evaluates, Digits;
    buffer[0] := if neg then MINUS else PLUS;
    var count := CountDigits(value, 10);
    if count > size {
      return false;
    }
    PutDecimal(buffer, value, count);
    ok := true;
  }

  /** The digits behind the sign, and the terminator. */
  method PutDecimal(buffer: array<Char16>, value: nat, count: nat)
    requires count == |Digits(value, 10)| && count + 2 <= buffer.Length
    modifies buffer
    ensures buffer[0] == old(buffer[0]) && buffer[count + 1] == 0 && Evaluates(buffer[1..count + 1], 10, value)
    ensures forall j :: count + 2 <= j < buffer.Length ==> buffer[j] == old(buffer[j])
  {
    ValueOfDigits(value, 10);
    CharsEvaluate(Digits(value, 10), 10, UPPER_A);
    hide Evaluates, Digits, Chars;
    WriteDigits(buffer, count + 1, value, 10, UPPER_A);
    ghost var text := buffer[1..count + 1];
    buffer[count + 1] := NUL;
    assert buffer[1..count + 1] == text;
  }

  /**
   The size test lets the digits through but forgets the sign and the terminator: text runs past a size exactly for the
   values whose digits fill all of it or all but one slot.  With the 512 slots of the callers no value does.
   */
  lemma FormatdOverrunsIff(value: nat, size: nat)
    requires 0 < value < TWO64
    ensures |Digits(value, 10)| <= size < |Digits(value, 10)| + 2
       <==> value < Power(10, size) && (size < 2 || value >= Power(10, size - 2))
    ensures |Digits(value, 10)| + 2 <= FORMAT_BUFFER_SIZE
  {
    hide Digits, Power;
    WordDigits(value);
    DigitsBoundIff(value, 10, size);
    if size >= 2 {
      DigitsBoundIff(value, 10, size - 2);
    }
  }

  function Magnitude(v: int): nat {
    if v < 0 then -v else v
  }

  method Formatl(value: int, size: nat, buffer: array<Char16>) returns (ok: bool)
    requires -TWO63 <= value < TWO63 && buffer.Length >= 2
    requires |Digits(Magnitude(value), 10)| <= size ==> |Digits(Magnitude(value), 10)| + 2 <= buffer.Length
    modifies buffer
    ensures ok <==> |Digits(Magnitude(value), 10)| <= size
    ensures value == 0 ==> buffer[0] == '0' as int && buffer[1] == 0
    ensures ok && value != 0 ==>
              var n := |Digits(Magnitude(value), 10)|;
              && buffer[0] == (if value < 0 then '-' as int else '+' as int) && buffer[n + 1] == 0
              && Evaluates(buffer[1..n + 1], 10, Magnitude(value))
  {
    hide Digits, Evaluates;
    var ltz := value < 0;
    var val := if ltz then -value else value;
    ok := Formatd(val, size, ltz, buffer);
  }

  /** Sixteen or eight hexadecimal digits; the value fits them. */
  method Formatx(value: nat, size: nat, is64: bool, lower: bool, buffer: array<Char16>, at: nat) returns (ok: bool)
    requires value < (if is64 then TWO64 else 0x1_0000_0000) && at + (if is64 then 16 else 8) < buffer.Length
    modifies buffer
    ensures ok <==> |Digits(value, 16)| <= size
    ensures forall j :: 0 <= j < buffer.Length && (!ok || j < at) ==> buffer[j] == old(buffer[j])
    ensures ok ==> var n := if is64 then 16 else 8;
                   && Evaluates(buffer[at..at + n], 16, value) && buffer[at + n] == 0
                   && InCase(buffer[at..at + n], if lower then 'a' else 'A')
  {
    var letter := if lower then LOWER_A else UPPER_A;
    var total := if is64 then 16 else 8;
    HexWidth(value, is64);
    if value == 0 {
      buffer[at] := ZERO;
    }
    var count := CountDigits(value, 16);
    if count > size {
      return false;
    }
    for num := 0 to total - count
      invariant forall j :: 0 <= j < buffer.Length && !(at <= j <= at + num) ==> buffer[j] == old(buffer[j])
      invariant forall j :: at <= j < at + num ==> buffer[j] == ZERO
    {
      buffer[at + num] := ZERO;
    }
    hide Digits, Evaluates, InCase;
    WritePadded(buffer, at, at + total, value, 16, letter);
    ok := true;
  }

  lemma HexWidth(value: nat, is64: bool)
    requires value < if is64 then TWO64 else 0x1_0000_0000
    ensures |Digits(value, 16)| <= if is64 then 16 else 8
  {
    assert Power(16, 4) == 0x1_0000;
    assert Power(16, 8) == 0x1_0000_0000;
    assert Power(16, 12) == 0x1_0000_0000_0000;
    assert Power(16, 16) == TWO64;
    DigitsBound(value, 16, if is64 then 16 else 8);
  }

  /** Zeros in front of the digits do not change what the text evaluates to. */
  lemma PaddedEvaluates(value: nat, n: nat, base: Base, letter: Char16)
    requires |Digits(value, base)| <= n && (letter == UPPER_A || letter == LOWER_A)
    ensures Evaluates(Chars(Padded(Digits(value, base), n), letter), base, value)
    ensures InCase(Chars(Padded(Digits(value, base), n), letter), if letter == 97 then 'a' else 'A')
  {
    hide Evaluates;
    ValueOfDigits(value, base);
    CharsInCase(Padded(Digits(value, base), n), letter);
    PaddedValue(Digits(value, base), n, base);
    CharsEvaluate(Padded(Digits(value, base), n), base, letter);
  }

  lemma PaddedSlice(b: seq<Char16>, start: nat, end: nat, ds: seq<nat>, letter: Char16)
    requires start + |ds| <= end <= |b| && (letter == UPPER_A || letter == LOWER_A)
    requires b[end - |ds|..end] == Chars(ds, letter) && forall j :: start <= j < end - |ds| ==> b[j] == ZERO
    ensures b[start..end] == Chars(Padded(ds, end - start), letter)
  {
    var zeros := end - start - |ds|;
    forall k | 0 <= k < end - start
      ensures b[start..end][k] == Chars(Padded(ds, end - start), letter)[k]
    {
      if k >= zeros {
        assert b[start + k] == b[end - |ds|..end][k - zeros];
      }
    }
  }

  /** The writing loop over zeros that are already there, and the terminator. */
  method WritePadded(buffer: array<Char16>, start: nat, end: nat, value: nat, base: Base, letter: Char16)
    requires start + |Digits(value, base)| <= end < buffer.Length && (letter == UPPER_A || letter == LOWER_A)
    requires forall j :: start <= j < end - |Digits(value, base)| ==> buffer[j] == ZERO
    modifies buffer
    ensures Evaluates(buffer[start..end], base, value) && buffer[end] == 0
    ensures InCase(buffer[start..end], if letter == 97 then 'a' else 'A')
    ensures forall j :: 0 <= j < start ==> buffer[j] == old(buffer[j])
  {
    hide Digits, Evaluates, Padded, Chars, InCase;
    PaddedEvaluates(value, end - start, base, letter);
    WriteDigits(buffer, end, value, base, letter);
    PaddedSlice(buffer[..], start, end, Digits(value, base), letter);
    ghost var text := buffer[start..end];
    assert text == buffer[..][start..end];
    buffer[end] := NUL;
    assert buffer[start..end] == text;
  }

  method Formatp(value: nat, size: nat, buffer: array<Char16>) returns (ok: bool)
    requires value < TWO64 && size <= buffer.Length && (size >= 2 ==> buffer.Length >= 19)
    modifies buffer
    ensures ok <==> size >= 2
    ensures ok ==> buffer[0] == '0' as int && buffer[1] == 'x' as int
    ensures ok && |Digits(value, 16)| <= size - 2 ==>
              Evaluates(buffer[2..18], 16, value) && InCase(buffer[2..18], 'a') && buffer[18] == 0
    ensures ok && |Digits(value, 16)| > size - 2 ==> forall j :: 2 <= j < buffer.Length ==> buffer[j] == old(buffer[j])
  {
    if size < 2 {
      return false;
    }
    buffer[0] := ZERO;
    buffer[1] := LOWER_X;
    var written := Formatx(value, size - 2, true, true, buffer, 2);
    ok := true;
  }

  /**
   A prefix and `bits` binary digits.  The loops count with a signed number, so a value from 2^63 on comes out as zeros.
   The padding loop writes two zeros more than the padding takes, so up to two slots behind the text.
   */
  method Formatb(value: nat, size: nat, bits: nat, buffer: array<Char16>) returns (ok: bool)
    requires value < TWO64 && bits <= 64 && |Digits(if value < TWO63 then value else 0, 2)| <= bits
    requires bits + 2 <= size ==> bits + 4 <= buffer.Length
    modifies buffer
    ensures ok <==> bits + 2 <= size
    ensures ok ==> buffer[0] == '0' as int && buffer[1] == 'b' as int && buffer[bits + 2] == 0
    ensures ok ==> Evaluates(buffer[2..bits + 2], 2, if value < TWO63 then value else 0)
  {
    if bits + 2 > size {
      return false;
    }
    var num := if value < TWO63 then value else value - TWO64;
    var positive := if num > 0 then num else 0;
    var total := bits + 2;
    buffer[0] := ZERO;
    buffer[1] := LOWER_B;
    var count := CountDigits(positive, 2);
    for i := 2 to total - count + 2
      invariant buffer[0] == ZERO && buffer[1] == LOWER_B
      invariant forall j :: 2 <= j < i ==> buffer[j] == ZERO
    {
      buffer[i] := ZERO;
    }
    hide Digits, Evaluates;
    WritePadded(buffer, 2, total, positive, 2, UPPER_A);
    ok := true;
  }

  /** Binary digits evaluate to the value exactly below 2^63. */
  lemma FormatbIff(text: seq<Char16>, value: nat)
    requires value < TWO64 && Evaluates(text, 2, if value < TWO63 then value else 0)
    ensures Evaluates(text, 2, value) <==> value < TWO63
  {
    hide Evaluates;
    if Evaluates(text, 2, value) {
      EvaluatesOnce(text, 2, value, if value < TWO63 then value else 0);
    }
  }
}
