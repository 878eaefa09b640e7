/** Numerals as the UEFI library writes and reads them. */
module Numerals {
  import opened Characters
  import opened Machine

  type Base = b: int | 2 <= b <= 16 witness 10

  const COMMA: Char16 := 44
  const MINUS: Char16 := 45
  const ZERO: Char16 := 48
  const UPPER_A: Char16 := 65
  const LOWER_A: Char16 := 97
  const TWO63 := 0x8000_0000_0000_0000

  lemma Divided(v: nat, base: Base)
    ensures 0 <= v / base && v == base * (v / base) + v % base && 0 <= v % base < base
    ensures v > 0 ==> v / base < v
  {
  }

  /** The digits of a number, most significant first; none for zero. */
  function Digits(v: nat, base: Base): seq<nat> {
    if v == 0 then []
    else
      Divided(v, base);
      Digits(v / base, base) + [v % base]
  }

  /** The number that digits stand for. */
  function Value(ds: seq<nat>, base: Base): nat {
    if ds == [] then 0 else base * Value(ds[..|ds| - 1], base) + ds[|ds| - 1]
  }

  lemma {:induction false} ValueOfDigits(v: nat, base: Base)
    ensures Value(Digits(v, base), base) == v
    ensures forall k :: 0 <= k < |Digits(v, base)| ==> Digits(v, base)[k] < base
    ensures v > 0 ==> Digits(v, base) != [] && Digits(v, base)[0] > 0
  {
    if v > 0 {
      Divided(v, base);
      ValueOfDigits(v / base, base);
      assert Digits(v, base)[..|Digits(v, base)| - 1] == Digits(v / base, base);
    }
  }

  function Power(base: Base, n: nat): (p: nat)
    ensures p > 0
  {
    if n == 0 then 1 else base * Power(base, n - 1)
  }

  /** A number below base^n has at most n digits. */
  lemma {:induction false} DigitsBound(v: nat, base: Base, n: nat)
    requires v < Power(base, n)
    ensures |Digits(v, base)| <= n
    decreases n
  {
    if v > 0 {
      Divided(v, base);
      Quotient(v, base, Power(base, n - 1));
      DigitsBound(v / base, base, n - 1);
    }
  }

  lemma Quotient(v: nat, base: Base, p: nat)
    requires v < base * p
    ensures v / base < p
  {
    Divided(v, base);
    Times(base, p, v / base);
  }

  lemma Times(base: Base, p: nat, q: nat)
    ensures p <= q ==> base * p <= base * q
  {
  }

  /** And the other way: n digits make a number below base^n. */
  lemma {:induction false} DigitsBoundIff(v: nat, base: Base, n: nat)
    ensures |Digits(v, base)| <= n <==> v < Power(base, n)
    decreases n
  {
    if v < Power(base, n) {
      DigitsBound(v, base, n);
    } else if v > 0 && n > 0 {
      Divided(v, base);
      if v / base < Power(base, n - 1) {
        Times(base, v / base + 1, Power(base, n - 1));
      }
      DigitsBoundIff(v / base, base, n - 1);
    }
  }

  lemma WordDigits(v: nat)
    requires v < TWO64
    ensures |Digits(v, 16)| <= 16 && |Digits(v, 10)| <= 20
  {
    assert Power(16, 4) == 0x1_0000;
    assert Power(16, 8) == 0x1_0000_0000;
    assert Power(16, 12) == 0x1_0000_0000_0000;
    assert Power(16, 16) == TWO64;
    assert Power(10, 4) == 10000;
    assert Power(10, 8) == 1_0000_0000;
    assert Power(10, 12) == 1_0000_0000_0000;
    assert Power(10, 16) == 1_0000_0000_0000_0000;
    assert Power(10, 20) == 1_0000_0000_0000_0000_0000;
    DigitsBound(v, 16, 16);
    DigitsBound(v, 10, 20);
  }

  // ---------- digits as characters

  function DigitChar(d: nat, letter: Char16): (c: Char16)
    requires letter == UPPER_A || letter == LOWER_A
  {
    if d < 10 then ZERO + d else if d < 16 then letter + d - 10 else NUL
  }

  function Chars(ds: seq<nat>, letter: Char16): (s: seq<Char16>)
    requires letter == UPPER_A || letter == LOWER_A
    ensures |s| == |ds| && forall k :: 0 <= k < |ds| ==> s[k] == DigitChar(ds[k], letter)
  {
    seq(|ds|, k requires 0 <= k < |ds| => DigitChar(ds[k], letter))
  }

  /** A hexadecimal digit of either case; other characters have no value. */
  function HexDigit(c: Char16): (d: int)
    ensures -1 <= d < 16
  {
    if ZERO <= c <= ZERO + 9 then c - ZERO
    else if UPPER_A <= c <= UPPER_A + 5 then c - UPPER_A + 10
    else if LOWER_A <= c <= LOWER_A + 5 then c - LOWER_A + 10
    else -1
  }

  function DigitIn(c: Char16, base: Base): (d: int)
    ensures -1 <= d < base
  {
    if HexDigit(c) < base then HexDigit(c) else -1
  }

  /** Reading from a position: digits up to the first other character, on top of what was read before, modulo 2^64. */
  function Read(s: seq<Char16>, base: Base, before: nat): nat {
    if s == [] || DigitIn(s[0], base) == -1 then before
    else Read(s[1..], base, Next(base, before, DigitIn(s[0], base)))
  }

  /** One more digit in a machine word. */
  function Next(base: Base, before: nat, d: nat): (u: nat)
    ensures u < TWO64
  {
    (base * before + d) % TWO64
  }

  lemma NextSmall(base: Base, before: nat, d: nat)
    ensures base * before + d < TWO64 ==> Next(base, before, d) == base * before + d
  {
  }

  function Parsed(s: seq<Char16>, base: Base): nat {
    if s != [] && s[0] == SPACE then Parsed(s[1..], base) else Read(s, base, 0)
  }

  /** Reading digits of any number below 2^64 gives the number, from any digit on. */
  lemma {:induction false} ReadChars(front: seq<nat>, back: seq<nat>, base: Base, letter: Char16)
    requires letter == UPPER_A || letter == LOWER_A
    requires forall k :: 0 <= k < |back| ==> back[k] < base
    requires Value(front + back, base) < TWO64
    ensures Value(front, base) < TWO64
    ensures Read(Chars(back, letter), base, Value(front, base)) == Value(front + back, base)
    decreases |back|
  {
    if back == [] {
      assert front + back == front;
    } else {
      var d := back[0];
      hide Read, Value, Next;
      NextSmall(base, Value(front, base), d);
      ValueMore(front, d, base);
      Shifted(front, back);
      ReadChars(front + [d], back[1..], base, letter);
      ReadStep(back, Value(front, base), base, letter);
    }
  }

  lemma ValueMore(front: seq<nat>, d: nat, base: Base)
    ensures Value(front + [d], base) == base * Value(front, base) + d >= Value(front, base)
  {
    assert (front + [d])[..|front|] == front;
    NotLess(base, Value(front, base), d);
  }

  lemma NotLess(base: Base, v: nat, d: nat)
    ensures base * v + d >= v
  {
  }

  lemma Shifted(front: seq<nat>, back: seq<nat>)
    requires back != []
    ensures front + [back[0]] + back[1..] == front + back
  {
  }

  lemma ReadStep(back: seq<nat>, before: nat, base: Base, letter: Char16)
    requires back != [] && back[0] < base && (letter == UPPER_A || letter == LOWER_A)
    ensures Read(Chars(back, letter), base, before) == Read(Chars(back[1..], letter), base, Next(base, before, back[0]))
  {
    hide DigitIn, DigitChar, Chars, Next;
    CharsRest(back, letter);
    CharDigit(back[0], base, letter);
  }

  lemma CharsRest(ds: seq<nat>, letter: Char16)
    requires ds != [] && (letter == UPPER_A || letter == LOWER_A)
    ensures Chars(ds, letter) != [] && Chars(ds, letter)[0] == DigitChar(ds[0], letter)
    ensures Chars(ds, letter)[1..] == Chars(ds[1..], letter)
  {
    hide DigitChar;
  }

  lemma CharDigit(d: nat, base: Base, letter: Char16)
    requires d < base && (letter == UPPER_A || letter == LOWER_A)
    ensures DigitIn(DigitChar(d, letter), base) == d && DigitChar(d, letter) != SPACE && DigitChar(d, letter) != NUL
  {
  }

  /** The sixteen letters of a numeral, and the readers' view of every character. */
  lemma DigitLetters(d: nat, c: Char16)
    requires d < 16
    ensures DigitChar(d, UPPER_A) == "0123456789ABCDEF"[d] as int && DigitChar(d, LOWER_A) == "0123456789abcdef"[d] as int
    ensures HexDigit("0123456789ABCDEF"[d] as int) == d && HexDigit("0123456789abcdef"[d] as int) == d
    ensures HexDigit(c) != -1 ==> c == "0123456789ABCDEF"[HexDigit(c)] as int || c == "0123456789abcdef"[HexDigit(c)] as int
  {
  }

  /** Decimal digits, and five letters from the given one on. */
  ghost predicate InCase(s: seq<Char16>, letter: char) {
    forall k :: 0 <= k < |s| ==> '0' as int <= s[k] <= '9' as int || letter as int <= s[k] <= letter as int + 5
  }

  lemma CharsInCase(ds: seq<nat>, letter: Char16)
    requires (letter == UPPER_A || letter == LOWER_A) && forall k :: 0 <= k < |ds| ==> ds[k] < 16
    ensures InCase(Chars(ds, letter), if letter == 97 then 'a' else 'A')
  {
  }

  // ---------- texts

  /** A number as the library prints it; zero has a digit of its own. */
  function Numeral(v: nat, base: Base): seq<Char16> {
    if v == 0 then [ZERO] else Chars(Digits(v, base), UPPER_A)
  }

  /** Parsing what was printed gives the number back. */
  lemma NumeralRoundTrip(v: nat, base: Base)
    requires v < TWO64
    ensures Parsed(Numeral(v, base), base) == v
  {
    if v > 0 {
      ValueOfDigits(v, base);
      assert [] + Digits(v, base) == Digits(v, base);
      ReadChars([], Digits(v, base), base, UPPER_A);
      CharDigit(Digits(v, base)[0], base, UPPER_A);
    } else {
      ReadZero(base);
    }
  }

  lemma ReadZero(base: Base)
    ensures Read([ZERO], base, 0) == 0
  {
    assert [ZERO][1..] == [];
    assert DigitIn(ZERO, base) == 0;
  }

  /** The text with a comma in front of every group of three digits but the first. */
  function Grouped(s: seq<Char16>): seq<Char16> {
    if |s| <= 3 then s else Grouped(s[..|s| - 3]) + [COMMA] + s[|s| - 3..]
  }

  function Without(s: seq<Char16>, c: Char16): seq<Char16> {
    if s == [] then [] else Without(s[..|s| - 1], c) + if s[|s| - 1] == c then [] else [s[|s| - 1]]
  }

  lemma {:induction false} WithoutAppend(a: seq<Char16>, b: seq<Char16>, c: Char16)
    ensures Without(a + b, c) == Without(a, c) + Without(b, c)
    decreases |b|
  {
    if b == [] {
      assert a + b == a;
    } else {
      assert (a + b)[..|a + b| - 1] == a + b[..|b| - 1];
      WithoutAppend(a, b[..|b| - 1], c);
    }
  }

  lemma {:induction false} WithoutNone(s: seq<Char16>, c: Char16)
    requires c !in s
    ensures Without(s, c) == s
  {
    if s != [] {
      WithoutNone(s[..|s| - 1], c);
    }
  }

  /** Deleting the commas gives the plain numeral. */
  lemma {:induction false} GroupedWithoutCommas(s: seq<Char16>)
    requires COMMA !in s
    ensures Without(Grouped(s), COMMA) == s
  {
    if |s| <= 3 {
      WithoutNone(s, COMMA);
    } else {
      var front, back := s[..|s| - 3], s[|s| - 3..];
      GroupedWithoutCommas(front);
      hide Without, Grouped;
      WithoutNone(back, COMMA);
      WithoutAppend(Grouped(front), [COMMA], COMMA);
      WithoutAppend(Grouped(front) + [COMMA], back, COMMA);
      OneComma(Grouped(front));
      assert s == front + back;
      GroupedIs(s);
    }
  }

  lemma GroupedIs(s: seq<Char16>)
    requires |s| > 3
    ensures Grouped(s) == Grouped(s[..|s| - 3]) + [COMMA] + s[|s| - 3..]
  {
  }

  lemma OneComma(s: seq<Char16>)
    ensures Without(s, COMMA) + Without([COMMA], COMMA) == Without(s, COMMA)
  {
    assert [COMMA][..0] == [];
  }

  /** Counted from the right, every fourth character is a comma, and no other. */
  lemma {:induction false} CommaPositions(s: seq<Char16>, k: nat)
    requires COMMA !in s && k < |Grouped(s)|
    ensures Grouped(s)[|Grouped(s)| - 1 - k] == COMMA <==> k % 4 == 3
    decreases |s|
  {
    if |s| > 3 {
      var front, back := s[..|s| - 3], s[|s| - 3..];
      var g := Grouped(front);
      if k < 3 {
        assert Grouped(s)[|Grouped(s)| - 1 - k] == back[2 - k];
      } else if k > 3 {
        assert Grouped(s)[|Grouped(s)| - 1 - k] == g[|g| - 1 - (k - 4)];
        CommaPositions(front, k - 4);
      }
    }
  }

  lemma {:induction false} GroupedLength(s: seq<Char16>)
    requires s != []
    ensures |Grouped(s)| == |s| + (|s| - 1) / 3
  {
    if |s| > 3 {
      GroupedLength(s[..|s| - 3]);
    }
  }

  // ---------- the functions of the library

  /** The first loop of the printing functions: digits, least significant first. */
  method Collect(str: array<Char16>, value: nat, base: Base) returns (n: nat)
    requires |Digits(value, base)| <= str.Length
    modifies str
    ensures n == |Digits(value, base)|
    ensures forall j :: 0 <= j < n ==> str[j] == Chars(Digits(value, base), UPPER_A)[n - 1 - j]
  {
    ghost var all := Digits(value, base);
    var v := value;
    n := 0;
    while v > 0
      invariant 0 <= v && n <= |all| && Digits(v, base) == all[..|all| - n]
      invariant forall j :: 0 <= j < n ==> str[j] == DigitChar(all[|all| - 1 - j], UPPER_A)
      decreases v
    {
      Divided(v, base);
      assert Digits(v, base) == Digits(v / base, base) + [v % base];
      assert all[|all| - n - 1] == v % base;
      str[n] := DigitChar(v % base, UPPER_A);
      v := v / base;
      n := n + 1;
    }
  }

  /** The library prints capitals. */
  lemma NumeralInCapitals(v: nat, base: Base)
    ensures InCase(Numeral(v, base), 'A')
  {
    ValueOfDigits(v, base);
    if v > 0 {
      CharsInCase(Digits(v, base), UPPER_A);
    }
  }

  lemma NumeralChars(v: nat, base: Base)
    ensures forall k :: 0 <= k < |Numeral(v, base)| ==> ZERO <= Numeral(v, base)[k] <= ZERO + 9 || UPPER_A <= Numeral(v, base)[k]
    ensures NoNul(Numeral(v, base)) && COMMA !in Numeral(v, base) && MINUS !in Numeral(v, base)
  {
    ValueOfDigits(v, base);
  }

  method ValueToHex(buffer: array<Char16>, v: nat)
    requires v < TWO64 && |Numeral(v, 16)| < buffer.Length
    modifies buffer
    ensures Terminated(buffer[..], Numeral(v, 16)) && InCase(Numeral(v, 16), 'A')
  {
    NumeralChars(v, 16);
    NumeralInCapitals(v, 16);
    if v == 0 {
      buffer[0] := ZERO;
      buffer[1] := NUL;
      return;
    }
    WordDigits(v);
    ghost var text := Numeral(v, 16);
    assert text == Chars(Digits(v, 16), UPPER_A);
    hide Digits, Numeral, Chars;
    var str := new Char16[30];
    var n := Collect(str, v, 16);
    PutReversed(buffer, str, n, text);
  }

  /** The second loop of ValueToHex. */
  method PutReversed(buffer: array<Char16>, str: array<Char16>, n: nat, ghost text: seq<Char16>)
    requires buffer != str && n == |text| < buffer.Length && n <= str.Length && NoNul(text)
    requires forall j :: 0 <= j < n ==> str[j] == text[n - 1 - j]
    modifies buffer
    ensures Terminated(buffer[..], text)
  {
    for i := 0 to n
      invariant buffer[..i] == text[..i]
    {
      buffer[i] := str[n - 1 - i];
      assert buffer[..i + 1] == buffer[..i] + [text[i]];
      assert text[..i + 1] == text[..i] + [text[i]];
    }
    buffer[n] := NUL;
    assert text[..n] == text;
  }

  /** A signed number; the commas, if any, group the digits. */
  function SignedNumeral(v: int, comma: bool): seq<Char16> {
    var digits := Numeral(if v < 0 then -v else v, 10);
    (if v < 0 then [MINUS] else []) + if comma then Grouped(digits) else digits
  }

  /** The grouped text up to digit i. */
  function GroupedTo(s: seq<Char16>, i: nat): seq<Char16>
    requires i <= |s|
  {
    if i == 0 then []
    else GroupedTo(s, i - 1) + (if i > 1 && (|s| - (i - 1)) % 3 == 0 then [COMMA] else []) + [s[i - 1]]
  }

  lemma {:induction false} GroupedToFront(s: seq<Char16>, i: nat)
    requires |s| > 3 && i <= |s| - 3
    ensures GroupedTo(s, i) == GroupedTo(s[..|s| - 3], i)
  {
    if i > 0 {
      GroupedToFront(s, i - 1);
    }
  }

  /** Going through the digits from the left puts the commas where grouping from the right puts them. */
  lemma {:induction false} GroupedToAll(s: seq<Char16>)
    ensures GroupedTo(s, |s|) == Grouped(s)
    decreases |s|
  {
    var n := |s|;
    if n > 3 {
      hide GroupedTo;
      GroupedToFront(s, n - 3);
      GroupedToAll(s[..n - 3]);
      LastGroup(s);
    } else {
      SmallGroup(s, n);
      assert s[..n] == s;
    }
  }

  lemma LastGroup(s: seq<Char16>)
    requires |s| > 3
    ensures GroupedTo(s, |s|) == GroupedTo(s, |s| - 3) + [COMMA] + s[|s| - 3..]
  {
    hide GroupedTo;
    var n := |s|;
    WrittenNext(s, n - 3);
    WrittenNext(s, n - 2);
    WrittenNext(s, n - 1);
    var g := GroupedTo(s, n - 3);
    LastThree(g + [COMMA], s);
  }

  lemma WrittenNext(s: seq<Char16>, i: nat)
    requires i < |s|
    ensures GroupedTo(s, i + 1) == GroupedTo(s, i) + (if i > 0 && (|s| - i) % 3 == 0 then [COMMA] else []) + [s[i]]
  {
  }

  lemma LastThree(g: seq<Char16>, s: seq<Char16>)
    requires |s| > 3
    ensures g + [s[|s| - 3]] + [] + [s[|s| - 2]] + [] + [s[|s| - 1]] == g + s[|s| - 3..]
  {
  }

  lemma {:induction false} SmallGroup(s: seq<Char16>, i: nat)
    requires i <= |s| <= 3
    ensures GroupedTo(s, i) == s[..i]
  {
    if i > 0 {
      SmallGroup(s, i - 1);
    }
  }

  lemma {:induction false} GroupedToGrows(s: seq<Char16>, i: nat, j: nat)
    requires i <= j <= |s|
    ensures |GroupedTo(s, i)| <= |GroupedTo(s, j)|
    decreases j
  {
    if i < j {
      GroupedToGrows(s, i, j - 1);
    }
  }

  /** The digits so far, with commas or without. */
  function Written(s: seq<Char16>, i: nat, comma: bool): seq<Char16>
    requires i <= |s|
  {
    if comma then GroupedTo(s, i) else s[..i]
  }

  lemma WrittenFits(s: seq<Char16>, i: nat, comma: bool)
    requires i < |s|
    ensures |Written(s, i + 1, comma)| <= |Written(s, |s|, comma)|
    ensures Written(s, i + 1, comma)
         == Written(s, i, comma) + (if comma && i > 0 && (|s| - i) % 3 == 0 then [COMMA] else []) + [s[i]]
  {
    GroupedToGrows(s, i + 1, |s|);
  }

  method ValueToString(buffer: array<Char16>, comma: bool, v: int)
    requires -TWO63 <= v < TWO63 && |SignedNumeral(v, comma)| < buffer.Length
    modifies buffer
    ensures buffer[..|SignedNumeral(v, comma)|] == SignedNumeral(v, comma) && buffer[|SignedNumeral(v, comma)|] == NUL
  {
    if v == 0 {
      GroupedZero();
      buffer[0] := ZERO;
      buffer[1] := NUL;
      return;
    }
    var p2 := 0;
    var magnitude := v;
    if v < 0 {
      buffer[0] := MINUS;
      p2 := 1;
      magnitude := -v;
    }
    assert buffer[..p2] == if v < 0 then [MINUS] else [];
    PutMagnitude(buffer, p2, comma, magnitude);
  }

  /** ValueToString behind the sign. */
  method PutMagnitude(buffer: array<Char16>, at: nat, comma: bool, v: nat)
    requires 0 < v < TWO64
    requires at + |if comma then Grouped(Numeral(v, 10)) else Numeral(v, 10)| < buffer.Length
    modifies buffer
    ensures var text := if comma then Grouped(Numeral(v, 10)) else Numeral(v, 10);
            buffer[..at + |text|] == old(buffer[..at]) + text && buffer[at + |text|] == NUL
  {
    WordDigits(v);
    ghost var digits := Numeral(v, 10);
    assert digits == Chars(Digits(v, 10), UPPER_A);
    hide Digits, Chars, Numeral, Grouped;
    var str := new Char16[40];
    var n := Collect(str, v, 10);
    GroupedToAll(digits);
    assert digits[..n] == digits;
    PutDigits(buffer, at, comma, str, n, digits);
  }

  lemma GroupedZero()
    ensures Grouped([ZERO]) == [ZERO] && SignedNumeral(0, true) == [ZERO] && SignedNumeral(0, false) == [ZERO]
  {
  }

  /** The count that is decremented before digit i. */
  function Countdown(n: nat, i: nat, comma: bool): int {
    if comma then (n - i) % 3 + (if i == 0 && n % 3 == 0 then 4 else 1) else 1000 - i
  }

  /** It runs out exactly where a group of three begins. */
  lemma CountdownStep(n: nat, i: nat, comma: bool)
    requires i < n <= 20
    ensures Countdown(n, i, comma) == 1 <==> comma && i > 0 && (n - i) % 3 == 0
    ensures Countdown(n, i + 1, comma) == if Countdown(n, i, comma) == 1 then 3 else Countdown(n, i, comma) - 1
  {
  }

  /** The second loop of ValueToString: digits from the most significant on, a comma whenever the count runs out. */
  method PutDigits(buffer: array<Char16>, at: nat, comma: bool, str: array<Char16>, n: nat, ghost digits: seq<Char16>)
    requires buffer != str && n == |digits| <= 20 && n <= str.Length && forall j :: 0 <= j < n ==> str[j] == digits[n - 1 - j]
    requires at + |Written(digits, n, comma)| < buffer.Length
    modifies buffer
    ensures buffer[..at + |Written(digits, n, comma)|] == old(buffer[..at]) + Written(digits, n, comma)
    ensures buffer[at + |Written(digits, n, comma)|] == NUL
  {
    var c := (if comma then (if n % 3 == 0 then 3 else n % 3) else 999) + 1;
    var i, p2 := 0, at;
    while i < n
      invariant i <= n && p2 == at + |Written(digits, i, comma)|
      invariant p2 <= at + |Written(digits, n, comma)|
      invariant c == Countdown(n, i, comma)
      invariant buffer[..p2] == old(buffer[..at]) + Written(digits, i, comma)
    {
      hide Written, Countdown;
      WrittenFits(digits, i, comma);
      CountdownStep(n, i, comma);
      FourParts(old(buffer[..at]), Written(digits, i, comma), if comma && i > 0 && (n - i) % 3 == 0 then [COMMA] else [], [digits[i]]);
      c := c - 1;
      p2 := PutDigit(buffer, p2, c == 0, str[n - 1 - i]);
      if c == 0 {
        c := 3;
      }
      i := i + 1;
    }
    buffer[p2] := NUL;
    assert buffer[..p2] == old(buffer[..at]) + Written(digits, n, comma);
  }

  /** One digit, with its comma if it has one. */
  method PutDigit(buffer: array<Char16>, at: nat, comma: bool, c: Char16) returns (p2: nat)
    requires at + (if comma then 2 else 1) <= buffer.Length
    modifies buffer
    ensures p2 == at + if comma then 2 else 1
    ensures buffer[..p2] == old(buffer[..at]) + (if comma then [COMMA] else []) + [c]
  {
    p2 := at;
    if comma {
      buffer[p2] := COMMA;
      p2 := p2 + 1;
    }
    buffer[p2] := c;
    p2 := p2 + 1;
  }

  /** Skips blanks and reads digits; both reading functions differ only in the base. */
  method Xtoi(str: array<Char16>, ghost text: seq<Char16>) returns (u: nat)
    requires Terminated(str[..], text)
    ensures u == Parsed(text, 16) < TWO64
  {
    var i := SkipBlanks(str, text, 16);
    u := 0;
    TextAt(str[..], text, i);
    while str[i] != NUL
      invariant i <= |text| && str[i] == (if i < |text| then text[i] else NUL)
      invariant u < TWO64 && Read(text[i..], 16, u) == Parsed(text, 16)
      decreases |text| - i
    {
      TextAt(str[..], text, i + 1);
      var c := str[i];
      assert text[i..][0] == c && text[i..][1..] == text[i + 1..];
      if 97 <= c <= 102 {
        c := c - 32;
      }
      if (48 <= c <= 57) || (65 <= c <= 70) {
        u := (u * 16 + (c - if c >= 65 then 55 else 48)) % TWO64;
      } else {
        break;
      }
      i := i + 1;
    }
  }

  method Atoi(str: array<Char16>, ghost text: seq<Char16>) returns (u: nat)
    requires Terminated(str[..], text)
    ensures u == Parsed(text, 10) < TWO64
  {
    var i := SkipBlanks(str, text, 10);
    u := 0;
    TextAt(str[..], text, i);
    while str[i] != NUL
      invariant i <= |text| && str[i] == (if i < |text| then text[i] else NUL)
      invariant u < TWO64 && Read(text[i..], 10, u) == Parsed(text, 10)
      decreases |text| - i
    {
      TextAt(str[..], text, i + 1);
      var c := str[i];
      assert text[i..][0] == c && text[i..][1..] == text[i + 1..];
      if 48 <= c <= 57 {
        u := (u * 10 + c - 48) % TWO64;
      } else {
        break;
      }
      i := i + 1;
    }
  }

  /** What a terminated buffer shows at position i. */
  lemma TextAt(b: seq<Char16>, text: seq<Char16>, i: nat)
    requires Terminated(b, text)
    ensures i <= |text| ==> i < |b| && b[i] == (if i < |text| then text[i] else NUL)
    ensures i < |text| ==> text[i] != NUL
  {
    assert i < |text| ==> b[..|text|][i] == text[i];
  }

  method SkipBlanks(str: array<Char16>, ghost text: seq<Char16>, ghost base: Base) returns (i: nat)
    requires Terminated(str[..], text)
    ensures i <= |text| && Parsed(text, base) == Read(text[i..], base, 0)
  {
    i := 0;
    assert text[0..] == text;
    TextAt(str[..], text, 0);
    while str[i] == SPACE
      invariant i <= |text| && str[i] == (if i < |text| then text[i] else NUL)
      invariant Parsed(text[i..], base) == Parsed(text, base)
      decreases |text| - i
    {
      TextAt(str[..], text, i + 1);
      assert text[i..][0] == SPACE && text[i..][1..] == text[i + 1..];
      i := i + 1;
    }
    assert i < |text| ==> text[i..][0] == text[i];
  }

  // ---------- round trips

  /** xtoi reads what ValueToHex wrote, and Atoi what ValueToString wrote without commas for a number that is not negative. */
  lemma RoundTrips(v: nat)
    ensures v < TWO64 ==> Parsed(Numeral(v, 16), 16) == v
    ensures v < TWO63 ==> Parsed(SignedNumeral(v, false), 10) == v
  {
    hide Parsed, Numeral;
    if v < TWO64 {
      NumeralRoundTrip(v, 16);
      NumeralRoundTrip(v, 10);
      assert SignedNumeral(v, false) == Numeral(v, 10);
    }
  }

  /** So it does behind blanks and in front of anything but a digit. */
  lemma {:induction false} ReadAmongOthers(n: nat, v: nat, base: Base, rest: seq<Char16>)
    requires v < TWO64 && (rest != [] ==> DigitIn(rest[0], base) == -1)
    ensures Parsed(seq(n, _ => ' ' as int) + Numeral(v, base) + rest, base) == v
    decreases n
  {
    hide Read, Numeral;
    var blanks := seq(n, _ => ' ' as int);
    var text := blanks + Numeral(v, base) + rest;
    if n > 0 {
      assert text[0] == ' ' as int && text[1..] == seq(n - 1, _ => ' ' as int) + Numeral(v, base) + rest;
      ReadAmongOthers(n - 1, v, base, rest);
    } else {
      assert text == Numeral(v, base) + rest;
      NumeralRoundTrip(v, base);
      NumeralStarts(v, base);
      ReadUpTo(Numeral(v, base), rest, base, 0);
    }
  }

  lemma NumeralStarts(v: nat, base: Base)
    ensures Numeral(v, base) != [] && Numeral(v, base)[0] != ' ' as int
  {
    ValueOfDigits(v, base);
    if v > 0 {
      CharDigit(Digits(v, base)[0], base, UPPER_A);
    }
  }

  lemma {:induction false} ReadUpTo(s: seq<Char16>, rest: seq<Char16>, base: Base, before: nat)
    requires rest != [] ==> DigitIn(rest[0], base) == -1
    ensures Read(s + rest, base, before) == Read(s, base, before)
    decreases |s|
  {
    hide DigitIn, Next;
    if s == [] {
      assert s + rest == rest;
    } else {
      assert (s + rest)[1..] == s[1..] + rest;
      if DigitIn(s[0], base) != -1 {
        ReadUpTo(s[1..], rest, base, Next(base, before, DigitIn(s[0], base)));
      }
    }
  }

  /** Atoi stops at a sign, so no negative number comes back. */
  lemma NegativeIsNotRead(v: int)
    requires -TWO63 <= v < 0
    ensures Parsed(SignedNumeral(v, false), 10) == 0
  {
    assert SignedNumeral(v, false)[0] == MINUS;
    assert DigitIn(MINUS, 10) == -1;
  }

  /**
   With commas, for every signed 64-bit number: without them it is the plain text, and behind the sign, counted from the
   right, they sit at the three-digit boundaries and nowhere else.
   */
  lemma CommasGroup(v: int, k: nat)
    requires -TWO63 <= v < TWO63
    ensures Without(SignedNumeral(v, true), COMMA) == SignedNumeral(v, false)
    ensures var text, sign := SignedNumeral(v, true), if v < 0 then 1 else 0;
            && |text| > sign && (v < 0 ==> text[0] == MINUS)
            && (k < |text| - sign ==> (text[|text| - 1 - k] == COMMA <==> k % 4 == 3))
  {
    hide Numeral, Grouped, Without;
    var digits := Numeral(if v < 0 then -v else v, 10);
    NumeralChars(if v < 0 then -v else v, 10);
    NumeralSome(if v < 0 then -v else v);
    GroupedLength(digits);
    GroupedWithoutCommas(digits);
    WithoutSign(Grouped(digits));
    if k < |Grouped(digits)| {
      CommaPositions(digits, k);
    }
    if v < 0 {
      assert SignedNumeral(v, true) == [MINUS] + Grouped(digits) && SignedNumeral(v, false) == [MINUS] + digits;
    } else {
      assert SignedNumeral(v, true) == Grouped(digits) && SignedNumeral(v, false) == digits;
    }
  }

  lemma NumeralSome(v: nat)
    ensures Numeral(v, 10) != []
  {
    ValueOfDigits(v, 10);
  }

  lemma WithoutSign(s: seq<Char16>)
    ensures Without([MINUS] + s, COMMA) == [MINUS] + Without(s, COMMA)
  {
    WithoutAppend([MINUS], s, COMMA);
    assert [MINUS][..0] == [];
  }
}
