/** Format strings: how they are taken apart, which fields they ask for, and when the library reads past their end. */
module Formats {
  import opened Characters
  import opened Machine
  import opened Numerals

  // ---------- fields

  function Repeated(c: Char16, n: nat): (r: seq<Char16>)
    ensures |r| == n && forall k :: 0 <= k < n ==> r[k] == c
  {
    seq(n, _ => c)
  }

  /** Without a field width the item keeps its own. */
  const NO_WIDTH := 0xffff_ffff_ffff_ffff

  datatype Item = Item(text: seq<Char16>, width: nat, fieldWidth: nat, pad: Char16, padBefore: bool) {
    ghost predicate Valid() {
      NoNul(text) && |text| < NO_WIDTH && pad != NUL
    }

    /** The part of the text that the field shows. */
    function Shown(): seq<Char16> {
      text[..Min(|text|, fieldWidth)]
    }

    function Widened(): nat {
      if |Shown()| > width then |Shown()| else width
    }

    /** Blanks that fill the field. */
    function Blanks(): nat {
      if fieldWidth != NO_WIDTH && fieldWidth > Widened() then fieldWidth - Widened() else 0
    }

    /** The field as printed. */
    function Field(): seq<Char16> {
      var padded := Repeated(pad, Widened() - |Shown()|) + Shown();
      if padBefore then Repeated(SPACE, Blanks()) + padded else padded + Repeated(SPACE, Blanks())
    }
  }

  datatype Step = Literal(c: Char16) | Field(item: Item) | Attribute {
    ghost predicate Valid() {
      match this
      case Literal(c) => c != NUL
      case Field(item) => item.Valid()
      case Attribute => true
    }

    function Text(): seq<Char16> {
      match this
      case Literal(c) => [c]
      case Field(item) => item.Field()
      case Attribute => []
    }
  }

  function AllText(steps: seq<Step>): seq<Char16> {
    if steps == [] then [] else steps[0].Text() + AllText(steps[1..])
  }

  // ---------- arguments

  /** An argument: a word, a string or its missing pointer, or what the library converts to the text given. */
  datatype Arg = Number(word: Word) | Text(text: seq<Char16>) | Null | Converted(text: seq<Char16>) {
    ghost predicate Valid() {
      (Text? || Converted?) ==> NoNul(text) && |text| < NO_WIDTH
    }
  }

  const NULL_TEXT: seq<Char16> := ['(' as int, 'n' as int, 'u' as int, 'l' as int, 'l' as int, ')' as int]

  function Low32(w: Word): (v: int)
    ensures 0 <= v < 0x1_0000_0000
  {
    w % 0x1_0000_0000
  }

  /** A word read as a signed number of 64 bits, or its low half as one of 32. */
  function Signed(w: Word, long: bool): (v: int)
    ensures -TWO63 <= v < TWO63
  {
    if long then if w < TWO63 then w else w - TWO64
    else if Low32(w) < 0x8000_0000 then Low32(w) else Low32(w) - 0x1_0000_0000
  }

  /** The unsigned conversion passes its argument on as a signed 64-bit number. */
  function Unsigned(w: Word, long: bool): (v: int)
    ensures -TWO63 <= v < TWO63
  {
    if long then Signed(w, true) else Low32(w)
  }

  // ---------- directives

  /** What the characters between the percent sign and the conversion have set. */
  datatype Spec = Spec(width: nat, fieldWidth: nat, toField: bool, pad: Char16, padBefore: bool, comma: bool, long: bool) {
    function WithWidth(v: nat): Spec {
      if toField then this.(fieldWidth := v) else this.(width := v)
    }

    function Of(text: seq<Char16>): Item {
      Item(text, width, fieldWidth, pad, padBefore)
    }
  }

  const START := Spec(0, NO_WIDTH, false, SPACE, true, false, false)

  /** What one character of a directive does. */
  datatype Action = Flag(spec: Spec, used: nat) | SetAttribute | Show(item: Item, used: nat) | Wrong

  predicate StartsNumber(c: Char16) {
    '1' as int <= c <= '9' as int
  }

  predicate IsDigit(c: Char16) {
    '0' as int <= c <= '9' as int
  }

  const PERCENT: Char16 := '%' as int

  /** Every character but those that start a number. */
  function Act(c: Char16, spec: Spec, args: seq<Arg>): (a: Action)
    ensures a.Flag? || a.Show? ==> a.used <= |args|
  {
    if c == PERCENT then Show(spec.Of([PERCENT]), 0)
    else if c == '0' as int then Flag(spec.(pad := '0' as int), 0)
    else if c == '-' as int then Flag(spec.(padBefore := false), 0)
    else if c == ',' as int then Flag(spec.(comma := true), 0)
    else if c == '.' as int then Flag(spec.(toField := true), 0)
    else if c == 'l' as int then Flag(spec.(long := true), 0)
    else if c in {'N' as int, 'H' as int, 'E' as int} then Flag(spec, 0)
    else if c in {'n' as int, 'h' as int, 'e' as int} then SetAttribute
    else if c == '*' as int then
      if args == [] || !args[0].Number? then Wrong else Flag(spec.WithWidth(args[0].word), 1)
    else if c in {'a' as int, 's' as int} then
      if args == [] || !(args[0].Text? || args[0].Null?) then Wrong
      else Show(spec.Of(if args[0].Null? then NULL_TEXT else args[0].text), 1)
    else if c in {'g' as int, 'D' as int, 'f' as int, 't' as int, 'r' as int} then
      if args == [] || !args[0].Converted? then Wrong else Show(spec.Of(args[0].text), 1)
    else if c in {'c' as int, 'X' as int, 'x' as int, 'u' as int, 'd' as int} then
      if args == [] || !args[0].Number? then Wrong else Show(ItemOf(c, spec, args[0].word), 1)
    else Show(spec.Of(['?' as int]), 0)
  }

  /** The conversions of words. */
  function ItemOf(c: Char16, spec: Spec, w: Word): Item {
    if c == 'c' as int then spec.Of(if w % 0x1_0000 == NUL then [] else [w % 0x1_0000])
    else if c == 'u' as int then spec.Of(SignedNumeral(Unsigned(w, spec.long), spec.comma))
    else if c == 'd' as int then spec.Of(SignedNumeral(Signed(w, spec.long), spec.comma))
    else
      var text := Numeral(if spec.long then w else Low32(w), 16);
      if c == 'X' as int then spec.(width := if spec.long then 16 else 8, pad := '0' as int).Of(text) else spec.Of(text)
  }

  /** How many digits a text starts with. */
  function Leading(s: seq<Char16>): (n: nat)
    ensures n <= |s| && forall k :: 0 <= k < n ==> IsDigit(s[k])
    ensures n < |s| ==> !IsDigit(s[n])
  {
    if s == [] || !IsDigit(s[0]) then 0 else 1 + Leading(s[1..])
  }

  // ---------- the format

  /** Whether all is read, the format ends inside a directive, or an argument is missing or of another kind. */
  datatype End = Complete | Overrun | Mismatch

  datatype Plan = Plan(steps: seq<Step>, end: End)

  function Before(step: Step, rest: Plan): Plan {
    Plan([step] + rest.steps, rest.end)
  }

  function Parse(fmt: seq<Char16>, args: seq<Arg>): Plan
    decreases |fmt|, 1
  {
    if fmt == [] then Plan([], Complete)
    else if fmt[0] != PERCENT then Before(Literal(fmt[0]), Parse(fmt[1..], args))
    else Directive(fmt[1..], args, START)
  }

  function Directive(fmt: seq<Char16>, args: seq<Arg>, spec: Spec): Plan
    decreases |fmt|, 0
  {
    if fmt == [] then Plan([], Overrun)
    else if StartsNumber(fmt[0]) then Directive(fmt[Leading(fmt)..], args, spec.WithWidth(Read(fmt, 10, 0)))
    else
      match Act(fmt[0], spec, args)
      case Flag(spec', used) => Directive(fmt[1..], args[used..], spec')
      case SetAttribute => Before(Attribute, Directive(fmt[1..], args, spec))
      case Show(item, used) => Before(Field(item), Parse(fmt[1..], args[used..]))
      case Wrong => Plan([], Mismatch)
  }

  /** The same from positions of the format and of the arguments on. */
  function ParseFrom(text: seq<Char16>, i: nat, args: seq<Arg>, j: nat): Plan
    requires i <= |text| && j <= |args|
  {
    Parse(text[i..], args[j..])
  }

  function DirectiveFrom(text: seq<Char16>, i: nat, args: seq<Arg>, j: nat, spec: Spec): Plan
    requires i <= |text| && j <= |args|
  {
    Directive(text[i..], args[j..], spec)
  }

  /** With valid arguments every step can be printed. */
  lemma {:induction false} ParsedValid(fmt: seq<Char16>, args: seq<Arg>)
    requires NoNul(fmt) && forall k :: 0 <= k < |args| ==> args[k].Valid()
    ensures forall k :: 0 <= k < |Parse(fmt, args).steps| ==> Parse(fmt, args).steps[k].Valid()
    decreases |fmt|, 1
  {
    hide Step.Valid, Arg.Valid;
    if fmt != [] {
      if fmt[0] != PERCENT {
        LiteralValid(fmt[0]);
        ParsedValid(fmt[1..], args);
      } else {
        DirectiveValid(fmt[1..], args, START);
      }
    }
  }

  lemma LiteralValid(c: Char16)
    requires c != NUL
    ensures Literal(c).Valid() && Attribute.Valid()
  {
  }

  lemma {:induction false} DirectiveValid(fmt: seq<Char16>, args: seq<Arg>, spec: Spec)
    requires NoNul(fmt) && (forall k :: 0 <= k < |args| ==> args[k].Valid()) && spec.pad != NUL
    ensures forall k :: 0 <= k < |Directive(fmt, args, spec).steps| ==> Directive(fmt, args, spec).steps[k].Valid()
    decreases |fmt|, 0
  {
    hide Step.Valid, Arg.Valid, Act;
    if fmt != [] {
      if StartsNumber(fmt[0]) {
        DirectiveValid(fmt[Leading(fmt)..], args, spec.WithWidth(Read(fmt, 10, 0)));
      } else {
        ActValid(fmt[0], spec, args);
        LiteralValid(fmt[0]);
        match Act(fmt[0], spec, args)
        case Flag(spec', used) => DirectiveValid(fmt[1..], args[used..], spec');
        case SetAttribute => DirectiveValid(fmt[1..], args, spec);
        case Show(item, used) => ParsedValid(fmt[1..], args[used..]);
        case Wrong =>
      }
    }
  }

  lemma ActValid(c: Char16, spec: Spec, args: seq<Arg>)
    requires (forall k :: 0 <= k < |args| ==> args[k].Valid()) && spec.pad != NUL
    ensures var a := Act(c, spec, args);
            (a.Flag? ==> a.spec.pad != NUL) && (a.Show? ==> Field(a.item).Valid())
  {
    hide ItemOf;
    if args != [] && args[0].Number? {
      ItemOfValid(c, spec, args[0].word);
    }
  }

  lemma ItemOfValid(c: Char16, spec: Spec, w: Word)
    requires spec.pad != NUL
    ensures ItemOf(c, spec, w).Valid()
  {
    NumberText(Unsigned(w, spec.long), spec.comma);
    NumberText(Signed(w, spec.long), spec.comma);
    HexText(if spec.long then w else Low32(w));
    hide SignedNumeral, Numeral, Unsigned, Signed, Low32;
  }

  lemma HexText(v: nat)
    requires v < TWO64
    ensures NoNul(Numeral(v, 16)) && |Numeral(v, 16)| <= 16
  {
    NumeralChars(v, 16);
    WordDigits(v);
  }

  lemma NumberText(v: int, comma: bool)
    requires -TWO63 <= v < TWO63
    ensures NoNul(SignedNumeral(v, comma)) && |SignedNumeral(v, comma)| <= 41
  {
    var digits := Numeral(if v < 0 then -v else v, 10);
    NumeralChars(if v < 0 then -v else v, 10);
    WordDigits(if v < 0 then -v else v);
    GroupedText(digits);
  }

  lemma {:induction false} GroupedText(s: seq<Char16>)
    requires NoNul(s)
    ensures NoNul(Grouped(s)) && |Grouped(s)| <= 2 * |s|
    decreases |s|
  {
    if |s| > 3 {
      GroupedText(s[..|s| - 3]);
    }
  }

  // ---------- when it ends inside a directive

  /** Characters that do not end a directive. */
  predicate IsFlag(c: Char16) {
    || IsDigit(c) || c in {'-' as int, ',' as int, '.' as int, '*' as int, 'l' as int}
    || c in {'n' as int, 'h' as int, 'e' as int, 'N' as int, 'H' as int, 'E' as int}
  }

  /** Whether a directive is open at the end of a format, character by character. */
  function OpenAfter(fmt: seq<Char16>, open: bool): bool {
    if fmt == [] then open else OpenAfter(fmt[1..], if open then IsFlag(fmt[0]) else fmt[0] == PERCENT)
  }

  lemma {:induction false} OpenThroughDigits(fmt: seq<Char16>, n: nat)
    requires n <= Leading(fmt)
    ensures OpenAfter(fmt, true) == OpenAfter(fmt[n..], true)
    decreases n
  {
    if n > 0 {
      OpenThroughDigits(fmt[1..], n - 1);
      assert fmt[1..][n - 1..] == fmt[n..];
    }
  }

  /** With the arguments it asks for, the format is read past its end exactly if a directive is open there. */
  lemma {:induction false} OverrunIff(fmt: seq<Char16>, args: seq<Arg>)
    requires Parse(fmt, args).end != Mismatch
    ensures Parse(fmt, args).end == Overrun <==> OpenAfter(fmt, false)
    decreases |fmt|, 1
  {
    if fmt != [] {
      if fmt[0] != PERCENT {
        OverrunIff(fmt[1..], args);
      } else {
        DirectiveOverrunIff(fmt[1..], args, START);
      }
    }
  }

  lemma {:induction false} DirectiveOverrunIff(fmt: seq<Char16>, args: seq<Arg>, spec: Spec)
    requires Directive(fmt, args, spec).end != Mismatch
    ensures Directive(fmt, args, spec).end == Overrun <==> OpenAfter(fmt, true)
    decreases |fmt|, 0
  {
    if fmt != [] {
      if StartsNumber(fmt[0]) {
        OpenThroughDigits(fmt, Leading(fmt));
        DirectiveOverrunIff(fmt[Leading(fmt)..], args, spec.WithWidth(Read(fmt, 10, 0)));
      } else {
        FlagOrItem(fmt[0], spec, args);
        match Act(fmt[0], spec, args)
        case Flag(spec', used) => DirectiveOverrunIff(fmt[1..], args[used..], spec');
        case SetAttribute => DirectiveOverrunIff(fmt[1..], args, spec);
        case Show(item, used) => OverrunIff(fmt[1..], args[used..]);
      }
    }
  }

  lemma FlagOrItem(c: Char16, spec: Spec, args: seq<Arg>)
    requires !StartsNumber(c)
    ensures !Act(c, spec, args).Wrong? ==> (IsFlag(c) <==> Act(c, spec, args).Flag? || Act(c, spec, args).SetAttribute?)
  {
  }

  // ---------- what the description of the format says

  /** The unsigned conversion prints the number exactly below 2^63; from there on it prints a negative one. */
  lemma UnsignedIff(w: Word, long: bool)
    ensures SignedNumeral(Unsigned(w, long), false) == Numeral(if long then w else Low32(w), 10) <==> long ==> w < TWO63
    ensures long && w >= TWO63 ==> SignedNumeral(Unsigned(w, long), false) == [MINUS] + Numeral(TWO64 - w, 10)
  {
    hide Numeral;
    NumeralChars(if long then w else Low32(w), 10);
    if long && w >= TWO63 {
      assert SignedNumeral(Unsigned(w, long), false)[0] == MINUS;
    }
  }

  /** In a string the letters that should set an attribute are passed over, and what follows is read as the directive. */
  lemma AttributeLetters(c: Char16, fmt: seq<Char16>, args: seq<Arg>, spec: Spec)
    requires c in {'N' as int, 'H' as int, 'E' as int, 'n' as int, 'h' as int, 'e' as int}
    ensures var all, rest := Directive([c] + fmt, args, spec), Directive(fmt, args, spec);
            all.end == rest.end && AllText(all.steps) == AllText(rest.steps)
  {
    assert ([c] + fmt)[1..] == fmt;
    var rest := Directive(fmt, args, spec);
    assert ([Attribute] + rest.steps)[1..] == rest.steps;
    assert [] + AllText(rest.steps) == AllText(rest.steps);
  }

  /** A width: none, digits, or the star that takes an argument. */
  datatype Amount = Absent | Decimal(v: Word) | Star {
    ghost predicate Valid() {
      Decimal? ==> v > 0
    }

    function Written(): seq<Char16> {
      match this
      case Absent => []
      case Decimal(v) => Numeral(v, 10)
      case Star => ['*' as int]
    }

    /** Arguments it takes. */
    function Used(): nat {
      if Star? then 1 else 0
    }

    function Of(args: seq<Arg>, otherwise: nat): nat
      requires Star? ==> args != [] && args[0].Number?
    {
      match this
      case Absent => otherwise
      case Decimal(v) => v
      case Star => args[0].word
    }
  }

  /** The documented form of a directive. */
  datatype Form = Form(zero: bool, left: bool, comma: bool, width: Amount, field: Amount, long: bool, letter: Char16) {
    ghost predicate Valid() {
      width.Valid() && field.Valid() && !IsFlag(letter) && letter != NUL
    }

    /** The words for the stars are there. */
    ghost predicate Fits(args: seq<Arg>) {
      && |args| >= width.Used() + field.Used()
      && forall k :: 0 <= k < width.Used() + field.Used() ==> args[k].Number?
    }

    function Written(): seq<Char16> {
      (if zero then ['0' as int] else []) + FromLeft()
    }

    function FromLeft(): seq<Char16> {
      (if left then ['-' as int] else []) + FromComma()
    }

    function FromComma(): seq<Char16> {
      (if comma then [COMMA] else []) + (width.Written() + FromField())
    }

    function FromField(): seq<Char16> {
      (if field == Absent then [] else ['.' as int] + field.Written()) + FromLong()
    }

    function FromLong(): seq<Char16> {
      (if long then ['l' as int] else []) + [letter]
    }

    function Used(): nat {
      width.Used() + field.Used()
    }

    /** What the item is made with. */
    function Means(args: seq<Arg>): Spec
      requires Fits(args)
    {
      Spec(width.Of(args, 0), field.Of(args[width.Used()..], NO_WIDTH), field != Absent,
           if zero then '0' as int else SPACE, !left, comma, long)
    }
  }

  /** What a letter that ends a directive makes, and the rest of the format. */
  function Concluded(letter: Char16, spec: Spec, rest: seq<Char16>, args: seq<Arg>): Plan {
    match Act(letter, spec, args)
    case Show(item, used) => Before(Field(item), Parse(rest, args[used..]))
    case _ => Plan([], Mismatch)
  }

  /**
   A directive of the documented form makes the item that its parts describe, in front of whatever follows: the width, the
   field width, the padding, the side, the commas and the size of the argument.
   */
  lemma DocumentedForm(d: Form, rest: seq<Char16>, args: seq<Arg>)
    requires d.Valid() && d.Fits(args)
    ensures Parse([PERCENT] + d.Written() + rest, args) == Concluded(d.letter, d.Means(args), rest, args[d.Used()..])
  {
    hide Directive, Concluded, Act;
    var s1 := START.(pad := if d.zero then '0' as int else SPACE);
    var s2 := s1.(padBefore := !d.left);
    var s3 := s2.(comma := d.comma);
    var s4 := s3.(width := d.width.Of(args, 0));
    Opened(d.Written() + rest, args);
    PlainFlags(START, args);
    PlainFlags(s1, args);
    PlainFlags(s2, args);
    assert [PERCENT] + d.Written() + rest == [PERCENT] + (d.Written() + rest);
    OptionalFlag(d.zero, '0' as int, d.FromLeft(), rest, args, START, s1);
    OptionalFlag(d.left, '-' as int, d.FromComma(), rest, args, s1, s2);
    OptionalFlag(d.comma, COMMA, d.width.Written() + d.FromField(), rest, args, s2, s3);
    FieldStarts(d);
    AmountStep(d.width, d.FromField(), rest, args, s3);
    FieldStep(d, rest, args[d.width.Used()..], s4);
    assert args[d.width.Used()..][d.field.Used()..] == args[d.Used()..];
  }

  lemma Opened(fmt: seq<Char16>, args: seq<Arg>)
    ensures Parse([PERCENT] + fmt, args) == Directive(fmt, args, START)
  {
    assert ([PERCENT] + fmt)[1..] == fmt;
  }

  lemma PlainFlags(spec: Spec, args: seq<Arg>)
    ensures Act('0' as int, spec, args) == Flag(spec.(pad := '0' as int), 0)
    ensures Act('-' as int, spec, args) == Flag(spec.(padBefore := false), 0)
    ensures Act(COMMA, spec, args) == Flag(spec.(comma := true), 0)
    ensures Act('l' as int, spec, args) == Flag(spec.(long := true), 0)
  {
  }

  lemma OptionalFlag(there: bool, c: Char16, fmt: seq<Char16>, rest: seq<Char16>, args: seq<Arg>, spec: Spec, spec': Spec)
    requires !StartsNumber(c) && Act(c, spec, args).Flag? && Act(c, spec, args).used == 0
    requires spec' == if there then Act(c, spec, args).spec else spec
    ensures Directive((if there then [c] else []) + fmt + rest, args, spec) == Directive(fmt + rest, args, spec')
  {
    if there {
      assert [c] + fmt + rest == [c] + (fmt + rest);
      FlagStep(c, fmt + rest, args, spec);
      assert args[0..] == args;
    } else {
      assert [] + fmt + rest == fmt + rest;
    }
  }

  lemma FlagStep(c: Char16, fmt: seq<Char16>, args: seq<Arg>, spec: Spec)
    requires !StartsNumber(c) && Act(c, spec, args).Flag?
    ensures var a := Act(c, spec, args); Directive([c] + fmt, args, spec) == Directive(fmt, args[a.used..], a.spec)
  {
    hide Act;
    assert ([c] + fmt)[1..] == fmt;
  }

  lemma FieldStarts(d: Form)
    requires d.Valid()
    ensures d.FromField() != [] && !IsDigit(d.FromField()[0]) && d.FromLong() != [] && !IsDigit(d.FromLong()[0])
  {
  }

  lemma AmountStep(a: Amount, fmt: seq<Char16>, rest: seq<Char16>, args: seq<Arg>, spec: Spec)
    requires a.Valid() && fmt != [] && !IsDigit(fmt[0]) && (a.Star? ==> args != [] && args[0].Number?)
    ensures Directive(a.Written() + fmt + rest, args, spec)
         == Directive(fmt + rest, args[a.Used()..], if a == Absent then spec else spec.WithWidth(a.Of(args, 0)))
  {
    hide Directive;
    match a
    case Absent =>
      assert [] + fmt + rest == fmt + rest && args[0..] == args;
    case Decimal(v) =>
      assert Numeral(v, 10) + fmt + rest == Numeral(v, 10) + (fmt + rest) && args[0..] == args;
      NumberStep(v, fmt + rest, args, spec);
    case Star =>
      assert ['*' as int] + fmt + rest == ['*' as int] + (fmt + rest);
      FlagStep('*' as int, fmt + rest, args, spec);
  }

  lemma NumberStep(v: Word, fmt: seq<Char16>, args: seq<Arg>, spec: Spec)
    requires v > 0 && fmt != [] && !IsDigit(fmt[0])
    ensures Directive(Numeral(v, 10) + fmt, args, spec) == Directive(fmt, args, spec.WithWidth(v))
  {
    var digits := Numeral(v, 10);
    NumberDigits(v);
    hide Numeral;
    ReadAll(digits, fmt, 0);
    NumeralRoundTrip(v, 10);
    assert digits + [] == digits;
    assert (digits + fmt)[|digits|..] == fmt;
  }

  lemma NumberDigits(v: Word)
    requires v > 0
    ensures Numeral(v, 10) != [] && StartsNumber(Numeral(v, 10)[0]) && forall k :: 0 <= k < |Numeral(v, 10)| ==> IsDigit(Numeral(v, 10)[k])
    ensures Parsed(Numeral(v, 10), 10) == Read(Numeral(v, 10), 10, 0)
  {
    ValueOfDigits(v, 10);
  }

  /** Digits in front of something else are read in full. */
  lemma {:induction false} ReadAll(digits: seq<Char16>, fmt: seq<Char16>, before: nat)
    requires (forall k :: 0 <= k < |digits| ==> IsDigit(digits[k])) && fmt != [] && !IsDigit(fmt[0])
    ensures Leading(digits + fmt) == |digits| && Read(digits + fmt, 10, before) == Read(digits, 10, before)
    decreases |digits|
  {
    if digits == [] {
      assert digits + fmt == fmt;
    } else {
      assert (digits + fmt)[0] == digits[0] && (digits + fmt)[1..] == digits[1..] + fmt;
      ReadAll(digits[1..], fmt, Next(10, before, DigitIn(digits[0], 10)));
    }
  }

  /** From the field width on. */
  lemma FieldStep(d: Form, rest: seq<Char16>, args: seq<Arg>, spec: Spec)
    requires d.Valid() && (d.field.Star? ==> args != [] && args[0].Number?) && !spec.toField && !spec.long && spec.fieldWidth == NO_WIDTH
    ensures Directive(d.FromField() + rest, args, spec)
         == Concluded(d.letter, spec.(fieldWidth := d.field.Of(args, NO_WIDTH), toField := d.field != Absent, long := d.long),
                      rest, args[d.field.Used()..])
  {
    hide Directive, Concluded, Act;
    var s1 := spec.(toField := d.field != Absent);
    var s2 := s1.(fieldWidth := d.field.Of(args, NO_WIDTH));
    FieldStarts(d);
    PlainFlags(s2, args[d.field.Used()..]);
    OptionalDot(d, rest, args, spec, s1);
    AmountStep(d.field, d.FromLong(), rest, args, s1);
    OptionalFlag(d.long, 'l' as int, [d.letter], rest, args[d.field.Used()..], s2, s2.(long := d.long));
    Conclusion(d.letter, rest, args[d.field.Used()..], s2.(long := d.long));
  }

  lemma OptionalDot(d: Form, rest: seq<Char16>, args: seq<Arg>, spec: Spec, spec': Spec)
    requires d.Valid() && !spec.toField && spec' == spec.(toField := d.field != Absent)
    ensures Directive(d.FromField() + rest, args, spec) == Directive(d.field.Written() + d.FromLong() + rest, args, spec')
  {
    hide Directive;
    if d.field != Absent {
      assert d.FromField() + rest == ['.' as int] + (d.field.Written() + d.FromLong() + rest);
      FlagStep('.' as int, d.field.Written() + d.FromLong() + rest, args, spec);
      assert args[0..] == args;
    }
  }

  lemma Conclusion(letter: Char16, rest: seq<Char16>, args: seq<Arg>, spec: Spec)
    requires !IsFlag(letter)
    ensures Directive([letter] + rest, args, spec) == Concluded(letter, spec, rest, args)
  {
    FlagOrItem(letter, spec, args);
    hide Act;
    assert ([letter] + rest)[1..] == rest;
  }

  // ---------- what each letter prints

  function Codes(s: string): (r: seq<Char16>)
    requires forall k :: 0 <= k < |s| ==> s[k] < 128 as char
    ensures |r| == |s|
  {
    seq(|s|, k requires 0 <= k < |s| => s[k] as int)
  }

  /** Characters in front of the first percent sign print themselves. */
  lemma {:induction false} PlainText(s: seq<Char16>, rest: seq<Char16>, args: seq<Arg>)
    requires '%' as int !in s
    ensures var all, behind := Parse(s + rest, args), Parse(rest, args);
            all.end == behind.end && AllText(all.steps) == s + AllText(behind.steps)
    decreases |s|
  {
    hide Parse, AllText;
    if s == [] {
      assert s + rest == rest;
      assert s + AllText(Parse(rest, args).steps) == AllText(Parse(rest, args).steps);
    } else {
      var front, c := s[..|s| - 1], s[|s| - 1];
      assert c in s && s + rest == front + ([c] + rest);
      PlainText(front, [c] + rest, args);
      PlainCharacter(c, rest, args);
      assert front + ([c] + AllText(Parse(rest, args).steps)) == s + AllText(Parse(rest, args).steps);
    }
  }

  lemma PlainCharacter(c: Char16, rest: seq<Char16>, args: seq<Arg>)
    requires c != '%' as int
    ensures var all, behind := Parse([c] + rest, args), Parse(rest, args);
            all.end == behind.end && AllText(all.steps) == [c] + AllText(behind.steps)
  {
    hide Directive;
    assert ([c] + rest)[1..] == rest;
    var behind := Parse(rest, args);
    assert ([Literal(c)] + behind.steps)[1..] == behind.steps;
  }

  /** The item that a directive makes of a text: its width, its field width, its padding and its side. */
  function ItemWith(d: Form, args: seq<Arg>, text: seq<Char16>): Item
    requires d.Fits(args)
  {
    Item(text, d.width.Of(args, 0), d.field.Of(args[d.width.Used()..], NO_WIDTH), if d.zero then '0' as int else ' ' as int, !d.left)
  }

  /** The format behind a percent sign and a directive comes to the text given, with n more arguments used, and the rest. */
  ghost predicate Prints(d: Form, rest: seq<Char16>, args: seq<Arg>, text: seq<Char16>, n: nat)
    requires d.Fits(args) && d.Used() + n <= |args|
  {
    Parse(['%' as int] + d.Written() + rest, args) == Before(Field(ItemWith(d, args, text)), Parse(rest, args[d.Used() + n..]))
  }

  /** Letters that take a string, print themselves, or are not known. */
  lemma TextLetters(d: Form, rest: seq<Char16>, args: seq<Arg>)
    requires d.Valid() && d.Fits(args)
    ensures d.letter in {'a' as int, 's' as int} && |args| > d.Used() && args[d.Used()].Text? ==>
              Prints(d, rest, args, args[d.Used()].text, 1)
    ensures d.letter in {'a' as int, 's' as int} && |args| > d.Used() && args[d.Used()].Null? ==>
              Prints(d, rest, args, Codes("(null)"), 1)
    ensures d.letter in {'g' as int, 'D' as int, 'f' as int, 't' as int, 'r' as int} && |args| > d.Used() && args[d.Used()].Converted? ==>
              Prints(d, rest, args, args[d.Used()].text, 1)
    ensures d.letter == '%' as int ==> Prints(d, rest, args, Codes("%"), 0)
    ensures d.letter !in {'a' as int, 's' as int, 'g' as int, 'D' as int, 'f' as int, 't' as int, 'r' as int, '%' as int,
                          'c' as int, 'x' as int, 'X' as int, 'u' as int, 'd' as int} ==>
              Prints(d, rest, args, Codes("?"), 0)
  {
    hide Parse;
    DocumentedForm(d, rest, args);
    assert Codes("(null)") == NULL_TEXT && Codes("%") == [PERCENT] && Codes("?") == ['?' as int];
    assert args[d.Used()..][0..] == args[d.Used() + 0..];
    if |args| > d.Used() {
      assert args[d.Used()..][1..] == args[d.Used() + 1..];
    }
  }

  /** A character, unless it is the null one. */
  lemma CharLetter(d: Form, rest: seq<Char16>, args: seq<Arg>)
    requires d.Valid() && d.Fits(args) && d.letter == 'c' as int && |args| > d.Used() && args[d.Used()].Number?
    ensures var c := args[d.Used()].word % 0x1_0000;
            Prints(d, rest, args, if c == 0 then [] else [c], 1)
  {
    hide Parse;
    DocumentedForm(d, rest, args);
    assert args[d.Used()..][1..] == args[d.Used() + 1..];
  }

  /** The text of a number in a base, without leading zeros. */
  ghost predicate Spells(text: seq<Char16>, base: Base, v: nat) {
    && text != [] && (forall k :: 0 <= k < |text| ==> DigitIn(text[k], base) != -1)
    && Read(text, base, 0) == v && (|text| > 1 ==> text[0] != '0' as int)
  }

  lemma NumeralSpells(v: nat, base: Base)
    requires v < TWO64
    ensures Spells(Numeral(v, base), base, v)
  {
    NumeralRoundTrip(v, base);
    if v > 0 {
      ValueOfDigits(v, base);
      var ds := Digits(v, base);
      forall k | 0 <= k < |ds|
        ensures DigitIn(DigitChar(ds[k], UPPER_A), base) == ds[k]
      {
        CharDigit(ds[k], base, UPPER_A);
      }
      CharDigit(ds[0], base, UPPER_A);
      assert DigitIn(ZERO, base) == 0;
    }
  }

  lemma HexPlaces(v: nat)
    requires v < TWO64
    ensures |Numeral(v, 16)| <= 16 && (v < 0x1_0000_0000 ==> |Numeral(v, 16)| <= 8)
  {
    WordDigits(v);
    if 0 < v < 0x1_0000_0000 {
      assert Power(16, 4) == 0x1_0000;
      assert Power(16, 8) == 0x1_0000_0000;
      DigitsBound(v, 16, 8);
    }
  }

  /** Hexadecimal numbers of 32 bits, or 64 with the long flag; the capital letter asks for 8 or 16 places filled with zeros. */
  lemma HexLetters(d: Form, rest: seq<Char16>, args: seq<Arg>) returns (text: seq<Char16>)
    requires d.Valid() && d.Fits(args) && d.letter in {'x' as int, 'X' as int} && |args| > d.Used() && args[d.Used()].Number?
    ensures Spells(text, 16, if d.long then args[d.Used()].word else args[d.Used()].word % 0x1_0000_0000)
    ensures |text| <= if d.long then 16 else 8
    ensures d.letter == 'x' as int ==> Prints(d, rest, args, text, 1)
    ensures d.letter == 'X' as int ==>
              Parse(['%' as int] + d.Written() + rest, args)
              == Before(Field(ItemWith(d, args, text).(width := if d.long then 16 else 8, pad := '0' as int)), Parse(rest, args[d.Used() + 1..]))
  {
    hide Parse, Spells, Numeral;
    DocumentedForm(d, rest, args);
    assert args[d.Used()..][1..] == args[d.Used() + 1..];
    var w := args[d.Used()].word;
    text := Numeral(if d.long then w else w % 0x1_0000_0000, 16);
    HexPlaces(if d.long then w else w % 0x1_0000_0000);
    NumeralSpells(if d.long then w else w % 0x1_0000_0000, 16);
  }

  /** The value of a word as a signed number of 64 bits, or of its low half as one of 32. */
  function SignedValue(w: Word, long: bool): int {
    if long then if w < 0x8000_0000_0000_0000 then w else w - 0x1_0000_0000_0000_0000
    else if w % 0x1_0000_0000 < 0x8000_0000 then w % 0x1_0000_0000 else w % 0x1_0000_0000 - 0x1_0000_0000
  }

  /** Digits that spell a number, behind a minus sign if it is negative. */
  ghost predicate SpellsSigned(digits: seq<Char16>, v: int) {
    if v < 0 then digits != [] && digits[0] == '-' as int && Spells(digits[1..], 10, -v) else Spells(digits, 10, v)
  }

  lemma SignedNumeralSpells(v: int, comma: bool)
    requires -TWO63 <= v < TWO63
    ensures SpellsSigned(if comma then Without(SignedNumeral(v, comma), COMMA) else SignedNumeral(v, comma), v)
  {
    hide Spells, Numeral, Without;
    CommasGroup(v, 0);
    var magnitude := if v < 0 then -v else v;
    NumeralSpells(magnitude, 10);
    assert [] + Numeral(magnitude, 10) == Numeral(magnitude, 10);
    assert v < 0 ==> ([MINUS] + Numeral(magnitude, 10))[1..] == Numeral(magnitude, 10);
  }

  /** Decimal numbers: but for commas, a minus sign if the value is negative, and the digits of its magnitude. */
  lemma DecimalLetters(d: Form, rest: seq<Char16>, args: seq<Arg>) returns (text: seq<Char16>)
    requires d.Valid() && d.Fits(args) && d.letter in {'u' as int, 'd' as int} && |args| > d.Used() && args[d.Used()].Number?
    ensures Prints(d, rest, args, text, 1)
    ensures var w := args[d.Used()].word;
            SpellsSigned(if d.comma then Without(text, ',' as int) else text,
                         if d.letter == 'd' as int || d.long then SignedValue(w, d.long) else w % 0x1_0000_0000)
  {
    hide Parse, SpellsSigned, SignedNumeral, Without;
    DocumentedForm(d, rest, args);
    assert args[d.Used()..][1..] == args[d.Used() + 1..];
    var w := args[d.Used()].word;
    var v := if d.letter == 'd' as int || d.long then SignedValue(w, d.long) else w % 0x1_0000_0000;
    text := SignedNumeral(v, d.comma);
    SignedNumeralSpells(v, d.comma);
  }

  // ---------- what a field looks like

  /**
   The field of an item, place by place: blanks up to the field width and padding up to the width in front of the text
   shown, or the blanks behind it.
   */
  lemma FieldLayout(item: Item)
    ensures var shown := item.text[..Min(|item.text|, item.fieldWidth)];
            var width := if |shown| < item.width then item.width else |shown|;
            var blanks := if item.fieldWidth != NO_WIDTH && width < item.fieldWidth then item.fieldWidth - width else 0;
            var start := width - |shown| + if item.padBefore then blanks else 0;
            && |item.Field()| == width + blanks && item.Field()[start..start + |shown|] == shown
            && (forall k :: start - (width - |shown|) <= k < start ==> item.Field()[k] == item.pad)
            && (forall k :: 0 <= k < |item.Field()| && !(start - (width - |shown|) <= k < start + |shown|) ==> item.Field()[k] == ' ' as int)
  {
    var pads, blanks := Repeated(item.pad, item.Widened() - |item.Shown()|), Repeated(SPACE, item.Blanks());
    FieldIs(item);
    hide Item.Field;
    PartsAt(if item.padBefore then blanks else [], pads, item.Shown(), if item.padBefore then [] else blanks, item.Field());
  }

  lemma FieldIs(item: Item)
    ensures var pads, blanks := Repeated(item.pad, item.Widened() - |item.Shown()|), Repeated(SPACE, item.Blanks());
            item.Field() == (if item.padBefore then blanks else []) + (pads + item.Shown()) + (if item.padBefore then [] else blanks)
  {
    hide Item.Shown, Item.Widened, Item.Blanks;
  }

  lemma PartsAt(front: seq<Char16>, pads: seq<Char16>, shown: seq<Char16>, behind: seq<Char16>, all: seq<Char16>)
    requires all == front + (pads + shown) + behind
    ensures var start := |front| + |pads|;
            && |all| == start + |shown| + |behind| && all[start..start + |shown|] == shown
            && (forall k :: 0 <= k < |front| ==> all[k] == front[k])
            && (forall k :: |front| <= k < start ==> all[k] == pads[k - |front|])
            && (forall k :: start + |shown| <= k < |all| ==> all[k] == behind[k - start - |shown|])
  {
  }

  /** A text of hexadecimal digits filled up with zeros reads as before. */
  lemma {:induction false} ReadZeros(n: nat, text: seq<Char16>)
    ensures Read(Repeated(ZERO, n) + text, 16, 0) == Read(text, 16, 0)
  {
    if n == 0 {
      assert Repeated(ZERO, n) + text == text;
    } else {
      var s := Repeated(ZERO, n) + text;
      assert s[1..] == Repeated(ZERO, n - 1) + text && s[0] == ZERO && DigitIn(ZERO, 16) == 0;
      ReadZeros(n - 1, text);
    }
  }

  /** Eight or sixteen places filled with zeros, with no field width: exactly that many characters, which read as the number. */
  lemma CapitalHexField(text: seq<Char16>, v: nat, places: nat, padBefore: bool)
    requires Spells(text, 16, v) && |text| <= places < NO_WIDTH
    ensures var field := Item(text, places, NO_WIDTH, '0' as int, padBefore).Field();
            |field| == places && Read(field, 16, 0) == v
  {
    var item := Item(text, places, NO_WIDTH, '0' as int, padBefore);
    FieldLayout(item);
    hide Spells, Item.Field, Read;
    assert text[..|text|] == text;
    assert item.Field() == Repeated(ZERO, places - |text|) + text;
    ReadZeros(places - |text|, text);
  }
}
