/** The buffered printer: characters and fields go through a 200-slot buffer, in chunks, to a target. */
module Printers {
  import opened Characters
  import opened Formats
  import opened Machine
  import opened Numerals
  import opened PrintTargets

  const PRINT_ITEM_BUFFER_LEN := 100

  const LF: Char16 := 10
  const CR: Char16 := 13

  /** A line feed is printed as carriage return and line feed. */
  function ExpandChar(c: Char16): (r: seq<Char16>)
    ensures c != NUL ==> NoNul(r)
  {
    if c == LF then [CR, LF] else [c]
  }

  function Expand(s: seq<Char16>): seq<Char16> {
    if s == [] then [] else Expand(s[..|s| - 1]) + ExpandChar(s[|s| - 1])
  }

  lemma {:induction false} ExpandAppend(a: seq<Char16>, b: seq<Char16>)
    ensures Expand(a + b) == Expand(a) + Expand(b)
    decreases |b|
  {
    if b == [] {
      assert a + b == a;
    } else {
      var b' := b[..|b| - 1];
      assert (a + b)[..|a + b| - 1] == a + b';
      ExpandAppend(a, b');
    }
  }

  lemma ExpandPrefix(a: seq<Char16>, b: seq<Char16>)
    requires a <= b
    ensures |Expand(a)| <= |Expand(b)|
  {
    hide Expand;
    assert b == a + b[|a|..];
    ExpandAppend(a, b[|a|..]);
  }

  lemma ExpandOne(s: seq<Char16>, c: Char16)
    ensures Expand(s + [c]) == Expand(s) + ExpandChar(c)
  {
    assert (s + [c])[..|s + [c]| - 1] == s;
  }

  /** Without the carriage return in front of each line feed. */
  function Contract(t: seq<Char16>): seq<Char16> {
    if t == [] then []
    else if |t| >= 2 && t[|t| - 2..] == [13, 10] then Contract(t[..|t| - 2]) + [10]
    else Contract(t[..|t| - 1]) + [t[|t| - 1]]
  }

  /** Every line feed printed has a carriage return in front of it, and without those the text is the one given. */
  lemma {:induction false} LineEnds(s: seq<Char16>)
    ensures forall k :: 0 <= k < |Expand(s)| && Expand(s)[k] == 10 ==> k > 0 && Expand(s)[k - 1] == 13
    ensures Contract(Expand(s)) == s
    decreases |s|
  {
    if s != [] {
      var front, c := s[..|s| - 1], s[|s| - 1];
      assert s == front + [c];
      LineEnds(front);
      ContractMore(Expand(front), c);
      assert Expand(s) == Expand(front) + ExpandChar(c);
      ReturnsMore(Expand(front), c);
      hide Expand, Contract, ExpandChar;
    }
  }

  lemma ReturnsMore(t: seq<Char16>, c: Char16)
    requires forall k :: 0 <= k < |t| && t[k] == 10 ==> k > 0 && t[k - 1] == 13
    ensures var u := t + ExpandChar(c); forall k :: 0 <= k < |u| && u[k] == 10 ==> k > 0 && u[k - 1] == 13
  {
  }

  lemma ContractMore(t: seq<Char16>, c: Char16)
    ensures Contract(t + ExpandChar(c)) == Contract(t) + [c]
  {
    hide Contract;
    if c == 10 {
      ContractReturn(t + [13, 10], t);
    } else {
      ContractOther(t + [c], t, c);
    }
  }

  lemma ContractReturn(u: seq<Char16>, t: seq<Char16>)
    requires u == t + [13, 10]
    ensures Contract(u) == Contract(t) + [10]
  {
    hide Contract;
    assert u[|u| - 2..] == [13, 10] && u[..|u| - 2] == t;
    ContractOnce(u);
  }

  lemma ContractOther(u: seq<Char16>, t: seq<Char16>, c: Char16)
    requires u == t + [c] && c != 10
    ensures Contract(u) == Contract(t) + [c]
  {
    hide Contract;
    assert u[|u| - 1] == c && u[..|u| - 1] == t;
    assert |u| >= 2 ==> u[|u| - 2..][1] == c;
    ContractOnce(u);
  }

  lemma ContractOnce(t: seq<Char16>)
    requires t != []
    ensures Contract(t) == if |t| >= 2 && t[|t| - 2..] == [13, 10] then Contract(t[..|t| - 2]) + [10]
                           else Contract(t[..|t| - 1]) + [t[|t| - 1]]
  {
  }

  class PrintState {
    const buffer: array<Char16>
    var pos: nat
    var len: nat
    const target: PrintTarget
    /** The output function: _PoolPrint, or else _SPrint. */
    const pooled: bool
    /** What the target held before, what it has been given since, and where the part it still has begins. */
    ghost const before: seq<Char16>
    ghost var given: seq<Char16>
    ghost var kept: nat
    /** Whether a reallocation of the pool buffer has failed, and how many had been asked for before. */
    ghost var failed: bool
    ghost const asked: nat
    /** How many characters a string target may be given in all; it has room for as many of them as its limit lets in. */
    ghost const cap: nat

    ghost predicate Valid()
      reads this, buffer, target, target.str
    {
      && buffer.Length == PRINT_STRING_LEN && pos < PRINT_STRING_LEN - 1 && buffer != target.str
      && NoNul(buffer[..pos]) && len == |given| + pos && Delivered() && Room(0)
    }

    /** The target may be given this many characters more. */
    ghost predicate Room(more: nat)
      reads this, buffer
    {
      pooled || |before| + |Text()| + more <= cap
    }

    /** The target has what it was given: from `kept` on in the pool, up to the limit in a string. */
    ghost predicate Delivered()
      reads `given, `kept, `failed, target, target.str
    {
      var all := before + given;
      && kept <= |all| && (!failed ==> kept == 0)
      && asked <= |target.requests| && (failed <==> target.Refused(asked))
      && (if pooled then target.Pooled() && target.Contents() == all[kept..]
          else target.Bounded(cap) && target.Contents() == Truncated(all, target.maxlen))
    }

    /** Every character put so far, line ends expanded. */
    ghost function Text(): seq<Char16>
      reads this, buffer
    {
      given + if pos <= buffer.Length then buffer[..pos] else []
    }

    constructor (target: PrintTarget, pooled: bool, ghost cap: nat)
      requires if pooled then target.Pooled() else target.Bounded(cap) && |target.Contents()| <= cap
      ensures Valid() && fresh(buffer) && this.target == target && this.pooled == pooled && this.cap == cap
      ensures before == target.Contents() && Text() == [] && len == 0 && !failed && asked == |target.requests|
    {
      buffer := new Char16[PRINT_STRING_LEN];
      pos, len := 0, 0;
      this.target, this.pooled := target, pooled;
      before, given, kept, failed, this.cap, asked := target.Contents(), [], 0, false, cap, |target.requests|;
      new;
      assert before + given == before;
    }

    /** The call of the output function. */
    method Output(ghost chunk: seq<Char16>)
      requires Delivered() && Terminated(buffer[..], chunk) && buffer != target.str
      requires pooled || |before| + |given| + |chunk| <= cap
      modifies `given, `kept, `failed, target, target.str
      ensures Delivered() && given == old(given) + chunk && (target.maxlen == 0 && pooled ==> failed && target.str == null)
      ensures target.str == null || target.str == old(target.str) || fresh(target.str)
      ensures !pooled ==> target.str == old(target.str) && target.maxlen == old(target.maxlen) && kept == old(kept)
      ensures target.maxlen > 0 ==> target.str[target.len] == NUL
    {
      hide *;
      if pooled {
        OutputToPool(chunk);
      } else {
        OutputToString(chunk);
      }
    }

    /** _PoolPrint: what comes before a chunk whose request is refused is lost with it, and nothing else is. */
    method OutputToPool(ghost chunk: seq<Char16>)
      requires pooled && Delivered() && Terminated(buffer[..], chunk) && buffer != target.str
      modifies `given, `kept, `failed, target, target.str
      ensures Delivered() && given == old(given) + chunk && (target.maxlen == 0 ==> failed && target.str == null)
      ensures target.str == null || target.str == old(target.str) || fresh(target.str)
      ensures target.maxlen > 0 ==> target.str[target.len] == NUL
      ensures target.requests == old(target.requests) || |target.requests| == |old(target.requests)| + 1
      ensures kept == if target.requests != old(target.requests) && !target.requests[|old(target.requests)|].granted
                      then |before| + |given| else old(kept)
    {
      hide Terminated, Truncated, AnyRefused;
      ghost var requests := target.requests;
      Given(before, given, chunk, kept, target.maxlen);
      ghost var lost := target.PoolPrint(buffer, chunk);
      if lost {
        failed := true;
        kept := |before + given + chunk|;
      }
      if target.requests != requests {
        RefusedMore(requests, target.requests[|requests|], asked);
      }
      given := given + chunk;
    }

    /** _SPrint. */
    method OutputToString(ghost chunk: seq<Char16>)
      requires !pooled && Delivered() && Terminated(buffer[..], chunk) && buffer != target.str
      requires |before| + |given| + |chunk| <= cap
      modifies `given, target, target.str
      ensures Delivered() && given == old(given) + chunk
      ensures target.str == old(target.str) && target.maxlen == old(target.maxlen)
      ensures target.maxlen > 0 ==> target.str[target.len] == NUL
    {
      hide Terminated, Truncated, AnyRefused;
      Given(before, given, chunk, kept, target.maxlen);
      target.SPrint(buffer, chunk);
      given := given + chunk;
    }

    /** Terminates the buffer and hands it to the output function. */
    method Flush()
      requires buffer.Length == PRINT_STRING_LEN && pos < PRINT_STRING_LEN && buffer != target.str
      requires NoNul(buffer[..pos]) && len == |given| + pos && Delivered() && Room(0)
      modifies this, buffer, target, target.str
      ensures Valid() && pos == 0 && Text() == given == old(Text())
      ensures target.maxlen == 0 && pooled ==> failed && target.str == null
      ensures target.str == null || target.str == old(target.str) || fresh(target.str)
      ensures !pooled ==> target.str == old(target.str) && target.maxlen == old(target.maxlen) && kept == old(kept)
      ensures target.maxlen > 0 ==> target.str[target.len] == NUL
    {
      hide Delivered;
      ghost var chunk := buffer[..pos];
      buffer[pos] := NUL;
      assert buffer[..pos] == chunk;
      Output(chunk);
      pos := 0;
    }

    /** PPUTC: a line feed brings its carriage return. */
    method PutChar(c: Char16)
      requires Valid() && c != NUL && Room(|ExpandChar(c)|)
      modifies this, buffer, target, target.str
      ensures Valid() && Text() == old(Text()) + ExpandChar(c)
      ensures target.str == null || target.str == old(target.str) || fresh(target.str)
      ensures !pooled ==> target.str == old(target.str) && target.maxlen == old(target.maxlen) && kept == old(kept)
      decreases c == LF
    {
      hide Valid, Text, NoNul;
      ghost var was := Text();
      if c == LF {
        PutChar(CR);
        TwoChars(was, CR, c);
      }
      Store(c);
    }

    /** The rest of PPUTC: the buffer is flushed as soon as only the slot for the terminator is left. */
    method Store(c: Char16)
      requires Valid() && c != NUL && Room(1)
      modifies this, buffer, target, target.str
      ensures Valid() && Text() == old(Text()) + [c]
      ensures target.str == null || target.str == old(target.str) || fresh(target.str)
      ensures !pooled ==> target.str == old(target.str) && target.maxlen == old(target.maxlen) && kept == old(kept)
    {
      ghost var was := buffer[..pos];
      buffer[pos] := c;
      pos := pos + 1;
      len := len + 1;
      assert buffer[..pos] == was + [c];
      OneMore(given, was, c);
      if pos >= PRINT_STRING_LEN - 1 {
        hide Text;
        Flush();
      }
    }

    /** The padding loops. */
    method PutMany(c: Char16, n: nat)
      requires Valid() && c != NUL && Room(|Expand(Repeated(c, n))|)
      modifies this, buffer, target, target.str
      ensures Valid() && Text() == old(Text()) + Expand(Repeated(c, n))
      ensures target.str == null || target.str == old(target.str) || fresh(target.str)
      ensures !pooled ==> target.str == old(target.str) && target.maxlen == old(target.maxlen) && kept == old(kept)
    {
      hide Valid, Text, NoNul, Delivered;
      ghost var start := Text();
      assert start + [] == start;
      for i := 0 to n
        invariant Valid() && Text() == start + Expand(Repeated(c, i))
        invariant target.str == null || target.str == old(target.str) || fresh(target.str)
        invariant !pooled ==> target.str == old(target.str) && target.maxlen == old(target.maxlen) && kept == old(kept)
      {
        hide Expand, ExpandChar;
        assert Repeated(c, i + 1) == Repeated(c, i) + [c];
        ExpandOne(Repeated(c, i), c);
        ExpandPrefix(Repeated(c, i + 1), Repeated(c, n));
        PutChar(c);
        ThreeParts(start, Expand(Repeated(c, i)), ExpandChar(c));
      }
    }

    /** PITEM: measures the text up to the field width, pads it, and puts the field. */
    method PutItem(item: Item)
      requires Valid() && item.Valid() && Room(|Expand(item.Field())|)
      modifies this, buffer, target, target.str
      ensures Valid() && Text() == old(Text()) + Expand(item.Field())
      ensures target.str == null || target.str == old(target.str) || fresh(target.str)
      ensures !pooled ==> target.str == old(target.str) && target.maxlen == old(target.maxlen) && kept == old(kept)
    {
      var length, width, fieldWidth := Measure(item);
      var blanks := if width < fieldWidth then fieldWidth - width else 0;
      assert NoNul(item.text[..length]);
      FieldExpanded(item, blanks, width - length, item.text[..length]);
      hide Valid, Text, Expand, NoNul, Item.Field, Item.Shown, Item.Widened, Item.Blanks;
      if item.padBefore {
        PutBehind(blanks, item.pad, width - length, item.text[..length]);
      } else {
        PutInFront(item.pad, width - length, item.text[..length], blanks);
      }
    }

    /** A field whose blanks come first. */
    method PutBehind(blanks: nat, pad: Char16, n: nat, text: seq<Char16>)
      requires Valid() && pad != NUL && NoNul(text)
      requires Room(|Expand(Repeated(SPACE, blanks)) + Expand(Repeated(pad, n)) + Expand(text)|)
      modifies this, buffer, target, target.str
      ensures Valid() && Text() == old(Text()) + (Expand(Repeated(SPACE, blanks)) + Expand(Repeated(pad, n)) + Expand(text))
      ensures target.str == null || target.str == old(target.str) || fresh(target.str)
      ensures !pooled ==> target.str == old(target.str) && target.maxlen == old(target.maxlen) && kept == old(kept)
    {
      hide Valid, Text, Expand, NoNul;
      FourParts(Text(), Expand(Repeated(SPACE, blanks)), Expand(Repeated(pad, n)), Expand(text));
      PutMany(SPACE, blanks);
      PutPadded(pad, n, text);
    }

    /** A field whose blanks come last. */
    method PutInFront(pad: Char16, n: nat, text: seq<Char16>, blanks: nat)
      requires Valid() && pad != NUL && NoNul(text)
      requires Room(|Expand(Repeated(pad, n)) + Expand(text) + Expand(Repeated(SPACE, blanks))|)
      modifies this, buffer, target, target.str
      ensures Valid() && Text() == old(Text()) + (Expand(Repeated(pad, n)) + Expand(text) + Expand(Repeated(SPACE, blanks)))
      ensures target.str == null || target.str == old(target.str) || fresh(target.str)
      ensures !pooled ==> target.str == old(target.str) && target.maxlen == old(target.maxlen) && kept == old(kept)
    {
      hide Valid, Text, Expand, NoNul;
      FourParts(Text(), Expand(Repeated(pad, n)), Expand(text), Expand(Repeated(SPACE, blanks)));
      PutPadded(pad, n, text);
      PutMany(SPACE, blanks);
    }

    /** The padding to the width, and the text. */
    method PutPadded(pad: Char16, n: nat, text: seq<Char16>)
      requires Valid() && pad != NUL && NoNul(text) && Room(|Expand(Repeated(pad, n))| + |Expand(text)|)
      modifies this, buffer, target, target.str
      ensures Valid() && Text() == old(Text()) + Expand(Repeated(pad, n)) + Expand(text)
      ensures target.str == null || target.str == old(target.str) || fresh(target.str)
      ensures !pooled ==> target.str == old(target.str) && target.maxlen == old(target.maxlen) && kept == old(kept)
    {
      hide Valid, Text, Expand, NoNul;
      PutMany(pad, n);
      PutText(text);
    }

    /** The loop of PITEM that puts the text. */
    method PutText(text: seq<Char16>)
      requires Valid() && NoNul(text) && Room(|Expand(text)|)
      modifies this, buffer, target, target.str
      ensures Valid() && Text() == old(Text()) + Expand(text)
      ensures target.str == null || target.str == old(target.str) || fresh(target.str)
      ensures !pooled ==> target.str == old(target.str) && target.maxlen == old(target.maxlen) && kept == old(kept)
    {
      hide Valid, Text, Delivered;
      ghost var start := Text();
      assert start + [] == start;
      for i := 0 to |text|
        invariant Valid() && Text() == start + Expand(text[..i])
        invariant target.str == null || target.str == old(target.str) || fresh(target.str)
        invariant !pooled ==> target.str == old(target.str) && target.maxlen == old(target.maxlen) && kept == old(kept)
      {
        hide Expand, ExpandChar;
        assert text[..i + 1] == text[..i] + [text[i]];
        ExpandOne(text[..i], text[i]);
        ExpandPrefix(text[..i + 1], text);
        PutChar(text[i]);
        ThreeParts(start, Expand(text[..i]), ExpandChar(text[i]));
      }
      assert text[..|text|] == text;
    }

    /** _Print: characters are put, and directives are gone through up to their item. */
    method Print(fmt: seq<Char16>, ghost text: seq<Char16>, args: seq<Arg>) returns (n: nat)
      requires Valid() && Text() == [] && Terminated(fmt, text) && forall k :: 0 <= k < |args| ==> args[k].Valid()
      requires Parse(text, args).end == Complete && Room(|Printed(Parse(text, args))|)
      modifies this, buffer, target, target.str
      ensures Valid() && given == Printed(Parse(text, args)) && n == |given|
      ensures target.maxlen == 0 && pooled ==> failed && target.str == null
      ensures target.str == null || target.str == old(target.str) || fresh(target.str)
      ensures !pooled ==> target.str == old(target.str) && target.maxlen == old(target.maxlen)
      ensures target.maxlen > 0 ==> target.str[target.len] == NUL
    {
      hide Valid, Text, Delivered, Expand, DirectiveFrom, ParseFrom, Printed;
      var i: nat, j: nat := 0, 0;
      ghost var all := Printed(Parse(text, args));
      assert ParseFrom(text, i, args, j) == Parse(text, args) && [] + all == all by {
        ParseStart(text, args);
      }
      while fmt[i] != NUL
        invariant i <= |text| && j <= |args| && Valid() && ParseFrom(text, i, args, j).end == Complete
        invariant Text() + Printed(ParseFrom(text, i, args, j)) == all && Room(|Printed(ParseFrom(text, i, args, j))|)
        invariant target.str == null || target.str == old(target.str) || fresh(target.str)
        invariant !pooled ==> target.str == old(target.str) && target.maxlen == old(target.maxlen)
        decreases |text| - i
      {
        var c := fmt[i];
        ParseStep(text, i, args, j);
        i := i + 1;
        if c != PERCENT {
          ThreeParts(Text(), ExpandChar(c), Printed(ParseFrom(text, i, args, j)));
          PutChar(c);
        } else {
          i, j := PrintDirective(fmt, text, i, args, j);
        }
      }
      ParseEnd(text, i, args, j);
      n := Finish();
    }

    method Finish() returns (n: nat)
      requires Valid()
      modifies this, buffer, target, target.str
      ensures Valid() && given == old(Text()) && n == |given|
      ensures target.maxlen == 0 && pooled ==> failed && target.str == null
      ensures target.str == null || target.str == old(target.str) || fresh(target.str)
      ensures !pooled ==> target.str == old(target.str) && target.maxlen == old(target.maxlen)
      ensures target.maxlen > 0 ==> target.str[target.len] == NUL
    {
      hide Text, Delivered;
      Flush();
      n := len;
    }

    /** A directive, behind its percent sign: its item is put. */
    method PrintDirective(fmt: seq<Char16>, ghost text: seq<Char16>, index: nat, args: seq<Arg>, used: nat) returns (i: nat, j: nat)
      requires Valid() && Terminated(fmt, text) && forall k :: 0 <= k < |args| ==> args[k].Valid()
      requires index <= |text| && used <= |args| && DirectiveFrom(text, index, args, used, START).end == Complete
      requires Room(|Printed(DirectiveFrom(text, index, args, used, START))|)
      modifies this, buffer, target, target.str
      ensures index < i <= |text| && j <= |args| && Valid() && ParseFrom(text, i, args, j).end == Complete
      ensures Text() + Printed(ParseFrom(text, i, args, j)) == old(Text()) + Printed(DirectiveFrom(text, index, args, used, START))
      ensures Room(|Printed(ParseFrom(text, i, args, j))|)
      ensures target.str == null || target.str == old(target.str) || fresh(target.str)
      ensures !pooled ==> target.str == old(target.str) && target.maxlen == old(target.maxlen)
    {
      hide Valid, Text, Delivered, Expand, ParseFrom, DirectiveFrom, Printed, Terminated, Item.Field;
      var item;
      item, i, j := FindItem(fmt, text, index, args, used);
      ThreeParts(Text(), Expand(item.Field()), Printed(ParseFrom(text, i, args, j)));
      PutItem(item);
    }

    /** The inner loop of _Print, up to the character that makes an item. */
    method FindItem(fmt: seq<Char16>, ghost text: seq<Char16>, index: nat, args: seq<Arg>, used: nat)
      returns (item: Item, i: nat, j: nat)
      requires Valid() && Terminated(fmt, text) && forall k :: 0 <= k < |args| ==> args[k].Valid()
      requires index <= |text| && used <= |args| && DirectiveFrom(text, index, args, used, START).end == Complete
      modifies this, buffer, target, target.str
      ensures index < i <= |text| && j <= |args| && ParseFrom(text, i, args, j).end == Complete
      ensures item.Valid() && Valid() && Text() == old(Text())
      ensures Printed(DirectiveFrom(text, index, args, used, START)) == Expand(item.Field()) + Printed(ParseFrom(text, i, args, j))
      ensures target.str == null || target.str == old(target.str) || fresh(target.str)
      ensures !pooled ==> target.str == old(target.str) && target.maxlen == old(target.maxlen)
    {
      hide Valid, Text, Delivered, Expand, ParseFrom, DirectiveFrom, Printed, Act, Item.Valid, Item.Field;
      var spec := START;
      i, j := index, used;
      ghost var all := Printed(DirectiveFrom(text, i, args, j, spec));
      while fmt[i] != NUL
        invariant index <= i <= |text| && j <= |args| && Valid() && Text() == old(Text()) && spec.pad != NUL
        invariant DirectiveFrom(text, i, args, j, spec).end == Complete && Printed(DirectiveFrom(text, i, args, j, spec)) == all
        invariant target.str == null || target.str == old(target.str) || fresh(target.str)
        invariant !pooled ==> target.str == old(target.str) && target.maxlen == old(target.maxlen)
        decreases |text| - i
      {
        var c := fmt[i];
        DirectiveStep(text, i, args, j, spec);
        if StartsNumber(c) {
          var width, next := ReadWidth(fmt, text, i);
          spec, i := spec.WithWidth(width), next;
        } else {
          ActValid(c, spec, args[j..]);
          var action := Perform(c, spec, args, j);
          match action
          case Flag(flagged, n) =>
            spec, i, j := flagged, i + 1, j + n;
          case SetAttribute =>
            PrintedAttribute(DirectiveFrom(text, i + 1, args, j, spec));
            SetNoAttribute();
            i := i + 1;
          case Show(shown, n) =>
            PrintedBefore(Field(shown), ParseFrom(text, i + 1, args, j + n));
            return shown, i + 1, j + n;
        }
      }
      DirectiveOpen(text, i, args, j, spec);
      assert false;
    }

    /** PSETATTR without attributes, as the functions below have it. */
    method SetNoAttribute()
      requires Valid()
      modifies this, buffer, target, target.str
      ensures Valid() && Text() == old(Text())
      ensures target.str == null || target.str == old(target.str) || fresh(target.str)
      ensures !pooled ==> target.str == old(target.str) && target.maxlen == old(target.maxlen)
    {
      hide Text, Delivered;
      Flush();
    }
  }

  lemma ParseStep(text: seq<Char16>, i: nat, args: seq<Arg>, j: nat)
    requires i < |text| && j <= |args|
    ensures var p := ParseFrom(text, i, args, j);
            if text[i] == PERCENT then p == DirectiveFrom(text, i + 1, args, j, START)
            else
              var rest := ParseFrom(text, i + 1, args, j);
              p.end == rest.end && Printed(p) == ExpandChar(text[i]) + Printed(rest)
  {
    hide Directive, Printed, Expand;
    assert text[i..][0] == text[i] && text[i..][1..] == text[i + 1..];
    if text[i] != PERCENT {
      PrintedBefore(Literal(text[i]), ParseFrom(text, i + 1, args, j));
      ExpandLiteral(text[i]);
    }
  }

  /** One character of a directive, or one number. */
  lemma DirectiveStep(text: seq<Char16>, i: nat, args: seq<Arg>, j: nat, spec: Spec)
    requires i < |text| && j <= |args|
    ensures i + Leading(text[i..]) <= |text|
    ensures var d := DirectiveFrom(text, i, args, j, spec);
            if StartsNumber(text[i]) then
              d == DirectiveFrom(text, i + Leading(text[i..]), args, j, spec.WithWidth(Read(text[i..], 10, 0)))
            else
              match Act(text[i], spec, args[j..])
              case Flag(spec', used) => d == DirectiveFrom(text, i + 1, args, j + used, spec')
              case SetAttribute => d == Before(Attribute, DirectiveFrom(text, i + 1, args, j, spec))
              case Show(item, used) => d == Before(Field(item), ParseFrom(text, i + 1, args, j + used))
              case Wrong => d.end == Mismatch
  {
    hide Act, Leading, Parse;
    var n := Leading(text[i..]);
    assert text[i..][0] == text[i] && text[i..][1..] == text[i + 1..] && text[i..][n..] == text[i + n..];
    var a := Act(text[i], spec, args[j..]);
    if a.Flag? || a.Show? {
      assert args[j..][a.used..] == args[j + a.used..];
    }
  }

  lemma DirectiveOpen(text: seq<Char16>, i: nat, args: seq<Arg>, j: nat, spec: Spec)
    requires i == |text| && j <= |args|
    ensures DirectiveFrom(text, i, args, j, spec).end == Overrun
  {
  }

  /** What a format prints, line ends expanded. */
  function Printed(p: Plan): seq<Char16> {
    Expand(AllText(p.steps))
  }

  lemma PrintedBefore(step: Step, rest: Plan)
    ensures Printed(Before(step, rest)) == Expand(step.Text()) + Printed(rest)
  {
    hide Expand, Step.Text;
    assert ([step] + rest.steps)[1..] == rest.steps;
    ExpandAppend(step.Text(), AllText(rest.steps));
  }

  lemma PrintedAttribute(rest: Plan)
    ensures Printed(Before(Attribute, rest)) == Printed(rest)
  {
    PrintedBefore(Attribute, rest);
    assert Expand([]) + Printed(rest) == Printed(rest);
  }

  lemma ParseStart(text: seq<Char16>, args: seq<Arg>)
    ensures ParseFrom(text, 0, args, 0) == Parse(text, args)
  {
    assert text[0..] == text && args[0..] == args;
  }

  lemma ParseEnd(text: seq<Char16>, i: nat, args: seq<Arg>, j: nat)
    requires i == |text| && j <= |args|
    ensures Printed(ParseFrom(text, i, args, j)) == []
  {
  }

  lemma ExpandLiteral(c: Char16)
    ensures Expand(Literal(c).Text()) == ExpandChar(c)
  {
    ExpandOne([], c);
    assert [] + [c] == [c] && [] + ExpandChar(c) == ExpandChar(c);
  }

  /** The loop over the digits of a width. */
  method ReadWidth(fmt: seq<Char16>, ghost text: seq<Char16>, index: nat) returns (v: Word, i: nat)
    requires Terminated(fmt, text) && index < |text| && StartsNumber(fmt[index])
    ensures i == index + Leading(text[index..]) && index < i <= |text| && v == Read(text[index..], 10, 0)
  {
    hide Leading, Read;
    v, i := 0, index;
    ghost var rest := text[index..];
    DigitStep(rest, 0);
    while IsDigit(fmt[i])
      invariant index <= i <= |text| && i - index + Leading(text[i..]) == Leading(rest)
      invariant Read(text[i..], 10, v) == Read(rest, 10, 0)
      decreases |text| - i
    {
      DigitStep(text[i..], v);
      assert text[i..][0] == fmt[i] && text[i..][1..] == text[i + 1..];
      v := (v * 10 + (fmt[i] - ZERO)) % TWO64;
      i := i + 1;
    }
    DigitStep(text[i..], v);
  }

  lemma DigitStep(s: seq<Char16>, v: Word)
    ensures s != [] && IsDigit(s[0]) ==>
              Leading(s) == 1 + Leading(s[1..]) && Read(s, 10, v) == Read(s[1..], 10, (v * 10 + (s[0] - ZERO)) % TWO64)
    ensures s == [] || !IsDigit(s[0]) ==> Leading(s) == 0 && Read(s, 10, v) == v
  {
  }

  /** What a character of a directive does, with the numbers converted in the scratch buffer. */
  method Perform(c: Char16, spec: Spec, args: seq<Arg>, used: nat) returns (action: Action)
    requires used <= |args| && !StartsNumber(c)
    ensures action == Act(c, spec, args[used..])
  {
    if c in {'X' as int, 'x' as int, 'u' as int, 'd' as int} && used < |args| && args[used].Number? {
      var item := Convert(c, spec, args[used].word);
      action := Show(item, 1);
    } else {
      action := Act(c, spec, args[used..]);
    }
  }

  method Convert(c: Char16, spec: Spec, w: Word) returns (item: Item)
    requires c in {'X' as int, 'x' as int, 'u' as int, 'd' as int}
    ensures item == ItemOf(c, spec, w)
  {
    hide Numeral, SignedNumeral;
    var scratch := new Char16[PRINT_ITEM_BUFFER_LEN];
    if c == 'u' as int || c == 'd' as int {
      var v := if c == 'u' as int then Unsigned(w, spec.long) else Signed(w, spec.long);
      NumberText(v, spec.comma);
      ValueToString(scratch, spec.comma, v);
      var n := StrLen(scratch, SignedNumeral(v, spec.comma));
      item := spec.Of(scratch[..n]);
    } else {
      var v: nat := if spec.long then w else Low32(w);
      HexText(v);
      ValueToHex(scratch, v);
      var n := StrLen(scratch, Numeral(v, 16));
      item := if c == 'X' as int then spec.(width := if spec.long then 16 else 8, pad := '0' as int).Of(scratch[..n]) else spec.Of(scratch[..n]);
    }
  }

  /** The measuring part of PITEM: characters shown, width with padding, width of the field. */
  method Measure(item: Item) returns (length: nat, width: nat, fieldWidth: nat)
    requires item.Valid()
    ensures length <= |item.text| && item.text[..length] == item.Shown()
    ensures length <= width == item.Widened()
    ensures (if width < fieldWidth then fieldWidth - width else 0) == item.Blanks()
  {
    length := 0;
    while length < item.fieldWidth
      invariant length <= item.fieldWidth && length <= |item.text|
      decreases |item.text| - length
    {
      if length == |item.text| {
        break;
      }
      length := length + 1;
    }
    fieldWidth := if item.fieldWidth == NO_WIDTH then length else item.fieldWidth;
    width := if length > item.width then length else item.width;
  }

  lemma TwoChars(s: seq<Char16>, a: Char16, b: Char16)
    ensures s + [a] + [b] == s + [a, b]
  {
  }

  lemma OneMore(given: seq<Char16>, was: seq<Char16>, c: Char16)
    ensures given + (was + [c]) == given + was + [c]
    ensures NoNul(was) && c != NUL ==> NoNul(was + [c])
  {
  }

  lemma FieldExpanded(item: Item, blanks: nat, pads: nat, shown: seq<Char16>)
    requires shown == item.Shown() && blanks == item.Blanks() && pads == item.Widened() - |item.Shown()|
    ensures var b, p, t := Expand(Repeated(SPACE, blanks)), Expand(Repeated(item.pad, pads)), Expand(shown);
            Expand(item.Field()) == if item.padBefore then b + p + t else p + t + b
  {
    hide Expand, Item.Shown, Item.Blanks;
    ExpandField(Repeated(SPACE, blanks), Repeated(item.pad, pads), shown);
  }

  /** A field is its parts, one after the other. */
  lemma ExpandField(blanks: seq<Char16>, pads: seq<Char16>, shown: seq<Char16>)
    ensures Expand(blanks + (pads + shown)) == Expand(blanks) + Expand(pads) + Expand(shown)
    ensures Expand(pads + shown + blanks) == Expand(pads) + Expand(shown) + Expand(blanks)
  {
    hide Expand;
    ExpandAppend(pads, shown);
    ExpandAppend(blanks, pads + shown);
    ExpandAppend(pads + shown, blanks);
  }

  /** A chunk at the end of what the target has. */
  lemma Given(before: seq<Char16>, given: seq<Char16>, chunk: seq<Char16>, kept: nat, limit: nat)
    requires kept <= |before + given|
    ensures before + (given + chunk) == before + given + chunk
    ensures (before + given)[kept..] + chunk == (before + given + chunk)[kept..]
    ensures Truncated(Truncated(before + given, limit) + chunk, limit) == Truncated(before + given + chunk, limit)
  {
  }

  // ---------- the functions that callers use

  /** The limit that UnicodeVSPrint takes from a size in bytes; sizes below two wrap around to no limit. */
  function Limit(strSize: nat): nat {
    (strSize / 2 - 1) % 0x1_0000_0000_0000_0000
  }

  /** A format in order, with the arguments that it asks for. */
  ghost predicate Printable(fmt: seq<Char16>, text: seq<Char16>, args: seq<Arg>) {
    Terminated(fmt, text) && (forall k :: 0 <= k < |args| ==> args[k].Valid()) && Parse(text, args).end == Complete
  }

  /** A string of strSize bytes gets as much of the text as fits, and a terminator unless its limit is zero. */
  method UnicodeVSPrint(str: array<Char16>, strSize: nat, fmt: seq<Char16>, ghost text: seq<Char16>, args: seq<Arg>) returns (n: nat)
    requires Printable(fmt, text, args)
    requires Limit(strSize) > 0 ==> Min(|Printed(Parse(text, args))|, Limit(strSize)) < str.Length
    modifies str
    ensures var all := Printed(Parse(text, args));
            && n == Min(|all|, Limit(strSize)) && (2 <= strSize < TWO64 ==> n == Min(|all|, strSize / 2 - 1))
            && (Limit(strSize) > 0 ==> n < str.Length && str[..n] == all[..n] && str[n] == NUL)
  {
    hide Expand, AllText, Parse;
    var spc := new PrintTarget(str, Limit(strSize));
    var ps := new PrintState(spc, false, |Printed(Parse(text, args))|);
    var printed := ps.Print(fmt, text, args);
    n := spc.len;
    assert ps.before + ps.given == ps.given;
  }

  /** The pool string is the whole text; after a failed reallocation it is what was printed behind the failure, or null. */
  method VPoolPrint(fmt: seq<Char16>, ghost text: seq<Char16>, args: seq<Arg>) returns (str: array?<Char16>, ghost spc: PrintTarget)
    requires Printable(fmt, text, args)
    ensures fresh(spc) && str == spc.str
    ensures str != null ==> TailOf(str[..], Printed(Parse(text, args)))
    ensures !spc.Refused(0) ==> str != null && Terminated(str[..], Printed(Parse(text, args)))
  {
    PrintedText(text, args);
    var pool := new PrintTarget(null, 0);
    var ps := new PrintState(pool, true, 0);
    hide Printed, Parse, NoNul, Terminated, TailOf;
    var printed := ps.Print(fmt, text, args);
    ghost var all := Printed(Parse(text, args));
    assert ps.before + ps.given == all;
    str, spc := pool.str, pool;
    if pool.maxlen > 0 {
      TerminatedTail(str[..], all, ps.kept, pool.len);
    }
  }

  lemma TerminatedTail(b: seq<Char16>, all: seq<Char16>, kept: nat, len: nat)
    requires NoNul(all) && kept <= |all| && len < |b| && b[..len] == all[kept..] && b[len] == NUL
    ensures Terminated(b, all[kept..]) && TailOf(b, all)
    ensures kept == 0 ==> Terminated(b, all)
  {
    assert all[0..] == all;
  }

  /** A terminated buffer with the end of a text. */
  ghost predicate TailOf(b: seq<Char16>, all: seq<Char16>) {
    exists kept: nat :: kept <= |all| && Terminated(b, all[kept..])
  }

  /** No format prints a terminator. */
  lemma PrintedText(text: seq<Char16>, args: seq<Arg>)
    requires NoNul(text) && forall k :: 0 <= k < |args| ==> args[k].Valid()
    ensures NoNul(Printed(Parse(text, args)))
  {
    ParsedValid(text, args);
    StepsText(Parse(text, args).steps);
    ExpandNoNul(AllText(Parse(text, args).steps));
  }

  lemma {:induction false} StepsText(steps: seq<Step>)
    requires forall k :: 0 <= k < |steps| ==> steps[k].Valid()
    ensures NoNul(AllText(steps))
  {
    hide Step.Valid, Step.Text;
    if steps != [] {
      StepsText(steps[1..]);
      StepText(steps[0]);
    }
  }

  lemma StepText(step: Step)
    requires step.Valid()
    ensures NoNul(step.Text())
  {
    if step.Field? {
      FieldWidth(step.item);
    }
  }

  lemma {:induction false} ExpandNoNul(s: seq<Char16>)
    requires NoNul(s)
    ensures NoNul(Expand(s))
  {
    if s != [] {
      ExpandNoNul(s[..|s| - 1]);
    }
  }

  /** CatPrint adds to what the target has. */
  method CatPrint(spc: PrintTarget, fmt: seq<Char16>, ghost text: seq<Char16>, args: seq<Arg>)
    requires spc.Pooled() && Printable(fmt, text, args)
    modifies spc, spc.str
    ensures spc.Pooled()
    ensures !spc.Refused(|old(spc.requests)|) ==> spc.maxlen > 0 && spc.Contents() == old(spc.Contents()) + Printed(Parse(text, args))
    ensures !spc.Refused(|old(spc.requests)|) ==> spc.str[spc.len] == NUL
    ensures EndOf(spc.Contents(), old(spc.Contents()) + Printed(Parse(text, args)))
  {
    hide Expand, AllText, Parse;
    var ps := new PrintState(spc, true, 0);
    var printed := ps.Print(fmt, text, args);
    ghost var all := old(spc.Contents()) + Printed(Parse(text, args));
    assert spc.Contents() == all[ps.kept..];
  }

  /** The text from some position on. */
  ghost predicate EndOf(s: seq<Char16>, all: seq<Char16>) {
    exists kept: nat :: kept <= |all| && s == all[kept..]
  }

  // ---------- what a field is

  /** A field is as wide as its widest demand, and shows the whole text unless the field is narrower. */
  lemma FieldWidth(item: Item)
    requires item.Valid()
    ensures |item.Field()| >= item.width && |item.Field()| >= |item.Shown()|
    ensures item.fieldWidth != 0xffff_ffff_ffff_ffff ==> |item.Field()| >= item.fieldWidth
    ensures |item.Field()| in {item.width, |item.Shown()|, item.fieldWidth}
    ensures item.Shown() == item.text <==> |item.text| <= item.fieldWidth
    ensures NoNul(item.Field())
  {
  }

  /**
   The '-' flag clears padBefore.  The text then starts the field exactly when the width adds no padding or the text
   consists of the pad character: padding to the width is always in front, whatever the flag's description says.
   */
  lemma LeftJustifiedIff(item: Item)
    requires item.Valid() && !item.padBefore
    ensures item.Shown() <= item.Field()
       <==> item.width <= |item.Shown()| || forall k :: 0 <= k < |item.Shown()| ==> item.Shown()[k] == item.pad
  {
    hide Item.Shown, Item.Blanks;
    var shown, w := item.Shown(), item.Widened() - |item.Shown()|;
    var padded := Repeated(item.pad, w) + shown;
    assert item.Field() == padded + Repeated(SPACE, item.Blanks());
    if w == 0 {
      assert padded == shown;
    } else {
      if shown <= item.Field() {
        forall k: nat | k < |shown|
          ensures shown[k] == item.pad
        {
          PaddedIsPad(shown, item.pad, w, Repeated(SPACE, item.Blanks()), k);
        }
      }
      AllPad(shown, item.pad, w, Repeated(SPACE, item.Blanks()));
    }
  }

  lemma AllPad(shown: seq<Char16>, pad: Char16, w: nat, rest: seq<Char16>)
    ensures (forall k :: 0 <= k < |shown| ==> shown[k] == pad) ==> shown <= Repeated(pad, w) + shown + rest
  {
  }

  /** A text that its own padding does not show against is padding throughout. */
  lemma {:induction false} PaddedIsPad(shown: seq<Char16>, pad: Char16, w: nat, rest: seq<Char16>, k: nat)
    requires w > 0 && k < |shown| && shown <= Repeated(pad, w) + shown + rest
    ensures shown[k] == pad
    decreases k
  {
    assert shown[k] == (Repeated(pad, w) + shown + rest)[k];
    if k >= w {
      PaddedIsPad(shown, pad, w, rest, k - w);
    }
  }
}
