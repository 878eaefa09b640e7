/**
 MetaMatch: the library's wildcard matcher, and what it accepts.

 Strings are NUL-terminated: reading at the length gives NUL, and reading further runs out of the string.
 */
module Glob {
  /** NUL-terminated text does not contain NUL. */
  type Text = s: string | '\0' !in s

  datatype Outcome = Match | NoMatch | Overrun

  // ---------- what a pattern means

  datatype Token = Star | AnyChar | OneOf(body: Text) | Literal(c: char)

  /** A pattern is a list of tokens, or ends in a '[' that is never closed, followed by `tail`. */
  datatype Parsed = Closed(tokens: seq<Token>) | Unclosed(tokens: seq<Token>, tail: Text)

  /** The text up to the first ']' and the text behind it. */
  function SplitAtBracket(q: Text): (r: (bool, Text, Text))
    ensures r.0 ==> q == r.1 + [']'] + r.2 && ']' !in r.1
    ensures !r.0 ==> ']' !in q && r.1 == q && r.2 == []
  {
    if q == [] then (false, [], [])
    else if q[0] == ']' then (true, [], q[1..])
    else
      var (found, body, rest) := SplitAtBracket(q[1..]);
      (found, [q[0]] + body, rest)
  }

  function Prepend(t: Token, p: Parsed): Parsed {
    p.(tokens := [t] + p.tokens)
  }

  function Parse(p: Text): Parsed
    decreases |p|
  {
    if p == [] then Closed([])
    else if p[0] == '*' then Prepend(Star, Parse(p[1..]))
    else if p[0] == '?' then Prepend(AnyChar, Parse(p[1..]))
    else if p[0] == '[' then
      var (found, body, rest) := SplitAtBracket(p[1..]);
      if found then Prepend(OneOf(body), Parse(rest)) else Unclosed([], p[1..])
    else Prepend(Literal(p[0]), Parse(p[1..]))
  }

  /** The lower end of a range whose '-' stands at j: the character before it, or none. */
  function LowEnd(body: Text, j: nat): char
    requires j < |body|
  {
    if j == 0 then '\0' else body[j - 1]
  }

  /** c equals the literal at j, or lies in the range whose '-' is at j, or is that range's upper end. */
  predicate InSetAt(c: char, body: Text, j: nat)
    requires j < |body|
  {
    if body[j] != '-' then c == body[j]
    else j + 1 < |body| && (LowEnd(body, j) <= c <= body[j + 1] || c == body[j + 1])
  }

  /** Some position from j on admits c. */
  ghost predicate InSetFrom(c: char, body: Text, j: nat) {
    exists i: nat :: j <= i < |body| && InSetAt(c, body, i)
  }

  ghost predicate InSet(c: char, body: Text) {
    InSetFrom(c, body, 0)
  }

  /** The piece of text that one token stands for. */
  ghost predicate Fits(t: Token, piece: Text) {
    match t
    case Star => true
    case AnyChar => |piece| == 1
    case OneOf(body) => |piece| == 1 && InSet(piece[0], body)
    case Literal(c) => piece == [c]
  }

  function Concat(pieces: seq<Text>): Text {
    if pieces == [] then [] else pieces[0] + Concat(pieces[1..])
  }

  /** These pieces are a cut of the text for these tokens. */
  ghost predicate Cut(tokens: seq<Token>, pieces: seq<Text>, s: Text) {
    |pieces| == |tokens| && Concat(pieces) == s && forall i :: 0 <= i < |tokens| ==> Fits(tokens[i], pieces[i])
  }

  /** The text can be cut into consecutive pieces, one for each token. */
  ghost predicate Matches(tokens: seq<Token>, s: Text) {
    exists pieces: seq<Text> :: Cut(tokens, pieces, s)
  }

  // ---------- the matcher as a recursive function

  datatype Scan = Fail | Hit(rest: Text) | RanOut

  /** The scan of a set for c, with the previous character l; a hit leaves the pattern where it was found. */
  function ScanSet(c: char, l: char, q: Text): (r: Scan)
    ensures r.Hit? ==> |r.rest| < |q|
    decreases |q|
  {
    if q == [] then RanOut
    else if q[0] == ']' then Fail
    else if q[0] == '-' then
      if |q| == 1 || q[1] == ']' then Fail
      else if l <= c <= q[1] || c == q[1] then Hit(q[1..])
      else ScanSet(c, q[1], q[1..])
    else if c == q[0] then Hit(q[1..])
    else ScanSet(c, q[0], q[1..])
  }

  function Eval(s: Text, p: Text): Outcome
    decreases |p|, |s|, 0
  {
    if p == [] then
      if s == [] then Match else NoMatch
    else if p[0] == '*' then EvalStar(s, p[1..])
    else if s == [] then NoMatch
    else if p[0] == '?' then Eval(s[1..], p[1..])
    else if p[0] == '[' then
      match ScanSet(s[0], '\0', p[1..])
      case Fail => NoMatch
      case RanOut => Overrun
      case Hit(rest) =>
        var (found, _, behind) := SplitAtBracket(rest);
        if found then Eval(s[1..], behind) else Overrun
    else if s[0] == p[0] then Eval(s[1..], p[1..])
    else NoMatch
  }

  /** Zero or more characters: the first way to go on that does not fail decides. */
  function EvalStar(s: Text, rest: Text): Outcome
    decreases |rest|, |s|, 1
  {
    var r := Eval(s, rest);
    if s == [] || r != NoMatch then r else EvalStar(s[1..], rest)
  }

  // ---------- sets

  /** The previous character the scan carries is the low end that a '-' here needs. */
  predicate Carries(l: char, body: Text, j: nat) {
    j < |body| && body[j] == '-' ==> l == LowEnd(body, j)
  }

  lemma InSetFromStep(c: char, body: Text, j: nat)
    requires j < |body|
    ensures InSetFrom(c, body, j) <==> InSetAt(c, body, j) || InSetFrom(c, body, j + 1)
  {
  }

  /** From position j of a set's body, the scan hits exactly when some position from j on admits c. */
  lemma {:induction false} ScanFrom(c: char, l: char, q: Text, j: nat)
    requires j <= |SplitAtBracket(q).1| && Carries(l, SplitAtBracket(q).1, j)
    ensures var (found, body, behind) := SplitAtBracket(q);
            var r := ScanSet(c, l, q[j..]);
            && (r.Hit? <==> InSetFrom(c, body, j))
            && (r.Hit? ==> SplitAtBracket(r.rest).0 == found && SplitAtBracket(r.rest).2 == behind)
            && (r.RanOut? <==> !r.Hit? && !found && (j == |body| || body[|body| - 1] != '-'))
    decreases |q| - j
  {
    var (found, body, behind) := SplitAtBracket(q);
    hide SplitAtBracket, InSetFrom;
    if j == |body| {
      assert !InSetFrom(c, body, j) by { NoneLeft(c, body); }
    } else {
      assert q[j] == body[j] && q[j..][0] == q[j] && q[j..][1..] == q[j + 1..];
      assert j + 1 < |q| ==> q[j..][1] == q[j + 1];
      assert j + 1 < |body| ==> q[j + 1] == body[j + 1];
      SplitOfSuffix(q, j + 1);
      InSetFromStep(c, body, j);
      if InSetAt(c, body, j) {
      } else if j + 1 == |body| && q[j] == '-' {
        NoneLeft(c, body);
      } else {
        ScanFrom(c, if q[j] == '-' then q[j + 1] else q[j], q, j + 1);
      }
    }
  }

  lemma NoneLeft(c: char, body: Text)
    ensures !InSetFrom(c, body, |body|)
  {
  }

  lemma {:induction false} SplitOfSuffix(q: Text, j: nat)
    requires j <= |SplitAtBracket(q).1|
    ensures SplitAtBracket(q[j..]).0 == SplitAtBracket(q).0 && SplitAtBracket(q[j..]).2 == SplitAtBracket(q).2
    decreases j
  {
    if j > 0 {
      assert q[1..][j - 1..] == q[j..];
      SplitOfSuffix(q[1..], j - 1);
    }
  }

  /** An unclosed set runs the scan for c out of the pattern, unless it ends in '-' and does not admit c. */
  ghost predicate TailOverruns(c: char, tail: Text) {
    InSetFrom(c, tail, 0) || tail == [] || tail[|tail| - 1] != '-'
  }

  // ---------- pieces

  lemma MatchesNone(s: Text)
    ensures Matches([], s) <==> s == []
  {
    if s == [] {
      assert Cut([], [], s);
    }
  }

  lemma CutFirst(t: Token, tokens: seq<Token>, piece: Text, pieces: seq<Text>, s: Text)
    ensures Cut([t] + tokens, [piece] + pieces, piece + s) <==> Fits(t, piece) && Cut(tokens, pieces, s)
  {
    hide Fits;
    var all, ps := [t] + tokens, [piece] + pieces;
    assert ps[1..] == pieces && Concat(ps) == piece + Concat(pieces);
    assert piece + Concat(pieces) == piece + s <==> Concat(pieces) == s by {
      assert (piece + Concat(pieces))[|piece|..] == Concat(pieces) && (piece + s)[|piece|..] == s;
    }
    if Cut(all, ps, piece + s) {
      assert Fits(all[0], ps[0]);
      forall i | 0 <= i < |tokens|
        ensures Fits(tokens[i], pieces[i])
      {
        assert Fits(all[i + 1], ps[i + 1]);
      }
    }
  }

  lemma MatchesFirst(t: Token, tokens: seq<Token>, s: Text)
    ensures Matches([t] + tokens, s) <==> exists k: nat :: k <= |s| && Fits(t, s[..k]) && Matches(tokens, s[k..])
  {
    hide Fits, Concat;
    if Matches([t] + tokens, s) {
      var ps: seq<Text> :| Cut([t] + tokens, ps, s);
      var k := |ps[0]|;
      assert s == ps[0] + Concat(ps[1..]) by { ConcatFirst(ps); }
      assert s[..k] == ps[0] && ps == [ps[0]] + ps[1..] && s == s[..k] + s[k..];
      CutFirst(t, tokens, s[..k], ps[1..], s[k..]);
      assert Fits(t, s[..k]) && Matches(tokens, s[k..]);
    }
    if k: nat :| k <= |s| && Fits(t, s[..k]) && Matches(tokens, s[k..]) {
      var ps: seq<Text> :| Cut(tokens, ps, s[k..]);
      CutFirst(t, tokens, s[..k], ps, s[k..]);
      assert s == s[..k] + s[k..];
    }
  }

  lemma ConcatFirst(pieces: seq<Text>)
    requires pieces != []
    ensures Concat(pieces) == pieces[0] + Concat(pieces[1..])
  {
  }

  /** What a pattern that is never closed can reach: its tokens match up to some character that overruns the tail. */
  ghost predicate Stuck(tokens: seq<Token>, tail: Text, s: Text) {
    exists m: nat :: m < |s| && Matches(tokens, s[..m]) && TailOverruns(s[m], tail)
  }

  ghost predicate Reaches(p: Parsed, s: Text) {
    match p
    case Closed(tokens) => Matches(tokens, s)
    case Unclosed(tokens, tail) => Stuck(tokens, tail, s)
  }

  lemma ReachesFirst(t: Token, p: Parsed, s: Text)
    ensures Reaches(Prepend(t, p), s) <==> exists k: nat :: k <= |s| && Fits(t, s[..k]) && Reaches(p, s[k..])
  {
    hide Fits, Matches;
    if p.Closed? {
      MatchesFirst(t, p.tokens, s);
    } else {
      if Stuck([t] + p.tokens, p.tail, s) {
        StuckSplits(t, p.tokens, p.tail, s);
      }
      if k: nat :| k <= |s| && Fits(t, s[..k]) && Stuck(p.tokens, p.tail, s[k..]) {
        StuckJoins(t, p.tokens, p.tail, s, k);
      }
    }
  }

  lemma StuckSplits(t: Token, tokens: seq<Token>, tail: Text, s: Text)
    requires Stuck([t] + tokens, tail, s)
    ensures exists k: nat :: k <= |s| && Fits(t, s[..k]) && Stuck(tokens, tail, s[k..])
  {
    hide Fits, Matches, TailOverruns;
    var m: nat :| m < |s| && Matches([t] + tokens, s[..m]) && TailOverruns(s[m], tail);
    MatchesFirst(t, tokens, s[..m]);
    var k: nat :| k <= m && Fits(t, s[..m][..k]) && Matches(tokens, s[..m][k..]);
    assert s[..m][..k] == s[..k] && s[..m][k..] == s[k..][..m - k] && s[k..][m - k] == s[m];
    assert Stuck(tokens, tail, s[k..]);
  }

  lemma StuckJoins(t: Token, tokens: seq<Token>, tail: Text, s: Text, k: nat)
    requires k <= |s| && Fits(t, s[..k]) && Stuck(tokens, tail, s[k..])
    ensures Stuck([t] + tokens, tail, s)
  {
    hide Fits, Matches, TailOverruns;
    var n: nat :| n < |s[k..]| && Matches(tokens, s[k..][..n]) && TailOverruns(s[k..][n], tail);
    var m := k + n;
    assert s[..m][..k] == s[..k] && s[..m][k..] == s[k..][..n] && s[m] == s[k..][n];
    MatchesFirst(t, tokens, s[..m]);
  }

  /** The outcome when a pattern's end is reached. */
  function Verdict(p: Parsed): Outcome {
    if p.Closed? then Match else Overrun
  }

  /**
   The matcher is exact, for every text and every pattern.  A pattern whose sets are all closed matches precisely the
   texts that can be cut into pieces its tokens stand for.  A pattern with an unclosed set never matches: the matcher
   reads past its end precisely on the texts of which some prefix matches the tokens before the set and the next
   character overruns the set.
   */
  lemma {:induction false} EvalMeaning(s: Text, p: Text)
    ensures Eval(s, p) == if Reaches(Parse(p), s) then Verdict(Parse(p)) else NoMatch
    decreases |p|, |s|, 1
  {
    if p == [] {
      MatchesNone(s);
    } else if p[0] == '*' {
      EvalStarMeaning(s, p[1..]);
      ReachesFirst(Star, Parse(p[1..]), s);
    } else if p[0] == '?' {
      EvalOne(AnyChar, Parse(p[1..]), s);
      if s != [] {
        EvalMeaning(s[1..], p[1..]);
      }
    } else if p[0] == '[' {
      EvalSet(s, p);
    } else {
      EvalOne(Literal(p[0]), Parse(p[1..]), s);
      if s != [] {
        EvalMeaning(s[1..], p[1..]);
      }
    }
  }

  /** A token for exactly one character. */
  lemma EvalOne(t: Token, p: Parsed, s: Text)
    requires !t.Star?
    ensures Reaches(Prepend(t, p), s) <==> s != [] && Fits(t, s[..1]) && Reaches(p, s[1..])
  {
    ReachesFirst(t, p, s);
    if k: nat :| k <= |s| && Fits(t, s[..k]) && Reaches(p, s[k..]) {
      assert k == 1;
    }
  }

  lemma {:induction false} EvalSet(s: Text, p: Text)
    requires p != [] && p[0] == '['
    ensures Eval(s, p) == if Reaches(Parse(p), s) then Verdict(Parse(p)) else NoMatch
    decreases |p|, |s|, 0
  {
    var q := p[1..];
    var (found, body, behind) := SplitAtBracket(q);
    if s != [] {
      ScanFrom(s[0], '\0', q, 0);
      assert q[0..] == q;
    }
    if found {
      EvalOne(OneOf(body), Parse(behind), s);
      if s != [] {
        EvalMeaning(s[1..], behind);
      }
    } else {
      StuckHere(body, s);
    }
  }

  lemma StuckHere(tail: Text, s: Text)
    ensures Stuck([], tail, s) <==> s != [] && TailOverruns(s[0], tail)
  {
    if m: nat :| m < |s| && Matches([], s[..m]) && TailOverruns(s[m], tail) {
      MatchesNone(s[..m]);
    }
    if s != [] && TailOverruns(s[0], tail) {
      MatchesNone(s[..0]);
    }
  }

  lemma {:induction false} EvalStarMeaning(s: Text, rest: Text)
    ensures EvalStar(s, rest)
         == if exists k: nat :: k <= |s| && Reaches(Parse(rest), s[k..]) then Verdict(Parse(rest)) else NoMatch
    decreases |rest|, |s|, 2
  {
    hide Eval, Reaches, Parse, Verdict;
    EvalMeaning(s, rest);
    assert s[0..] == s;
    if s != [] {
      EvalStarMeaning(s[1..], rest);
      if k: nat :| k <= |s| && Reaches(Parse(rest), s[k..]) {
        if k > 0 {
          assert s[1..][k - 1..] == s[k..];
        }
      }
      if k: nat :| k <= |s[1..]| && Reaches(Parse(rest), s[1..][k..]) {
        assert s[1..][k..] == s[k + 1..];
      }
    }
  }

  // ---------- when reading past the end is possible at all

  /** Sets that admit no character: nothing, or a lone '-'. */
  predicate Barren(body: Text) {
    body == [] || body == "-"
  }

  predicate CanOverrun(p: Parsed) {
    p.Unclosed? && p.tail != "-" && forall t :: t in p.tokens && t.OneOf? ==> !Barren(t.body)
  }

  /** A character that a set admits, if it admits any. */
  function Sample(body: Text): char {
    if exists j :: 0 <= j < |body| && body[j] != '-' then
      FirstOther(body)
    else '-'
  }

  function FirstOther(body: Text): (c: char)
    requires exists j :: 0 <= j < |body| && body[j] != '-'
    ensures c != '-' && c in body
  {
    if body[0] != '-' then body[0] else FirstOther(body[1..])
  }

  lemma SampleFits(body: Text)
    ensures Barren(body) <==> !exists c :: InSet(c, body)
    ensures !Barren(body) ==> InSet(Sample(body), body) && Sample(body) != '\0'
  {
    if !Barren(body) {
      if exists j :: 0 <= j < |body| && body[j] != '-' {
        var j: nat :| j < |body| && body[j] == FirstOther(body);
        assert InSetAt(Sample(body), body, j);
        assert InSet(Sample(body), body);
      } else {
        assert body[0] == '-' && body[1] == '-';
        assert InSetAt('-', body, 0);
        assert InSet('-', body);
      }
    }
  }

  function SampleOf(t: Token): Text
    requires t.Literal? ==> t.c != '\0'
  {
    match t
    case Star => []
    case AnyChar => "a"
    case OneOf(body) => var c := Sample(body); if c == '\0' then "a" else [c]
    case Literal(c) => [c]
  }

  lemma {:induction false} LiteralsOfParse(p: Text)
    ensures forall t :: t in Parse(p).tokens && t.Literal? ==> t.c != '\0'
    decreases |p|
  {
    if p != [] {
      assert p[0] in p;
      if p[0] == '[' {
        LiteralsOfParse(SplitAtBracket(p[1..]).2);
      } else {
        LiteralsOfParse(p[1..]);
      }
    }
  }

  /** A text that the tokens match. */
  lemma {:induction false} SampleText(tokens: seq<Token>) returns (s: Text)
    requires forall t :: t in tokens && t.Literal? ==> t.c != '\0'
    requires forall t :: t in tokens && t.OneOf? ==> !Barren(t.body)
    ensures Matches(tokens, s)
    decreases |tokens|
  {
    if tokens == [] {
      s := [];
      MatchesNone(s);
    } else {
      var rest := SampleText(tokens[1..]);
      var t := tokens[0];
      assert t in tokens && tokens == [t] + tokens[1..];
      if t.OneOf? {
        SampleFits(t.body);
      }
      var piece := SampleOf(t);
      s := piece + rest;
      assert s[..|piece|] == piece && s[|piece|..] == rest;
      MatchesFirst(t, tokens[1..], s);
    }
  }

  lemma {:induction false} MatchedSetsNotBarren(tokens: seq<Token>, s: Text, body: Text)
    requires Matches(tokens, s) && OneOf(body) in tokens
    ensures !Barren(body)
    decreases |tokens|
  {
    assert tokens == [tokens[0]] + tokens[1..];
    MatchesFirst(tokens[0], tokens[1..], s);
    var k: nat :| k <= |s| && Fits(tokens[0], s[..k]) && Matches(tokens[1..], s[k..]);
    if tokens[0] == OneOf(body) {
      SampleFits(body);
    } else {
      MatchedSetsNotBarren(tokens[1..], s[k..], body);
    }
  }

  /**
   The matcher can be made to read past the end of a pattern exactly when some set in it is never closed, that set is
   not just "-", and every set before it admits some character.
   */
  lemma OverrunIff(p: Text)
    ensures (exists s: Text :: Eval(s, p) == Overrun) <==> CanOverrun(Parse(p))
  {
    var q := Parse(p);
    if s: Text :| Eval(s, p) == Overrun {
      EvalMeaning(s, p);
      var m: nat :| m < |s| && Matches(q.tokens, s[..m]) && TailOverruns(s[m], q.tail);
      SampleFits(q.tail);
      forall t | t in q.tokens && t.OneOf?
        ensures !Barren(t.body)
      {
        MatchedSetsNotBarren(q.tokens, s[..m], t.body);
      }
    }
    if CanOverrun(q) {
      LiteralsOfParse(p);
      SampleFits(q.tail);
      var head := SampleText(q.tokens);
      var c := if q.tail == [] then 'a' else Sample(q.tail);
      var s: Text := head + [c];
      assert s[..|head|] == head && s[|head|] == c;
      assert Stuck(q.tokens, q.tail, s);
      EvalMeaning(s, p);
      assert Eval(s, p) == Overrun;
    }
  }

  // ---------- the loop

  /** The character at a position, or the terminating NUL. */
  function At(s: Text, i: nat): char
    requires i <= |s|
  {
    if i < |s| then s[i] else '\0'
  }

  method MetaMatch(str: Text, pattern: Text) returns (r: Outcome)
    ensures r == Eval(str, pattern)
    decreases |pattern|
  {
    var si, pi := 0, 0;
    while true
      invariant si <= |str| && pi <= |pattern| + 1
      invariant pi <= |pattern| ==> Eval(str, pattern) == Eval(str[si..], pattern[pi..])
      invariant pi > |pattern| ==> Eval(str, pattern) == Overrun
      decreases |pattern| + 1 - pi
    {
      if pi > |pattern| {
        return Overrun;
      }
      ghost var s, rest := str[si..], pattern[pi..];
      var p := At(pattern, pi);
      pi := pi + 1;
      if p == '\0' {
        return if At(str, si) != '\0' then NoMatch else Match;
      } else if p == '*' {
        assert pattern[pi..] == rest[1..];
        while At(str, si) != '\0'
          invariant si <= |str| && Eval(str, pattern) == EvalStar(str[si..], pattern[pi..])
          decreases |str| - si
        {
          var here := MetaMatch(str[si..], pattern[pi..]);
          if here != NoMatch {
            return here;
          }
          assert str[si..][1..] == str[si + 1..];
          si := si + 1;
        }
        r := MetaMatch(str[si..], pattern[pi..]);
        return;
      } else if p == '?' {
        if At(str, si) == '\0' {
          return NoMatch;
        }
        assert str[si + 1..] == s[1..] && pattern[pi..] == rest[1..];
        si := si + 1;
      } else if p == '[' {
        var c := At(str, si);
        if c == '\0' {
          return NoMatch;
        }
        assert pattern[pi..] == rest[1..] && str[si + 1..] == s[1..];
        var fail;
        fail, pi := MatchSet(c, pattern, pi);
        if fail {
          return NoMatch;
        }
        si := si + 1;
      } else {
        if At(str, si) != p {
          return NoMatch;
        }
        assert str[si + 1..] == s[1..] && pattern[pi..] == rest[1..];
        si := si + 1;
      }
    }
  }

  /** The first ']' ahead is the same one. */
  predicate SameEnd(a: Text, b: Text) {
    SplitAtBracket(a).0 == SplitAtBracket(b).0 && SplitAtBracket(a).2 == SplitAtBracket(b).2
  }

  /** The two inner loops: scan the set for c, then skip to the end of the set. */
  method MatchSet(c: char, pattern: Text, start: nat) returns (fail: bool, pi: nat)
    requires start <= |pattern| && c != '\0'
    ensures start <= pi <= |pattern| + 1
    ensures var scan := ScanSet(c, '\0', pattern[start..]);
            && (fail <==> scan.Fail?)
            && (scan.RanOut? ==> pi == |pattern| + 1)
            && (scan.Hit? ==> if SplitAtBracket(scan.rest).0 then pi <= |pattern| && pattern[pi..] == SplitAtBracket(scan.rest).2
                              else pi == |pattern| + 1)
  {
    pi := start;
    fail := false;
    var l, p := '\0', '\0';
    while true
      invariant start <= pi <= |pattern| && ScanSet(c, '\0', pattern[start..]) == ScanSet(c, l, pattern[pi..])
      decreases |pattern| - pi
    {
      ghost var rest := pattern[pi..];
      p := At(pattern, pi);
      pi := pi + 1;
      if p == '\0' {
        break;
      }
      assert pattern[pi..] == rest[1..];
      if p == ']' {
        return true, pi;
      }
      if p == '-' {
        p := At(pattern, pi);
        if p == '\0' || p == ']' {
          return true, pi;
        }
        if l <= c <= p {
          break;
        }
      }
      l := p;
      if c == p {
        break;
      }
    }
    ghost var scan := ScanSet(c, '\0', pattern[start..]);
    while p != '\0' && p != ']'
      invariant start <= pi <= |pattern| + 1 && p in pattern + ['\0']
      invariant p != '\0' && p != ']' ==> pi <= |pattern| && scan.Hit? && SameEnd(scan.rest, pattern[pi..])
      invariant p == '\0' ==> pi == |pattern| + 1 && (scan.RanOut? || (scan.Hit? && !SplitAtBracket(scan.rest).0))
      invariant p == ']' ==> pi <= |pattern| && scan.Hit? && SplitAtBracket(scan.rest).0 && pattern[pi..] == SplitAtBracket(scan.rest).2
      decreases |pattern| + 1 - pi
    {
      ghost var rest := pattern[pi..];
      p := At(pattern, pi);
      pi := pi + 1;
      assert p != '\0' ==> pattern[pi..] == rest[1..];
    }
  }
}
