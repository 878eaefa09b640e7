/** UCS-2 characters and terminated buffers of them. */
module Characters {
  type Char16 = c: int | 0 <= c < 0x1_0000

  const NUL: Char16 := 0
  const SPACE: Char16 := 32

  ghost predicate NoNul(s: seq<Char16>) {
    forall k :: 0 <= k < |s| ==> s[k] != 0
  }

  /** A buffer that holds a text and its terminator. */
  ghost predicate Terminated(b: seq<Char16>, text: seq<Char16>) {
    NoNul(text) && |text| < |b| && b[..|text|] == text && b[|text|] == 0
  }

  function Min(a: nat, b: nat): nat {
    if a <= b then a else b
  }

  lemma ThreeParts(s: seq<Char16>, a: seq<Char16>, b: seq<Char16>)
    ensures s + a + b == s + (a + b)
  {
  }

  lemma FourParts(s: seq<Char16>, a: seq<Char16>, b: seq<Char16>, c: seq<Char16>)
    ensures s + a + b + c == s + (a + b + c)
  {
  }
}
