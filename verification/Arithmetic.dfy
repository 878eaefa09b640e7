/** Division and remainder under wrap-around. */
module Arithmetic {
  lemma MulMonotone(x: int, y: int, d: int)
    requires d >= 0
    ensures x >= y ==> x * d >= y * d
  {
  }

  /** Quotient and remainder are unique. */
  lemma DivModUnique(x: int, d: int, q: int, r: int)
    requires 0 <= r < d && x == q * d + r
    ensures x / d == q && x % d == r
  {
    var k := x / d - q;
    assert k * d == r - x % d by {
      assert x / d * d + x % d == x;
      assert (x / d - q) * d == x / d * d - q * d;
    }
    MulMonotone(k, 1, d);
    MulMonotone(-1, k, d);
  }

  /** Dividing a wrapped number is wrapping the quotient. */
  lemma WrapDiv(x: int, a: int, b: int)
    requires a > 0 && b > 0
    ensures a * b > 0 && x % (a * b) / a == x / a % b
  {
    var q, r := x / (a * b), x % (a * b);
    var s, t := r / a, r % a;
    assert r == s * a + t;
    assert 0 <= s < b by {
      MulMonotone(s, b, a);
    }
    assert x == (q * b + s) * a + t by {
      assert q * (a * b) == (q * b) * a;
    }
    DivModUnique(x, a, q * b + s, t);
    DivModUnique(x / a, b, q, s);
  }

  /** Wrapping at a multiple does not show after wrapping at the number itself. */
  lemma WrapWrap(x: int, m: int, k: int)
    requires m > 0 && k > 0
    ensures m * k > 0 && x % (m * k) % m == x % m
  {
    var q, r := x / (m * k), x % (m * k);
    assert x == (q * k + r / m) * m + r % m by {
      assert r == r / m * m + r % m;
      assert q * (m * k) == (q * k) * m;
    }
    DivModUnique(x, m, q * k + r / m, r % m);
  }

  /** Wrapping a summand early does not change a wrapped sum. */
  lemma WrapAdd(a: int, b: int, m: int)
    requires m > 0
    ensures (a + b % m) % m == (a + b) % m
  {
    var q, r := b / m, b % m;
    var p, s := (a + r) / m, (a + r) % m;
    assert a + b == (p + q) * m + s by {
      assert q * m + r == b;
      assert p * m + s == a + r;
    }
    DivModUnique(a + b, m, p + q, s);
  }

  lemma AddMultiple(x: int, k: int, d: int)
    requires d > 0
    ensures (x + k * d) / d == x / d + k && (x + k * d) % d == x % d
  {
    assert x + k * d == (x / d + k) * d + x % d;
    DivModUnique(x + k * d, d, x / d + k, x % d);
  }

  function Pow2(n: nat): (p: nat)
    ensures p > 0
  {
    if n == 0 then 1 else 2 * Pow2(n - 1)
  }

  lemma {:induction false} Pow2Add(a: nat, b: nat)
    ensures Pow2(a + b) == Pow2(a) * Pow2(b)
  {
    if a > 0 {
      Pow2Add(a - 1, b);
    }
  }
}
