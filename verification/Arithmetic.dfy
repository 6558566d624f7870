/** Division facts that several modules need. */
module Arithmetic {

  lemma DivBounds(a: int, b: int)
    requires a >= 0 && b > 0
    ensures a / b * b <= a < a / b * b + b && a / b >= 0
  {
    assert a == b * (a / b) + a % b;
  }

  /** a / b is the only q with q * b <= a < q * b + b. */
  lemma DivIs(a: int, b: int, q: int)
    requires b > 0 && q * b <= a < q * b + b
    ensures a / b == q
  {
    assert a == b * (a / b) + a % b;
    var d := a / b - q;
    assert d * b == a / b * b - q * b;
    assert d >= 1 ==> d * b >= b;
    assert d <= -1 ==> d * b <= -b;
  }

  lemma Monotone(a: int, b: int, k: int)
    requires a <= b && k >= 0
    ensures a * k <= b * k
  {
  }

  /** Fewer than one d is none. */
  lemma Cancel(k: int, d: int)
    requires d > 0 && k * d < d
    ensures k <= 0
  {
    assert k >= 1 ==> k * d >= d;
  }

  lemma DivMonotone(a: int, b: int, d: int)
    requires 0 <= a <= b && d > 0
    ensures a / d <= b / d
  {
    DivBounds(a, d);
    DivBounds(b, d);
    assert (a / d - b / d) * d == a / d * d - b / d * d;
    Cancel(a / d - b / d, d);
  }

  /** Quotient and remainder are what they have to be. */
  lemma DivMod(v: int, d: int, q: int, r: int)
    requires 0 <= r < d && v == q * d + r
    ensures v / d == q && v % d == r
  {
    DivIs(v, d, q);
    assert v == d * (v / d) + v % d;
  }
}
