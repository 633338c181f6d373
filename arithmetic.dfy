/** Facts about integer division and truncation used by both writers. */
module Arithmetic {

  /** The quotient of `p` by `s` is the `q` with `p == q * s + d` and `0 <= d < s`. */
  lemma QuotientUnique(p: int, q: int, d: int, s: nat)
    requires 0 < s && p == q * s + d && 0 <= d < s
    ensures p / s == q
  {
    var q', d' := p / s, p % s;
    assert p == q' * s + d';
    assert (q - q') * s == d' - d;
    if q > q' {
      MulMonotone(1, q - q', s);
    } else if q < q' {
      MulMonotone(1, q' - q, s);
    }
  }

  /** Multiplying by a natural number keeps the order. */
  lemma MulMonotone(a: nat, b: nat, s: nat)
    requires a <= b
    ensures a * s <= b * s
  {
    assert b * s == a * s + (b - a) * s;
  }

  /** The floor of the exact quotient of two naturals is their integer quotient. */
  lemma FloorOfQuotient(a: int, b: int)
    requires 0 <= a && 0 < b
    ensures (a as real / b as real).Floor == a / b
  {
    var q, r := a / b, a % b;
    assert a == q * b + r;
    assert a as real / b as real == q as real + r as real / b as real;
    assert 0.0 <= r as real / b as real < 1.0;
  }

  /** `b * a / b == a` for a positive `b`. */
  lemma CancelFactor(a: int, b: int)
    requires 0 < b
    ensures b * a / b == a
  {
    QuotientUnique(b * a, a, 0, b);
  }
}
