/** Products and quotients of integers, one fact at a time. */
module Arithmetic {
  function Abs(value: int): int {
    if value < 0 then -value else value
  }

  lemma Distributes(i: int, d: int)
    ensures (i + 1) * d == i * d + d
  {
  }

  lemma GrowsWith(i: int, j: int, d: int)
    requires i <= j && 0 <= d
    ensures i * d <= j * d
  {
  }

  /** The one quotient that leaves a remainder below the divisor. */
  lemma QuotientIs(x: int, d: int, q: int)
    requires d > 0 && q * d <= x < q * d + d
    ensures x / d == q
  {
    var p := x / d;
    assert p * d <= x < p * d + d;
    Distributes(p, d);
    Distributes(q, d);
    if p < q {
      GrowsWith(p + 1, q, d);
    } else if q < p {
      GrowsWith(q + 1, p, d);
    }
  }

  lemma QuotientAscends(a: int, b: int, d: int)
    requires a <= b && d > 0
    ensures a / d <= b / d
  {
    var p, q := a / d, b / d;
    assert p * d <= a && b < q * d + d;
    Distributes(q, d);
    if q < p {
      GrowsWith(q + 1, p, d);
    }
  }
}
