/** Small facts about products of reals, stated once so that larger proofs stay linear. */
module RealArith {
  lemma MulNonNegative(a: real, b: real)
    requires a >= 0.0 && b >= 0.0
    ensures a * b >= 0.0
  {
  }

  lemma MulPositive(a: real, b: real)
    requires a > 0.0 && b > 0.0
    ensures a * b > 0.0
  {
  }

  lemma MulMonotone(a: real, b: real, c: real)
    requires a <= b && c >= 0.0
    ensures a * c <= b * c
  {
    assert (b - a) * c >= 0.0;
  }

  lemma MulStrict(a: real, b: real, c: real)
    requires a < b && c > 0.0
    ensures a * c < b * c
  {
    assert (b - a) * c > 0.0;
  }

  lemma ProductMonotone(a: real, b: real, c: real, d: real)
    requires 0.0 < a <= b && 0.0 < c <= d
    ensures 0.0 < a * c <= b * d
  {
    MulPositive(a, c);
    MulMonotone(a, b, c);
    MulMonotone(c, d, b);
    assert b * c == c * b && b * d == d * b;
  }

  lemma SquareMonotone(a: real, b: real)
    requires 0.0 <= a <= b
    ensures a * a <= b * b
  {
    MulMonotone(a, b, a);
    MulMonotone(a, b, b);
  }

  lemma SquareNonNegative(a: real)
    ensures a * a >= 0.0
  {
  }

  /** `u <= r` from their squares, for a non-negative `r`. */
  lemma RootBound(u: real, r: real)
    requires r >= 0.0 && u * u <= r * r
    ensures u <= r
  {
    if u > r {
      MulPositive(u - r, u + r);
    }
  }

  lemma DivMul(a: real, m: real)
    requires m != 0.0
    ensures a / m * m == a
  {
  }

  lemma MulCancel(t: real, x: real)
    requires t > 0.0 && t * x == t
    ensures x == 1.0
  {
    if x < 1.0 {
      MulStrict(x, 1.0, t);
    } else if x > 1.0 {
      MulStrict(1.0, x, t);
    }
  }

  lemma SelfQuotient(m: real)
    requires m != 0.0
    ensures m / m == 1.0
  {
  }

  lemma CrossStrict(y: real, x: real, m: real, k: real)
    requires y < x && m > 0.0 && k > 0.0
    ensures (y * k) * m < (x * m) * k
  {
    MulPositive(m, k);
    MulStrict(y, x, m * k);
    assert y * (m * k) == (y * k) * m && x * (m * k) == (x * m) * k;
  }

  lemma QuotientOrder(a: real, m: real, c: real, k: real)
    requires m > 0.0 && k > 0.0 && a * k <= c * m
    ensures a / m <= c / k
  {
    var x, y := a / m, c / k;
    DivMul(a, m);
    DivMul(c, k);
    if y < x {
      CrossStrict(y, x, m, k);
    }
  }

  lemma QuotientInUnit(a: real, m: real)
    requires m > 0.0 && 0.0 <= a <= m
    ensures 0.0 <= a / m <= 1.0
  {
    QuotientOrder(0.0, 1.0, a, m);
    QuotientOrder(a, m, 1.0, 1.0);
  }
}
