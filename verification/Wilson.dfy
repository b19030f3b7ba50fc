/** The canary regression test: a Wilson lower bound over exact reals.

    The square root is a parameter; `IsSquareRoot` says it is the non-negative root. */
module Wilson {
  import opened RealArith

  const Z: real := 1.96

  ghost predicate IsSquareRoot(sqrt: real -> real) {
    forall x: real :: x >= 0.0 ==> sqrt(x) >= 0.0 && sqrt(x) * sqrt(x) == x
  }

  datatype Observation = Observation(successes: int, failures: int, p95LatencyMs: int) {
    function Total(): int { successes + failures }
  }

  datatype RegressionInput = RegressionInput(
    baseline: Observation,
    candidate: Observation,
    maxProportionDelta: real,
    maxLatencyP95Ms: int,
    minSamples: int)

  datatype Reason = InsufficientSamples | ProportionRegression | LatencyRegression | NonInferior

  datatype Verdict = Verdict(
    healthy: bool,
    reason: Reason,
    baselineRate: real,
    candidateRate: real,
    candidateLowerBound: real)

  function SafeRate(success: int, total: int): real {
    if total == 0 then 0.0 else success as real / total as real
  }

  /** What the code takes the square root of. */
  function Radicand(n: real, p: real): real
    requires n > 0.0
  {
    (p * (1.0 - p) + Z * Z / (4.0 * n)) / n
  }

  /** The bound before it is clamped at zero. */
  function RawLowerBound(sqrt: real -> real, success: int, total: int): real
    requires total > 0
  {
    var n := total as real;
    var p := success as real / n;
    var denom := 1.0 + Z * Z / n;
    var center := p + Z * Z / (2.0 * n);
    var margin := Z * sqrt(Radicand(n, p));
    assert denom > 0.0;
    (center - margin) / denom
  }

  function LowerBound(sqrt: real -> real, success: int, total: int): real {
    if total <= 0 then 0.0
    else
      var lb := RawLowerBound(sqrt, success, total);
      if lb < 0.0 then 0.0 else lb
  }

  function AssessRegression(sqrt: real -> real, inp: RegressionInput): Verdict {
    var bn := inp.baseline.Total();
    var cn := inp.candidate.Total();
    if bn < inp.minSamples || cn < inp.minSamples then
      Verdict(false, InsufficientSamples, 0.0, 0.0, 0.0)
    else
      var br := SafeRate(inp.baseline.successes, bn);
      var cr := SafeRate(inp.candidate.successes, cn);
      var lo := LowerBound(sqrt, inp.candidate.successes, cn);
      if br - lo > inp.maxProportionDelta then
        Verdict(false, ProportionRegression, br, cr, lo)
      else if
        && inp.maxLatencyP95Ms > 0 && inp.candidate.p95LatencyMs > 0 && inp.baseline.p95LatencyMs > 0
        && inp.candidate.p95LatencyMs - inp.baseline.p95LatencyMs > inp.maxLatencyP95Ms
      then
        Verdict(false, LatencyRegression, br, cr, lo)
      else
        Verdict(true, NonInferior, br, cr, lo)
  }

  // ---------- what the bound is ----------

  /** The Wilson equation: `x` is a success rate at which the observed rate `p` of `n` samples lies
      exactly `Z` standard errors away. */
  function Gap(n: real, p: real, x: real): real {
    n * (p - x) * (p - x) - Z * Z * x * (1.0 - x)
  }

  /** The two roots, from the closed form: with `d = n + Z*Z`, `b` and `r` such that
      the roots are `(b - r) / d` and `(b + r) / d`. */
  lemma RootsOfGap(n: real, p: real, b: real, r: real, d: real, x: real)
    requires d == n + Z * Z && d > 0.0 && n > 0.0
    requires b == n * p + Z * Z / 2.0
    requires r * r == b * b - d * n * p * p
    ensures d * Gap(n, p, x) == (d * x - b + r) * (d * x - b - r)
  {
    assert (d * x - b + r) * (d * x - b - r) == (d * x - b) * (d * x - b) - r * r;
    assert (d * x - b) * (d * x - b) == d * d * x * x - 2.0 * d * x * b + b * b;
    assert Gap(n, p, x) == d * x * x - 2.0 * b * x + n * p * p;
  }

  /** The scaled radicand `n*Z*sqrt(..)` of the code is the `r` of `RootsOfGap`. */
  lemma ScaledRoot(sqrt: real -> real, n: real, p: real) returns (r: real)
    requires IsSquareRoot(sqrt) && n > 0.0 && 0.0 <= p <= 1.0
    ensures r == n * (Z * sqrt(Radicand(n, p)))
    ensures r >= 0.0
    ensures r * r == Z * Z * (n * p * (1.0 - p) + Z * Z / 4.0)
  {
    var rad := Radicand(n, p);
    MulNonNegative(p, 1.0 - p);
    assert rad >= 0.0;
    var q := sqrt(rad);
    r := n * (Z * q);
    assert r * r == Z * Z * (n * n * (q * q));
    assert n * rad == p * (1.0 - p) + Z * Z / (4.0 * n);
    assert n * (n * rad) == n * p * (1.0 - p) + Z * Z / 4.0;
  }

  /** The code's quotient is `(b - r) / d`. */
  lemma ClosedForm(n: real, p: real, s: real, b: real, d: real)
    requires n > 0.0 && b == n * p + Z * Z / 2.0 && d == n + Z * Z
    ensures 1.0 + Z * Z / n > 0.0
    ensures d * (((p + Z * Z / (2.0 * n)) - Z * s) / (1.0 + Z * Z / n)) == b - n * (Z * s)
  {
    var denom := 1.0 + Z * Z / n;
    var num := (p + Z * Z / (2.0 * n)) - Z * s;
    assert n * denom == d;
    assert n * num == b - n * (Z * s);
    assert denom * (num / denom) == num;
    assert d * (num / denom) == n * (denom * (num / denom));
  }

  /** For `0 <= success <= total`, the bound solves the Wilson equation, everything below it is
      further than `Z` standard errors from the observed rate (so it is the smaller root), and it lies
      between zero and the observed rate, so the clamp at zero never changes it. */
  lemma BoundIsSmallerRoot(sqrt: real -> real, success: int, total: int)
    requires IsSquareRoot(sqrt) && 0 <= success <= total && total > 0
    ensures var n, p, x := total as real, SafeRate(success, total), RawLowerBound(sqrt, success, total);
            && Gap(n, p, x) == 0.0
            && (forall y: real :: y < x ==> Gap(n, p, y) > 0.0)
            && 0.0 <= x <= p
            && LowerBound(sqrt, success, total) == x
  {
    var n, p := total as real, SafeRate(success, total);
    QuotientInUnit(success as real, n);
    ClosedForm(n, p, sqrt(Radicand(n, p)), n * p + Z * Z / 2.0, n + Z * Z);
    SmallerRoot(sqrt, n, p, RawLowerBound(sqrt, success, total));
  }

  lemma SmallerRoot(sqrt: real -> real, n: real, p: real, x: real)
    requires IsSquareRoot(sqrt) && n > 0.0 && 0.0 <= p <= 1.0
    requires (n + Z * Z) * x
             == n * p + Z * Z / 2.0 - n * (Z * sqrt(Radicand(n, p)))
    ensures Gap(n, p, x) == 0.0
    ensures forall y: real :: y < x ==> Gap(n, p, y) > 0.0
    ensures 0.0 <= x <= p
  {
    var b, d := n * p + Z * Z / 2.0, n + Z * Z;
    var r := ScaledRoot(sqrt, n, p);
    RootIsSmaller(n, p, b, r, d, x);
    BoundInRange(n, p, x, b, r, d);
  }

  lemma RootIsSmaller(n: real, p: real, b: real, r: real, d: real, x: real)
    requires d == n + Z * Z && n > 0.0 && b == n * p + Z * Z / 2.0 && d * x == b - r
    requires r >= 0.0 && r * r == Z * Z * (n * p * (1.0 - p) + Z * Z / 4.0)
    ensures Gap(n, p, x) == 0.0
    ensures forall y: real :: y < x ==> Gap(n, p, y) > 0.0
  {
    assert r * r == b * b - d * n * p * p;
    RootsOfGap(n, p, b, r, d, x);
    forall y: real | y < x
      ensures Gap(n, p, y) > 0.0
    {
      RootsOfGap(n, p, b, r, d, y);
      MulStrict(y, x, d);
      MulPositive(-(d * y - b + r), -(d * y - b - r));
      if Gap(n, p, y) <= 0.0 {
        MulMonotone(Gap(n, p, y), 0.0, d);
      }
    }
  }

  lemma BoundInRange(n: real, p: real, x: real, b: real, r: real, d: real)
    requires n > 0.0 && 0.0 <= p <= 1.0 && d == n + Z * Z && b == n * p + Z * Z / 2.0
    requires r >= 0.0 && d * x == b - r
    requires r * r == Z * Z * (n * p * (1.0 - p) + Z * Z / 4.0)
    ensures 0.0 <= x <= p
  {
    RootBelowCenter(n, p, b, r, d);
    if x < 0.0 {
      MulStrict(x, 0.0, d);
    }
    MulNonNegative(p, 1.0 - p);
    MulNonNegative(n, p * (1.0 - p));
    RateIsAbove(n, p, r);
    if p < x {
      MulStrict(p, x, d);
    }
  }

  lemma RootBelowCenter(n: real, p: real, b: real, r: real, d: real)
    requires n > 0.0 && 0.0 <= p && d == n + Z * Z && b == n * p + Z * Z / 2.0 && r >= 0.0
    requires r * r == Z * Z * (n * p * (1.0 - p) + Z * Z / 4.0)
    ensures r <= b
  {
    MulNonNegative(p, p);
    MulPositive(d, n);
    MulNonNegative(d * n, p * p);
    MulNonNegative(n, p);
    assert r * r == b * b - (d * n) * (p * p);
    RootBound(r, b);
  }

  lemma RateIsAbove(n: real, p: real, r: real)
    requires n > 0.0 && r >= 0.0 && p * (1.0 - p) >= 0.0 && n * (p * (1.0 - p)) >= 0.0
    requires r * r == Z * Z * (n * p * (1.0 - p) + Z * Z / 4.0)
    ensures Z * Z * (0.5 - p) <= r
  {
    var u := Z * Z * (0.5 - p);
    assert u * u == Z * Z * Z * Z * (0.25 - p * (1.0 - p));
    assert r * r == Z * Z * (n * (p * (1.0 - p))) + Z * Z * Z * Z * 0.25;
    RootBound(u, r);
  }

  /** The bound grows with the observed rate and with the sample size. */
  lemma BoundGrows(sqrt: real -> real, s: int, n: int, s': int, n': int)
    requires IsSquareRoot(sqrt)
    requires 0 <= s <= n && 0 <= s' <= n' && 0 < n <= n'
    requires SafeRate(s, n) <= SafeRate(s', n')
    ensures LowerBound(sqrt, s, n) <= LowerBound(sqrt, s', n')
  {
    BoundIsSmallerRoot(sqrt, s, n);
    BoundIsSmallerRoot(sqrt, s', n');
    var p, p', x, x' := SafeRate(s, n), SafeRate(s', n'),
                        RawLowerBound(sqrt, s, n), RawLowerBound(sqrt, s', n');
    if x' < x {
      GapShrinks(n as real, p, n' as real, p', x');
    }
  }

  lemma GapShrinks(n: real, p: real, n': real, p': real, x: real)
    requires 0.0 < n <= n' && x <= p <= p'
    ensures Gap(n, p, x) <= Gap(n', p', x)
  {
    var g, g' := p - x, p' - x;
    SquareMonotone(g, g');
    MulMonotone(g * g, g' * g', n);
    SquareNonNegative(g');
    MulMonotone(n, n', g' * g');
    assert n * g * g == (g * g) * n && n' * g' * g' == n' * (g' * g');
  }

  /** What it takes for a flawless candidate to be accepted at all. */
  lemma FlawlessCandidateBound(sqrt: real -> real, total: int)
    requires IsSquareRoot(sqrt) && total > 0
    ensures LowerBound(sqrt, total, total) == total as real / (total as real + 3.8416)
  {
    hide RawLowerBound, LowerBound, Gap;
    BoundIsSmallerRoot(sqrt, total, total);
    SelfQuotient(total as real);
    FlawlessRoot(total as real, RawLowerBound(sqrt, total, total));
  }

  lemma FlawlessRoot(n: real, x: real)
    requires n > 0.0 && Gap(n, 1.0, x) == 0.0 && forall y: real :: y < x ==> Gap(n, 1.0, y) > 0.0
    ensures x == n / (n + Z * Z)
  {
    var y := n / (n + Z * Z);
    DivMul(n, n + Z * Z);
    assert Gap(n, 1.0, y) == (1.0 - y) * (n - (n + Z * Z) * y);
    assert Gap(n, 1.0, x) == (1.0 - x) * (n - (n + Z * Z) * x);
    QuotientInUnit(n, n + Z * Z);
    assert Gap(n, 1.0, y) == 0.0;
    assert x <= y < 1.0;
  }

  /** A success rate within `Z` standard errors of what was observed. */
  predicate Plausible(success: int, total: int, y: real) {
    Gap(total as real, SafeRate(success, total), y) <= 0.0
  }

  /** The bound is the least plausible rate; without any sample, where every rate from 0 to 1 is plausible, it is 0. */
  lemma BoundIsLeastPlausible(sqrt: real -> real, success: int, total: int)
    requires IsSquareRoot(sqrt) && 0 <= success <= total
    ensures Plausible(success, total, LowerBound(sqrt, success, total))
    ensures forall y: real :: Plausible(success, total, y) ==> LowerBound(sqrt, success, total) <= y
  {
    if total > 0 {
      hide LowerBound, RawLowerBound, Gap;
      BoundIsSmallerRoot(sqrt, success, total);
    } else {
      forall y: real | y < 0.0
        ensures !Plausible(success, total, y)
      {
        NothingBelowZero(y);
      }
    }
  }

  lemma NothingBelowZero(y: real)
    requires y < 0.0
    ensures Gap(0.0, 0.0, y) > 0.0
  {
    MulPositive(-y, 1.0 - y);
    MulPositive(Z * Z, -y * (1.0 - y));
    assert Gap(0.0, 0.0, y) == Z * Z * (-y * (1.0 - y));
  }

  /** With enough samples, the candidate is found regressed in proportion exactly when some rate more
      than the tolerance below the baseline's lies within `Z` standard errors of what was observed. */
  lemma RegressionIffPlausible(sqrt: real -> real, inp: RegressionInput)
    requires IsSquareRoot(sqrt) && inp.candidate.successes >= 0 && inp.candidate.failures >= 0
    requires inp.baseline.Total() >= inp.minSamples && inp.candidate.Total() >= inp.minSamples
    ensures var n, br := inp.candidate.Total(), SafeRate(inp.baseline.successes, inp.baseline.Total());
            AssessRegression(sqrt, inp).reason == ProportionRegression
            <==> exists y: real :: y < br - inp.maxProportionDelta && Plausible(inp.candidate.successes, n, y)
  {
    hide LowerBound, RawLowerBound, Gap;
    var s, n := inp.candidate.successes, inp.candidate.Total();
    BoundIsLeastPlausible(sqrt, s, n);
    assert Plausible(s, n, LowerBound(sqrt, s, n));
  }

  /** With everything else fixed, more candidate successes (whether they replace failures or come
      on top of them) never turn a healthy verdict unhealthy. */
  lemma MoreSuccessesStayHealthy(sqrt: real -> real, inp: RegressionInput, better: Observation)
    requires IsSquareRoot(sqrt)
    requires inp.candidate.successes >= 0 && better.failures >= 0
    requires better.successes >= inp.candidate.successes && better.failures <= inp.candidate.failures
    requires better.Total() >= inp.candidate.Total()
    requires better.p95LatencyMs == inp.candidate.p95LatencyMs
    requires AssessRegression(sqrt, inp).healthy
    ensures AssessRegression(sqrt, inp.(candidate := better)).healthy
  {
    var s, n, s', n' := inp.candidate.successes, inp.candidate.Total(), better.successes, better.Total();
    if n == 0 {
      if n' > 0 {
        BoundIsSmallerRoot(sqrt, s', n');
      }
    } else {
      RateGrows(s, inp.candidate.failures, s', better.failures);
      BoundGrows(sqrt, s, n, s', n');
    }
  }

  lemma RateGrows(s: int, f: int, s': int, f': int)
    requires 0 <= s <= s' && 0 <= f' <= f && s + f > 0 && s' + f' > 0
    ensures SafeRate(s, s + f) <= SafeRate(s', s' + f')
  {
    ProportionGrows(s as real, f as real, s' as real, f' as real);
  }

  lemma ProportionGrows(a: real, b: real, c: real, d: real)
    requires 0.0 <= a <= c && 0.0 <= d <= b && a + b > 0.0 && c + d > 0.0
    ensures a / (a + b) <= c / (c + d)
  {
    CrossProducts(a, b, c, d);
    QuotientOrder(a, a + b, c, c + d);
  }

  lemma CrossProducts(a: real, b: real, c: real, d: real)
    requires 0.0 <= a <= c && 0.0 <= d <= b
    ensures a * (c + d) <= c * (a + b)
  {
    MulMonotone(a, c, d);
    MulMonotone(d, b, c);
  }
}
