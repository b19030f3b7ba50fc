/** The divergences as textbook formulas: what the loops compute, written out over explicitly smoothed
    shares, where the values vanish, and how large they get. */
module DivergenceScale {
  import opened FiniteSums
  import opened RealArith
  import opened Divergence

  // ---------- sharper facts about the logarithm ----------

  /** Away from one the logarithm lies strictly below its tangent. */
  lemma StrictTangent(ln: real -> real, x: real)
    requires IsLog(ln) && x > 0.0 && x != 1.0
    ensures ln(x) < x - 1.0
  {
    // `y` is a little above the square root of `x`, and its tangent still stays below.
    var u := (1.0 + x) / 2.0;
    var m, s := 2.0 * u, (u - 1.0) * (u - 1.0);
    var e := s / m;
    var y := u - e;
    DivMul(s, m);
    RootEstimate(x, u, e, y, m, s);
    LogMonotone(ln, x, y * y);
    assert ProductRule(ln, y, y, y * y) && TangentRule(ln, y);
  }

  lemma RootEstimate(x: real, u: real, e: real, y: real, m: real, s: real)
    requires x > 0.0 && x != 1.0 && u == (1.0 + x) / 2.0 && y == u - e
    requires m == 2.0 * u && s == (u - 1.0) * (u - 1.0) && e * m == s
    ensures 0.0 < y && x <= y * y && 2.0 * (y - 1.0) < x - 1.0
  {
    var d := u - 1.0;
    assert d != 0.0 && s == d * d;
    SquarePositive(d, s);
    PositiveFactor(e, m, s);
    SquareOfDifference(u, e, y, m, s);
    MulPositive(u, u);
    PositiveFactor(y, m, u * u + 2.0 * u - 1.0);
  }

  lemma SquareOfDifference(u: real, e: real, y: real, m: real, s: real)
    requires m == 2.0 * u && s == (u - 1.0) * (u - 1.0) && e * m == s && y == u - e
    ensures y * y >= 2.0 * u - 1.0 && y * m == u * u + 2.0 * u - 1.0
  {
    SquareNonNegative(e);
    assert y * y == u * u - e * m + e * e;
    assert y * m == u * m - e * m;
  }

  lemma PositiveFactor(e: real, m: real, s: real)
    requires m > 0.0 && e * m == s > 0.0
    ensures e > 0.0
  {
    if e <= 0.0 {
      MulMonotone(e, 0.0, m);
    }
  }

  lemma SquarePositive(a: real, s: real)
    requires a != 0.0 && s == a * a
    ensures s > 0.0
  {
    var b := if a > 0.0 then a else -a;
    NegatedSquare(a, b, s);
    PositiveProduct(b, b, s);
  }

  lemma PositiveProduct(a: real, b: real, s: real)
    requires a > 0.0 && b > 0.0 && s == a * b
    ensures s > 0.0
  {
  }

  lemma NegatedSquare(a: real, b: real, s: real)
    requires (b == a || b == -a) && s == a * a
    ensures s == b * b
  {
  }

  /** `a (ln a - ln b) >= a - b`, with equality only at `a == b`. */
  lemma GapTermBound(ln: real -> real, a: real, b: real)
    requires IsLog(ln) && a > 0.0 && b > 0.0
    ensures a * (ln(a) - ln(b)) >= a - b
    ensures a * (ln(a) - ln(b)) == a - b <==> a == b
  {
    var x := b / a;
    LogOfQuotient(ln, b, a);
    DivMul(b, a);
    assert (x - 1.0) * a == b - a;
    Negated(ln(a), ln(b), ln(x), a);
    if x == 1.0 {
      LogOfOne(ln);
    } else {
      StrictTangent(ln, x);
      MulStrict(ln(x), x - 1.0, a);
    }
  }

  lemma Negated(la: real, lb: real, lx: real, a: real)
    requires lx == lb - la
    ensures a * (la - lb) == -(lx * a)
  {
  }

  // ---------- relative entropy over functions ----------

  function LogGaps(ln: real -> real, a: string -> real, b: string -> real): string -> real {
    k => a(k) * (ln(a(k)) - ln(b(k)))
  }

  ghost predicate IsDistribution(keys: set<string>, a: string -> real) {
    (forall k :: k in keys ==> a(k) > 0.0) && Sum(keys, a) == 1.0
  }

  /** The textbook relative entropy of two distributions, in nats. */
  ghost function RelativeEntropy(ln: real -> real, keys: set<string>, a: string -> real, b: string -> real): real {
    Sum(keys, LogGaps(ln, a, b))
  }

  lemma EntropyZeroIff(ln: real -> real, keys: set<string>, a: string -> real, b: string -> real)
    requires IsLog(ln) && IsDistribution(keys, a) && IsDistribution(keys, b)
    ensures RelativeEntropy(ln, keys, a, b) >= 0.0
    ensures RelativeEntropy(ln, keys, a, b) == 0.0 <==> forall k :: k in keys ==> a(k) == b(k)
  {
    hide Sum, IsLog;
    var gaps := LogGaps(ln, a, b);
    var excess := (k: string) => gaps(k) + b(k) - a(k);
    forall k | k in keys
      ensures excess(k) >= 0.0 && (excess(k) == 0.0 <==> a(k) == b(k))
    {
      GapTermBound(ln, a(k), b(k));
    }
    ExcessSum(keys, gaps, a, b, excess);
    SumNonNegative(keys, excess);
    if forall k :: k in keys ==> a(k) == b(k) {
      SumOfZeros(keys, excess);
    }
  }

  lemma ExcessSum(keys: set<string>, g: string -> real, a: string -> real, b: string -> real, h: string -> real)
    requires Sum(keys, a) == Sum(keys, b) && forall k :: k in keys ==> h(k) == g(k) + b(k) - a(k)
    ensures Sum(keys, h) == Sum(keys, g)
  {
    hide Sum;
    var gb, ha := (k: string) => g(k) + b(k), (k: string) => h(k) + a(k);
    SumPlus(keys, g, b, gb);
    SumPlus(keys, h, a, ha);
    SumAgree(keys, gb, ha);
  }

  lemma SumOfZeros(keys: set<string>, f: string -> real)
    requires forall k :: k in keys ==> f(k) == 0.0
    ensures Sum(keys, f) == 0.0
  {
    hide Sum;
    SumScale(keys, f, f, 0.0);
  }

  // ---------- smoothed shares ----------

  /** The mass over the keys after every key has been given `EPSILON` more. */
  ghost function SmoothTotal(p: Dist, keys: set<string>): real {
    Sum(keys, Values(p)) + |keys| as real * EPSILON
  }

  /** The share of a key of that mass. */
  ghost function SmoothShare(p: Dist, keys: set<string>): string -> real {
    var total := SmoothTotal(p, keys);
    k => if total == 0.0 then 0.0 else (At(p, k) + EPSILON) / total
  }

  lemma {:induction false} SumOfConstant(keys: set<string>, f: string -> real, c: real)
    requires forall k :: k in keys ==> f(k) == c
    ensures Sum(keys, f) == |keys| as real * c
    decreases |keys|
  {
    hide Sum;
    if keys == {} {
      SumEmpty(f);
    } else {
      var k :| k in keys;
      SumRemove(keys, f, k);
      SumOfConstant(keys - {k}, f, c);
      assert |keys - {k}| == |keys| - 1;
      OneMoreTerm(|keys| - 1, c);
    }
  }

  lemma OneMoreTerm(n: nat, c: real)
    ensures (n + 1) as real * c == n as real * c + c
  {
  }

  lemma PaddedValue(p: Dist, q: Dist, k: string)
    requires k in p.Keys + q.Keys
    ensures k in Padded(p, q, EPSILON) && Padded(p, q, EPSILON)[k] == At(p, k) + EPSILON
    ensures Values(Padded(p, q, EPSILON))(k) == Values(p)(k) + Epsilons()(k)
  {
  }

  /** The mass that smoothing normalises by. */
  lemma SmoothMass(p: Dist, q: Dist, keys: set<string>)
    requires NonNegative(p) && keys == p.Keys + q.Keys != {}
    ensures Mass(Padded(p, q, EPSILON)) == SmoothTotal(p, keys) > 0.0
  {
    PaddedPositive(p, q);
    var d := Padded(p, q, EPSILON);
    hide Sum, Padded, Positive, Mass, Values, Epsilons;
    PositiveMass(d);
    forall k | k in keys
      ensures Values(d)(k) == Values(p)(k) + Epsilons()(k)
    {
      PaddedValue(p, q, k);
    }
    SumPlus(keys, Values(p), Epsilons(), Values(d));
    ConstantEpsilons(keys);
  }

  lemma ConstantEpsilons(keys: set<string>)
    ensures Sum(keys, Epsilons()) == |keys| as real * EPSILON
  {
    hide Sum;
    SumOfConstant(keys, Epsilons(), EPSILON);
  }

  /** The smoothed map holds exactly the smoothed shares. */
  lemma SmoothedIsShare(p: Dist, q: Dist, keys: set<string>, k: string)
    requires NonNegative(p) && keys == p.Keys + q.Keys && k in keys
    ensures k in Smoothed(p, q, EPSILON) && Smoothed(p, q, EPSILON)[k] == SmoothShare(p, keys)(k) > 0.0
  {
    PaddedPositive(p, q);
    hide Sum, Mass, Padded, Normalized, Values, SmoothTotal, At, SmoothShare, Positive, NonNegative;
    SmoothMass(p, q, keys);
    PaddedValue(p, q, k);
    ShareAt(p, keys, k);
    NormalizedRatio(Padded(p, q, EPSILON), k);
  }

  lemma ShareAt(p: Dist, keys: set<string>, k: string)
    requires SmoothTotal(p, keys) > 0.0
    ensures SmoothShare(p, keys)(k) == (At(p, k) + EPSILON) / SmoothTotal(p, keys)
  {
    hide SmoothTotal;
  }

  lemma SmoothSharesSum(p: Dist, q: Dist, keys: set<string>)
    requires NonNegative(p) && keys == p.Keys + q.Keys != {}
    ensures IsDistribution(keys, SmoothShare(p, keys)) && Smoothed(p, q, EPSILON).Keys == keys
  {
    SmoothedPositive(p, q);
    hide Sum, Smoothed, SmoothShare;
    var pp := Smoothed(p, q, EPSILON);
    forall k | k in keys
      ensures Values(pp)(k) == SmoothShare(p, keys)(k) > 0.0
    {
      SmoothedIsShare(p, q, keys, k);
    }
    SumAgree(keys, Values(pp), SmoothShare(p, keys));
  }

  // ---------- Kullback-Leibler ----------

  /** The code's value is the relative entropy of the smoothed shares. */
  lemma KLIsRelativeEntropy(ln: real -> real, p: Dist, q: Dist, keys: set<string>)
    requires IsLog(ln) && NonNegative(p) && NonNegative(q) && keys == p.Keys + q.Keys
    ensures KLValue(ln, p, q) == RelativeEntropy(ln, keys, SmoothShare(p, keys), SmoothShare(q, keys))
  {
    SmoothedPositive(p, q);
    hide Sum, Smoothed, SmoothShare, IsLog, LogTerms, LogGaps, Positive, Values, NonNegative;
    var pp, qq := Smoothed(p, q, EPSILON), Smoothed(q, p, EPSILON);
    var a, b := SmoothShare(p, keys), SmoothShare(q, keys);
    forall k | k in keys
      ensures LogTerms(ln, pp, qq)(k) == LogGaps(ln, a, b)(k)
    {
      SmoothedTerm(ln, p, q, keys, k);
    }
    SumAgree(keys, LogTerms(ln, pp, qq), LogGaps(ln, a, b));
  }

  lemma SmoothedTerm(ln: real -> real, p: Dist, q: Dist, keys: set<string>, k: string)
    requires IsLog(ln) && NonNegative(p) && NonNegative(q) && keys == p.Keys + q.Keys && k in keys
    ensures LogTerms(ln, Smoothed(p, q, EPSILON), Smoothed(q, p, EPSILON))(k)
            == LogGaps(ln, SmoothShare(p, keys), SmoothShare(q, keys))(k)
  {
    hide *;
    assert keys == q.Keys + p.Keys;
    SmoothedIsShare(p, q, keys, k);
    SmoothedIsShare(q, p, keys, k);
    TermIsGap(ln, Smoothed(p, q, EPSILON), Smoothed(q, p, EPSILON), SmoothShare(p, keys), SmoothShare(q, keys), k);
  }

  lemma TermIsGap(ln: real -> real, pp: Dist, qq: Dist, a: string -> real, b: string -> real, k: string)
    requires IsLog(ln) && k in pp && k in qq && pp[k] == a(k) > 0.0 && qq[k] == b(k) > 0.0
    ensures LogTerms(ln, pp, qq)(k) == LogGaps(ln, a, b)(k)
  {
    LogOfQuotient(ln, pp[k], qq[k]);
  }

  /** It is zero exactly when the smoothed shares agree on every key. */
  lemma KLZeroIff(ln: real -> real, p: Dist, q: Dist, keys: set<string>)
    requires IsLog(ln) && NonNegative(p) && NonNegative(q) && keys == p.Keys + q.Keys
    ensures KLValue(ln, p, q) == 0.0
            <==> forall k :: k in keys ==> SmoothShare(p, keys)(k) == SmoothShare(q, keys)(k)
  {
    hide KLValue, SmoothShare, IsLog;
    KLIsRelativeEntropy(ln, p, q, keys);
    if keys == {} {
      SumEmpty(LogGaps(ln, SmoothShare(p, keys), SmoothShare(q, keys)));
    } else {
      SmoothSharesSum(p, q, keys);
      SmoothSharesSum(q, p, keys);
      EntropyZeroIff(ln, keys, SmoothShare(p, keys), SmoothShare(q, keys));
    }
  }

  // ---------- Jensen-Shannon ----------

  /** Smoothing a distribution over `n` keys once more. */
  function SmoothAgain(a: string -> real, n: nat): string -> real {
    k => (a(k) + EPSILON) / (1.0 + n as real * EPSILON)
  }

  function Half(a: string -> real, b: string -> real): string -> real {
    k => 0.5 * a(k) + 0.5 * b(k)
  }

  /** The textbook Jensen-Shannon divergence of two distributions, in bits. */
  ghost function JensenShannon(ln: real -> real, keys: set<string>, a: string -> real, b: string -> real): real
    requires ln(2.0) != 0.0
  {
    (0.5 * RelativeEntropy(ln, keys, a, Half(a, b)) + 0.5 * RelativeEntropy(ln, keys, b, Half(a, b))) / ln(2.0)
  }

  /** The shares the code ends up comparing: smoothed before the mixture and again after it. */
  ghost function TwiceSmoothed(p: Dist, keys: set<string>): string -> real {
    SmoothAgain(SmoothShare(p, keys), |keys|)
  }

  lemma EntropyAgree(ln: real -> real, keys: set<string>, a: string -> real, b: string -> real,
                     c: string -> real, d: string -> real)
    requires forall k :: k in keys ==> a(k) == c(k) && b(k) == d(k)
    ensures RelativeEntropy(ln, keys, a, b) == RelativeEntropy(ln, keys, c, d)
  {
    hide Sum;
    SumAgree(keys, LogGaps(ln, a, b), LogGaps(ln, c, d));
  }

  /** The smoothed shares of something that already sums to one. */
  lemma ShareOfDistribution(m: Dist, keys: set<string>, f: string -> real, k: string)
    requires m.Keys == keys != {} && k in keys && Sum(keys, Values(m)) == 1.0 && m[k] == f(k)
    ensures SmoothShare(m, keys)(k) == SmoothAgain(f, |keys|)(k)
  {
    hide Sum;
    CountPositive(|keys|);
  }

  lemma CountPositive(n: nat)
    ensures n as real * EPSILON >= 0.0
  {
  }

  lemma HalfOfSmoothed(a: string -> real, b: string -> real, n: nat, k: string)
    ensures SmoothAgain(Half(a, b), n)(k) == Half(SmoothAgain(a, n), SmoothAgain(b, n))(k)
  {
    CountPositive(n);
    HalfQuotients(a(k), b(k), 1.0 + n as real * EPSILON);
  }

  lemma HalfQuotients(x: real, y: real, m: real)
    requires m > 0.0
    ensures (0.5 * x + 0.5 * y + EPSILON) / m == 0.5 * ((x + EPSILON) / m) + 0.5 * ((y + EPSILON) / m)
  {
    var a, b, c := (x + EPSILON) / m, (y + EPSILON) / m, (0.5 * x + 0.5 * y + EPSILON) / m;
    DivMul(x + EPSILON, m);
    DivMul(y + EPSILON, m);
    DivMul(0.5 * x + 0.5 * y + EPSILON, m);
    SameFactor(c, 0.5 * a + 0.5 * b, m);
  }

  lemma SameFactor(x: real, y: real, m: real)
    requires m > 0.0 && x * m == y * m
    ensures x == y
  {
    if x < y {
      MulStrict(x, y, m);
    } else if y < x {
      MulStrict(y, x, m);
    }
  }

  /** One half of the code's value: the divergence of a smoothed distribution from the mixture. */
  lemma HalfIsTextbook(ln: real -> real, keys: set<string>, pp: Dist, m: Dist, a: string -> real, b: string -> real)
    requires IsLog(ln) && pp.Keys == m.Keys == keys && HalfCovers(m, pp)
    requires forall k :: k in keys ==> pp[k] == a(k) && m[k] == Half(a, b)(k)
    ensures KLValue(ln, pp, m)
            == RelativeEntropy(ln, keys, SmoothAgain(a, |keys|), Half(SmoothAgain(a, |keys|), SmoothAgain(b, |keys|)))
  {
    hide Sum, KLValue, IsLog, SmoothShare, SmoothAgain, Half, RelativeEntropy;
    var n := |keys|;
    assert keys == pp.Keys + m.Keys;
    KLIsRelativeEntropy(ln, pp, m, keys);
    forall k | k in keys
      ensures SmoothShare(pp, keys)(k) == SmoothAgain(a, n)(k)
      ensures SmoothShare(m, keys)(k) == Half(SmoothAgain(a, n), SmoothAgain(b, n))(k)
    {
      ShareOfDistribution(pp, keys, a, k);
      ShareOfDistribution(m, keys, Half(a, b), k);
      HalfOfSmoothed(a, b, n, k);
    }
    EntropyAgree(ln, keys, SmoothShare(pp, keys), SmoothShare(m, keys),
                 SmoothAgain(a, n), Half(SmoothAgain(a, n), SmoothAgain(b, n)));
  }

  lemma HalfCommutes(ln: real -> real, keys: set<string>, a: string -> real, b: string -> real)
    ensures RelativeEntropy(ln, keys, b, Half(b, a)) == RelativeEntropy(ln, keys, b, Half(a, b))
  {
    hide RelativeEntropy;
    EntropyAgree(ln, keys, b, Half(b, a), b, Half(a, b));
  }

  lemma MixtureIsHalf(p: Dist, q: Dist, keys: set<string>, k: string)
    requires NonNegative(p) && NonNegative(q) && keys == p.Keys + q.Keys && k in keys
    ensures var pp, qq := Smoothed(p, q, EPSILON), Smoothed(q, p, EPSILON);
            var a, b := SmoothShare(p, keys), SmoothShare(q, keys);
            && k in pp && k in qq && k in Mixture(pp, qq) && pp[k] == a(k) && qq[k] == b(k)
            && Mixture(pp, qq)[k] == Half(a, b)(k) == Half(b, a)(k)
  {
    assert keys == q.Keys + p.Keys;
    hide SmoothShare, Smoothed;
    SmoothedIsShare(p, q, keys, k);
    SmoothedIsShare(q, p, keys, k);
  }

  lemma MixtureKeys(p: Dist, q: Dist, keys: set<string>)
    requires NonNegative(p) && NonNegative(q) && keys == p.Keys + q.Keys
    ensures var pp, qq := Smoothed(p, q, EPSILON), Smoothed(q, p, EPSILON);
            && pp.Keys == qq.Keys == Mixture(pp, qq).Keys == keys
            && HalfCovers(Mixture(pp, qq), pp) && HalfCovers(Mixture(pp, qq), qq)
  {
    assert keys == q.Keys + p.Keys;
    MixtureCovers(p, q, Smoothed(p, q, EPSILON), Smoothed(q, p, EPSILON));
    SmoothedPositive(p, q);
    SmoothedPositive(q, p);
    hide Sum, Smoothed, HalfCovers, Positive, NonNegative;
  }

  lemma HalvesAreTextbook(ln: real -> real, p: Dist, q: Dist, keys: set<string>)
    requires IsLog(ln) && NonNegative(p) && NonNegative(q) && keys == p.Keys + q.Keys
    ensures var pp, qq := Smoothed(p, q, EPSILON), Smoothed(q, p, EPSILON);
            var a, b := TwiceSmoothed(p, keys), TwiceSmoothed(q, keys);
            && KLValue(ln, pp, Mixture(pp, qq)) == RelativeEntropy(ln, keys, a, Half(a, b))
            && KLValue(ln, qq, Mixture(pp, qq)) == RelativeEntropy(ln, keys, b, Half(a, b))
  {
    hide Sum, Smoothed, SmoothShare, Mixture, KLValue, IsLog, HalfCovers, SmoothAgain, Half, RelativeEntropy;
    hide NonNegative;
    var pp, qq := Smoothed(p, q, EPSILON), Smoothed(q, p, EPSILON);
    var a, b := SmoothShare(p, keys), SmoothShare(q, keys);
    var m := Mixture(pp, qq);
    MixtureKeys(p, q, keys);
    forall k | k in keys
      ensures pp[k] == a(k) && qq[k] == b(k) && m[k] == Half(a, b)(k) == Half(b, a)(k)
    {
      MixtureIsHalf(p, q, keys, k);
    }
    HalfIsTextbook(ln, keys, pp, m, a, b);
    HalfIsTextbook(ln, keys, qq, m, b, a);
    HalfCommutes(ln, keys, SmoothAgain(a, |keys|), SmoothAgain(b, |keys|));
  }

  /** The code's value is the textbook Jensen-Shannon divergence, in bits, of the twice smoothed shares. */
  lemma JSIsTextbook(ln: real -> real, p: Dist, q: Dist, keys: set<string>)
    requires IsLog(ln) && NonNegative(p) && NonNegative(q) && keys == p.Keys + q.Keys && ln(2.0) != 0.0
    ensures JSValue(ln, p, q) == JensenShannon(ln, keys, TwiceSmoothed(p, keys), TwiceSmoothed(q, keys))
  {
    hide Smoothed, Mixture, KLValue, IsLog, TwiceSmoothed, Half, RelativeEntropy, NonNegative;
    HalvesAreTextbook(ln, p, q, keys);
  }

  lemma SmoothAgainDistribution(keys: set<string>, a: string -> real)
    requires IsDistribution(keys, a) && keys != {}
    ensures IsDistribution(keys, SmoothAgain(a, |keys|))
  {
    hide Sum;
    var n := |keys|;
    var m := 1.0 + n as real * EPSILON;
    CountPositive(n);
    var padded := (k: string) => a(k) + EPSILON;
    SumPlus(keys, a, Epsilons(), padded);
    ConstantEpsilons(keys);
    forall k | k in keys
      ensures SmoothAgain(a, n)(k) > 0.0 && SmoothAgain(a, n)(k) == (1.0 / m) * padded(k)
    {
      ScaledQuotient(padded(k), m);
    }
    SumScale(keys, padded, SmoothAgain(a, n), 1.0 / m);
    DivMul(1.0, m);
  }

  lemma HalfDistribution(keys: set<string>, a: string -> real, b: string -> real)
    requires IsDistribution(keys, a) && IsDistribution(keys, b)
    ensures IsDistribution(keys, Half(a, b))
  {
    hide Sum;
    HalvesSum(keys, a, b, Half(a, b));
  }

  lemma SmoothAgainInjective(a: string -> real, b: string -> real, n: nat, k: string)
    ensures SmoothAgain(a, n)(k) == SmoothAgain(b, n)(k) <==> a(k) == b(k)
  {
    var m := 1.0 + n as real * EPSILON;
    CountPositive(n);
    DivMul(a(k) + EPSILON, m);
    DivMul(b(k) + EPSILON, m);
  }

  lemma AverageZeroIff(x: real, y: real, c: real)
    requires x >= 0.0 && y >= 0.0 && c > 0.0
    ensures (0.5 * x + 0.5 * y) / c == 0.0 <==> x == 0.0 && y == 0.0
  {
    DivMul(0.5 * x + 0.5 * y, c);
  }

  lemma JensenShannonZeroIff(ln: real -> real, keys: set<string>, a: string -> real, b: string -> real)
    requires IsLog(ln) && ln(2.0) > 0.0 && IsDistribution(keys, a) && IsDistribution(keys, b)
    ensures JensenShannon(ln, keys, a, b) == 0.0 <==> forall k :: k in keys ==> a(k) == b(k)
  {
    hide IsLog, RelativeEntropy;
    HalfDistribution(keys, a, b);
    hide IsDistribution;
    EntropyZeroIff(ln, keys, a, Half(a, b));
    EntropyZeroIff(ln, keys, b, Half(a, b));
    AverageZeroIff(RelativeEntropy(ln, keys, a, Half(a, b)), RelativeEntropy(ln, keys, b, Half(a, b)), ln(2.0));
  }

  lemma TwiceSmoothedDistribution(p: Dist, q: Dist, keys: set<string>)
    requires NonNegative(p) && keys == p.Keys + q.Keys != {}
    ensures IsDistribution(keys, TwiceSmoothed(p, keys))
  {
    hide SmoothShare, SmoothAgain, IsDistribution, NonNegative;
    SmoothSharesSum(p, q, keys);
    SmoothAgainDistribution(keys, SmoothShare(p, keys));
  }

  lemma TwiceSmoothedInjective(p: Dist, q: Dist, keys: set<string>, k: string)
    ensures TwiceSmoothed(p, keys)(k) == TwiceSmoothed(q, keys)(k)
            <==> SmoothShare(p, keys)(k) == SmoothShare(q, keys)(k)
  {
    hide SmoothShare, SmoothAgain;
    SmoothAgainInjective(SmoothShare(p, keys), SmoothShare(q, keys), |keys|, k);
  }

  /** The Jensen-Shannon value is zero exactly when the smoothed shares agree on every key. */
  lemma JSZeroIff(ln: real -> real, p: Dist, q: Dist, keys: set<string>)
    requires IsLog(ln) && NonNegative(p) && NonNegative(q) && keys == p.Keys + q.Keys && ln(2.0) != 0.0
    ensures JSValue(ln, p, q) == 0.0
            <==> forall k :: k in keys ==> SmoothShare(p, keys)(k) == SmoothShare(q, keys)(k)
  {
    hide IsLog, JSValue, SmoothShare, TwiceSmoothed, IsDistribution, JensenShannon, NonNegative;
    LogTwoPositive(ln);
    JSIsTextbook(ln, p, q, keys);
    var a, b := TwiceSmoothed(p, keys), TwiceSmoothed(q, keys);
    if keys == {} {
      NothingToCompare(ln, a, b);
    } else {
      assert keys == q.Keys + p.Keys;
      TwiceSmoothedDistribution(p, q, keys);
      TwiceSmoothedDistribution(q, p, keys);
      JensenShannonZeroIff(ln, keys, a, b);
      forall k
        ensures a(k) == b(k) <==> SmoothShare(p, keys)(k) == SmoothShare(q, keys)(k)
      {
        TwiceSmoothedInjective(p, q, keys, k);
      }
    }
  }

  lemma NothingToCompare(ln: real -> real, a: string -> real, b: string -> real)
    requires ln(2.0) > 0.0
    ensures JensenShannon(ln, {}, a, b) == 0.0
  {
    SumEmpty(LogGaps(ln, a, Half(a, b)));
    SumEmpty(LogGaps(ln, b, Half(a, b)));
    AverageZeroIff(0.0, 0.0, ln(2.0));
  }

  // ---------- how large it gets ----------

  /** What a term `a (ln a - ln m)` is at least, for `m` the mean of `a` and `b`, when one of them is small. */
  lemma SmallOther(ln: real -> real, a: real, b: real, m: real, d: real)
    requires IsLog(ln) && a > 0.0 && b > 0.0 && m == 0.5 * a + 0.5 * b && b <= d
    ensures a * (ln(a) - ln(m)) >= a * ln(2.0) - d
  {
    GapTermBound(ln, a, 2.0 * m);
    assert ProductRule(ln, 2.0, m, 2.0 * m);
    assert a * (ln(a) - ln(2.0 * m)) == a * (ln(a) - ln(m)) - a * ln(2.0);
  }

  lemma SmallSelf(ln: real -> real, a: real, m: real, d: real, t: real)
    requires IsLog(ln) && 0.0 < a <= d && m > 0.0 && 0.0 < t
    ensures a * (ln(a) - ln(m)) >= -(t * m) - d / t
  {
    MulPositive(t, m);
    GapTermBound(ln, a, t * m);
    assert ProductRule(ln, t, m, t * m);
    assert a * (ln(a) - ln(t * m)) == a * (ln(a) - ln(m)) - a * ln(t);
    LogOfOne(ln);
    LogOfQuotient(ln, 1.0, t);
    assert TangentRule(ln, 1.0 / t);
    MulMonotone(1.0 - 1.0 / t, ln(t), a);
    QuotientOrder(a, t, d, t);
    ShareOfQuotient(a, t);
    assert a * ln(t) >= a - a / t;
  }

  lemma ShareOfQuotient(a: real, t: real)
    requires t > 0.0
    ensures (1.0 - 1.0 / t) * a == a - a / t
  {
    DivMul(a, t);
    DivMul(1.0, t);
    SameFactor((1.0 / t) * a, a / t, t);
  }

  /** `ln 2` lies between a half and one. */
  lemma LogTwoBounds(ln: real -> real)
    requires IsLog(ln)
    ensures 0.5 <= ln(2.0) <= 1.0
  {
    LogInverse(ln, 0.5, 2.0);
    assert TangentRule(ln, 0.5) && TangentRule(ln, 2.0);
  }

  /** What every term is at least when on each key one of the two distributions is small. */
  function Floor(c: real, t: real, e: real, a: string -> real, m: string -> real): string -> real {
    k => c * a(k) - t * m(k) - e
  }

  lemma WeakerFloor(term: real, c: real, a: real, tm: real, d: real, dt: real)
    requires tm >= 0.0 && dt >= 0.0 && d >= 0.0
    requires term >= a * c - d || (c * a <= a && term >= -tm - dt && a <= d)
    ensures term >= c * a - tm - (d + dt)
  {
  }

  lemma TermFloor(ln: real -> real, a: real, b: real, m: real, d: real, t: real)
    requires IsLog(ln) && a > 0.0 && b > 0.0 && m == 0.5 * a + 0.5 * b && (a <= d || b <= d) && t > 0.0 && d > 0.0
    ensures a * (ln(a) - ln(m)) >= ln(2.0) * a - t * m - (d + d / t)
  {
    hide IsLog;
    LogTwoBounds(ln);
    MulPositive(t, m);
    QuotientOrder(0.0, t, d, t);
    if b <= d {
      SmallOther(ln, a, b, m, d);
    } else {
      SmallSelf(ln, a, m, d, t);
      MulMonotone(ln(2.0), 1.0, a);
    }
    WeakerFloor(a * (ln(a) - ln(m)), ln(2.0), a, t * m, d, d / t);
  }

  lemma FloorSum(keys: set<string>, c: real, t: real, e: real, a: string -> real, m: string -> real)
    requires Sum(keys, a) == 1.0 && Sum(keys, m) == 1.0
    ensures Sum(keys, Floor(c, t, e, a, m)) == c - t - |keys| as real * e
  {
    hide Sum;
    var ca, tm, es := (k: string) => c * a(k), (k: string) => t * m(k), (k: string) => e;
    var rest := (k: string) => Floor(c, t, e, a, m)(k) + e;
    SumScale(keys, a, ca, c);
    SumScale(keys, m, tm, t);
    SumOfConstant(keys, es, e);
    SumPlus(keys, Floor(c, t, e, a, m), es, rest);
    SumPlus(keys, rest, tm, ca);
    TimesOne(c, Sum(keys, a));
    TimesOne(t, Sum(keys, m));
  }

  /** What is lost at most to smoothing, in nats; `t` may be chosen. */
  function Loss(n: nat, t: real): real
    requires t > 0.0
  {
    t + n as real * Slack(t)
  }

  /** What is lost at most on one key. */
  function Slack(t: real): real
    requires t > 0.0
  {
    2.0 * EPSILON + 2.0 * EPSILON / t
  }

  lemma FloorAt(ln: real -> real, a: string -> real, b: string -> real, t: real, k: string)
    requires IsLog(ln) && a(k) > 0.0 && b(k) > 0.0 && t > 0.0
    requires a(k) <= 2.0 * EPSILON || b(k) <= 2.0 * EPSILON
    ensures Floor(ln(2.0), t, Slack(t), a, Half(a, b))(k) <= LogGaps(ln, a, Half(a, b))(k)
  {
    hide IsLog;
    TermFloor(ln, a(k), b(k), Half(a, b)(k), 2.0 * EPSILON, t);
  }

  /** On every key one of the two is at most twice what smoothing adds. */
  ghost predicate NearlyDisjoint(keys: set<string>, a: string -> real, b: string -> real) {
    forall k :: k in keys ==> a(k) <= 2.0 * EPSILON || b(k) <= 2.0 * EPSILON
  }

  lemma FloorBelow(ln: real -> real, keys: set<string>, a: string -> real, b: string -> real, t: real, k: string)
    requires IsLog(ln) && IsDistribution(keys, a) && IsDistribution(keys, b) && t > 0.0
    requires NearlyDisjoint(keys, a, b) && k in keys
    ensures Floor(ln(2.0), t, Slack(t), a, Half(a, b))(k) <= LogGaps(ln, a, Half(a, b))(k)
  {
    hide IsLog, Floor, LogGaps, Half, Slack, Sum;
    FloorAt(ln, a, b, t, k);
  }

  lemma UnitSum(keys: set<string>, a: string -> real)
    requires IsDistribution(keys, a)
    ensures Sum(keys, a) == 1.0
  {
    hide Sum;
  }

  lemma LossIs(c: real, n: nat, t: real)
    requires t > 0.0
    ensures c - t - n as real * Slack(t) == c - Loss(n, t)
  {
  }

  lemma EntropyFloor(ln: real -> real, keys: set<string>, a: string -> real, b: string -> real, t: real)
    requires IsLog(ln) && IsDistribution(keys, a) && IsDistribution(keys, b) && t > 0.0
    requires NearlyDisjoint(keys, a, b)
    ensures RelativeEntropy(ln, keys, a, Half(a, b)) >= ln(2.0) - Loss(|keys|, t)
  {
    hide Sum, IsLog, Floor, LogGaps, Half, Slack, Loss, IsDistribution, NearlyDisjoint;
    var m := Half(a, b);
    HalfDistribution(keys, a, b);
    UnitSum(keys, a);
    UnitSum(keys, m);
    forall k | k in keys
      ensures Floor(ln(2.0), t, Slack(t), a, m)(k) <= LogGaps(ln, a, m)(k)
    {
      FloorBelow(ln, keys, a, b, t, k);
    }
    SumMonotone(keys, Floor(ln(2.0), t, Slack(t), a, m), LogGaps(ln, a, m));
    FloorSum(keys, ln(2.0), t, Slack(t), a, m);
    LossIs(ln(2.0), |keys|, t);
  }

  /** On keys that only the other distribution has, the twice smoothed share is at most `2 * EPSILON`. */
  lemma SmallOffSupport(p: Dist, keys: set<string>, k: string)
    requires Sum(keys, Values(p)) >= 1.0 && At(p, k) == 0.0
    ensures TwiceSmoothed(p, keys)(k) <= 2.0 * EPSILON
  {
    hide Sum;
    var n, total := |keys|, SmoothTotal(p, keys);
    CountPositive(n);
    assert total >= 1.0;
    ShareAt(p, keys, k);
    QuotientOrder(EPSILON, total, EPSILON, 1.0);
    var a := SmoothShare(p, keys)(k);
    assert a <= EPSILON;
    QuotientOrder(a + EPSILON, 1.0 + n as real * EPSILON, 2.0 * EPSILON, 1.0);
  }

  lemma RatioFloor(x: real, y: real, c: real, loss: real)
    requires 0.5 <= c && x >= c - loss && y >= c - loss && loss >= 0.0
    ensures (0.5 * x + 0.5 * y) / c >= 1.0 - 2.0 * loss
  {
    var z := 0.5 * x + 0.5 * y;
    DivMul(z, c);
    MulMonotone(0.5, c, 2.0 * loss);
    if z / c < 1.0 - 2.0 * loss {
      MulStrict(z / c, 1.0 - 2.0 * loss, c);
    }
  }

  lemma LossIsNatural(n: nat, t: real)
    requires t > 0.0
    ensures Loss(n, t) >= 0.0
  {
    QuotientOrder(0.0, 1.0, 2.0 * EPSILON, t);
    MulNonNegative(n as real, Slack(t));
  }

  lemma MassHasKeys(p: Dist, keys: set<string>)
    requires Sum(keys, Values(p)) >= 1.0
    ensures keys != {}
  {
    if keys == {} {
      SumEmpty(Values(p));
    }
  }

  lemma NearOne(ln: real -> real, keys: set<string>, a: string -> real, b: string -> real, t: real)
    requires IsLog(ln) && IsDistribution(keys, a) && IsDistribution(keys, b) && t > 0.0 && ln(2.0) != 0.0
    requires NearlyDisjoint(keys, a, b)
    ensures JensenShannon(ln, keys, a, b) >= 1.0 - 2.0 * Loss(|keys|, t)
  {
    assert NearlyDisjoint(keys, b, a);
    hide IsLog, IsDistribution, RelativeEntropy, Half, Loss, NearlyDisjoint;
    EntropyFloor(ln, keys, a, b, t);
    EntropyFloor(ln, keys, b, a, t);
    HalfCommutes(ln, keys, a, b);
    LogTwoBounds(ln);
    LossIsNatural(|keys|, t);
    RatioFloor(RelativeEntropy(ln, keys, a, Half(a, b)), RelativeEntropy(ln, keys, b, Half(a, b)), ln(2.0),
               Loss(|keys|, t));
  }

  lemma SmallSomewhere(p: Dist, q: Dist, keys: set<string>)
    requires Sum(keys, Values(p)) >= 1.0 && Sum(keys, Values(q)) >= 1.0
    requires forall k :: k in keys ==> At(p, k) == 0.0 || At(q, k) == 0.0
    ensures NearlyDisjoint(keys, TwiceSmoothed(p, keys), TwiceSmoothed(q, keys))
  {
    hide TwiceSmoothed, Sum, At, Values;
    forall k | k in keys
      ensures TwiceSmoothed(p, keys)(k) <= 2.0 * EPSILON || TwiceSmoothed(q, keys)(k) <= 2.0 * EPSILON
    {
      if At(p, k) == 0.0 {
        SmallOffSupport(p, keys, k);
      } else {
        SmallOffSupport(q, keys, k);
      }
    }
  }

  lemma BothDistributions(p: Dist, q: Dist, keys: set<string>)
    requires NonNegative(p) && NonNegative(q) && keys == p.Keys + q.Keys && Sum(keys, Values(p)) >= 1.0
    ensures IsDistribution(keys, TwiceSmoothed(p, keys)) && IsDistribution(keys, TwiceSmoothed(q, keys))
  {
    hide *;
    MassHasKeys(p, keys);
    assert keys == q.Keys + p.Keys;
    TwiceSmoothedDistribution(p, q, keys);
    TwiceSmoothedDistribution(q, p, keys);
  }

  /** Distributions, or counts, of mass at least one that share no key are at a Jensen-Shannon value of one
      bit, less what smoothing costs: a bound in `EPSILON` and the number of keys. */
  lemma JSNearOne(ln: real -> real, p: Dist, q: Dist, keys: set<string>, t: real)
    requires IsLog(ln) && NonNegative(p) && NonNegative(q) && keys == p.Keys + q.Keys && ln(2.0) != 0.0
    requires Sum(keys, Values(p)) >= 1.0 && Sum(keys, Values(q)) >= 1.0 && t > 0.0
    requires forall k :: k in keys ==> At(p, k) == 0.0 || At(q, k) == 0.0
    ensures JSValue(ln, p, q) >= 1.0 - 2.0 * Loss(|keys|, t)
  {
    hide *;
    BothDistributions(p, q, keys);
    SmallSomewhere(p, q, keys);
    NearOne(ln, keys, TwiceSmoothed(p, keys), TwiceSmoothed(q, keys), t);
    JSIsTextbook(ln, p, q, keys);
  }

  lemma SmallLoss(n: nat)
    requires n <= 1000
    ensures Loss(n, 0.001) < 0.005
  {
    var c := Slack(0.001);
    assert c < 0.000003;
    MulMonotone(n as real, 1000.0, c);
  }

  /** With at most a thousand classes, two distributions without a common class are above 0.99. */
  lemma JSOfDisjointClasses(ln: real -> real, p: Dist, q: Dist)
    requires IsLog(ln) && NonNegative(p) && NonNegative(q) && ln(2.0) != 0.0 && |p.Keys + q.Keys| <= 1000
    requires p.Keys !! q.Keys && Sum(p.Keys, Values(p)) >= 1.0 && Sum(q.Keys, Values(q)) >= 1.0
    ensures JSValue(ln, p, q) > 0.99
  {
    var keys := p.Keys + q.Keys;
    hide IsLog, JSValue, NonNegative, Sum, Loss;
    SumExtend(p.Keys, keys, Values(p));
    SumExtend(q.Keys, keys, Values(q));
    JSNearOne(ln, p, q, keys, 0.001);
    SmallLoss(|keys|);
  }

  // ---------- normalising and total variation ----------

  /** Normalising keeps exactly the keys with a positive value and gives each its share of the positive
      mass, for all inputs. */
  lemma NormalizedShares(d: Dist, k: string)
    ensures k in Normalized(d) <==> k in d && d[k] > 0.0
    ensures At(Normalized(d), k) == Share(d, k)
  {
    SumNonNegative(d.Keys, PositiveParts(d));
    hide Sum;
    if k in d && d[k] > 0.0 {
      assert PositiveParts(d)(k) > 0.0;
    }
  }

  /** The probability that a distribution gives to each key. */
  ghost function Shares(d: Dist): string -> real {
    k => Share(d, k)
  }

  lemma ShareMapAt(d: Dist, keys: set<string>, k: string)
    requires k in keys
    ensures Values(ShareMap(d, keys))(k) == Shares(d)(k)
  {
    hide Share;
  }

  lemma OffSupport(d: Dist, k: string)
    requires k !in d
    ensures Share(d, k) == 0.0
  {
    hide Mass;
  }

  lemma ShareIsScaled(d: Dist, k: string)
    requires Mass(d) > 0.0
    ensures PositiveParts(d)(k) == Mass(d) * Shares(d)(k)
  {
    hide Mass, PositiveParts;
    DivMul(PositiveParts(d)(k), Mass(d));
  }

  lemma ScaledToOne(m: real, total: real, sum: real)
    requires sum == m > 0.0 && sum == m * total
    ensures total == 1.0
  {
    MulCancel(m, total);
  }

  lemma SharesSumToOne(d: Dist, keys: set<string>)
    requires Mass(d) > 0.0 && d.Keys <= keys
    ensures Sum(keys, Shares(d)) == 1.0
  {
    hide Sum, Mass, Shares, PositiveParts;
    MassOverKeys(d, keys);
    forall k | k in keys
      ensures PositiveParts(d)(k) == Mass(d) * Shares(d)(k)
    {
      ShareIsScaled(d, k);
    }
    var m, total := Mass(d), Sum(keys, Shares(d));
    SumScale(keys, Shares(d), PositiveParts(d), m);
    ScaledToOne(m, total, Sum(keys, PositiveParts(d)));
  }

  /** The distance as half of what the shares differ by. */
  lemma TVDOfShares(p: Dist, q: Dist, keys: set<string>, gaps: string -> real)
    requires p.Keys + q.Keys <= keys
    requires forall k :: k in keys ==> gaps(k) == Abs(Shares(p)(k) - Shares(q)(k))
    ensures 2.0 * TVDValue(p, q) == Sum(keys, gaps)
  {
    hide Sum, TVDValue, Share;
    TVDOverShares(p, q, keys);
    SumAgree(keys, gaps, Gaps(ShareMap(p, keys), ShareMap(q, keys)));
  }

  function Difference(a: string -> real, b: string -> real): string -> real {
    k => a(k) - b(k)
  }

  lemma SumDifference(s: set<string>, a: string -> real, b: string -> real)
    ensures Sum(s, Difference(a, b)) == Sum(s, a) - Sum(s, b)
  {
    hide Sum;
    SumPlus(s, Difference(a, b), b, a);
  }

  /** For functions of equal sums: no part of the keys has a larger difference than half of the gaps, and
      the part where the first function is larger has just that. */
  lemma PartialDifference(keys: set<string>, part: set<string>, d: string -> real, gaps: string -> real)
    requires part <= keys && Sum(keys, d) == 0.0 && forall k :: k in keys ==> gaps(k) == Abs(d(k))
    ensures 2.0 * Sum(part, d) <= Sum(keys, gaps)
    ensures (forall k :: k in keys ==> (k in part <==> d(k) > 0.0)) ==> 2.0 * Sum(part, d) == Sum(keys, gaps)
  {
    hide Sum;
    var inPart := (k: string) => if k in part then 2.0 * d(k) else 0.0;
    var both := (k: string) => gaps(k) + d(k);
    SumScale(part, d, inPart, 2.0);
    SumExtend(part, keys, inPart);
    SumPlus(keys, gaps, d, both);
    SumMonotone(keys, inPart, both);
    if forall k :: k in keys ==> (k in part <==> d(k) > 0.0) {
      SumMonotone(keys, both, inPart);
    }
  }

  /** The distance is the largest difference between the probabilities that the two distributions give to
      the same set of keys. */
  lemma TVDIsLargestDifference(p: Dist, q: Dist, part: set<string>)
    requires Mass(p) > 0.0 && Mass(q) > 0.0
    ensures Sum(part, Shares(p)) - Sum(part, Shares(q)) <= TVDValue(p, q)
    ensures (forall k :: k in p.Keys + q.Keys + part ==> (k in part <==> Share(p, k) > Share(q, k)))
            ==> Sum(part, Shares(p)) - Sum(part, Shares(q)) == TVDValue(p, q)
  {
    var keys := p.Keys + q.Keys + part;
    var d := Difference(Shares(p), Shares(q));
    var gaps := (k: string) => Abs(d(k));
    hide Sum, TVDValue, Share, Mass;
    SharesSumToOne(p, keys);
    SharesSumToOne(q, keys);
    SumDifference(keys, Shares(p), Shares(q));
    SumDifference(part, Shares(p), Shares(q));
    TVDOfShares(p, q, keys, gaps);
    PartialDifference(keys, part, d, gaps);
  }

  /** It is attained, at the keys to which the first distribution gives more. */
  lemma TVDIsAttained(p: Dist, q: Dist) returns (part: set<string>)
    requires Mass(p) > 0.0 && Mass(q) > 0.0
    ensures Sum(part, Shares(p)) - Sum(part, Shares(q)) == TVDValue(p, q)
  {
    hide Sum, TVDValue, Share, Mass, Shares;
    part := set k | k in p.Keys + q.Keys && Share(p, k) > Share(q, k);
    TVDIsLargestDifference(p, q, part);
  }
}
