/** Divergences between class distributions, over exact reals. The natural logarithm is a parameter,
    known by two facts: it turns products into sums and lies below its tangent at one. */
module Divergence {
  import opened FiniteSums
  import opened RealArith

  type Dist = map<string, real>

  const EPSILON: real := 0.000000001

  predicate ProductRule(ln: real -> real, x: real, y: real, product: real) {
    x > 0.0 && y > 0.0 && product == x * y ==> ln(product) == ln(x) + ln(y)
  }

  predicate TangentRule(ln: real -> real, x: real) {
    x > 0.0 ==> ln(x) <= x - 1.0
  }

  ghost predicate IsLog(ln: real -> real) {
    (forall x, y, product :: ProductRule(ln, x, y, product)) && (forall x :: TangentRule(ln, x))
  }

  predicate NonNegative(d: Dist) {
    forall k :: k in d ==> d[k] >= 0.0
  }

  function PositiveParts(d: Dist): string -> real {
    k => if At(d, k) > 0.0 then At(d, k) else 0.0
  }

  // ---------- what the code computes ----------

  ghost function Mass(d: Dist): real {
    Sum(d.Keys, PositiveParts(d))
  }

  ghost function Normalized(d: Dist): Dist {
    if Mass(d) == 0.0 then map[] else map k | k in d && d[k] > 0.0 :: d[k] / Mass(d)
  }

  function Padded(a: Dist, b: Dist, eps: real): Dist {
    map k | k in a.Keys + b.Keys :: At(a, k) + eps
  }

  ghost function Smoothed(a: Dist, b: Dist, eps: real): Dist {
    Normalized(Padded(a, b, eps))
  }

  function LogTerm(ln: real -> real, p: real, q: real): real {
    if p > 0.0 && q > 0.0 then p * ln(p / q) else 0.0
  }

  function LogTerms(ln: real -> real, p: Dist, q: Dist): string -> real {
    k => LogTerm(ln, At(p, k), At(q, k))
  }

  ghost function KLValue(ln: real -> real, p: Dist, q: Dist): real {
    var pp, qq := Smoothed(p, q, EPSILON), Smoothed(q, p, EPSILON);
    Sum(pp.Keys, LogTerms(ln, pp, qq))
  }

  function Mixture(p: Dist, q: Dist): Dist {
    map k | k in p.Keys + q.Keys :: 0.5 * At(p, k) + 0.5 * At(q, k)
  }

  ghost function JSValue(ln: real -> real, p: Dist, q: Dist): real
    requires ln(2.0) != 0.0
  {
    var pp, qq := Smoothed(p, q, EPSILON), Smoothed(q, p, EPSILON);
    var m := Mixture(pp, qq);
    (0.5 * KLValue(ln, pp, m) + 0.5 * KLValue(ln, qq, m)) / ln(2.0)
  }

  function Abs(x: real): real {
    if x < 0.0 then -x else x
  }

  function Gaps(p: Dist, q: Dist): string -> real {
    k => Abs(At(p, k) - At(q, k))
  }

  ghost function TVDValue(p: Dist, q: Dist): real {
    var pp, qq := Smoothed(p, q, 0.0), Smoothed(q, p, 0.0);
    0.5 * Sum(pp.Keys + qq.Keys, Gaps(pp, qq))
  }

  // ---------- the loops ----------

  method Normalize(d: Dist) returns (out: Dist)
    ensures out == Normalized(d)
  {
    var sum := 0.0;
    var todo := d.Keys;
    ghost var f := PositiveParts(d);
    while todo != {}
      invariant todo <= d.Keys && sum + Sum(todo, f) == Sum(d.Keys, f)
      decreases todo
    {
      var k :| k in todo;
      SumRemove(todo, f, k);
      if d[k] > 0.0 {
        sum := sum + d[k];
      }
      todo := todo - {k};
    }
    if sum == 0.0 {
      return map[];
    }
    out := map[];
    todo := d.Keys;
    while todo != {}
      invariant todo <= d.Keys
      invariant out == map k | k in d && k !in todo && d[k] > 0.0 :: d[k] / sum
      decreases todo
    {
      var k :| k in todo;
      if d[k] > 0.0 {
        out := out[k := d[k] / sum];
      }
      todo := todo - {k};
    }
  }

  method Smooth(a: Dist, b: Dist, eps: real) returns (pa: Dist, pb: Dist)
    ensures pa == Smoothed(a, b, eps) && pb == Smoothed(b, a, eps)
  {
    var keys := a.Keys + b.Keys;
    pa, pb := map[], map[];
    var todo := keys;
    while todo != {}
      invariant todo <= keys
      invariant pa.Keys == pb.Keys == keys - todo
      invariant forall k :: k in keys - todo ==> pa[k] == At(a, k) + eps && pb[k] == At(b, k) + eps
      decreases todo
    {
      var k :| k in todo;
      pa, pb := pa[k := At(a, k) + eps], pb[k := At(b, k) + eps];
      todo := todo - {k};
    }
    assert pa == Padded(a, b, eps) && pb == Padded(b, a, eps);
    pa := Normalize(pa);
    pb := Normalize(pb);
  }

  method KL(ln: real -> real, p: Dist, q: Dist) returns (d: real)
    ensures d == KLValue(ln, p, q)
  {
    hide Sum, Smoothed, LogTerm;
    var pp, qq := Smooth(p, q, EPSILON);
    d := 0.0;
    var todo := pp.Keys;
    ghost var f := LogTerms(ln, pp, qq);
    while todo != {}
      invariant todo <= pp.Keys && d + Sum(todo, f) == Sum(pp.Keys, f)
      decreases todo
    {
      var k :| k in todo;
      SumRemove(todo, f, k);
      var pk, qk := pp[k], At(qq, k);
      LogTermIs(ln, pk, qk);
      if pk > 0.0 && qk > 0.0 {
        d := d + pk * ln(pk / qk);
      }
      todo := todo - {k};
    }
    SumEmpty(f);
  }

  lemma LogTermIs(ln: real -> real, p: real, q: real)
    ensures if p > 0.0 && q > 0.0 then LogTerm(ln, p, q) == p * ln(p / q) else LogTerm(ln, p, q) == 0.0
  {
  }

  /** The two loops of `JS` that build the mixture. */
  method Mix(pp: Dist, qq: Dist) returns (m: Dist)
    ensures m == Mixture(pp, qq)
  {
    m := map[];
    var todo := pp.Keys;
    while todo != {}
      invariant todo <= pp.Keys
      invariant m.Keys == pp.Keys - todo
      invariant forall k :: k in m ==> m[k] == 0.5 * At(pp, k) + 0.5 * At(qq, k)
      decreases todo
    {
      var k :| k in todo;
      m := m[k := 0.5 * pp[k] + 0.5 * At(qq, k)];
      todo := todo - {k};
    }
    todo := qq.Keys;
    while todo != {}
      invariant todo <= qq.Keys
      invariant m.Keys == pp.Keys + (qq.Keys - todo)
      invariant forall k :: k in m ==> m[k] == 0.5 * At(pp, k) + 0.5 * At(qq, k)
      decreases todo
    {
      var k :| k in todo;
      if k !in m {
        m := m[k := 0.5 * qq[k] + 0.5 * At(pp, k)];
      }
      todo := todo - {k};
    }
  }

  method JS(ln: real -> real, p: Dist, q: Dist) returns (d: real)
    requires ln(2.0) != 0.0
    ensures d == JSValue(ln, p, q)
  {
    hide Smoothed, KLValue, Mixture;
    var pp, qq := Smooth(p, q, EPSILON);
    var m := Mix(pp, qq);
    var left := KL(ln, pp, m);
    var right := KL(ln, qq, m);
    d := 0.5 * left + 0.5 * right;
    d := d / ln(2.0);
  }

  method TVD(p: Dist, q: Dist) returns (d: real)
    ensures d == TVDValue(p, q)
  {
    hide Sum, Smoothed;
    var pp, qq := Smooth(p, q, 0.0);
    var keys := pp.Keys + qq.Keys;
    d := 0.0;
    var todo := keys;
    ghost var f := Gaps(pp, qq);
    while todo != {}
      invariant todo <= keys && d + Sum(todo, f) == Sum(keys, f)
      decreases todo
    {
      var k :| k in todo;
      SumRemove(todo, f, k);
      d := d + Abs(At(pp, k) - At(qq, k));
      todo := todo - {k};
    }
    SumEmpty(f);
    d := 0.5 * d;
  }

  // ---------- facts about the logarithm ----------

  lemma LogOfOne(ln: real -> real)
    requires IsLog(ln)
    ensures ln(1.0) == 0.0
  {
    assert ProductRule(ln, 1.0, 1.0, 1.0);
  }

  lemma LogOfQuotient(ln: real -> real, x: real, y: real)
    requires IsLog(ln) && x > 0.0 && y > 0.0
    ensures ln(x / y) == ln(x) - ln(y) && x / y > 0.0
  {
    DivMul(x, y);
    if x / y <= 0.0 {
      MulMonotone(x / y, 0.0, y);
    }
    assert ProductRule(ln, x / y, y, x);
  }

  lemma LogMonotone(ln: real -> real, x: real, y: real)
    requires IsLog(ln) && 0.0 < x <= y
    ensures ln(x) <= ln(y)
  {
    LogOfQuotient(ln, x, y);
    assert TangentRule(ln, x / y);
    QuotientOrder(x, y, 1.0, 1.0);
  }

  lemma LogInverse(ln: real -> real, x: real, y: real)
    requires IsLog(ln) && x > 0.0 && y > 0.0 && x * y == 1.0
    ensures ln(x) == -ln(y)
  {
    LogOfOne(ln);
    assert ProductRule(ln, x, y, 1.0);
  }

  lemma LogTwoPositive(ln: real -> real)
    requires IsLog(ln)
    ensures ln(2.0) > 0.0
  {
    LogInverse(ln, 0.5, 2.0);
    assert TangentRule(ln, 0.5);
  }

  /** `p ln(p/q) >= p - q`: the pointwise form of Gibbs' inequality. */
  lemma LogTermLowerBound(ln: real -> real, p: real, q: real)
    requires IsLog(ln) && p > 0.0 && q > 0.0
    ensures LogTerm(ln, p, q) >= p - q
  {
    LogOfQuotient(ln, p, q);
    LogOfQuotient(ln, q, p);
    assert TangentRule(ln, q / p);
    DivMul(q, p);
    MulMonotone(1.0 - q / p, ln(p / q), p);
  }

  lemma LogTermUpperBound(ln: real -> real, p: real, q: real)
    requires IsLog(ln) && 0.0 < p <= 2.0 * q
    ensures LogTerm(ln, p, q) <= p * ln(2.0)
  {
    LogOfQuotient(ln, p, q);
    QuotientOrder(p, q, 2.0, 1.0);
    LogMonotone(ln, p / q, 2.0);
    MulMonotone(ln(p / q), ln(2.0), p);
  }

  // ---------- normalising ----------

  predicate Positive(d: Dist) {
    forall k :: k in d ==> d[k] > 0.0
  }

  lemma PositiveMass(d: Dist)
    requires Positive(d) && d != map[]
    ensures Mass(d) == Sum(d.Keys, Values(d)) > 0.0
  {
    hide Sum;
    SumAgree(d.Keys, PositiveParts(d), Values(d));
    var any :| any in d;
    assert Values(d)(any) > 0.0;
    SumNonNegative(d.Keys, Values(d));
  }

  lemma NormalizedRatio(d: Dist, k: string)
    requires Positive(d) && k in d && Mass(d) > 0.0
    ensures k in Normalized(d) && Normalized(d)[k] == d[k] / Mass(d) > 0.0
    ensures Values(Normalized(d))(k) == (1.0 / Mass(d)) * Values(d)(k)
  {
    hide Mass;
    ScaledQuotient(d[k], Mass(d));
  }

  /** A positive distribution keeps its keys and ratios, and sums to one. */
  lemma NormalizedPositive(d: Dist)
    requires Positive(d) && d != map[]
    ensures Mass(d) == Sum(d.Keys, Values(d)) > 0.0
    ensures Normalized(d).Keys == d.Keys && Positive(Normalized(d))
    ensures forall k :: k in d ==> Normalized(d)[k] == d[k] / Mass(d)
    ensures Sum(d.Keys, Values(Normalized(d))) == 1.0
  {
    PositiveMass(d);
    NormalizedKeys(d);
    hide Sum, Mass, Normalized, Values;
    forall k | k in d
      ensures k in Normalized(d) && Normalized(d)[k] == d[k] / Mass(d) > 0.0
      ensures Values(Normalized(d))(k) == (1.0 / Mass(d)) * Values(d)(k)
    {
      NormalizedRatio(d, k);
    }
    SumScale(d.Keys, Values(d), Values(Normalized(d)), 1.0 / Mass(d));
    assert Sum(d.Keys, Values(Normalized(d))) == (1.0 / Mass(d)) * Mass(d);
    DivMul(1.0, Mass(d));
  }

  lemma NormalizedKeys(d: Dist)
    ensures Normalized(d).Keys <= d.Keys
  {
  }

  lemma ScaledQuotient(x: real, m: real)
    requires m > 0.0 && x > 0.0
    ensures x / m == (1.0 / m) * x && x / m > 0.0
  {
    DivMul(x, m);
    DivMul(1.0, m);
    QuotientOrder(0.0, 1.0, x, m);
  }

  // ---------- Kullback-Leibler ----------

  /** Gibbs' inequality for two positive distributions on the same keys. */
  lemma Gibbs(ln: real -> real, p: Dist, q: Dist)
    requires IsLog(ln) && Positive(p) && Positive(q) && p.Keys == q.Keys
    requires Sum(p.Keys, Values(p)) == Sum(q.Keys, Values(q))
    ensures Sum(p.Keys, LogTerms(ln, p, q)) >= 0.0
  {
    hide Sum, LogTerm, IsLog;
    var diff := (k: string) => At(p, k) - At(q, k);
    forall k | k in p.Keys
      ensures Values(p)(k) == diff(k) + Values(q)(k)
      ensures diff(k) <= LogTerms(ln, p, q)(k)
    {
      LogTermLowerBound(ln, p[k], q[k]);
    }
    SumPlus(p.Keys, diff, Values(q), Values(p));
    SumMonotone(p.Keys, diff, LogTerms(ln, p, q));
  }

  lemma TimesOne(a: real, x: real)
    requires x == 1.0
    ensures a * x == a
  {
  }

  lemma DominatedTerm(ln: real -> real, p: Dist, q: Dist, k: string)
    requires IsLog(ln) && Positive(p) && Positive(q) && k in p && k in q && p[k] <= 2.0 * q[k]
    ensures LogTerms(ln, p, q)(k) <= ln(2.0) * Values(p)(k)
  {
    hide LogTerm, IsLog;
    LogTermUpperBound(ln, p[k], q[k]);
  }

  /** Twice the second distribution dominating the first bounds the divergence by `ln 2`. */
  lemma DominatedKL(ln: real -> real, p: Dist, q: Dist)
    requires IsLog(ln) && Positive(p) && Positive(q) && p.Keys == q.Keys
    requires forall k :: k in p ==> p[k] <= 2.0 * q[k]
    requires Sum(p.Keys, Values(p)) == 1.0
    ensures Sum(p.Keys, LogTerms(ln, p, q)) <= ln(2.0)
  {
    hide Sum, LogTerm, LogTerms, IsLog, Positive;
    forall k | k in p.Keys
      ensures LogTerms(ln, p, q)(k) <= ln(2.0) * Values(p)(k)
    {
      DominatedTerm(ln, p, q, k);
    }
    hide Values;
    DominatedSum(p.Keys, LogTerms(ln, p, q), Values(p), ln(2.0));
  }

  lemma DominatedSum(keys: set<string>, f: string -> real, g: string -> real, a: real)
    requires Sum(keys, g) == 1.0 && forall k :: k in keys ==> f(k) <= a * g(k)
    ensures Sum(keys, f) <= a
  {
    hide Sum;
    var bound := (k: string) => a * g(k);
    SumScale(keys, g, bound, a);
    SumMonotone(keys, f, bound);
    TimesOne(a, Sum(keys, g));
  }

  lemma PaddedPositive(p: Dist, q: Dist)
    requires NonNegative(p)
    ensures Positive(Padded(p, q, EPSILON)) && Padded(p, q, EPSILON).Keys == p.Keys + q.Keys
  {
  }

  lemma SmoothedPositive(p: Dist, q: Dist)
    requires NonNegative(p)
    ensures Smoothed(p, q, EPSILON).Keys == p.Keys + q.Keys && Positive(Smoothed(p, q, EPSILON))
    ensures p.Keys + q.Keys != {} ==> Sum(p.Keys + q.Keys, Values(Smoothed(p, q, EPSILON))) == 1.0
  {
    PaddedPositive(p, q);
    var d := Padded(p, q, EPSILON);
    if d != map[] {
      NormalizedPositive(d);
    } else {
      assert d.Keys == {};
      assert Normalized(d).Keys == {};
    }
  }

  /** The Kullback-Leibler divergence of non-negative inputs is never negative. */
  lemma KLNonNegative(ln: real -> real, p: Dist, q: Dist)
    requires IsLog(ln) && NonNegative(p) && NonNegative(q)
    ensures KLValue(ln, p, q) >= 0.0
  {
    SmoothedPositive(p, q);
    SmoothedPositive(q, p);
    assert p.Keys + q.Keys == q.Keys + p.Keys;
    if p.Keys + q.Keys != {} {
      Gibbs(ln, Smoothed(p, q, EPSILON), Smoothed(q, p, EPSILON));
    }
  }

  // ---------- Jensen-Shannon ----------

  /** Two distributions over the same keys and their mixture are smoothed by the same factor, so
      after the second smoothing the mixture still dominates half of each. */
  lemma DominatedAfterSmoothing(ln: real -> real, p: Dist, m: Dist)
    requires IsLog(ln) && Positive(p) && Positive(m) && p.Keys == m.Keys != {}
    requires Sum(p.Keys, Values(p)) == 1.0 == Sum(m.Keys, Values(m))
    requires forall k :: k in p ==> p[k] <= 2.0 * m[k]
    ensures KLValue(ln, p, m) <= ln(2.0)
  {
    var keys := p.Keys;
    assert keys + m.Keys == keys && m.Keys + keys == keys;
    var a, b := Padded(p, m, EPSILON), Padded(m, p, EPSILON);
    PaddedMass(p, m);
    PaddedMass(m, p);
    NormalizedPositive(a);
    NormalizedPositive(b);
    hide Sum, Normalized, Mass, Padded, LogTerms, IsLog;
    forall k | k in keys
      ensures Normalized(a)[k] <= 2.0 * Normalized(b)[k]
    {
      assert a[k] == p[k] + EPSILON && b[k] == m[k] + EPSILON by {
        PaddedAt(p, m, k);
        PaddedAt(m, p, k);
      }
      HalfQuotient(a[k], b[k], Mass(a));
    }
    DominatedKL(ln, Normalized(a), Normalized(b));
  }

  lemma PaddedAt(p: Dist, m: Dist, k: string)
    requires k in p
    ensures k in Padded(p, m, EPSILON) && Padded(p, m, EPSILON)[k] == p[k] + EPSILON
  {
  }

  lemma HalfQuotient(x: real, y: real, m: real)
    requires m > 0.0 && x <= 2.0 * y
    ensures x / m <= 2.0 * (y / m)
  {
    QuotientOrder(x, m, 2.0 * y, m);
    DivMul(y, m);
    DivMul(2.0 * y, m);
    if 2.0 * (y / m) < 2.0 * y / m {
      MulStrict(2.0 * (y / m), 2.0 * y / m, m);
    }
  }

  function Epsilons(): string -> real {
    k => EPSILON
  }

  /** Padding adds the same total to every distribution over the same keys. */
  lemma PaddedMass(p: Dist, m: Dist)
    requires Positive(p) && p.Keys == m.Keys != {}
    ensures Padded(p, m, EPSILON).Keys == p.Keys && Positive(Padded(p, m, EPSILON)) && Padded(p, m, EPSILON) != map[]
    ensures Mass(Padded(p, m, EPSILON)) == Sum(p.Keys, Values(p)) + Sum(p.Keys, Epsilons())
  {
    var d := Padded(p, m, EPSILON);
    assert d.Keys == p.Keys;
    NormalizedPositive(d);
    SumPlus(p.Keys, Values(p), Epsilons(), Values(d));
  }

  lemma MixtureIsDistribution(p: Dist, q: Dist)
    requires Positive(p) && Positive(q) && p.Keys == q.Keys
    requires p != map[] ==> Sum(p.Keys, Values(p)) == 1.0 == Sum(q.Keys, Values(q))
    ensures Mixture(p, q).Keys == p.Keys && Positive(Mixture(p, q))
    ensures p != map[] ==> Sum(p.Keys, Values(Mixture(p, q))) == 1.0
    ensures forall k :: k in p ==> p[k] <= 2.0 * Mixture(p, q)[k] && q[k] <= 2.0 * Mixture(p, q)[k]
  {
    assert Mixture(p, q).Keys == p.Keys;
    hide Sum, Mixture, Values;
    forall k | k in p
      ensures p[k] <= 2.0 * Mixture(p, q)[k] && q[k] <= 2.0 * Mixture(p, q)[k] && Mixture(p, q)[k] > 0.0
      ensures Values(Mixture(p, q))(k) == 0.5 * Values(p)(k) + 0.5 * Values(q)(k)
    {
      MixtureAt(p, q, k);
    }
    if p != map[] {
      HalvesSum(p.Keys, Values(p), Values(q), Values(Mixture(p, q)));
    }
  }

  lemma HalvesSum(keys: set<string>, f: string -> real, g: string -> real, h: string -> real)
    requires Sum(keys, f) == 1.0 && Sum(keys, g) == 1.0
    requires forall k :: k in keys ==> h(k) == 0.5 * f(k) + 0.5 * g(k)
    ensures Sum(keys, h) == 1.0
  {
    hide Sum;
    var halfF, halfG := (k: string) => 0.5 * f(k), (k: string) => 0.5 * g(k);
    SumScale(keys, f, halfF, 0.5);
    SumScale(keys, g, halfG, 0.5);
    SumPlus(keys, halfF, halfG, h);
  }

  lemma MixtureAt(p: Dist, q: Dist, k: string)
    requires k in p && k in q && p[k] > 0.0 && q[k] > 0.0
    ensures k in Mixture(p, q) && p[k] <= 2.0 * Mixture(p, q)[k] && q[k] <= 2.0 * Mixture(p, q)[k]
    ensures Mixture(p, q)[k] > 0.0
    ensures Values(Mixture(p, q))(k) == 0.5 * Values(p)(k) + 0.5 * Values(q)(k)
  {
  }

  /** Both halves of the Jensen-Shannon value lie between 0 and `ln 2`. */
  lemma HalfBounds(ln: real -> real, p: Dist, m: Dist)
    requires IsLog(ln) && HalfCovers(m, p)
    ensures 0.0 <= KLValue(ln, p, m) <= ln(2.0)
  {
    KLNonNegative(ln, p, m);
    if p != map[] {
      DominatedAfterSmoothing(ln, p, m);
    } else {
      LogTwoPositive(ln);
      SmoothedPositive(p, m);
      assert Smoothed(p, m, EPSILON).Keys == {};
    }
  }

  lemma AverageInUnit(a: real, b: real, c: real)
    requires c > 0.0 && 0.0 <= a <= c && 0.0 <= b <= c
    ensures 0.0 <= (0.5 * a + 0.5 * b) / c <= 1.0
  {
    QuotientInUnit(0.5 * a + 0.5 * b, c);
  }

  /** `m` is a distribution over the keys of the distribution `p`, at least half of it everywhere. */
  ghost predicate HalfCovers(m: Dist, p: Dist) {
    && Positive(p) && Positive(m) && p.Keys == m.Keys
    && (p != map[] ==> Sum(p.Keys, Values(p)) == 1.0 == Sum(m.Keys, Values(m)))
    && (forall k :: k in p ==> p[k] <= 2.0 * m[k])
  }

  lemma MixtureCovers(p: Dist, q: Dist, pp: Dist, qq: Dist)
    requires NonNegative(p) && NonNegative(q)
    requires pp == Smoothed(p, q, EPSILON) && qq == Smoothed(q, p, EPSILON)
    ensures HalfCovers(Mixture(pp, qq), pp) && HalfCovers(Mixture(pp, qq), qq)
  {
    SmoothedPositive(p, q);
    SmoothedPositive(q, p);
    assert p.Keys + q.Keys == q.Keys + p.Keys;
    hide Sum, Smoothed, Mixture, Positive, NonNegative, Values;
    MixtureIsDistribution(pp, qq);
  }

  lemma JSHalves(ln: real -> real, p: Dist, q: Dist, pp: Dist, qq: Dist, m: Dist)
    requires IsLog(ln) && NonNegative(p) && NonNegative(q)
    requires pp == Smoothed(p, q, EPSILON) && qq == Smoothed(q, p, EPSILON) && m == Mixture(pp, qq)
    ensures 0.0 <= KLValue(ln, pp, m) <= ln(2.0) && 0.0 <= KLValue(ln, qq, m) <= ln(2.0)
  {
    hide HalfCovers, KLValue, IsLog, Mixture, Smoothed;
    MixtureCovers(p, q, pp, qq);
    HalfBounds(ln, pp, m);
    HalfBounds(ln, qq, m);
  }

  /** The Jensen-Shannon divergence of non-negative inputs, in base 2, lies in [0, 1], although the
      divergences it averages smooth the already smoothed pair again. */
  lemma JSInUnitInterval(ln: real -> real, p: Dist, q: Dist)
    requires IsLog(ln) && NonNegative(p) && NonNegative(q)
    ensures ln(2.0) > 0.0 && 0.0 <= JSValue(ln, p, q) <= 1.0
  {
    hide Smoothed, KLValue, Mixture;
    LogTwoPositive(ln);
    var pp, qq := Smoothed(p, q, EPSILON), Smoothed(q, p, EPSILON);
    var m := Mixture(pp, qq);
    JSHalves(ln, p, q, pp, qq, m);
    AverageInUnit(KLValue(ln, pp, m), KLValue(ln, qq, m), ln(2.0));
  }

  lemma MixtureCommutes(p: Dist, q: Dist)
    ensures Mixture(p, q) == Mixture(q, p)
  {
  }

  lemma JSSymmetric(ln: real -> real, p: Dist, q: Dist)
    requires ln(2.0) != 0.0
    ensures JSValue(ln, p, q) == JSValue(ln, q, p)
  {
    hide Smoothed, KLValue, Mixture;
    var pp, qq := Smoothed(p, q, EPSILON), Smoothed(q, p, EPSILON);
    MixtureCommutes(pp, qq);
    var a, b := KLValue(ln, pp, Mixture(pp, qq)), KLValue(ln, qq, Mixture(pp, qq));
    assert 0.5 * a + 0.5 * b == 0.5 * b + 0.5 * a;
  }

  // ---------- total variation ----------

  /** The share of the positive mass that a key holds. */
  ghost function Share(d: Dist, k: string): real {
    if Mass(d) == 0.0 then 0.0 else PositiveParts(d)(k) / Mass(d)
  }

  /** Smoothing with zero only adds keys without mass. */
  lemma SmoothedShare(p: Dist, q: Dist, k: string)
    ensures At(Smoothed(p, q, 0.0), k) == Share(p, k)
    ensures Smoothed(p, q, 0.0).Keys <= p.Keys + q.Keys
  {
    var d := Padded(p, q, 0.0);
    SumExtend(p.Keys, d.Keys, PositiveParts(p));
    SumAgree(d.Keys, PositiveParts(d), PositiveParts(p));
    hide Sum;
    assert Mass(d) == Mass(p);
    if k in p && p[k] <= 0.0 {
      assert PositiveParts(p)(k) == 0.0;
    }
  }

  /** The shares a distribution gives to keys, written out. */
  ghost function ShareMap(d: Dist, keys: set<string>): Dist {
    map k | k in keys :: Share(d, k)
  }

  lemma SmoothedGap(p: Dist, q: Dist, keys: set<string>, k: string)
    requires p.Keys + q.Keys <= keys
    ensures var pp, qq := Smoothed(p, q, 0.0), Smoothed(q, p, 0.0);
      && (k in keys ==> Gaps(pp, qq)(k) == Gaps(ShareMap(p, keys), ShareMap(q, keys))(k))
      && (k !in pp.Keys + qq.Keys ==> Gaps(pp, qq)(k) == 0.0)
      && pp.Keys + qq.Keys <= keys
  {
    hide Sum, Smoothed, Share;
    SmoothedShare(p, q, k);
    SmoothedShare(q, p, k);
  }

  /** The value in terms of shares, over any set of keys that holds both distributions. */
  lemma TVDOverShares(p: Dist, q: Dist, keys: set<string>)
    requires p.Keys + q.Keys <= keys
    ensures TVDValue(p, q) == 0.5 * Sum(keys, Gaps(ShareMap(p, keys), ShareMap(q, keys)))
  {
    hide Sum, Smoothed, Share, ShareMap, Gaps;
    var pp, qq := Smoothed(p, q, 0.0), Smoothed(q, p, 0.0);
    var f, g := Gaps(pp, qq), Gaps(ShareMap(p, keys), ShareMap(q, keys));
    forall k
      ensures k in keys ==> f(k) == g(k)
      ensures k !in pp.Keys + qq.Keys ==> f(k) == 0.0
      ensures pp.Keys + qq.Keys <= keys
    {
      SmoothedGap(p, q, keys, k);
    }
    SmoothedGap(p, q, keys, "");
    SumExtend(pp.Keys + qq.Keys, keys, f);
    SumAgree(keys, f, g);
  }

  lemma ShareValue(d: Dist, keys: set<string>, k: string)
    requires d.Keys <= keys && k in keys && Mass(d) >= 0.0
    ensures At(ShareMap(d, keys), k) >= 0.0
    ensures At(ShareMap(d, keys), k) == (if Mass(d) == 0.0 then 0.0 else 1.0 / Mass(d)) * PositiveParts(d)(k)
  {
    hide Mass;
    if Mass(d) != 0.0 && PositiveParts(d)(k) > 0.0 {
      ScaledQuotient(PositiveParts(d)(k), Mass(d));
    }
  }

  lemma MassOverKeys(d: Dist, keys: set<string>)
    requires d.Keys <= keys
    ensures Mass(d) == Sum(keys, PositiveParts(d)) >= 0.0
  {
    SumNonNegative(d.Keys, PositiveParts(d));
    SumExtend(d.Keys, keys, PositiveParts(d));
  }

  /** The shares are non-negative and sum to at most one. */
  lemma SharesSum(d: Dist, keys: set<string>)
    requires d.Keys <= keys
    ensures forall k :: k in keys ==> At(ShareMap(d, keys), k) >= 0.0
    ensures Sum(keys, Values(ShareMap(d, keys))) <= 1.0
  {
    hide Sum, Mass, ShareMap, PositiveParts, At;
    MassOverKeys(d, keys);
    var factor := if Mass(d) == 0.0 then 0.0 else 1.0 / Mass(d);
    forall k | k in keys
      ensures At(ShareMap(d, keys), k) >= 0.0
      ensures Values(ShareMap(d, keys))(k) == factor * PositiveParts(d)(k)
    {
      ShareValue(d, keys, k);
    }
    SumScale(keys, PositiveParts(d), Values(ShareMap(d, keys)), factor);
    if Mass(d) != 0.0 {
      DivMul(1.0, Mass(d));
    }
  }

  // The L1 distance of two share vectors.

  lemma GapsSymmetric(keys: set<string>, a: Dist, b: Dist)
    ensures Sum(keys, Gaps(a, b)) == Sum(keys, Gaps(b, a))
  {
    hide Sum;
    SumAgree(keys, Gaps(a, b), Gaps(b, a));
  }

  lemma GapsTriangle(keys: set<string>, a: Dist, b: Dist, c: Dist)
    ensures Sum(keys, Gaps(a, c)) <= Sum(keys, Gaps(a, b)) + Sum(keys, Gaps(b, c))
  {
    hide Sum;
    var detour := (k: string) => Gaps(a, b)(k) + Gaps(b, c)(k);
    SumPlus(keys, Gaps(a, b), Gaps(b, c), detour);
    SumMonotone(keys, Gaps(a, c), detour);
  }

  lemma GapsBounded(keys: set<string>, a: Dist, b: Dist)
    requires forall k :: k in keys ==> At(a, k) >= 0.0 && At(b, k) >= 0.0
    ensures 0.0 <= Sum(keys, Gaps(a, b)) <= Sum(keys, Values(a)) + Sum(keys, Values(b))
  {
    hide Sum;
    var both := (k: string) => Values(a)(k) + Values(b)(k);
    SumPlus(keys, Values(a), Values(b), both);
    SumMonotone(keys, Gaps(a, b), both);
    SumNonNegative(keys, Gaps(a, b));
  }

  lemma TVDSymmetric(p: Dist, q: Dist)
    ensures TVDValue(p, q) == TVDValue(q, p)
  {
    hide Sum, Gaps, ShareMap, TVDValue;
    var keys := p.Keys + q.Keys;
    TVDOverShares(p, q, keys);
    TVDOverShares(q, p, keys);
    GapsSymmetric(keys, ShareMap(p, keys), ShareMap(q, keys));
  }

  lemma TVDInUnitInterval(p: Dist, q: Dist)
    ensures 0.0 <= TVDValue(p, q) <= 1.0
  {
    hide Sum, Gaps, ShareMap, TVDValue, At, Values;
    var keys := p.Keys + q.Keys;
    TVDOverShares(p, q, keys);
    SharesSum(p, keys);
    SharesSum(q, keys);
    GapsBounded(keys, ShareMap(p, keys), ShareMap(q, keys));
  }

  /** For all inputs, negative entries included. */
  lemma TVDTriangle(p: Dist, q: Dist, r: Dist)
    ensures TVDValue(p, r) <= TVDValue(p, q) + TVDValue(q, r)
  {
    hide Sum, Gaps, ShareMap, TVDValue;
    var keys := p.Keys + q.Keys + r.Keys;
    TVDOverShares(p, q, keys);
    TVDOverShares(q, r, keys);
    TVDOverShares(p, r, keys);
    GapsTriangle(keys, ShareMap(p, keys), ShareMap(q, keys), ShareMap(r, keys));
  }

  /** The distance is zero exactly when every key has the same share of both positive masses. */
  lemma TVDZeroIffSameShares(p: Dist, q: Dist)
    ensures TVDValue(p, q) == 0.0 <==> forall k :: k in p.Keys + q.Keys ==> Share(p, k) == Share(q, k)
  {
    hide Sum, TVDValue, Share;
    var keys := p.Keys + q.Keys;
    var gaps := Gaps(ShareMap(p, keys), ShareMap(q, keys));
    TVDOverShares(p, q, keys);
    SumNonNegative(keys, gaps);
    assert forall k :: k in keys ==> (gaps(k) == 0.0 <==> Share(p, k) == Share(q, k));
    if forall k :: k in keys ==> Share(p, k) == Share(q, k) {
      var zero := (k: string) => 0.0 * gaps(k);
      SumScale(keys, gaps, zero, 0.0);
      SumAgree(keys, gaps, zero);
    }
  }
}
