/** Division with remainder by a variable, in the form the other modules use it. */
module IntArith {
  lemma MulGap(a: int, b: int, step: nat)
    requires a < b
    ensures a * step + step <= b * step
  {
    assert b * step == (a + 1) * step + (b - a - 1) * step;
    assert (b - a - 1) * step >= 0;
    assert (a + 1) * step == a * step + step;
  }

  lemma DivMod(n: nat, m: nat)
    requires m > 0
    ensures n == n / m * m + n % m && 0 <= n % m < m
  {
  }

  lemma DivModUnique(n: nat, q: int, r: int, m: nat)
    requires 0 <= r < m && n == q * m + r
    ensures n / m == q && n % m == r
  {
    DivMod(n, m);
    if n / m < q {
      MulGap(n / m, q, m);
    } else if q < n / m {
      MulGap(q, n / m, m);
    }
  }
}
