/** Sums of a real-valued function over a finite set of keys, in no particular order. */
module FiniteSums {
  /** Reading a missing key gives zero. */
  function At(m: map<string, real>, k: string): real {
    if k in m then m[k] else 0.0
  }

  function Values(m: map<string, real>): string -> real {
    k => At(m, k)
  }

  ghost function Sum(s: set<string>, f: string -> real): real {
    if s == {} then 0.0
    else
      var k :| k in s;
      f(k) + Sum(s - {k}, f)
  }

  /** Any key may be taken out first. */
  lemma {:induction false} SumRemove(s: set<string>, f: string -> real, k: string)
    requires k in s
    ensures Sum(s, f) == f(k) + Sum(s - {k}, f)
    decreases |s|
  {
    var first :| first in s && Sum(s, f) == f(first) + Sum(s - {first}, f);
    if first != k {
      SumRemove(s - {first}, f, k);
      SumRemove(s - {k}, f, first);
      assert s - {first} - {k} == s - {k} - {first};
    }
  }

  lemma SumAdd(s: set<string>, f: string -> real, k: string)
    requires k !in s
    ensures Sum(s + {k}, f) == Sum(s, f) + f(k)
  {
    SumRemove(s + {k}, f, k);
    assert s + {k} - {k} == s;
  }

  lemma SumEmpty(f: string -> real)
    ensures Sum({}, f) == 0.0
  {
  }

  lemma {:induction false} SumScale(s: set<string>, f: string -> real, h: string -> real, a: real)
    requires forall k :: k in s ==> h(k) == a * f(k)
    ensures Sum(s, h) == a * Sum(s, f)
    decreases |s|
  {
    hide Sum;
    if s == {} {
      SumEmpty(f);
      SumEmpty(h);
    } else {
      var k :| k in s;
      SumRemove(s, f, k);
      SumRemove(s, h, k);
      SumScale(s - {k}, f, h, a);
      Distribute(a, f(k), Sum(s - {k}, f));
      assert h(k) == a * f(k);
    }
  }

  lemma Distribute(a: real, x: real, y: real)
    ensures a * (x + y) == a * x + a * y
  {
  }

  lemma {:induction false} SumPlus(s: set<string>, f: string -> real, g: string -> real, h: string -> real)
    requires forall k :: k in s ==> h(k) == f(k) + g(k)
    ensures Sum(s, h) == Sum(s, f) + Sum(s, g)
    decreases |s|
  {
    if s != {} {
      var k :| k in s;
      SumRemove(s, f, k);
      SumRemove(s, g, k);
      SumRemove(s, h, k);
      SumPlus(s - {k}, f, g, h);
    }
  }

  lemma {:induction false} SumMonotone(s: set<string>, f: string -> real, g: string -> real)
    requires forall k :: k in s ==> f(k) <= g(k)
    ensures Sum(s, f) <= Sum(s, g)
    decreases |s|
  {
    if s != {} {
      var k :| k in s;
      SumRemove(s, f, k);
      SumRemove(s, g, k);
      SumMonotone(s - {k}, f, g);
    }
  }

  lemma SumAgree(s: set<string>, f: string -> real, g: string -> real)
    requires forall k :: k in s ==> f(k) == g(k)
    ensures Sum(s, f) == Sum(s, g)
  {
    SumMonotone(s, f, g);
    SumMonotone(s, g, f);
  }

  lemma {:induction false} SumNonNegative(s: set<string>, f: string -> real)
    requires forall k :: k in s ==> f(k) >= 0.0
    ensures Sum(s, f) >= 0.0
    ensures (exists k :: k in s && f(k) > 0.0) ==> Sum(s, f) > 0.0
    decreases |s|
  {
    if s != {} {
      var k :| k in s && ((exists j :: j in s && f(j) > 0.0) ==> f(k) > 0.0);
      SumRemove(s, f, k);
      SumNonNegative(s - {k}, f);
    }
  }

  /** Keys where the function is zero do not matter. */
  lemma {:induction false} SumExtend(s: set<string>, t: set<string>, f: string -> real)
    requires s <= t && forall k :: k in t && k !in s ==> f(k) == 0.0
    ensures Sum(t, f) == Sum(s, f)
    decreases |t|
  {
    if s != t {
      var k :| k in t && k !in s;
      SumRemove(t, f, k);
      SumExtend(s, t - {k}, f);
    }
  }
}
