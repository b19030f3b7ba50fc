/** The tumbling-window rate limiter. Times are nanoseconds. */
module RateLimit {
  import opened Options
  import opened Strings

  type Time = int

  datatype Entry = Entry(count: nat, expireAt: Time)

  /** One request counted: a window opens with the first request after the previous one's end. */
  function Counted(e: Option<Entry>, now: Time, window: int): Entry {
    if e.None? || now > e.value.expireAt then Entry(1, now + window)
    else e.value.(count := e.value.count + 1)
  }

  function Get(counts: map<string, Entry>, key: string): Option<Entry> {
    if key in counts then Some(counts[key]) else None
  }

  class Store {
    const window: int
    var counts: map<string, Entry>

    constructor (window: int)
      ensures this.window == (if window == 0 then 60_000_000_000 else window) && counts == map[]
    {
      this.window := if window == 0 then 60_000_000_000 else window;
      counts := map[];
    }

    method IncrAndCheck(tenant: string, metric: string, now: Time) returns (used: nat)
      modifies this
      ensures var key := Key(tenant, metric);
        counts == old(counts)[key := Counted(Get(old(counts), key), now, window)] && used == counts[key].count
    {
      var key := Key(tenant, metric);
      if key !in counts || now > counts[key].expireAt {
        counts := counts[key := Entry(0, now + window)];
      }
      counts := counts[key := counts[key].(count := counts[key].count + 1)];
      used := counts[key].count;
    }

    /** The middleware's decision. Requests without a tenant, and tenants without a positive limit (or
        whose limit cannot be fetched), are let through uncounted. */
    method Admit(tenant: string, metric: string, limit: Option<int>, now: Time) returns (admitted: bool)
      modifies this
      ensures var key := Key(tenant, metric);
        if tenant == "" || limit.None? || limit.value <= 0 then admitted && counts == old(counts)
        else
          && counts == old(counts)[key := Counted(Get(old(counts), key), now, window)]
          && (admitted <==> counts[key].count <= limit.value)
    {
      if tenant == "" {
        return true;
      }
      if limit.None? || limit.value <= 0 {
        return true;
      }
      var used := IncrAndCheck(tenant, metric, now);
      admitted := used <= limit.value;
    }
  }

  // ---------- the requests of one key ----------

  /** The entry after the requests with these clock readings, in the order they took the lock. */
  function EntryAfter(ts: seq<Time>, window: int): Option<Entry> {
    if ts == [] then None
    else Some(Counted(EntryAfter(ts[..|ts| - 1], window), ts[|ts| - 1], window))
  }

  predicate LastAdmitted(ts: seq<Time>, window: int, limit: nat)
    requires ts != []
  {
    EntryAfter(ts, window).value.count <= limit
  }

  /** The admitted requests with a clock reading in the closed interval. */
  function AdmittedIn(ts: seq<Time>, window: int, limit: nat, lo: Time, hi: Time): nat {
    if ts == [] then 0
    else
      var n := |ts| - 1;
      AdmittedIn(ts[..n], window, limit, lo, hi)
      + if lo <= ts[n] <= hi && LastAdmitted(ts, window, limit) then 1 else 0
  }

  /** The admitted requests of the window that ends at `end`. */
  function AdmittedInWindow(ts: seq<Time>, window: int, limit: nat, end: Time): nat {
    if ts == [] then 0
    else
      var n := |ts| - 1;
      AdmittedInWindow(ts[..n], window, limit, end)
      + if EntryAfter(ts, window).value.expireAt == end && LastAdmitted(ts, window, limit) then 1 else 0
  }

  /** The requests that fall into the window that ends at `end`. */
  function RequestsInWindow(ts: seq<Time>, window: int, end: Time): nat {
    if ts == [] then 0
    else
      RequestsInWindow(ts[..|ts| - 1], window, end) + if EntryAfter(ts, window).value.expireAt == end then 1 else 0
  }

  function Min(a: int, b: int): int {
    if a < b then a else b
  }

  predicate NonDecreasing(ts: seq<Time>) {
    forall i, j :: 0 <= i < j < |ts| ==> ts[i] <= ts[j]
  }

  /** How many requests the interval `[lo, lo + window]` can have seen admitted, given the open window. */
  predicate WithinAllowance(e: Option<Entry>, window: int, limit: nat, lo: Time, admitted: nat) {
    match e
    case None => admitted == 0
    case Some(entry) =>
      var start, mine := entry.expireAt - window, Min(entry.count, limit);
      && entry.count >= 1
      && (entry.expireAt < lo ==> admitted == 0)
      && (start < lo ==> admitted <= mine - 1)
      && (start == lo ==> admitted <= mine)
      && (lo < start <= lo + window ==> admitted <= limit - 1 + mine)
      && admitted <= 2 * limit - 1
  }

  lemma {:induction false} Allowance(ts: seq<Time>, window: int, limit: nat, lo: Time)
    requires window >= 0 && limit >= 1 && NonDecreasing(ts)
    ensures WithinAllowance(EntryAfter(ts, window), window, limit, lo, AdmittedIn(ts, window, limit, lo, lo + window))
    ensures ts != [] ==> EntryAfter(ts, window).value.expireAt - window <= ts[|ts| - 1]
  {
    if ts != [] {
      Allowance(ts[..|ts| - 1], window, limit, lo);
    }
  }

  /** With a clock that does not go back, a closed interval as long as the window sees at most
      `2 * limit - 1` admitted requests of a key. */
  lemma AdmittedPerInterval(ts: seq<Time>, window: int, limit: nat, lo: Time)
    requires window >= 0 && limit >= 1 && NonDecreasing(ts)
    ensures AdmittedIn(ts, window, limit, lo, lo + window) <= 2 * limit - 1
  {
    Allowance(ts, window, limit, lo);
  }

  lemma {:induction false} WindowCount(ts: seq<Time>, window: int, limit: nat, end: Time)
    requires window >= 0
    ensures EntryAfter(ts, window).Some? ==> EntryAfter(ts, window).value.count >= 1
    ensures AdmittedInWindow(ts, window, limit, end) == Min(RequestsInWindow(ts, window, end), limit)
    ensures ts != [] && EntryAfter(ts, window).value.expireAt == end
            ==> RequestsInWindow(ts, window, end) == EntryAfter(ts, window).value.count
    ensures (ts == [] || EntryAfter(ts, window).value.expireAt < end) ==> RequestsInWindow(ts, window, end) == 0
  {
    if ts != [] {
      WindowCount(ts[..|ts| - 1], window, limit, end);
    }
  }

  /** Each tumbling window admits its requests up to `limit` of them. */
  lemma AdmittedPerWindow(ts: seq<Time>, window: int, limit: nat, end: Time)
    requires window >= 0
    ensures AdmittedInWindow(ts, window, limit, end) == Min(RequestsInWindow(ts, window, end), limit)
  {
    WindowCount(ts, window, limit, end);
  }

  // ---------- the bound is reached ----------

  function Repeat(t: Time, k: nat): seq<Time> {
    seq(k, _ => t)
  }

  /** One request, the rest of the limit at the end of the window, and a full limit just after it. */
  function Burst(window: int, limit: nat): seq<Time>
    requires limit >= 1
  {
    [0] + Repeat(window, limit - 1) + Repeat(window + 1, limit)
  }

  lemma {:induction false} RepeatCounts(front: seq<Time>, t: Time, k: nat, window: int, limit: nat, lo: Time, hi: Time)
    requires EntryAfter(front, window).Some? && t <= EntryAfter(front, window).value.expireAt && lo <= t <= hi
    requires EntryAfter(front, window).value.count + k <= limit
    ensures var e := EntryAfter(front, window).value;
            EntryAfter(front + Repeat(t, k), window) == Some(e.(count := e.count + k))
    ensures AdmittedIn(front + Repeat(t, k), window, limit, lo, hi) == AdmittedIn(front, window, limit, lo, hi) + k
  {
    var all := front + Repeat(t, k);
    if k == 0 {
      assert all == front;
    } else {
      assert all[..|all| - 1] == front + Repeat(t, k - 1);
      RepeatCounts(front, t, k - 1, window, limit, lo, hi);
    }
  }

  lemma FirstOfBurst(window: int, limit: nat)
    requires window >= 1 && limit >= 1
    ensures EntryAfter([0], window) == Some(Entry(1, window))
    ensures AdmittedIn([0], window, limit, 1, 1 + window) == 0
  {
    assert [0][..0] == [];
  }

  /** The request after the end of the window opens the next one. */
  lemma NextWindow(front: seq<Time>, window: int, limit: nat)
    requires window >= 1 && limit >= 1
    requires EntryAfter(front, window).Some? && EntryAfter(front, window).value.expireAt == window
    ensures var next := front + [window + 1];
      && EntryAfter(next, window) == Some(Entry(1, window + 1 + window))
      && AdmittedIn(next, window, limit, 1, 1 + window) == AdmittedIn(front, window, limit, 1, 1 + window) + 1
  {
    assert (front + [window + 1])[..|front|] == front;
  }

  lemma BoundIsReached(window: int, limit: nat)
    requires window >= 1 && limit >= 1
    ensures NonDecreasing(Burst(window, limit))
    ensures AdmittedIn(Burst(window, limit), window, limit, 1, 1 + window) == 2 * limit - 1
  {
    hide AdmittedIn, EntryAfter;
    FirstOfBurst(window, limit);
    var first := [0] + Repeat(window, limit - 1);
    RepeatCounts([0], window, limit - 1, window, limit, 1, 1 + window);
    var next := first + [window + 1];
    NextWindow(first, window, limit);
    RepeatCounts(next, window + 1, limit - 1, window, limit, 1, 1 + window);
    assert next + Repeat(window + 1, limit - 1) == Burst(window, limit);
  }

  /** An interval as long as the window sees no more admitted requests than the limit. */
  predicate KeepsToLimit(ts: seq<Time>, window: int, limit: nat, lo: Time) {
    NonDecreasing(ts) ==> AdmittedIn(ts, window, limit, lo, lo + window) <= limit
  }

  /** The limit holds in every interval as long as the window, and not only in the tumbling ones, exactly
      when it is 1. */
  lemma LimitKeptIff(window: int, limit: nat)
    requires window >= 1 && limit >= 1
    ensures (forall ts: seq<Time>, lo: Time :: KeepsToLimit(ts, window, limit, lo)) <==> limit == 1
  {
    hide AdmittedIn;
    if limit == 1 {
      forall ts: seq<Time>, lo: Time
        ensures KeepsToLimit(ts, window, limit, lo)
      {
        if NonDecreasing(ts) {
          AdmittedPerInterval(ts, window, limit, lo);
        }
      }
    } else {
      BoundIsReached(window, limit);
      assert !KeepsToLimit(Burst(window, limit), window, limit, 1);
    }
  }

  // ---------- the requests of all tenants ----------

  /** A counted request of one middleware, whose metric is fixed. */
  datatype Request = Request(tenant: string, now: Time)

  /** The store after interleaved requests of any tenants. */
  function CountsAfter(reqs: seq<Request>, metric: string, window: int): map<string, Entry> {
    if reqs == [] then map[]
    else
      var n := |reqs| - 1;
      var before, key := CountsAfter(reqs[..n], metric, window), Key(reqs[n].tenant, metric);
      before[key := Counted(Get(before, key), reqs[n].now, window)]
  }

  function TimesOf(reqs: seq<Request>, tenant: string): seq<Time> {
    if reqs == [] then []
    else
      var n := |reqs| - 1;
      TimesOf(reqs[..n], tenant) + if reqs[n].tenant == tenant then [reqs[n].now] else []
  }

  /** What the store holds for a tenant depends on that tenant's requests only. */
  lemma {:induction false} TenantsAreIndependent(reqs: seq<Request>, metric: string, window: int, tenant: string)
    ensures Get(CountsAfter(reqs, metric, window), Key(tenant, metric)) == EntryAfter(TimesOf(reqs, tenant), window)
  {
    if reqs != [] {
      var n := |reqs| - 1;
      var front := TimesOf(reqs[..n], tenant);
      TenantsAreIndependent(reqs[..n], metric, window, tenant);
      if reqs[n].tenant == tenant {
        assert (front + [reqs[n].now])[..|front|] == front;
      } else {
        assert TimesOf(reqs, tenant) == front;
        if Key(tenant, metric) == Key(reqs[n].tenant, metric) {
          KeyInjective(tenant, reqs[n].tenant, metric);
        }
      }
    }
  }

  predicate ClockForward(reqs: seq<Request>) {
    forall i, j :: 0 <= i < j < |reqs| ==> reqs[i].now <= reqs[j].now
  }

  lemma {:induction false} TimesFollowClock(reqs: seq<Request>, tenant: string)
    requires ClockForward(reqs)
    ensures NonDecreasing(TimesOf(reqs, tenant))
    ensures forall t :: t in TimesOf(reqs, tenant) ==> t <= reqs[|reqs| - 1].now
  {
    if reqs != [] {
      var n := |reqs| - 1;
      TimesFollowClock(reqs[..n], tenant);
      var front := TimesOf(reqs[..n], tenant);
      assert forall i :: 0 <= i < |front| ==> front[i] in front;
      assert n > 0 ==> reqs[..n][n - 1] == reqs[n - 1];
    }
  }

  /** The requests of a tenant that the store's counts admit, in a closed interval. */
  function AdmittedOf(reqs: seq<Request>, metric: string, window: int, limit: nat, tenant: string,
                      lo: Time, hi: Time): nat
  {
    if reqs == [] then 0
    else
      var n := |reqs| - 1;
      var e := Get(CountsAfter(reqs, metric, window), Key(tenant, metric));
      AdmittedOf(reqs[..n], metric, window, limit, tenant, lo, hi)
      + if reqs[n].tenant == tenant && lo <= reqs[n].now <= hi && e.Some? && e.value.count <= limit then 1 else 0
  }

  lemma {:induction false} AdmittedOfIsAdmittedIn(reqs: seq<Request>, metric: string, window: int, limit: nat,
                                                  tenant: string, lo: Time, hi: Time)
    ensures AdmittedOf(reqs, metric, window, limit, tenant, lo, hi)
            == AdmittedIn(TimesOf(reqs, tenant), window, limit, lo, hi)
  {
    hide CountsAfter;
    if reqs != [] {
      var n := |reqs| - 1;
      var front := TimesOf(reqs[..n], tenant);
      AdmittedOfIsAdmittedIn(reqs[..n], metric, window, limit, tenant, lo, hi);
      TenantsAreIndependent(reqs, metric, window, tenant);
      if reqs[n].tenant == tenant {
        assert (front + [reqs[n].now])[..|front|] == front;
      } else {
        assert TimesOf(reqs, tenant) == front;
      }
    }
  }

  /** Whatever the other tenants send, a tenant with a fixed positive limit gets at most
      `2 * limit - 1` requests through in any closed interval as long as the window. */
  lemma EveryTenantPerInterval(reqs: seq<Request>, metric: string, window: int, limit: nat, tenant: string, lo: Time)
    requires window >= 0 && limit >= 1 && ClockForward(reqs)
    ensures AdmittedOf(reqs, metric, window, limit, tenant, lo, lo + window) <= 2 * limit - 1
  {
    TimesFollowClock(reqs, tenant);
    AdmittedOfIsAdmittedIn(reqs, metric, window, limit, tenant, lo, lo + window);
    AdmittedPerInterval(TimesOf(reqs, tenant), window, limit, lo);
  }
}
