/** The rolling window of class counts, in one-second buckets that snapshots prune. */
module RollingWindow {
  import opened FiniteSums
  import opened RealArith

  /** One detection: its second and its class. */
  type Seen = (int, string)

  type Bucket = map<string, nat>

  type Shares = map<string, real>

  datatype Distribution = Distribution(classes: Shares, samples: nat, windowStart: int, windowEnd: int)

  // ---------- counting the observation log ----------

  /** How many entries of the log are in a set. */
  ghost function Count(log: seq<Seen>, s: iset<Seen>): nat {
    if log == [] then 0
    else Count(log[..|log| - 1], s) + if log[|log| - 1] in s then 1 else 0
  }

  ghost function Since(cutoff: int): iset<Seen> {
    iset p: Seen | p.0 >= cutoff
  }

  ghost function OfClass(s: iset<Seen>, name: string): iset<Seen> {
    iset p | p in s && p.1 == name
  }

  ghost function Only(sec: int, name: string): iset<Seen> {
    iset{(sec, name)}
  }

  lemma {:induction false} CountAgree(log: seq<Seen>, s: iset<Seen>, t: iset<Seen>)
    requires forall p :: p in log ==> (p in s <==> p in t)
    ensures Count(log, s) == Count(log, t)
  {
    if log != [] {
      CountAgree(log[..|log| - 1], s, t);
    }
  }

  lemma {:induction false} CountAdd(log: seq<Seen>, s: iset<Seen>, p: Seen)
    requires p !in s
    ensures Count(log, s + iset{p}) == Count(log, s) + Count(log, iset{p})
  {
    if log != [] {
      CountAdd(log[..|log| - 1], s, p);
    }
  }

  lemma {:induction false} CountEmpty(log: seq<Seen>, s: iset<Seen>)
    requires s == iset{}
    ensures Count(log, s) == 0
  {
    if log != [] {
      CountEmpty(log[..|log| - 1], s);
    }
  }

  lemma CountSnoc(log: seq<Seen>, p: Seen, s: iset<Seen>)
    ensures Count(log + [p], s) == Count(log, s) + if p in s then 1 else 0
  {
    assert (log + [p])[..|log|] == log;
  }

  function BucketCount(buckets: map<int, Bucket>, sec: int, name: string): nat {
    if sec in buckets && name in buckets[sec] then buckets[sec][name] else 0
  }

  /** The buckets hold the log from some second on, exactly. */
  ghost predicate Mirrors(buckets: map<int, Bucket>, log: seq<Seen>, horizon: int) {
    && (forall sec :: sec in buckets ==> sec >= horizon)
    && (forall sec, name :: sec >= horizon ==> BucketCount(buckets, sec, name) == Count(log, Only(sec, name)))
    && (forall sec, name :: sec in buckets && name in buckets[sec] ==> buckets[sec][name] >= 1)
  }

  /** The buckets after one more detection. */
  function Observed(buckets: map<int, Bucket>, now: int, name: string): map<int, Bucket> {
    var b := if now in buckets then buckets[now] else map[];
    buckets[now := b[name := BucketCount(buckets, now, name) + 1]]
  }

  lemma ObservedCount(buckets: map<int, Bucket>, now: int, name: string, sec: int, n: string)
    ensures BucketCount(Observed(buckets, now, name), sec, n)
            == BucketCount(buckets, sec, n) + if (now, name) in Only(sec, n) then 1 else 0
  {
  }

  lemma ObserveMirrors(buckets: map<int, Bucket>, log: seq<Seen>, horizon: int, now: int, name: string)
    requires Mirrors(buckets, log, horizon) && now >= horizon
    ensures Mirrors(Observed(buckets, now, name), log + [(now, name)], horizon)
  {
    hide Count, BucketCount;
    var buckets' := Observed(buckets, now, name);
    forall sec, n | sec >= horizon
      ensures BucketCount(buckets', sec, n) == Count(log + [(now, name)], Only(sec, n))
    {
      CountSnoc(log, (now, name), Only(sec, n));
      ObservedCount(buckets, now, name, sec, n);
    }
  }

  lemma PruneMirrors(buckets: map<int, Bucket>, log: seq<Seen>, horizon: int, cutoff: int)
    requires Mirrors(buckets, log, horizon) && cutoff >= horizon
    ensures Mirrors(map sec | sec in buckets && sec >= cutoff :: buckets[sec], log, cutoff)
  {
    var pruned := map sec | sec in buckets && sec >= cutoff :: buckets[sec];
    forall sec, name | sec >= cutoff
      ensures BucketCount(pruned, sec, name) == Count(log, Only(sec, name))
    {
      assert BucketCount(pruned, sec, name) == BucketCount(buckets, sec, name);
    }
  }

  // ---------- adding the buckets up ----------

  /** The totals after the pairs in `done` have been added. */
  ghost predicate AddedUp(log: seq<Seen>, done: iset<Seen>, classes: Shares, total: nat) {
    && total == Count(log, done)
    && (forall c :: At(classes, c) == Count(log, OfClass(done, c)) as real)
    && (forall c :: c in classes <==> exists sec :: (sec, c) in done)
    && Sum(classes.Keys, Values(classes)) == total as real
  }

  lemma NothingAdded(log: seq<Seen>)
    ensures AddedUp(log, iset{}, map[], 0)
  {
    CountEmpty(log, iset{});
    forall c
      ensures Count(log, OfClass(iset{}, c)) == 0
    {
      CountEmpty(log, OfClass(iset{}, c));
    }
    var none: Shares := map[];
    assert none.Keys == {};
    SumEmpty(Values(none));
  }

  lemma SumOfUpdate(m: Shares, k: string, x: real)
    ensures Sum(m[k := x].Keys, Values(m[k := x])) == Sum(m.Keys, Values(m)) - At(m, k) + x
  {
    hide Sum;
    var keys, new_ := m.Keys, m[k := x];
    var rest := keys - {k};
    if k in keys {
      SumRemove(keys, Values(m), k);
    } else {
      assert rest == keys;
    }
    assert new_.Keys == rest + {k};
    SumAdd(rest, Values(new_), k);
    SumAgree(rest, Values(new_), Values(m));
  }

  lemma ClassCount(log: seq<Seen>, done: iset<Seen>, sec: int, name: string, c: string)
    requires (sec, name) !in done
    ensures Count(log, OfClass(done + Only(sec, name), c))
            == Count(log, OfClass(done, c)) + if c == name then Count(log, Only(sec, name)) else 0
  {
    if c == name {
      CountAdd(log, OfClass(done, c), (sec, name));
      assert OfClass(done + Only(sec, name), c) == OfClass(done, c) + Only(sec, name);
    } else {
      assert OfClass(done + Only(sec, name), c) == OfClass(done, c);
    }
  }

  lemma PairAdded(log: seq<Seen>, done: iset<Seen>, classes: Shares, total: nat, sec: int, name: string)
    requires AddedUp(log, done, classes, total) && (sec, name) !in done
    ensures var n := Count(log, Only(sec, name));
            AddedUp(log, done + Only(sec, name), classes[name := At(classes, name) + n as real], total + n)
  {
    hide Count, OfClass, Sum;
    var n := Count(log, Only(sec, name));
    CountAdd(log, done, (sec, name));
    SumOfUpdate(classes, name, At(classes, name) + n as real);
    forall c
      ensures At(classes[name := At(classes, name) + n as real], c)
              == Count(log, OfClass(done + Only(sec, name), c)) as real
    {
      ClassCount(log, done, sec, name, c);
    }
    assert (sec, name) in done + Only(sec, name);
  }

  // ---------- which log entries the buckets hold ----------

  lemma {:induction false} CountPositive(log: seq<Seen>, p: Seen)
    ensures p in log <==> Count(log, iset{p}) >= 1
  {
    if log != [] {
      CountPositive(log[..|log| - 1], p);
      assert p in log <==> p in log[..|log| - 1] || p == log[|log| - 1];
    }
  }

  lemma {:induction false} CountMember(log: seq<Seen>, p: Seen, s: iset<Seen>)
    requires p in log && p in s
    ensures Count(log, s) >= 1
  {
    if log[|log| - 1] != p {
      CountMember(log[..|log| - 1], p, s);
    }
  }

  lemma SeenMeansSamples(log: seq<Seen>, cutoff: int, name: string)
    requires SeenSince(log, cutoff, name)
    ensures Count(log, Since(cutoff)) >= 1
  {
    hide Count;
    var sec :| sec >= cutoff && (sec, name) in log;
    CountMember(log, (sec, name), Since(cutoff));
  }

  predicate Holds(buckets: map<int, Bucket>, p: Seen) {
    p.0 in buckets && p.1 in buckets[p.0]
  }

  lemma BucketIsCount(buckets: map<int, Bucket>, log: seq<Seen>, cutoff: int, sec: int, name: string)
    requires Mirrors(buckets, log, cutoff) && Holds(buckets, (sec, name))
    ensures buckets[sec][name] == Count(log, Only(sec, name))
  {
    assert BucketCount(buckets, sec, name) == Count(log, Only(sec, name));
  }

  lemma HoldsRecent(buckets: map<int, Bucket>, log: seq<Seen>, cutoff: int, p: Seen)
    requires Mirrors(buckets, log, cutoff)
    ensures Holds(buckets, p) <==> p in log && p.0 >= cutoff
  {
    CountPositive(log, p);
    if p.0 >= cutoff {
      assert BucketCount(buckets, p.0, p.1) == Count(log, Only(p.0, p.1));
    }
  }

  /** The totals over every pair the buckets hold are the totals over the log since the cutoff. */
  lemma TotalsAreRecent(buckets: map<int, Bucket>, log: seq<Seen>, cutoff: int, done: iset<Seen>,
                        classes: Shares, total: nat)
    requires Mirrors(buckets, log, cutoff) && AddedUp(log, done, classes, total)
    requires forall p :: p in done <==> Holds(buckets, p)
    ensures total == Count(log, Since(cutoff))
    ensures forall c :: c in classes <==> SeenSince(log, cutoff, c)
    ensures forall c :: At(classes, c) == Count(log, OfClass(Since(cutoff), c)) as real
  {
    hide Count, Mirrors;
    forall p
      ensures p in done <==> p in log && p.0 >= cutoff
    {
      HoldsRecent(buckets, log, cutoff, p);
    }
    CountAgree(log, done, Since(cutoff));
    forall c
      ensures c in classes <==> SeenSince(log, cutoff, c)
    {
      if sec :| (sec, c) in done {
        assert (sec, c) in log;
      }
    }
    forall c
      ensures Count(log, OfClass(done, c)) == Count(log, OfClass(Since(cutoff), c))
    {
      CountAgree(log, OfClass(done, c), OfClass(Since(cutoff), c));
    }
  }

  ghost predicate SeenSince(log: seq<Seen>, cutoff: int, name: string) {
    exists sec :: sec >= cutoff && (sec, name) in log
  }

  /** What a snapshot must report, in terms of the whole log and nothing else. */
  ghost predicate Reports(d: Distribution, log: seq<Seen>, cutoff: int) {
    && d.samples == Count(log, Since(cutoff))
    && (forall c :: c in d.classes <==> SeenSince(log, cutoff, c))
    && (d.classes.Keys != {} ==> d.samples > 0)
    && (forall c :: c in d.classes ==>
          d.classes[c] == Count(log, OfClass(Since(cutoff), c)) as real / d.samples as real)
  }

  lemma SharesSumToOne(classes: Shares, shares: Shares, total: nat)
    requires total > 0 && Sum(classes.Keys, Values(classes)) == total as real
    requires shares.Keys == classes.Keys
    requires forall c :: c in classes ==> shares[c] == classes[c] / total as real
    ensures Sum(shares.Keys, Values(shares)) == 1.0
  {
    hide Sum;
    var t := total as real;
    forall c | c in classes
      ensures Values(classes)(c) == t * Values(shares)(c)
    {
      DivMul(classes[c], t);
    }
    hide Values;
    ScaledToOne(classes.Keys, Values(shares), Values(classes), t);
  }

  lemma ScaledToOne(keys: set<string>, f: string -> real, h: string -> real, t: real)
    requires t > 0.0 && Sum(keys, h) == t && forall k :: k in keys ==> h(k) == t * f(k)
    ensures Sum(keys, f) == 1.0
  {
    hide Sum;
    SumScale(keys, f, h, t);
    MulCancel(t, Sum(keys, f));
  }

  lemma HasMember(s: set<int>)
    ensures s == {} || exists k :: k in s
  {
    if forall k :: k !in s {
      var none: set<int> := set k | k in s && k != k;
      assert none == s;
    }
  }

  class Rolling {
    const widthSec: int
    var buckets: map<int, Bucket>

    /** Every detection since the start, never pruned; and up to which second pruning has gone. */
    ghost var log: seq<Seen>
    ghost var horizon: int
    ghost var clock: int

    ghost predicate Valid()
      reads this
    {
      && widthSec > 0
      && horizon <= clock - widthSec
      && Mirrors(buckets, log, horizon)
    }

    constructor (widthSeconds: int, ghost start: int)
      ensures Valid() && log == [] && clock == start
      ensures widthSec == if widthSeconds <= 0 then 900 else widthSeconds
    {
      widthSec := if widthSeconds <= 0 then 900 else widthSeconds;
      buckets := map[];
      log, clock := [], start;
      horizon := start - if widthSeconds <= 0 then 900 else widthSeconds;
    }

    /** The clock is read only for a named class. */
    method Observe(name: string, now: int)
      requires Valid() && (name != "" ==> now >= clock)
      modifies this
      ensures Valid() && clock == if name == "" then old(clock) else now
      ensures log == if name == "" then old(log) else old(log) + [(now, name)]
    {
      if name == "" {
        return;
      }
      clock := now;
      ObserveMirrors(buckets, log, horizon, now, name);
      if now !in buckets {
        buckets := buckets[now := map[]];
      }
      var b := buckets[now];
      buckets := buckets[now := b[name := (if name in b then b[name] else 0) + 1]];
      assert buckets == Observed(old(buckets), now, name);
      log := log + [(now, name)];
    }

    /** Delete the buckets older than the cutoff. */
    method Prune(cutoff: int)
      modifies `buckets
      ensures buckets == map sec | sec in old(buckets) && sec >= cutoff :: old(buckets)[sec]
    {
      var secs := buckets.Keys;
      while secs != {}
        invariant secs <= buckets.Keys <= old(buckets).Keys
        invariant forall sec :: sec in old(buckets) && (sec in secs || sec >= cutoff) ==> sec in buckets
        invariant forall sec :: sec in buckets ==> buckets[sec] == old(buckets)[sec] && (sec in secs || sec >= cutoff)
        decreases |secs|
      {
        HasMember(secs);
        var sec :| sec in secs;
        if sec < cutoff {
          buckets := buckets - {sec};
        }
        secs := secs - {sec};
      }
    }

    /** Add every count of every bucket to its class and to the total. */
    method AddUp(ghost cutoff: int) returns (classes: Shares, total: nat)
      requires Mirrors(buckets, log, cutoff)
      ensures total == Count(log, Since(cutoff)) && Sum(classes.Keys, Values(classes)) == total as real
      ensures forall c :: c in classes <==> SeenSince(log, cutoff, c)
      ensures forall c :: At(classes, c) == Count(log, OfClass(Since(cutoff), c)) as real
    {
      hide Count, Sum, Since, OfClass, Mirrors, BucketCount;
      classes, total := map[], 0;
      ghost var done: iset<Seen> := iset{};
      NothingAdded(log);
      var secs := buckets.Keys;
      while secs != {}
        invariant secs <= buckets.Keys && AddedUp(log, done, classes, total)
        invariant forall p :: p in done <==> p.0 !in secs && Holds(buckets, p)
        decreases |secs|
      {
        HasMember(secs);
        var sec :| sec in secs;
        var b, names := buckets[sec], buckets[sec].Keys;
        while names != {}
          invariant names <= b.Keys && AddedUp(log, done, classes, total)
          invariant forall p :: p in done <==>
            Holds(buckets, p) && (p.0 !in secs || (p.0 == sec && p.1 !in names))
          decreases |names|
        {
          hide AddedUp;
          var c :| c in names;
          BucketIsCount(buckets, log, cutoff, sec, c);
          PairAdded(log, done, classes, total, sec, c);
          classes := classes[c := (if c in classes then classes[c] else 0.0) + b[c] as real];
          total := total + b[c];
          done := done + Only(sec, c);
          names := names - {c};
        }
        secs := secs - {sec};
      }
      TotalsAreRecent(buckets, log, cutoff, done, classes, total);
    }

    method Snapshot(now: int) returns (d: Distribution)
      requires Valid() && now >= clock
      modifies this
      ensures Valid() && clock == now && log == old(log)
      ensures d.windowStart == now - widthSec && d.windowEnd == now
      ensures Reports(d, log, now - widthSec)
      ensures d.samples > 0 ==> Sum(d.classes.Keys, Values(d.classes)) == 1.0
    {
      hide Count, Sum, Since, OfClass;
      var cutoff := now - widthSec;
      Prune(cutoff);
      clock := now;
      PruneMirrors(old(buckets), log, horizon, cutoff);
      horizon := cutoff;
      var classes, total := AddUp(cutoff);
      var shares := classes;
      if total > 0 {
        shares := map c | c in classes :: classes[c] / total as real;
        SharesSumToOne(classes, shares, total);
      }
      forall c | c in classes
        ensures total > 0
      {
        SeenMeansSamples(log, cutoff, c);
      }
      d := Distribution(shares, total, cutoff, now);
    }
  }
}
