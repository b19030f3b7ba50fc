/** Several drains and any number of puts on one queue: an interleaving of the sections that hold
    the queue's mutex with the calls of `fn`, which do not. */
module EdgeDrain {
  import opened EdgeRecords
  import opened EdgeReplay
  import opened EdgeQueue

  /** Where a call of `Drain` is: about to peek, delivering its batch from `pos` on, about to
      acknowledge (and then stop or go on), or returned. */
  datatype Phase = Peeking | Delivering | Acking(stop: bool) | Ended

  /** One call of `Drain`; `delivered` are the numbers its `fn` has accepted, in order. */
  datatype Drainer = Drainer(batch: seq<Item>, pos: nat, phase: Phase, delivered: seq<nat>)

  /** The queue and its drains; `everPut` and `dropped` only remember what has happened. */
  datatype State = State(
    next: nat,
    items: seq<Item>,
    curBytes: int,
    drainers: seq<Drainer>,
    everPut: seq<Item>,
    dropped: set<nat>)

  datatype Action =
    | Put(subject: Bytes, data: Bytes)
    | StartDrain
    | PeekBatch(d: nat)
    | Deliver(d: nat, reply: Reply)
    | Ack(d: nat)

  datatype Caps = Caps(maxItems: nat, maxBytes: nat)

  function Nums(items: seq<Item>): set<nat> {
    set i | 0 <= i < |items| :: items[i].num
  }

  predicate Enabled(st: State, a: Action) {
    match a
    case Put(_, _) => true
    case StartDrain => true
    case PeekBatch(d) => d < |st.drainers| && st.drainers[d].phase == Peeking
    case Deliver(d, _) =>
      d < |st.drainers| && st.drainers[d].phase == Delivering && st.drainers[d].pos < |st.drainers[d].batch|
    case Ack(d) => d < |st.drainers| && st.drainers[d].phase.Acking? && st.drainers[d].pos <= |st.drainers[d].batch|
  }

  /** The number a drain acknowledges: the last one its `fn` accepted in this batch, or 0. */
  function LastAck(d: Drainer): nat
    requires d.pos <= |d.batch|
  {
    LastNum(d.batch[..d.pos])
  }

  function Apply(caps: Caps, st: State, a: Action): State
    requires Enabled(st, a)
  {
    match a
    case Put(subject, data) =>
      var it := Item(st.next + 1, subject, data);
      var kept := AfterPut(st.items, it, caps.maxItems, caps.maxBytes);
      st.(next := st.next + 1, items := kept,
          curBytes := st.curBytes + |data| - (DataBytes(st.items + [it]) - DataBytes(kept)),
          everPut := st.everPut + [it],
          dropped := st.dropped + (Nums(st.items + [it]) - Nums(kept)))
    case StartDrain =>
      st.(drainers := st.drainers + [Drainer([], 0, Peeking, [])])
    case PeekBatch(d) =>
      var batch := st.items[..PeekCount(BATCH, |st.items|)];
      var dr := st.drainers[d].(batch := batch, pos := 0, phase := if batch == [] then Ended else Delivering);
      st.(drainers := st.drainers[d := dr])
    case Deliver(d, reply) =>
      var dr := st.drainers[d];
      var dr' :=
        if reply != Accepted then dr.(phase := Acking(true))
        else dr.(pos := dr.pos + 1, delivered := dr.delivered + [dr.batch[dr.pos].num],
                 phase := if dr.pos + 1 == |dr.batch| then Acking(false) else Delivering);
      st.(drainers := st.drainers[d := dr'])
    case Ack(d) =>
      var dr := st.drainers[d];
      var rest := AckRest(st.items, LastAck(dr));
      st.(items := rest,
          curBytes := st.curBytes - (DataBytes(st.items) - DataBytes(rest)),
          drainers := st.drainers[d := dr.(phase := if dr.phase.stop then Ended else Peeking)])
  }

  // ---------- the invariant ----------

  predicate Increasing(s: seq<nat>) {
    forall i, j :: 0 <= i < j < |s| ==> s[i] < s[j]
  }

  /** Everything pending that is not newer than the batch is in the batch. */
  predicate Covers(batch: seq<Item>, items: seq<Item>) {
    batch != [] && forall it :: it in items && it.num <= batch[|batch| - 1].num ==> it in batch
  }

  predicate DrainerInv(st: State, d: Drainer) {
    && Increasing(d.delivered)
    && (forall x :: x in d.delivered ==> x <= st.next)
    && (d.phase == Peeking ==> forall x, it :: x in d.delivered && it in st.items ==> x < it.num)
    && (d.phase == Delivering || d.phase.Acking? ==>
          && Ordered(d.batch) && Issued(d.batch, st.next) && Covers(d.batch, st.items)
          && d.pos <= |d.batch|
          && (d.phase == Delivering ==> d.pos < |d.batch|)
          && (forall i :: 0 <= i < d.pos ==> d.batch[i].num in d.delivered)
          && (forall x, i :: x in d.delivered && d.pos <= i < |d.batch| ==> x < d.batch[i].num)
          && (d.pos > 0 ==> forall x :: x in d.delivered ==> x <= d.batch[d.pos - 1].num)
          && (d.pos == 0 ==> forall x, it :: x in d.delivered && it in st.items ==> x < it.num))
  }

  /** An item that was put is pending, was dropped by the caps, or was accepted by some drain. */
  ghost predicate Accounted(st: State, it: Item) {
    it in st.items || it.num in st.dropped
    || exists d: nat :: d < |st.drainers| && it.num in st.drainers[d].delivered
  }

  ghost predicate Inv(st: State) {
    && Ordered(st.items) && Issued(st.items, st.next)
    && st.curBytes == DataBytes(st.items)
    && (forall d :: 0 <= d < |st.drainers| ==> DrainerInv(st, st.drainers[d]))
    && (forall it :: it in st.everPut ==> Accounted(st, it))
  }

  function Init(): State {
    State(0, [], 0, [], [], {})
  }

  // ---------- each step keeps it ----------

  lemma KeptIsSuffix(caps: Caps, items: seq<Item>, it: Item) returns (k: nat)
    requires Ordered(items) && forall i :: 0 <= i < |items| ==> items[i].num < it.num
    ensures k <= |items| + 1 && AfterPut(items, it, caps.maxItems, caps.maxBytes) == (items + [it])[k..]
    ensures Ordered((items + [it])[k..])
  {
    DropExcessIsLeast(items + [it], caps.maxItems, caps.maxBytes);
    k := |items| + 1 - |AfterPut(items, it, caps.maxItems, caps.maxBytes)|;
  }

  /** A drain's invariant survives newer items coming in and older ones going. */
  lemma DrainerKept(st: State, st': State, d: Drainer)
    requires DrainerInv(st, d) && st.next <= st'.next
    requires forall it :: it in st'.items ==> it in st.items || it.num > st.next
    ensures DrainerInv(st', d)
  {
  }

  lemma AccountedKept(st: State, st': State, it: Item)
    requires Accounted(st, it) && st.dropped <= st'.dropped && |st.drainers| <= |st'.drainers|
    requires forall d: nat :: d < |st.drainers| ==> st.drainers[d].delivered <= st'.drainers[d].delivered
    requires it in st.items ==> Accounted(st', it)
    ensures Accounted(st', it)
  {
    if d: nat :| d < |st.drainers| && it.num in st.drainers[d].delivered {
      assert it.num in st'.drainers[d].delivered;
    }
  }

  lemma KeptOrDropped(all: seq<Item>, k: nat, x: Item)
    requires Ordered(all) && k <= |all| && x in all
    ensures x in all[k..] || x.num in Nums(all) - Nums(all[k..])
  {
    var i :| 0 <= i < |all| && all[i] == x;
    assert all[i].num in Nums(all);
    if i >= k {
      assert all[k..][i - k] == x;
    }
  }

  lemma PutAccounts(caps: Caps, st: State, a: Action, k: nat, x: Item)
    requires Inv(st) && a.Put? && x in Apply(caps, st, a).everPut
    requires var all := st.items + [Item(st.next + 1, a.subject, a.data)];
             k <= |all| && Apply(caps, st, a).items == all[k..]
    ensures Accounted(Apply(caps, st, a), x)
  {
    hide DataBytes, DropExcess;
    var st' := Apply(caps, st, a);
    var all := st.items + [Item(st.next + 1, a.subject, a.data)];
    OrderAppendAny(st.next, st.items, all[|st.items|]);
    if x in all {
      KeptOrDropped(all, k, x);
    } else {
      AccountedKept(st, st', x);
    }
  }

  lemma OrderAppendAny(next: nat, items: seq<Item>, it: Item)
    requires Ordered(items) && Issued(items, next) && it.num == next + 1
    ensures Ordered(items + [it]) && Issued(items + [it], next + 1)
  {
  }

  lemma PutKeepsQueue(caps: Caps, st: State, a: Action) returns (k: nat)
    requires Inv(st) && a.Put?
    ensures var st' := Apply(caps, st, a); var all := st.items + [Item(st.next + 1, a.subject, a.data)];
      && k <= |all| && st'.items == all[k..]
      && Ordered(st'.items) && Issued(st'.items, st'.next) && st'.curBytes == DataBytes(st'.items)
      && forall x :: x in st'.items ==> x in st.items || x.num > st.next
  {
    hide DropExcess, Nums, DrainerInv, Accounted, DiskOf, DataBytes, FileName;
    var it := Item(st.next + 1, a.subject, a.data);
    k := KeptIsSuffix(caps, st.items, it);
    SumsAppend(st.items, it);
    OrderAppendAny(st.next, st.items, it);
    SuffixIssued(st.items + [it], k, st.next + 1);
  }

  lemma PutKeepsInv(caps: Caps, st: State, a: Action)
    requires Inv(st) && a.Put?
    ensures Inv(Apply(caps, st, a))
  {
    hide DataBytes, AfterPut, Nums, DrainerInv, Accounted;
    var st' := Apply(caps, st, a);
    var k := PutKeepsQueue(caps, st, a);
    forall x | x in st'.everPut
      ensures Accounted(st', x)
    {
      PutAccounts(caps, st, a, k, x);
    }
    forall d | 0 <= d < |st.drainers|
      ensures DrainerInv(st', st'.drainers[d])
    {
      DrainerKept(st, st', st.drainers[d]);
    }
  }

  lemma SuffixIssued(items: seq<Item>, k: nat, next: nat)
    requires Issued(items, next) && k <= |items|
    ensures Issued(items[k..], next)
  {
  }

  lemma StartKeepsInv(caps: Caps, st: State)
    requires Inv(st)
    ensures Inv(Apply(caps, st, StartDrain))
  {
    var st' := Apply(caps, st, StartDrain);
    forall d | 0 <= d < |st'.drainers|
      ensures DrainerInv(st', st'.drainers[d])
    {
      if d < |st.drainers| {
        DrainerKept(st, st', st.drainers[d]);
      }
    }
    forall x | x in st'.everPut
      ensures Accounted(st', x)
    {
      AccountedKept(st, st', x);
    }
  }

  /** A newest batch is the oldest part of the queue. */
  lemma PeekedDrainer(st: State, d: Drainer, n: nat)
    requires Ordered(st.items) && Issued(st.items, st.next) && n <= |st.items| && (n == 0 ==> st.items == [])
    requires DrainerInv(st, d) && d.phase == Peeking
    ensures DrainerInv(st, d.(batch := st.items[..n], pos := 0,
                              phase := if st.items[..n] == [] then Ended else Delivering))
  {
    var batch := st.items[..n];
    if n > 0 {
      assert batch[n - 1] == st.items[n - 1];
      forall it | it in st.items && it.num <= batch[n - 1].num
        ensures it in batch
      {
        var i :| 0 <= i < |st.items| && st.items[i] == it;
        assert batch[i] == it;
      }
    }
  }

  lemma DeliveredDrainer(st: State, d: Drainer)
    requires DrainerInv(st, d) && d.phase == Delivering
    ensures DrainerInv(st, d.(pos := d.pos + 1, delivered := d.delivered + [d.batch[d.pos].num],
                              phase := if d.pos + 1 == |d.batch| then Acking(false) else Delivering))
  {
    var x := d.batch[d.pos].num;
    IncreasingSnoc(d.delivered, x);
    hide Increasing;
  }

  lemma IncreasingSnoc(s: seq<nat>, x: nat)
    ensures forall y :: y in s + [x] <==> y in s || y == x
    ensures (s + [x])[|s|] == x
    ensures Increasing(s) && (forall y :: y in s ==> y < x) ==> Increasing(s + [x])
  {
    var t := s + [x];
    assert forall i :: 0 <= i < |s| ==> t[i] == s[i] && s[i] in s;
    assert t[|s|] == x;
  }

  /** Only the state of one drain changes. */
  lemma DrainerStepKeepsInv(st: State, st': State, d: nat)
    requires Inv(st) && d < |st.drainers| == |st'.drainers|
    requires st' == st.(drainers := st.drainers[d := st'.drainers[d]])
    requires DrainerInv(st, st'.drainers[d]) && st.drainers[d].delivered <= st'.drainers[d].delivered
    ensures Inv(st')
  {
    forall e | 0 <= e < |st.drainers|
      ensures DrainerInv(st', st'.drainers[e])
    {
      DrainerKept(st, st', st'.drainers[e]);
    }
    forall x | x in st'.everPut
      ensures Accounted(st', x)
    {
      AccountedKept(st, st', x);
    }
  }

  lemma NotInSuffix(items: seq<Item>, k: nat, i: nat)
    requires k <= |items| && i < |items| && items[i] !in items[k..]
    ensures i < k
  {
    assert forall j :: 0 <= j < |items| - k ==> items[k..][j] in items[k..];
    assert forall j :: k <= j < |items| ==> items[j] == items[k..][j - k];
  }

  /** What an acknowledgement removes was accepted by the very drain that acknowledges. */
  lemma AckRemovesOnlyAccepted(st: State, d: nat, it: Item)
    requires Inv(st) && Enabled(st, Ack(d))
    requires it in st.items && it !in AckRest(st.items, LastAck(st.drainers[d]))
    ensures it.num in st.drainers[d].delivered
  {
    var dr := st.drainers[d];
    assert DrainerInv(st, dr);
    AckRestIsSuffix(st.items, LastAck(dr));
    var k := |st.items| - |AckRest(st.items, LastAck(dr))|;
    var i :| 0 <= i < |st.items| && st.items[i] == it;
    NotInSuffix(st.items, k, i);
    AcceptedUpTo(st, dr, it);
  }

  lemma AcceptedUpTo(st: State, d: Drainer, it: Item)
    requires DrainerInv(st, d) && (d.phase.Acking? || d.phase == Delivering)
    requires it in st.items && 1 <= it.num <= LastNum(d.batch[..d.pos])
    ensures it.num in d.delivered
  {
    var last := d.batch[d.pos - 1];
    assert d.batch[..d.pos][d.pos - 1] == last;
    var i :| 0 <= i < |d.batch| && d.batch[i] == it;
    assert i < d.pos;
  }

  lemma AckedDrainer(st: State, d: Drainer, rest: seq<Item>)
    requires DrainerInv(st, d) && d.phase.Acking? && Ordered(st.items)
    requires forall it :: it in rest <==> it in st.items && it.num > LastAck(d)
    ensures DrainerInv(st.(items := rest), d.(phase := if d.phase.stop then Ended else Peeking))
  {
    if d.pos > 0 {
      assert d.batch[..d.pos][d.pos - 1] == d.batch[d.pos - 1];
    }
  }

  lemma AckRestMembers(items: seq<Item>, upTo: nat, next: nat)
    requires Ordered(items) && Issued(items, next)
    ensures forall it :: it in AckRest(items, upTo) <==> it in items && it.num > upTo
    ensures Ordered(AckRest(items, upTo)) && Issued(AckRest(items, upTo), next)
  {
    AckRestIsSuffix(items, upTo);
    var k := |items| - |AckRest(items, upTo)|;
    SuffixIssued(items, k, next);
    forall it | it in items && it.num > upTo
      ensures it in items[k..]
    {
      var i :| 0 <= i < |items| && items[i] == it;
      assert items[k..][i - k] == it;
    }
  }

  lemma AckKeepsInv(caps: Caps, st: State, d: nat)
    requires Inv(st) && Enabled(st, Ack(d))
    ensures Inv(Apply(caps, st, Ack(d)))
  {
    hide DataBytes;
    var st' := Apply(caps, st, Ack(d));
    var dr := st.drainers[d];
    AckRestMembers(st.items, LastAck(dr), st.next);
    forall e | 0 <= e < |st.drainers|
      ensures DrainerInv(st', st'.drainers[e])
    {
      if e == d {
        AckedDrainer(st, dr, st'.items);
        DrainerKept(st.(items := st'.items), st', st'.drainers[d]);
      } else {
        DrainerKept(st, st', st.drainers[e]);
      }
    }
    forall x | x in st'.everPut
      ensures Accounted(st', x)
    {
      if x in st.items && x !in st'.items {
        AckRemovesOnlyAccepted(st, d, x);
        assert x.num in st'.drainers[d].delivered;
      }
      AccountedKept(st, st', x);
    }
  }

  lemma StepKeepsInv(caps: Caps, st: State, a: Action)
    requires Inv(st) && Enabled(st, a)
    ensures Inv(Apply(caps, st, a))
  {
    hide DrainerInv, DataBytes, AckRest, DropExcess;
    match a
    case Put(_, _) => PutKeepsInv(caps, st, a);
    case StartDrain => StartKeepsInv(caps, st);
    case PeekBatch(d) =>
      PeekedDrainer(st, st.drainers[d], PeekCount(BATCH, |st.items|));
      DrainerStepKeepsInv(st, Apply(caps, st, a), d);
    case Deliver(d, reply) =>
      if reply == Accepted {
        DeliveredDrainer(st, st.drainers[d]);
      } else {
        StoppedDrainer(st, st.drainers[d]);
      }
      DrainerStepKeepsInv(st, Apply(caps, st, a), d);
    case Ack(d) => AckKeepsInv(caps, st, d);
  }

  lemma StoppedDrainer(st: State, d: Drainer)
    requires DrainerInv(st, d) && d.phase == Delivering
    ensures DrainerInv(st, d.(phase := Acking(true)))
  {
  }

  // ---------- runs ----------

  predicate ValidRun(caps: Caps, st: State, acts: seq<Action>)
    decreases |acts|
  {
    acts == [] || (Enabled(st, acts[0]) && ValidRun(caps, Apply(caps, st, acts[0]), acts[1..]))
  }

  function After(caps: Caps, st: State, acts: seq<Action>): State
    requires ValidRun(caps, st, acts)
    decreases |acts|
  {
    if acts == [] then st else After(caps, Apply(caps, st, acts[0]), acts[1..])
  }

  lemma {:induction false} RunKeepsInv(caps: Caps, st: State, acts: seq<Action>)
    requires Inv(st) && ValidRun(caps, st, acts)
    ensures Inv(After(caps, st, acts))
    decreases |acts|
  {
    hide Inv, Apply;
    if acts != [] {
      StepKeepsInv(caps, st, acts[0]);
      RunKeepsInv(caps, Apply(caps, st, acts[0]), acts[1..]);
    }
  }

  /** In every reachable state the queue is strictly ordered, its byte count is right, every message
      ever put is pending, dropped or accepted, and every drain has delivered in increasing order. */
  lemma EveryRunIsConsistent(caps: Caps, acts: seq<Action>)
    requires ValidRun(caps, Init(), acts)
    ensures var st := After(caps, Init(), acts);
      && Ordered(st.items) && st.curBytes == DataBytes(st.items)
      && (forall it :: it in st.everPut ==> Accounted(st, it))
      && (forall d :: 0 <= d < |st.drainers| ==> Increasing(st.drainers[d].delivered))
  {
    RunKeepsInv(caps, Init(), acts);
  }

  /** In every state a put numbers its message next and keeps the longest part of the queue, up to that
      message, that fits the caps; so the message is pending afterwards exactly when it fits alone. */
  lemma PutKeepsNewest(caps: Caps, st: State, subject: Bytes, data: Bytes)
    requires Inv(st)
    ensures var it, st' := Item(st.next + 1, subject, data), Apply(caps, st, Put(subject, data));
            && st'.next == st.next + 1 && st'.everPut == st.everPut + [it] && st'.drainers == st.drainers
            && IsLongestKept(st.items + [it], st'.items, caps.maxItems, caps.maxBytes)
            && (it in st'.items <==> caps.maxItems >= 1 && |data| <= caps.maxBytes)
  {
    hide AfterPut, IsLongestKept, DataBytes;
    var it := Item(st.next + 1, subject, data);
    PutKeepsLongest(st.items, it, caps.maxItems, caps.maxBytes);
  }

  /** An acknowledgement clears everything its drain has accepted, and only that part of the queue; and a
      drain ends only on finding the queue empty or after its consumer has refused an item. */
  lemma AckClearsDelivered(caps: Caps, st: State, d: nat)
    requires Inv(st) && Enabled(st, Ack(d))
    ensures var dr, st' := st.drainers[d], Apply(caps, st, Ack(d));
            && (forall it :: it in st'.items <==>
                  it in st.items && (dr.pos == 0 || it.num > dr.batch[dr.pos - 1].num))
            && (forall it :: it in st'.items ==> it.num !in dr.delivered)
            && st'.drainers[d].delivered == dr.delivered
            && st'.drainers[d].phase == if dr.phase.stop then Ended else Peeking
  {
    hide DataBytes, AckRest;
    var dr := st.drainers[d];
    assert DrainerInv(st, dr);
    AckRestMembers(st.items, LastAck(dr), st.next);
    if dr.pos > 0 {
      assert dr.batch[..dr.pos][dr.pos - 1] == dr.batch[dr.pos - 1];
    }
  }

  /** Peeking takes the oldest 64 items, or all, and ends the drain exactly on an empty queue; each
      delivery is of the next item of the batch, and a refusal, like the batch's end, leads to an
      acknowledgement, after which a refusal stops the drain. */
  lemma DrainMakesProgress(caps: Caps, st: State, d: nat, reply: Reply)
    requires Inv(st) && d < |st.drainers|
    ensures st.drainers[d].phase == Peeking ==>
              var st' := Apply(caps, st, PeekBatch(d)); var batch := st'.drainers[d].batch;
              && batch <= st.items && (|batch| == |st.items| || |batch| == 64)
              && st'.drainers[d].phase == (if st.items == [] then Ended else Delivering)
              && st'.items == st.items && st'.drainers[d].delivered == st.drainers[d].delivered
    ensures st.drainers[d].phase == Delivering ==>
              var dr, st' := st.drainers[d], Apply(caps, st, Deliver(d, reply));
              && st'.items == st.items
              && st'.drainers[d].delivered == dr.delivered + (if reply == Accepted then [dr.batch[dr.pos].num] else [])
              && (st'.drainers[d].phase.Acking? <==> reply != Accepted || dr.pos + 1 == |dr.batch|)
              && (st'.drainers[d].phase.Acking? ==> (st'.drainers[d].phase.stop <==> reply != Accepted))
  {
    assert DrainerInv(st, st.drainers[d]);
  }

  /** In every reachable state, an item leaves the queue in one of two ways: acknowledged by a drain
      whose own `fn` accepted it, or dropped, when the caps would be exceeded, as older than all that stay. */
  lemma ItemsLeaveDeliveredOrOldest(caps: Caps, acts: seq<Action>, a: Action, it: Item)
    requires ValidRun(caps, Init(), acts) && Enabled(After(caps, Init(), acts), a)
    requires var st := After(caps, Init(), acts); it in st.items && it !in Apply(caps, st, a).items
    ensures var st := After(caps, Init(), acts); var st' := Apply(caps, st, a);
      || (a.Ack? && it.num in st.drainers[a.d].delivered)
      || (a.Put? && !WithinCaps(st.items + [Item(st.next + 1, a.subject, a.data)], caps.maxItems, caps.maxBytes)
          && forall other :: other in st'.items ==> it.num < other.num)
  {
    var st := After(caps, Init(), acts);
    hide WithinCaps, Increasing, Covers, DropExcess;
    RunKeepsInv(caps, Init(), acts);
    if a.Ack? {
      AckRemovesOnlyAccepted(st, a.d, it);
    } else if a.Put? {
      DroppedIsOldest(caps, st.items, Item(st.next + 1, a.subject, a.data), it);
    }
  }

  lemma DroppedIsOldest(caps: Caps, items: seq<Item>, newest: Item, it: Item)
    requires Ordered(items) && forall i :: 0 <= i < |items| ==> items[i].num < newest.num
    requires it in items && it !in AfterPut(items, newest, caps.maxItems, caps.maxBytes)
    ensures !WithinCaps(items + [newest], caps.maxItems, caps.maxBytes)
    ensures forall other :: other in AfterPut(items, newest, caps.maxItems, caps.maxBytes) ==> it.num < other.num
  {
    var all := items + [newest];
    var k := KeptIsSuffix(caps, items, newest);
    var i :| 0 <= i < |items| && items[i] == it;
    assert all[i] == it;
    forall other | other in all[k..]
      ensures it.num < other.num
    {
      var j :| 0 <= j < |all| - k && all[k..][j] == other;
      assert all[k + j] == other;
    }
  }
}
