/** The claim-check ring: payloads behind generation-stamped slots, and the locators that name them. */
module ClaimCheck {
  import opened Options
  import opened Strings
  import opened IntArith

  const MAX_UINT64: nat := 0xFFFF_FFFF_FFFF_FFFF
  const MAX_INT64: nat := 0x7FFF_FFFF_FFFF_FFFF

  datatype Locator = Locator(ring: string, slot: int, gen: nat)

  // ---------- the wire form ----------

  function FormatInt(n: int): string {
    if n < 0 then "-" + FormatNat(-n) else FormatNat(n)
  }

  function Encode(l: Locator): string {
    l.ring + ":" + FormatInt(l.slot) + ":" + FormatNat(l.gen)
  }

  /** Unsigned decimal, at least one digit, at most 64 bits. */
  function ParseUint(s: string): Option<nat> {
    if s == "" then None
    else
      var n := Number(s);
      if n.Some? && n.value <= MAX_UINT64 then n else None
  }

  /** Decimal with an optional sign, in the range of a 64-bit integer. */
  function Atoi(s: string): Option<int> {
    var digits := if s != "" && (s[0] == '-' || s[0] == '+') then s[1..] else s;
    if digits == "" then None
    else
      var n := Number(digits);
      if n.None? then None
      else if s[0] == '-' then (if n.value <= MAX_INT64 + 1 then Some(-(n.value as int)) else None)
      else if n.value <= MAX_INT64 then Some(n.value) else None
  }

  /** The parts before and after the first colon. */
  function Cut(s: string): Option<(string, string)> {
    if s == "" then None
    else if s[0] == ':' then Some(("", s[1..]))
    else
      var rest := Cut(s[1..]);
      if rest.None? then None else Some(([s[0]] + rest.value.0, rest.value.1))
  }

  /** Splitting into at most three parts: the last one keeps any further colons. */
  function ParseLocator(s: string): Option<Locator> {
    var first := Cut(s);
    if first.None? then None
    else
      var second := Cut(first.value.1);
      if second.None? then None
      else
        var slot := Atoi(second.value.0);
        var gen := ParseUint(second.value.1);
        if slot.None? || gen.None? then None else Some(Locator(first.value.0, slot.value, gen.value))
  }

  lemma {:induction false} CutAtFirstColon(a: string, b: string)
    requires ':' !in a
    ensures Cut(a + ":" + b) == Some((a, b))
  {
    if a == "" {
      assert a + ":" + b == ":" + b;
    } else {
      assert a == [a[0]] + a[1..];
      CutAtFirstColon(a[1..], b);
      assert (a + ":" + b)[1..] == a[1..] + ":" + b;
    }
  }

  lemma {:induction false} CutIsColonFree(s: string)
    ensures Cut(s).Some? ==> ':' !in Cut(s).value.0
  {
    if s != "" && s[0] != ':' {
      CutIsColonFree(s[1..]);
    }
  }

  lemma AtoiOfDigits(d: string, v: nat)
    requires d != "" && Number(d) == Some(v) && '0' <= d[0] <= '9'
    ensures v <= MAX_INT64 ==> Atoi(d) == Some(v)
    ensures v <= MAX_INT64 + 1 ==> Atoi("-" + d) == Some(-(v as int))
  {
    hide Number;
    assert ("-" + d)[1..] == d;
  }

  lemma SlotText(n: int)
    requires -(MAX_INT64 as int) - 1 <= n <= MAX_INT64
    ensures Atoi(FormatInt(n)) == Some(n) && ':' !in FormatInt(n)
  {
    hide Number, FormatNat, Atoi;
    var v: nat := if n < 0 then -n else n;
    FormatNatRoundTrip(v);
    assert FormatNat(v)[0] in FormatNat(v);
    AtoiOfDigits(FormatNat(v), v);
  }

  /** A locator survives its wire form exactly when its ring's name has no colon. */
  lemma RoundTripIffNoColon(l: Locator)
    requires -(MAX_INT64 as int) - 1 <= l.slot <= MAX_INT64 && l.gen <= MAX_UINT64
    ensures ParseLocator(Encode(l)) == Some(l) <==> ':' !in l.ring
  {
    var rest := FormatInt(l.slot) + ":" + FormatNat(l.gen);
    assert Encode(l) == l.ring + ":" + rest;
    if ':' in l.ring {
      CutIsColonFree(Encode(l));
    } else {
      CutAtFirstColon(l.ring, rest);
      SlotText(l.slot);
      CutAtFirstColon(FormatInt(l.slot), FormatNat(l.gen));
      FormatNatRoundTrip(l.gen);
    }
  }

  // ---------- the ring as a value ----------

  datatype RingState<T> = RingState(next: nat, slots: seq<Option<T>>, gens: seq<nat>) {
    ghost predicate Valid() {
      |slots| == |gens| > 0
    }
  }

  datatype GetResult<T> = Found(payload: T) | Stale | NeverWritten | OutOfRange

  /** The fetch-and-add: it yields the slot and does not touch it. */
  function TakeTicket<T>(st: RingState<T>): RingState<T> {
    st.(next := st.next + 1)
  }

  function TicketSlot<T>(st: RingState<T>): nat
    requires |st.slots| > 0
  {
    st.next % |st.slots|
  }

  /** The section under the write lock. */
  function WriteSlot<T>(st: RingState<T>, slot: nat, payload: T): RingState<T>
    requires slot < |st.slots| == |st.gens|
  {
    st.(slots := st.slots[slot := Some(payload)], gens := st.gens[slot := st.gens[slot] + 1])
  }

  function Lookup<T>(st: RingState<T>, slot: int, gen: nat): GetResult<T>
    requires |st.slots| == |st.gens|
  {
    if slot < 0 || slot >= |st.slots| then OutOfRange
    else if st.gens[slot] != gen then Stale
    else if st.slots[slot].None? then NeverWritten
    else Found(st.slots[slot].value)
  }

  function EmptyRing<T>(cap: nat): RingState<T> {
    RingState(0, seq(cap, _ => None), seq(cap, _ => 0))
  }

  /** The ring object; `Put` and `Get` here run alone. */
  class Ring<T> {
    const name: string
    const slots: array<Option<T>>
    const generation: array<nat>
    var next: nat

    ghost predicate Valid()
      reads this
    {
      slots.Length == generation.Length > 0 && slots as object != generation
    }

    function View(): RingState<T>
      reads this, slots, generation
    {
      RingState(next, slots[..], generation[..])
    }

    constructor (name: string, capacity: nat)
      requires capacity > 0
      ensures Valid() && this.name == name && View() == EmptyRing(capacity)
      ensures fresh(slots) && fresh(generation)
    {
      this.name := name;
      slots := new Option<T>[capacity](_ => None);
      generation := new nat[capacity](_ => 0);
      next := 0;
    }

    method Put(payload: T) returns (l: Locator)
      requires Valid()
      modifies this, slots, generation
      ensures Valid()
      ensures var slot := TicketSlot(old(View()));
        && View() == WriteSlot(TakeTicket(old(View())), slot, payload)
        && l == Locator(name, slot, View().gens[slot])
      ensures next == old(next) + 1 && l.ring == name && l.slot == old(next) % slots.Length
      ensures slots[l.slot] == Some(payload) && generation[l.slot] == old(generation[l.slot]) + 1 == l.gen
      ensures forall i :: 0 <= i < slots.Length && i != l.slot ==>
                slots[i] == old(slots[i]) && generation[i] == old(generation[i])
    {
      next := next + 1;
      var idx := (next - 1) % slots.Length;
      slots[idx] := Some(payload);
      generation[idx] := generation[idx] + 1;
      l := Locator(name, idx, generation[idx]);
    }

    method Get(l: Locator) returns (r: GetResult<T>)
      requires Valid()
      ensures r == Lookup(View(), l.slot, l.gen)
      ensures r == OutOfRange <==> !(0 <= l.slot < slots.Length)
      ensures r == Stale <==> 0 <= l.slot < slots.Length && generation[l.slot] != l.gen
      ensures r.Found? <==> 0 <= l.slot < slots.Length && generation[l.slot] == l.gen && slots[l.slot].Some?
      ensures r.Found? ==> slots[l.slot] == Some(r.payload)
    {
      if l.slot < 0 || l.slot >= slots.Length {
        return OutOfRange;
      }
      if generation[l.slot] != l.gen {
        return Stale;
      }
      if slots[l.slot].None? {
        return NeverWritten;
      }
      r := Found(slots[l.slot].value);
    }
  }

  // ---------- concurrent puts ----------

  /** A call of `Put` between its fetch-and-add and its write, or after it, when it has a generation. */
  datatype PutCall<T> = PutCall(payload: T, slot: nat, gen: Option<nat>)

  datatype Shared<T> = Shared(ring: RingState<T>, calls: seq<PutCall<T>>)

  datatype Action<T> = Begin(payload: T) | Write(call: nat)

  predicate Enabled<T>(s: Shared<T>, a: Action<T>) {
    match a
    case Begin(_) => true
    case Write(i) => i < |s.calls| && s.calls[i].gen.None?
  }

  predicate Shaped<T>(s: Shared<T>) {
    && |s.ring.slots| == |s.ring.gens| > 0
    && forall i :: 0 <= i < |s.calls| ==> s.calls[i].slot < |s.ring.slots|
  }

  function Apply<T>(s: Shared<T>, a: Action<T>): (s': Shared<T>)
    requires Shaped(s) && Enabled(s, a)
    ensures Shaped(s')
  {
    match a
    case Begin(payload) =>
      Shared(TakeTicket(s.ring), s.calls + [PutCall(payload, TicketSlot(s.ring), None)])
    case Write(i) =>
      var c := s.calls[i];
      Shared(WriteSlot(s.ring, c.slot, c.payload),
             s.calls[i := c.(gen := Some(s.ring.gens[c.slot] + 1))])
  }

  predicate Written<T>(s: Shared<T>, i: nat) {
    i < |s.calls| && s.calls[i].gen.Some?
  }

  /** A finished put's generation is not ahead of its slot; at the slot's own generation the slot holds
      its payload. */
  ghost predicate CallOk<T>(s: Shared<T>, i: nat)
    requires Shaped(s) && Written(s, i)
  {
    var c := s.calls[i];
    && 1 <= c.gen.value <= s.ring.gens[c.slot]
    && (c.gen.value == s.ring.gens[c.slot] ==> s.ring.slots[c.slot] == Some(c.payload))
  }

  ghost predicate Inv<T>(s: Shared<T>) {
    && Shaped(s)
    && (forall i: nat :: Written(s, i) ==> CallOk(s, i))
    && (forall i: nat, j: nat :: i < j && Written(s, i) && Written(s, j) && s.calls[i].slot == s.calls[j].slot
          ==> s.calls[i].gen != s.calls[j].gen)
  }

  lemma StepKeepsInv<T>(s: Shared<T>, a: Action<T>)
    requires Inv(s) && Enabled(s, a)
    ensures Inv(Apply(s, a))
  {
    var s' := Apply(s, a);
    forall i: nat | Written(s', i)
      ensures CallOk(s', i)
    {
      if a.Begin? || i != a.call {
        assert Written(s, i) && CallOk(s, i);
      }
    }
    forall i: nat, j: nat | i < j && Written(s', i) && Written(s', j) && s'.calls[i].slot == s'.calls[j].slot
      ensures s'.calls[i].gen != s'.calls[j].gen
    {
      if a.Begin? || i != a.call {
        assert Written(s, i) && CallOk(s, i);
      }
      if a.Begin? || j != a.call {
        assert Written(s, j) && CallOk(s, j);
      }
    }
  }

  predicate ValidRun<T>(s: Shared<T>, acts: seq<Action<T>>)
    requires Shaped(s)
    decreases |acts|
  {
    acts == [] || (Enabled(s, acts[0]) && ValidRun(Apply(s, acts[0]), acts[1..]))
  }

  function After<T>(s: Shared<T>, acts: seq<Action<T>>): (s': Shared<T>)
    requires Shaped(s) && ValidRun(s, acts)
    ensures Shaped(s')
    decreases |acts|
  {
    if acts == [] then s else After(Apply(s, acts[0]), acts[1..])
  }

  lemma {:induction false} RunKeepsInv<T>(s: Shared<T>, acts: seq<Action<T>>)
    requires Inv(s) && ValidRun(s, acts)
    ensures Inv(After(s, acts))
    decreases |acts|
  {
    if acts != [] {
      StepKeepsInv(s, acts[0]);
      RunKeepsInv(Apply(s, acts[0]), acts[1..]);
    }
  }

  /** Later steps keep finished calls as they are and never lower a generation. */
  lemma {:induction false} RunGrows<T>(s: Shared<T>, acts: seq<Action<T>>, i: nat)
    requires Inv(s) && ValidRun(s, acts) && Written(s, i)
    ensures Written(After(s, acts), i) && After(s, acts).calls[i] == s.calls[i]
    ensures s.ring.gens[s.calls[i].slot] <= After(s, acts).ring.gens[s.calls[i].slot]
    ensures |After(s, acts).ring.slots| == |s.ring.slots|
    decreases |acts|
  {
    if acts != [] {
      StepKeepsInv(s, acts[0]);
      RunGrows(Apply(s, acts[0]), acts[1..], i);
    }
  }

  /** Under every interleaving of puts: finished puts have pairwise distinct locators, and looking one
      up yields its own payload or reports it stale, never another payload. */
  lemma LocatorsNameTheirPayload<T>(cap: nat, acts: seq<Action<T>>, i: nat, j: nat)
    requires cap > 0 && ValidRun(Shared(EmptyRing<T>(cap), []), acts)
    requires var s := After(Shared(EmptyRing<T>(cap), []), acts); Written(s, i) && Written(s, j)
    ensures var s := After(Shared(EmptyRing<T>(cap), []), acts); var c, d := s.calls[i], s.calls[j];
      && (i != j ==> (c.slot, c.gen) != (d.slot, d.gen))
      && (Lookup(s.ring, c.slot, c.gen.value) == Found(c.payload) || Lookup(s.ring, c.slot, c.gen.value) == Stale)
  {
    var s := After(Shared(EmptyRing<T>(cap), []), acts);
    RunKeepsInv(Shared(EmptyRing<T>(cap), []), acts);
    assert CallOk(s, i) && CallOk(s, j);
  }

  /** Once stale, a locator is stale for ever after. */
  lemma StaleForEver<T>(cap: nat, acts: seq<Action<T>>, more: seq<Action<T>>, i: nat)
    requires cap > 0 && ValidRun(Shared(EmptyRing<T>(cap), []), acts)
    requires var s := After(Shared(EmptyRing<T>(cap), []), acts);
             ValidRun(s, more) && Written(s, i) && Lookup(s.ring, s.calls[i].slot, s.calls[i].gen.value) == Stale
    ensures var s := After(Shared(EmptyRing<T>(cap), []), acts);
            Lookup(After(s, more).ring, s.calls[i].slot, s.calls[i].gen.value) == Stale
  {
    var s := After(Shared(EmptyRing<T>(cap), []), acts);
    RunKeepsInv(Shared(EmptyRing<T>(cap), []), acts);
    assert CallOk(s, i);
    RunGrows(s, more, i);
  }

  // ---------- puts one after the other ----------

  function PutAll<T>(cap: nat, payloads: seq<T>): (st: RingState<T>)
    requires cap > 0
    ensures |st.slots| == |st.gens| == cap && st.next == |payloads|
  {
    if payloads == [] then EmptyRing(cap)
    else
      var n := |payloads| - 1;
      var st := PutAll(cap, payloads[..n]);
      WriteSlot(TakeTicket(st), TicketSlot(st), payloads[n])
  }

  lemma NearbySlotsDiffer(k: nat, n: nat, cap: nat)
    requires 0 < n - k < cap
    ensures k % cap != n % cap
  {
    DivMod(k, cap);
    DivMod(n, cap);
    if k / cap < n / cap {
      MulGap(k / cap, n / cap, cap);
    } else if n / cap < k / cap {
      MulGap(n / cap, k / cap, cap);
    }
  }

  lemma LapEarlier(n: nat, cap: nat)
    requires 0 < cap <= n
    ensures (n - cap) % cap == n % cap && (n - cap) / cap + 1 == n / cap
  {
    DivMod(n, cap);
    MinusOne(n / cap, cap);
    DivModUnique(n - cap, n / cap - 1, n % cap, cap);
  }

  lemma MinusOne(q: int, cap: nat)
    ensures (q - 1) * cap == q * cap - cap
  {
  }

  /** What the slots hold after `n` puts. */
  ghost predicate Laps<T>(cap: nat, payloads: seq<T>, st: RingState<T>, k: nat)
    requires cap > 0 && |st.slots| == |st.gens| == cap && k < |payloads|
  {
    var slot, gen := k % cap, k / cap + 1;
    if k + cap >= |payloads| then st.gens[slot] == gen && st.slots[slot] == Some(payloads[k])
    else st.gens[slot] > gen
  }

  /** One more put, into the slot at its previous lap. */
  lemma LapsStep<T>(cap: nat, front: seq<T>, x: T, before: RingState<T>, k: nat)
    requires cap > 0 && |before.slots| == |before.gens| == cap && before.next == |front| && k < |front|
    requires Laps(cap, front, before, k) && before.gens[|front| % cap] == |front| / cap
    ensures Laps(cap, front + [x], WriteSlot(TakeTicket(before), TicketSlot(before), x), k)
  {
    var n := |front|;
    assert (front + [x])[k] == front[k];
    if k + cap > n {
      NearbySlotsDiffer(k, n, cap);
    } else if k + cap == n {
      LapEarlier(n, cap);
    }
  }

  lemma PreviousLap<T>(cap: nat, front: seq<T>, before: RingState<T>)
    requires cap > 0 && |before.slots| == |before.gens| == cap
    requires forall k: nat :: k < |front| ==> Laps(cap, front, before, k)
    requires forall s: nat :: |front| <= s < cap ==> before.gens[s] == 0
    ensures before.gens[|front| % cap] == |front| / cap
  {
    var n := |front|;
    if n >= cap {
      LapEarlier(n, cap);
      assert Laps(cap, front, before, n - cap);
    } else {
      DivModUnique(n, 0, n, cap);
    }
  }

  lemma {:induction false} LapsAfterPuts<T>(cap: nat, payloads: seq<T>)
    requires cap > 0
    ensures forall k: nat :: k < |payloads| ==> Laps(cap, payloads, PutAll(cap, payloads), k)
    ensures forall s: nat :: |payloads| <= s < cap ==> PutAll(cap, payloads).gens[s] == 0
  {
    if payloads != [] {
      var n := |payloads| - 1;
      var front, x := payloads[..n], payloads[n];
      var before, st := PutAll(cap, front), PutAll(cap, payloads);
      LapsAfterPuts(cap, front);
      PreviousLap(cap, front, before);
      assert payloads == front + [x];
      LastLap(cap, front, x, before);
      hide Laps;
      forall k: nat | k < |payloads|
        ensures Laps(cap, payloads, st, k)
      {
        if k < n {
          LapsStep(cap, front, x, before, k);
        }
      }
    }
  }

  lemma LastLap<T>(cap: nat, front: seq<T>, x: T, before: RingState<T>)
    requires cap > 0 && |before.slots| == |before.gens| == cap && before.next == |front|
    requires before.gens[|front| % cap] == |front| / cap
    ensures Laps(cap, front + [x], WriteSlot(TakeTicket(before), TicketSlot(before), x), |front|)
  {
  }

  /** The k-th put (from 0) gets slot `k % cap` and generation `k / cap + 1`, and that locator can be
      read until `cap` further puts have been made, and is stale from then on. */
  lemma SequentialLifetime<T>(cap: nat, payloads: seq<T>, k: nat)
    requires cap > 0 && k < |payloads|
    ensures var at := PutAll(cap, payloads[..k + 1]);
            TicketSlot(PutAll(cap, payloads[..k])) == k % cap && at.gens[k % cap] == k / cap + 1
    ensures Lookup(PutAll(cap, payloads), k % cap, k / cap + 1)
            == if |payloads| - (k + 1) < cap then Found(payloads[k]) else Stale
  {
    LapsAfterPuts(cap, payloads);
    LapsAfterPuts(cap, payloads[..k + 1]);
    assert Laps(cap, payloads, PutAll(cap, payloads), k);
    assert Laps(cap, payloads[..k + 1], PutAll(cap, payloads[..k + 1]), k);
  }
}
