/** The spatial dwell rule, configured with one rule: which frames raise an event. Times are
    nanoseconds. */
module DwellRule {
  import opened Options
  import opened Boxes
  import opened Strings
  import opened Tracker

  type Time = int

  datatype Zone = Zone(id: string, x: real, y: real, w: real, h: real)

  datatype Rule = Rule(ruleId: string, zone: Zone, dwell: int)

  datatype RuleState = RuleState(enteredAt: Time, fired: bool)

  datatype Event = Event(ruleId: string, zoneId: string, trackId: string, classLabel: string, bbox: Option<Box>,
                         at: Time)

  /** The centre of the box lies in the zone, borders included. */
  predicate Contains(z: Zone, b: Option<Box>) {
    b.Some? &&
    var cx, cy := b.value.x + b.value.w / 2.0, b.value.y + b.value.h / 2.0;
    z.x <= cx <= z.x + z.w && z.y <= cy <= z.y + z.h
  }

  type Insides = map<string, RuleState>

  function Get(insides: Insides, key: string): Option<RuleState> {
    if key in insides then Some(insides[key]) else None
  }

  function Set(insides: Insides, key: string, s: Option<RuleState>): Insides {
    if s.Some? then insides[key := s.value] else insides - {key}
  }

  // ---------- one track in one frame ----------

  predicate Fires(rule: Rule, s: Option<RuleState>, now: Time, inside: bool) {
    inside && s.Some? && !s.value.fired && now - s.value.enteredAt >= rule.dwell
  }

  function NextState(rule: Rule, s: Option<RuleState>, now: Time, inside: bool): Option<RuleState> {
    if !inside then None
    else if s.None? then Some(RuleState(now, false))
    else if Fires(rule, s, now, inside) then Some(s.value.(fired := true))
    else s
  }

  // ---------- one frame ----------

  /** The operator's state while a frame is evaluated: the history, the events so far, and the
      detections, whose first entry every event overwrites. */
  datatype Eval = Eval(insides: Insides, events: seq<Event>, dets: seq<Detection>)

  function EventFor(rule: Rule, det: Detection, now: Time): Event {
    Event(rule.ruleId, rule.zone.id, det.trackId, det.classLabel, det.bbox, now)
  }

  function EvalDetection(rule: Rule, e: Eval, det: Detection, now: Time): (e': Eval)
    requires e.dets != []
    ensures |e'.dets| == |e.dets|
  {
    if det.trackId == "" then e
    else
      var key, inside := Key(det.trackId, rule.ruleId), Contains(rule.zone, det.bbox);
      var s := Get(e.insides, key);
      var e' := e.(insides := Set(e.insides, key, NextState(rule, s, now, inside)));
      if Fires(rule, s, now, inside)
      then e'.(events := e.events + [EventFor(rule, det, now)], dets := e.dets[0 := det])
      else e'
  }

  /** The frame after its first `n` detections, each read before any event of the frame overwrites it. */
  function EvalFirst(rule: Rule, insides: Insides, dets: seq<Detection>, now: Time, n: nat): (e: Eval)
    requires n <= |dets|
    ensures |e.dets| == |dets|
  {
    if n == 0 then Eval(insides, [], dets)
    else EvalDetection(rule, EvalFirst(rule, insides, dets, now, n - 1), dets[n - 1], now)
  }

  function EvalFrame(rule: Rule, insides: Insides, dets: seq<Detection>, now: Time): Eval {
    EvalFirst(rule, insides, dets, now, |dets|)
  }

  class RuleOperator {
    const rule: Rule
    var insides: Insides

    constructor (rule: Rule)
      ensures this.rule == rule && insides == map[]
    {
      this.rule := rule;
      insides := map[];
    }

    method Evaluate(now: Time, dets: array<Detection>) returns (events: seq<Event>)
      modifies this, dets
      ensures var e := EvalFrame(rule, old(insides), old(dets[..]), now);
              insides == e.insides && events == e.events && dets[..] == e.dets
    {
      ghost var given := dets[..];
      events := [];
      for di := 0 to dets.Length
        invariant var e := EvalFirst(rule, old(insides), given, now, di);
                  insides == e.insides && events == e.events && dets[..] == e.dets
        invariant forall i :: di <= i < dets.Length ==> dets[i] == given[i]
      {
        var det := dets[di];
        if det.trackId == "" {
          continue;
        }
        var key := Key(det.trackId, rule.ruleId);
        if !Contains(rule.zone, det.bbox) {
          insides := insides - {key};
          continue;
        }
        if key !in insides {
          insides := insides[key := RuleState(now, false)];
          continue;
        }
        var s := insides[key];
        if !s.fired && now - s.enteredAt >= rule.dwell {
          dets[0] := det;
          events := events + [EventFor(rule, det, now)];
          insides := insides[key := s.(fired := true)];
        }
      }
    }
  }

  // ---------- what a frame does to each track ----------

  predicate UniqueIds(dets: seq<Detection>) {
    forall i, j {:trigger dets[i].trackId, dets[j].trackId} ::
      0 <= i < j < |dets| && dets[i].trackId != "" ==> dets[i].trackId != dets[j].trackId
  }

  predicate HasEvent(events: seq<Event>, trackId: string) {
    exists i :: 0 <= i < |events| && events[i].trackId == trackId
  }

  predicate Detected(dets: seq<Detection>, trackId: string, i: nat) {
    i < |dets| && dets[i].trackId == trackId
  }

  lemma {:induction false} UntouchedTrack(rule: Rule, insides: Insides, dets: seq<Detection>, now: Time, n: nat,
                                          trackId: string)
    requires n <= |dets| && forall i: nat :: i < n ==> !Detected(dets, trackId, i)
    ensures var e := EvalFirst(rule, insides, dets, now, n);
            && Get(e.insides, Key(trackId, rule.ruleId)) == Get(insides, Key(trackId, rule.ruleId))
            && !HasEvent(e.events, trackId)
  {
    if n > 0 {
      UntouchedTrack(rule, insides, dets, now, n - 1, trackId);
      assert !Detected(dets, trackId, n - 1);
      if Key(trackId, rule.ruleId) == Key(dets[n - 1].trackId, rule.ruleId) {
        KeyInjective(trackId, dets[n - 1].trackId, rule.ruleId);
      }
    }
  }

  /** Each detected track takes one step of its own automaton, and has an event exactly if it fires. */
  lemma {:induction false} DetectedTrack(rule: Rule, insides: Insides, dets: seq<Detection>, now: Time, n: nat, i: nat)
    requires i < n <= |dets| && UniqueIds(dets) && dets[i].trackId != ""
    ensures var e := EvalFirst(rule, insides, dets, now, n);
      var key, inside := Key(dets[i].trackId, rule.ruleId), Contains(rule.zone, dets[i].bbox);
      && Get(e.insides, key) == NextState(rule, Get(insides, key), now, inside)
      && (HasEvent(e.events, dets[i].trackId) <==> Fires(rule, Get(insides, key), now, inside))
  {
    var id := dets[i].trackId;
    var before := EvalFirst(rule, insides, dets, now, n - 1);
    if i == n - 1 {
      forall j: nat | j < i
        ensures !Detected(dets, id, j)
      {
      }
      UntouchedTrack(rule, insides, dets, now, i, id);
      EventAdded(before.events, EventFor(rule, dets[i], now), id);
    } else {
      DetectedTrack(rule, insides, dets, now, n - 1, i);
      assert dets[n - 1].trackId != id;
      if Key(id, rule.ruleId) == Key(dets[n - 1].trackId, rule.ruleId) {
        KeyInjective(id, dets[n - 1].trackId, rule.ruleId);
      }
      EventAdded(before.events, EventFor(rule, dets[n - 1], now), id);
    }
  }

  lemma EventAdded(events: seq<Event>, ev: Event, trackId: string)
    ensures HasEvent(events + [ev], trackId) <==> HasEvent(events, trackId) || ev.trackId == trackId
  {
    var all := events + [ev];
    assert all[|events|] == ev;
    if HasEvent(events, trackId) {
      var i :| 0 <= i < |events| && events[i].trackId == trackId;
      assert all[i].trackId == trackId;
    }
  }

  /** Evaluating a frame leaves its detections alone exactly when no detection after the first fires;
      otherwise the first detection is overwritten. */
  lemma {:induction false} OverwrittenBy(rule: Rule, insides: Insides, dets: seq<Detection>, now: Time, n: nat)
    requires n <= |dets| && UniqueIds(dets)
    ensures var out := EvalFirst(rule, insides, dets, now, n).dets;
      && (forall i :: 1 <= i < |dets| ==> out[i] == dets[i])
      && (n > 0 ==> exists i :: 0 <= i < n && out[0] == dets[i])
      && (n > 0 && out[0] == dets[0] ==> forall i: nat :: 1 <= i < n ==> !FiresIn(rule, insides, dets, now, i))
      && (n > 0 && out[0] != dets[0] ==> exists i: nat :: 1 <= i < n && FiresIn(rule, insides, dets, now, i))
  {
    if n > 0 {
      OverwrittenBy(rule, insides, dets, now, n - 1);
      FiresAsIf(rule, insides, dets, now, n - 1);
      if n > 1 && FiresIn(rule, insides, dets, now, n - 1) {
        assert dets[n - 1].trackId != "" && dets[0].trackId != dets[n - 1].trackId by {
          assert dets[0].trackId == "" || dets[0].trackId != dets[n - 1].trackId;
        }
      }
    }
  }

  /** Detection `i` raises an event. */
  predicate FiresIn(rule: Rule, insides: Insides, dets: seq<Detection>, now: Time, i: nat)
    requires i < |dets|
  {
    dets[i].trackId != ""
    && Fires(rule, Get(insides, Key(dets[i].trackId, rule.ruleId)), now, Contains(rule.zone, dets[i].bbox))
  }

  /** The detections before it do not change what a detection sees of its own track. */
  lemma FiresAsIf(rule: Rule, insides: Insides, dets: seq<Detection>, now: Time, i: nat)
    requires i < |dets| && UniqueIds(dets)
    ensures dets[i].trackId != "" ==>
      Get(EvalFirst(rule, insides, dets, now, i).insides, Key(dets[i].trackId, rule.ruleId))
      == Get(insides, Key(dets[i].trackId, rule.ruleId))
  {
    if dets[i].trackId != "" {
      UntouchedTrack(rule, insides, dets, now, i, dets[i].trackId);
    }
  }

  /** The detections a frame hands on are the ones it was given exactly when only its first detection,
      if any, raises an event. */
  lemma DetectionsKeptIff(rule: Rule, insides: Insides, dets: seq<Detection>, now: Time)
    requires UniqueIds(dets)
    ensures EvalFrame(rule, insides, dets, now).dets == dets
            <==> forall i: nat :: 1 <= i < |dets| ==> !FiresIn(rule, insides, dets, now, i)
  {
    OverwrittenBy(rule, insides, dets, now, |dets|);
  }

  /** Two frames, from an empty history, of which the second hands on its second detection twice and its
      first not at all. */
  lemma OverwriteHappens() returns (rule: Rule, dets: seq<Detection>)
    ensures UniqueIds(dets) && |dets| == 2
    ensures var insides := EvalFrame(rule, map[], dets, 0).insides;
            EvalFrame(rule, insides, dets, 1).dets == [dets[1], dets[1]] && dets[0] != dets[1]
  {
    rule := Rule("r", Zone("z", 0.0, 0.0, 4.0, 4.0), 1);
    var away, near := Some(Box(8.0, 8.0, 2.0, 2.0)), Some(Box(1.0, 1.0, 2.0, 2.0));
    dets := [Detection("car", away, "a"), Detection("car", near, "b")];
    assert !Contains(rule.zone, away) && Contains(rule.zone, near);
    var key := Key("b", "r");
    assert EvalFirst(rule, map[], dets, 0, 1).insides == map[];
    var insides := EvalFrame(rule, map[], dets, 0).insides;
    assert Get(insides, key) == Some(RuleState(0, false));
    SecondFires(rule, insides, dets, 1);
  }

  lemma SecondFires(rule: Rule, insides: Insides, dets: seq<Detection>, now: Time)
    requires |dets| == 2 && dets[0].trackId != dets[1].trackId && dets[1].trackId != ""
    requires !Contains(rule.zone, dets[0].bbox) && FiresIn(rule, insides, dets, now, 1)
    ensures EvalFrame(rule, insides, dets, now).dets == [dets[1], dets[1]]
  {
    var first := EvalFirst(rule, insides, dets, now, 1);
    assert first == EvalDetection(rule, EvalFirst(rule, insides, dets, now, 0), dets[0], now);
    if Key(dets[0].trackId, rule.ruleId) == Key(dets[1].trackId, rule.ruleId) {
      KeyInjective(dets[0].trackId, dets[1].trackId, rule.ruleId);
    }
  }

  // ---------- what a frame raises ----------

  /** A box counts by the point halfway between its opposite corners: it is in the zone exactly when that
      point is. */
  lemma CentreDecides(z: Zone, b: Box, cx: real, cy: real)
    requires cx - b.x == b.x + b.w - cx && cy - b.y == b.y + b.h - cy
    ensures Contains(z, Some(b)) <==> Inside(Box(z.x, z.y, z.w, z.h), cx, cy)
  {
  }

  /** A box all of whose corners are in the zone is, and a box that is shares a point with the zone. */
  lemma BetweenWithinAndTouching(z: Zone, b: Box)
    requires b.w >= 0.0 && b.h >= 0.0
    ensures var zone := Box(z.x, z.y, z.w, z.h);
      && (Inside(zone, b.x, b.y) && Inside(zone, b.x + b.w, b.y + b.h) ==> Contains(z, Some(b)))
      && (Contains(z, Some(b)) ==> exists x, y :: Inside(zone, x, y) && Inside(b, x, y))
  {
    var cx, cy := b.x + b.w / 2.0, b.y + b.h / 2.0;
    CentreDecides(z, b, cx, cy);
    assert Inside(b, cx, cy);
  }

  /** The event that detection `i` raises, with its own track, class and box. */
  predicate IsEventOf(rule: Rule, insides: Insides, dets: seq<Detection>, now: Time, i: nat, ev: Event) {
    && i < |dets| && FiresIn(rule, insides, dets, now, i)
    && ev == Event(rule.ruleId, rule.zone.id, dets[i].trackId, dets[i].classLabel, dets[i].bbox, now)
  }

  /** Event `a` of the frame is the one of detection `from[a]`; they come in the order of the detections. */
  ghost predicate RaisedBy(rule: Rule, insides: Insides, dets: seq<Detection>, now: Time, n: nat,
                           events: seq<Event>, from: seq<nat>)
  {
    && |from| == |events| && n <= |dets|
    && (forall a :: 0 <= a < |from| ==> from[a] < n && IsEventOf(rule, insides, dets, now, from[a], events[a]))
    && (forall a, b {:trigger from[a], from[b]} :: 0 <= a < b < |from| ==> from[a] < from[b])
    && (forall i: nat :: i < n && FiresIn(rule, insides, dets, now, i) ==> i in from)
  }

  /** The events of a frame are exactly those of its firing detections, one each and in their order, and
      say what was detected. */
  lemma {:induction false} FrameEvents(rule: Rule, insides: Insides, dets: seq<Detection>, now: Time, n: nat)
    returns (from: seq<nat>)
    requires n <= |dets| && UniqueIds(dets)
    ensures RaisedBy(rule, insides, dets, now, n, EvalFirst(rule, insides, dets, now, n).events, from)
  {
    hide FiresIn, RaisedBy, EvalFirst;
    if n == 0 {
      from := [];
      NoEvents(rule, insides, dets, now);
    } else {
      var front := FrameEvents(rule, insides, dets, now, n - 1);
      EventsStep(rule, insides, dets, now, n);
      from := if FiresIn(rule, insides, dets, now, n - 1) then front + [n - 1] else front;
      ghost var before := EvalFirst(rule, insides, dets, now, n - 1).events;
      RaisedByStep(rule, insides, dets, now, n, before, front);
    }
  }

  lemma NoEvents(rule: Rule, insides: Insides, dets: seq<Detection>, now: Time)
    ensures RaisedBy(rule, insides, dets, now, 0, EvalFirst(rule, insides, dets, now, 0).events, [])
  {
  }

  lemma EventsStep(rule: Rule, insides: Insides, dets: seq<Detection>, now: Time, n: nat)
    requires 0 < n <= |dets| && UniqueIds(dets)
    ensures EvalFirst(rule, insides, dets, now, n).events
            == var before := EvalFirst(rule, insides, dets, now, n - 1).events;
               if FiresIn(rule, insides, dets, now, n - 1) then before + [EventFor(rule, dets[n - 1], now)] else before
  {
    FiresAsIf(rule, insides, dets, now, n - 1);
  }

  lemma RaisedByStep(rule: Rule, insides: Insides, dets: seq<Detection>, now: Time, n: nat,
                     events: seq<Event>, from: seq<nat>)
    requires 0 < n <= |dets| && RaisedBy(rule, insides, dets, now, n - 1, events, from)
    ensures if FiresIn(rule, insides, dets, now, n - 1)
            then RaisedBy(rule, insides, dets, now, n, events + [EventFor(rule, dets[n - 1], now)], from + [n - 1])
            else RaisedBy(rule, insides, dets, now, n, events, from)
  {
    hide FiresIn;
    if FiresIn(rule, insides, dets, now, n - 1) {
      var all := from + [n - 1];
      assert all[|from|] == n - 1;
      forall i: nat | i in from
        ensures i in all
      {
      }
    }
  }

  // ---------- the stays of one track ----------

  /** One frame in which the track is detected. */
  datatype Sighting = Sighting(now: Time, inside: bool)

  function StateAfter(rule: Rule, obs: seq<Sighting>): Option<RuleState> {
    if obs == [] then None
    else
      var n := |obs| - 1;
      NextState(rule, StateAfter(rule, obs[..n]), obs[n].now, obs[n].inside)
  }

  /** The sighting at which the current uninterrupted stay began. */
  function StayStart(obs: seq<Sighting>): (e: nat)
    requires obs != [] && obs[|obs| - 1].inside
    ensures e < |obs| && forall i :: e <= i < |obs| ==> obs[i].inside
    ensures e > 0 ==> !obs[e - 1].inside
  {
    var n := |obs| - 1;
    if n == 0 || !obs[n - 1].inside then n else StayStart(obs[..n])
  }

  predicate Dwelt(rule: Rule, obs: seq<Sighting>, e: nat, g: nat)
    requires e < |obs| && g < |obs|
  {
    obs[g].now - obs[e].now >= rule.dwell
  }

  /** The last sighting is the first one after entry, in its stay, at which the dwell time is reached. */
  predicate FirstDwell(rule: Rule, obs: seq<Sighting>) {
    obs != [] && obs[|obs| - 1].inside &&
    var e, n := StayStart(obs), |obs| - 1;
    && e < n && Dwelt(rule, obs, e, n)
    && forall g: nat :: e < g < n ==> !Dwelt(rule, obs, e, g)
  }

  predicate FiresLast(rule: Rule, obs: seq<Sighting>) {
    obs != [] &&
    var n := |obs| - 1;
    Fires(rule, StateAfter(rule, obs[..n]), obs[n].now, obs[n].inside)
  }

  lemma DweltPrefix(rule: Rule, obs: seq<Sighting>, i: nat, e: nat, g: nat)
    requires e < i <= |obs| && g < i
    ensures Dwelt(rule, obs[..i], e, g) == Dwelt(rule, obs, e, g)
  {
  }

  /** The dwell time was reached after entry at `e`. */
  ghost predicate DweltSince(rule: Rule, obs: seq<Sighting>, e: nat) {
    exists g: nat :: e < g < |obs| && Dwelt(rule, obs, e, g)
  }

  lemma DweltSinceSnoc(rule: Rule, obs: seq<Sighting>, e: nat)
    requires e < |obs| - 1
    ensures var n := |obs| - 1;
            DweltSince(rule, obs, e) <==> DweltSince(rule, obs[..n], e) || Dwelt(rule, obs, e, n)
  {
    var n := |obs| - 1;
    if DweltSince(rule, obs[..n], e) {
      var g: nat :| e < g < n && Dwelt(rule, obs[..n], e, g);
      DweltPrefix(rule, obs, n, e, g);
    }
    if DweltSince(rule, obs, e) {
      var g: nat :| e < g < |obs| && Dwelt(rule, obs, e, g);
      if g < n {
        DweltPrefix(rule, obs, n, e, g);
      }
    }
  }

  /** What the stored state means: the entry time of the current stay, and whether the dwell time has
      been reached after entry. */
  lemma {:induction false} StateMeaning(rule: Rule, obs: seq<Sighting>)
    ensures var s := StateAfter(rule, obs);
      if obs == [] || !obs[|obs| - 1].inside then s == None
      else
        var e := StayStart(obs);
        s.Some? && s.value.enteredAt == obs[e].now && (s.value.fired <==> DweltSince(rule, obs, e))
  {
    if obs != [] {
      var n := |obs| - 1;
      StateMeaning(rule, obs[..n]);
      if obs[n].inside && n > 0 && obs[n - 1].inside {
        DweltSinceSnoc(rule, obs, StayStart(obs[..n]));
      }
    }
  }

  /** The rule fires for a track at a sighting exactly when that is the first one after entry, in the
      track's current stay, at which the dwell time is reached. */
  lemma FiresIffFirstDwell(rule: Rule, obs: seq<Sighting>)
    ensures FiresLast(rule, obs) <==> FirstDwell(rule, obs)
  {
    if obs != [] {
      var n := |obs| - 1;
      var front := obs[..n];
      StateMeaning(rule, front);
      if obs[n].inside && n > 0 && obs[n - 1].inside {
        var e := StayStart(front);
        forall g: nat | g < n
          ensures Dwelt(rule, front, e, g) == Dwelt(rule, obs, e, g)
        {
          DweltPrefix(rule, obs, n, e, g);
        }
      }
    }
  }

  /** Two firings of a track are never in the same stay. */
  lemma OneEventPerStay(rule: Rule, obs: seq<Sighting>, i: nat)
    requires i < |obs| && FiresLast(rule, obs) && FiresLast(rule, obs[..i])
    ensures StayStart(obs) >= i
  {
    FiresIffFirstDwell(rule, obs);
    FiresIffFirstDwell(rule, obs[..i]);
    var e := StayStart(obs);
    if e < i {
      StayPrefix(obs, i);
      DweltPrefix(rule, obs, i, e, i - 1);
    }
  }

  /** Within one stay every prefix has the same start. */
  lemma {:induction false} StayPrefix(obs: seq<Sighting>, i: nat)
    requires obs != [] && obs[|obs| - 1].inside && StayStart(obs) < i <= |obs|
    ensures obs[i - 1].inside && StayStart(obs[..i]) == StayStart(obs)
    decreases |obs|
  {
    var n := |obs| - 1;
    if i <= n {
      StayPrefix(obs[..n], i);
      assert obs[..n][..i] == obs[..i];
    } else {
      assert obs[..i] == obs;
    }
  }

  // ---------- frames and tracks ----------

  datatype FrameInput = FrameInput(now: Time, dets: seq<Detection>)

  function InsidesAfter(rule: Rule, frames: seq<FrameInput>): Insides {
    if frames == [] then map[]
    else
      var n := |frames| - 1;
      EvalFrame(rule, InsidesAfter(rule, frames[..n]), frames[n].dets, frames[n].now).insides
  }

  function EventsOfLast(rule: Rule, frames: seq<FrameInput>): seq<Event>
    requires frames != []
  {
    var n := |frames| - 1;
    EvalFrame(rule, InsidesAfter(rule, frames[..n]), frames[n].dets, frames[n].now).events
  }

  /** Where a track is detected in a frame. */
  function Find(dets: seq<Detection>, trackId: string): (r: Option<nat>)
    ensures r.Some? ==> Detected(dets, trackId, r.value)
    ensures r.None? ==> forall i: nat :: !Detected(dets, trackId, i)
  {
    if dets == [] then None
    else
      var n := |dets| - 1;
      if dets[n].trackId == trackId then Some(n)
      else
        var r := Find(dets[..n], trackId);
        assert r.Some? ==> dets[..n][r.value] == dets[r.value];
        assert r.None? ==> forall i: nat :: i < n ==> !Detected(dets[..n], trackId, i) && dets[..n][i] == dets[i];
        r
  }

  /** The sightings of one track in a sequence of frames. */
  function Sightings(rule: Rule, frames: seq<FrameInput>, trackId: string): seq<Sighting> {
    if frames == [] then []
    else
      var n := |frames| - 1;
      var front := Sightings(rule, frames[..n], trackId);
      var r := Find(frames[n].dets, trackId);
      if r.None? then front
      else front + [Sighting(frames[n].now, Contains(rule.zone, frames[n].dets[r.value].bbox))]
  }

  predicate UniqueEverywhere(frames: seq<FrameInput>) {
    forall k :: 0 <= k < |frames| ==> UniqueIds(frames[k].dets)
  }

  lemma {:induction false} TrackState(rule: Rule, frames: seq<FrameInput>, trackId: string)
    requires UniqueEverywhere(frames) && trackId != ""
    ensures Get(InsidesAfter(rule, frames), Key(trackId, rule.ruleId))
            == StateAfter(rule, Sightings(rule, frames, trackId))
  {
    if frames != [] {
      var n := |frames| - 1;
      var front, dets, now := frames[..n], frames[n].dets, frames[n].now;
      TrackState(rule, front, trackId);
      var before := InsidesAfter(rule, front);
      var r := Find(dets, trackId);
      if r.Some? {
        DetectedTrack(rule, before, dets, now, |dets|, r.value);
        var sofar := Sightings(rule, front, trackId);
        var all := Sightings(rule, frames, trackId);
        assert all[..|sofar|] == sofar;
      } else {
        UntouchedTrack(rule, before, dets, now, |dets|, trackId);
      }
    }
  }

  /** Over any frames: the last frame raises an event for a track exactly when the track is detected in
      it and that sighting is the first, after entry in its current stay, to reach the dwell time. */
  lemma EventIffFirstDwell(rule: Rule, frames: seq<FrameInput>, trackId: string)
    requires frames != [] && UniqueEverywhere(frames) && trackId != ""
    ensures HasEvent(EventsOfLast(rule, frames), trackId)
            <==> Find(frames[|frames| - 1].dets, trackId).Some? && FirstDwell(rule, Sightings(rule, frames, trackId))
  {
    var n := |frames| - 1;
    var front, dets, now := frames[..n], frames[n].dets, frames[n].now;
    TrackState(rule, front, trackId);
    var before := InsidesAfter(rule, front);
    var r := Find(dets, trackId);
    if r.Some? {
      DetectedTrack(rule, before, dets, now, |dets|, r.value);
      var sofar := Sightings(rule, front, trackId);
      var all := Sightings(rule, frames, trackId);
      assert all[..|sofar|] == sofar;
      FiresIffFirstDwell(rule, all);
    } else {
      UntouchedTrack(rule, before, dets, now, |dets|, trackId);
    }
  }
}
