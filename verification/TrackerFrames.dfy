/** One frame of the tracker seen from outside: which track each detection gets, and which tracks are
    left, in terms of the tracks before the frame and its detections only. */
module TrackerFrames {
  import opened Options
  import opened Boxes
  import opened Tracker
  import opened TrackerRuns

  // ---------- the ids given to the detections ----------

  lemma IdsPrefix(tracks: seq<TrackState>, dets: seq<Detection>, threshold: real, newId: nat -> string, n: nat)
    requires n < |dets|
    ensures HitIds(tracks, dets[..n + 1], threshold, newId)
            == HitIds(tracks, dets[..n], threshold, newId)
               + [PickedId(MatchAll(tracks, dets[..n], threshold, newId), dets[n], threshold, newId(n))]
  {
    assert dets[..n + 1][..n] == dets[..n];
    var f := MatchAll(tracks, dets[..n], threshold, newId);
    PickedIdsStep(f, dets[n], threshold, newId(n));
  }

  /** Later detections do not change the id of an earlier one. */
  lemma {:induction false} IdsOfPrefix(tracks: seq<TrackState>, dets: seq<Detection>, threshold: real,
                                       newId: nat -> string, n: nat, m: nat)
    requires n <= m <= |dets|
    ensures |HitIds(tracks, dets[..m], threshold, newId)| == m
    ensures HitIds(tracks, dets[..m], threshold, newId)[..n] == HitIds(tracks, dets[..n], threshold, newId)
    decreases m
  {
    if n < m {
      IdsOfPrefix(tracks, dets, threshold, newId, n, m - 1);
      IdsPrefix(tracks, dets, threshold, newId, m - 1);
    }
  }

  lemma IdAt(tracks: seq<TrackState>, dets: seq<Detection>, threshold: real, newId: nat -> string, i: nat)
    requires i < |dets|
    ensures var ids := HitIds(tracks, dets, threshold, newId);
      && |ids| == |dets|
      && ids[..i] == HitIds(tracks, dets[..i], threshold, newId)
      && ids[i] == PickedId(MatchAll(tracks, dets[..i], threshold, newId), dets[i], threshold, newId(i))
  {
    hide HitIds, PickedId, MatchAll;
    assert dets[..|dets|] == dets;
    IdsOfPrefix(tracks, dets, threshold, newId, i + 1, |dets|);
    IdsOfPrefix(tracks, dets, threshold, newId, i, |dets|);
    IdsOfPrefix(tracks, dets, threshold, newId, i, i);
    IdsPrefix(tracks, dets, threshold, newId, i);
  }

  /** Track `t` is free for a detection that comes after detections with the ids `taken`. */
  predicate Available(tracks: seq<TrackState>, taken: seq<string>, det: Detection, threshold: real, t: nat) {
    && t < |tracks|
    && tracks[t].id !in taken
    && tracks[t].classLabel == det.classLabel
    && Iou(tracks[t].lastBox, det.bbox) > 0.0
    && Iou(tracks[t].lastBox, det.bbox) >= threshold
  }

  /** The first of the available tracks with the largest overlap. */
  ghost predicate Nearest(tracks: seq<TrackState>, taken: seq<string>, det: Detection, threshold: real, t: nat) {
    && Available(tracks, taken, det, threshold, t)
    && (forall u: nat :: Available(tracks, taken, det, threshold, u) ==>
          && Iou(tracks[u].lastBox, det.bbox) <= Iou(tracks[t].lastBox, det.bbox)
          && (u < t ==> Iou(tracks[u].lastBox, det.bbox) < Iou(tracks[t].lastBox, det.bbox)))
  }

  /** A detection gets the id `id`: that of the nearest available track, or a new one if there is none. */
  ghost predicate GetsId(tracks: seq<TrackState>, taken: seq<string>, det: Detection, threshold: real,
                         newId: string, id: string)
  {
    || (exists t: nat :: Nearest(tracks, taken, det, threshold, t) && id == tracks[t].id)
    || (id == newId && forall t: nat :: !Available(tracks, taken, det, threshold, t))
  }

  lemma AvailableIff(tracks: seq<TrackState>, f: Frame, n: nat, newId: nat -> string, det: Detection,
                     threshold: real, t: nat)
    requires Matched(tracks, f, n, newId) && t < |f.tracks|
    ensures Matches(f.tracks, f.used, det, threshold, t)
            <==> Available(tracks, PickedIds(f), det, threshold, t)
    ensures Available(tracks, PickedIds(f), det, threshold, t) ==> f.tracks[t] == tracks[t]
  {
    UsedIffHit(tracks, f, n, newId, t);
    hide PickedIds, DistinctIds;
  }

  lemma PickIsNearest(tracks: seq<TrackState>, f: Frame, n: nat, newId: nat -> string, det: Detection, threshold: real)
    requires Matched(tracks, f, n, newId)
    ensures GetsId(tracks, PickedIds(f), det, threshold, newId(n), PickedId(f, det, threshold, newId(n)))
  {
    var taken := PickedIds(f);
    var b := Best(f.tracks, f.used, det, threshold, |f.tracks|);
    forall u: nat | Available(tracks, taken, det, threshold, u)
      ensures b >= 0 && f.tracks[u] == tracks[u]
      ensures Iou(tracks[u].lastBox, det.bbox) <= Iou(f.tracks[b].lastBox, det.bbox)
      ensures u < b ==> Iou(tracks[u].lastBox, det.bbox) < Iou(f.tracks[b].lastBox, det.bbox)
    {
      hide PickedIds, Best, Available, Iou, Matches;
      AvailableBelow(tracks, taken, det, threshold, u);
      AvailableIff(tracks, f, n, newId, det, threshold, u);
      BestIsBest(f.tracks, f.used, det, threshold, |f.tracks|, u);
    }
    hide PickedIds, Best, Available, Iou, Matches, Matched;
    if b >= 0 {
      AvailableIff(tracks, f, n, newId, det, threshold, b);
      assert Nearest(tracks, taken, det, threshold, b);
    }
  }

  lemma AvailableBelow(tracks: seq<TrackState>, taken: seq<string>, det: Detection, threshold: real, u: nat)
    requires Available(tracks, taken, det, threshold, u)
    ensures u < |tracks|
  {
  }

  /** Detection by detection, in order, each gets the track of its class with the largest overlap at or
      above the threshold that no earlier detection of the frame took, and a new track if there is none. */
  lemma GreedyMatching(tracks: seq<TrackState>, dets: seq<Detection>, threshold: real, newId: nat -> string, i: nat)
    requires DistinctIds(tracks) && FreshIds(tracks, |dets|, newId) && i < |dets|
    ensures var ids := HitIds(tracks, dets, threshold, newId);
      && |ids| == |dets|
      && GetsId(tracks, ids[..i], dets[i], threshold, newId(i), ids[i])
  {
    IdAt(tracks, dets, threshold, newId, i);
    AllMatched(tracks, dets[..i], threshold, newId);
    hide MatchAll, DistinctIds, FreshIds, Matched, GetsId;
    PickIsNearest(tracks, MatchAll(tracks, dets[..i], threshold, newId), i, newId, dets[i], threshold);
  }

  // ---------- the tracks that are left ----------

  /** Every picked track holds the class and the box of its detection and has no misses. */
  ghost predicate Carried(f: Frame, dets: seq<Detection>) {
    && FrameOk(f) && |f.picks| == |dets|
    && forall i :: 0 <= i < |dets| ==>
         var t := f.tracks[f.picks[i]];
         t == TrackState(t.id, dets[i].classLabel, dets[i].bbox, 0)
  }

  lemma CarriedStep(tracks: seq<TrackState>, f: Frame, dets: seq<Detection>, n: nat, newId: nat -> string,
                    threshold: real)
    requires n < |dets| && Matched(tracks, f, n, newId) && Carried(f, dets[..n])
    ensures Carried(MatchDetection(f, dets[n], threshold, newId(n)), dets[..n + 1])
  {
    var f' := MatchDetection(f, dets[n], threshold, newId(n));
    hide Best, DistinctIds;
    forall i | 0 <= i <= n
      ensures var t := f'.tracks[f'.picks[i]]; t == TrackState(t.id, dets[i].classLabel, dets[i].bbox, 0)
    {
      if i < n {
        assert dets[..n][i] == dets[i] && f'.picks[i] == f.picks[i];
        assert f.used[f.picks[i]];
      }
    }
  }

  lemma {:induction false} AllCarried(tracks: seq<TrackState>, dets: seq<Detection>, threshold: real,
                                      newId: nat -> string)
    requires DistinctIds(tracks) && FreshIds(tracks, |dets|, newId)
    ensures Carried(MatchAll(tracks, dets, threshold, newId), dets)
  {
    hide MatchDetection, Matched;
    if dets != [] {
      var n := |dets| - 1;
      AllCarried(tracks, dets[..n], threshold, newId);
      AllMatched(tracks, dets[..n], threshold, newId);
      CarriedStep(tracks, MatchAll(tracks, dets[..n], threshold, newId), dets, n, newId, threshold);
      assert dets[..n + 1] == dets;
    }
  }

  lemma {:induction false} AgeOutKeeps(tracks: seq<TrackState>, used: seq<bool>, maxMissing: int, i: nat)
    requires |used| == |tracks| && i < |tracks| && Aged(tracks[i], used[i]).missed <= maxMissing
    ensures Aged(tracks[i], used[i]) in AgeOut(tracks, used, maxMissing)
  {
    var n := |tracks| - 1;
    if i < n {
      AgeOutKeeps(tracks[..n], used[..n], maxMissing, i);
    }
  }

  /** The track that detection `i` leaves behind. */
  predicate IsHit(dets: seq<Detection>, ids: seq<string>, t: TrackState, i: nat) {
    i < |dets| && i < |ids| && t == TrackState(ids[i], dets[i].classLabel, dets[i].bbox, 0)
  }

  predicate IsOlder(tracks: seq<TrackState>, ids: seq<string>, maxMissing: int, t: TrackState, o: nat) {
    && o < |tracks| && tracks[o].id !in ids && tracks[o].missed < maxMissing
    && t == TrackState(tracks[o].id, tracks[o].classLabel, tracks[o].lastBox, tracks[o].missed + 1)
  }

  /** The tracks after a frame are one for every detection, with its class and box and no misses, and
      every track that got no detection and may miss one more, otherwise as it was. */
  ghost predicate IsLeft(tracks: seq<TrackState>, dets: seq<Detection>, ids: seq<string>, maxMissing: int,
                         t: TrackState)
  {
    || (exists i: nat :: IsHit(dets, ids, t, i))
    || (exists o: nat :: IsOlder(tracks, ids, maxMissing, t, o))
  }

  lemma FrameTrack(tracks: seq<TrackState>, f: Frame, dets: seq<Detection>, newId: nat -> string, maxMissing: int,
                   i: nat)
    requires Matched(tracks, f, |dets|, newId) && Carried(f, dets) && i < |f.tracks|
    requires Aged(f.tracks[i], f.used[i]).missed <= maxMissing
    ensures IsLeft(tracks, dets, PickedIds(f), maxMissing, Aged(f.tracks[i], f.used[i]))
  {
    UsedIffHit(tracks, f, |dets|, newId, i);
    hide DistinctIds;
    if f.used[i] {
      var j :| 0 <= j < |dets| && f.picks[j] == i;
      assert IsHit(dets, PickedIds(f), f.tracks[i], j);
    } else {
      assert IsOlder(tracks, PickedIds(f), maxMissing, Aged(f.tracks[i], f.used[i]), i);
    }
  }

  lemma LeftInFrame(tracks: seq<TrackState>, f: Frame, dets: seq<Detection>, newId: nat -> string, maxMissing: int,
                    t: TrackState) returns (i: nat)
    requires Matched(tracks, f, |dets|, newId) && Carried(f, dets) && maxMissing >= 0
    requires IsLeft(tracks, dets, PickedIds(f), maxMissing, t)
    ensures i < |f.tracks| && t == Aged(f.tracks[i], f.used[i]) && t.missed <= maxMissing
  {
    hide DistinctIds;
    if j: nat :| IsHit(dets, PickedIds(f), t, j) {
      i := f.picks[j];
      assert f.used[i];
    } else {
      i :| IsOlder(tracks, PickedIds(f), maxMissing, t, i);
      UsedIffHit(tracks, f, |dets|, newId, i);
    }
  }

  /** Exactly those tracks are left, for the limits the constructor admits. */
  lemma FrameLeaves(tracks: seq<TrackState>, dets: seq<Detection>, threshold: real, maxMissing: int,
                    newId: nat -> string, t: TrackState)
    requires DistinctIds(tracks) && FreshIds(tracks, |dets|, newId) && maxMissing >= 0
    ensures t in TracksAfterFrame(tracks, dets, threshold, maxMissing, newId)
            <==> IsLeft(tracks, dets, HitIds(tracks, dets, threshold, newId), maxMissing, t)
  {
    AllMatched(tracks, dets, threshold, newId);
    AllCarried(tracks, dets, threshold, newId);
    var f := MatchAll(tracks, dets, threshold, newId);
    hide MatchAll, AgeOut, DistinctIds, FreshIds, Matched, Carried, IsLeft, PickedIds, Aged;
    if t in AgeOut(f.tracks, f.used, maxMissing) {
      var i := AgeOutMember(f.tracks, f.used, maxMissing, t);
      FrameTrack(tracks, f, dets, newId, maxMissing, i);
    }
    if IsLeft(tracks, dets, PickedIds(f), maxMissing, t) {
      var i := LeftInFrame(tracks, f, dets, newId, maxMissing, t);
      AgeOutKeeps(f.tracks, f.used, maxMissing, i);
    }
  }

  // ---------- their order ----------

  /** Entry `i` of the result comes from entry `from[i]`. */
  ghost predicate ComesFrom(tracks: seq<TrackState>, used: seq<bool>, left: seq<TrackState>, from: seq<nat>) {
    && |from| == |left| && |used| == |tracks|
    && (forall i :: 0 <= i < |left| ==> from[i] < |tracks| && left[i].id == tracks[from[i]].id)
    && (forall i, j {:trigger from[i], from[j]} :: 0 <= i < j < |left| ==> from[i] < from[j])
  }

  lemma SameSource(tracks: seq<TrackState>, used: seq<bool>, n: nat, left: seq<TrackState>, from: seq<nat>)
    requires n <= |tracks| == |used| && ComesFrom(tracks[..n], used[..n], left, from)
    ensures ComesFrom(tracks, used, left, from) && forall i :: 0 <= i < |from| ==> from[i] < n
  {
    forall i | 0 <= i < |left|
      ensures from[i] < n && left[i].id == tracks[from[i]].id
    {
      assert tracks[..n][from[i]] == tracks[from[i]];
    }
  }

  lemma OneMoreSource(tracks: seq<TrackState>, used: seq<bool>, n: nat, left: seq<TrackState>, from: seq<nat>,
                      t: TrackState)
    requires ComesFrom(tracks, used, left, from) && forall i :: 0 <= i < |from| ==> from[i] < n
    requires n < |tracks| && t.id == tracks[n].id
    ensures ComesFrom(tracks, used, left + [t], from + [n])
  {
  }

  lemma {:induction false} AgeOutOrder(tracks: seq<TrackState>, used: seq<bool>, maxMissing: int)
    returns (from: seq<nat>)
    requires |used| == |tracks|
    ensures ComesFrom(tracks, used, AgeOut(tracks, used, maxMissing), from)
  {
    hide ComesFrom;
    if tracks == [] {
      from := [];
      NoSource(used, AgeOut(tracks, used, maxMissing));
    } else {
      var n := |tracks| - 1;
      var left := AgeOut(tracks[..n], used[..n], maxMissing);
      from := AgeOutOrder(tracks[..n], used[..n], maxMissing);
      SameSource(tracks, used, n, left, from);
      var t := Aged(tracks[n], used[n]);
      if t.missed <= maxMissing {
        OneMoreSource(tracks, used, n, left, from, t);
        from := from + [n];
      } else {
        assert left + [] == left;
      }
    }
  }

  lemma NoSource(used: seq<bool>, left: seq<TrackState>)
    requires used == [] && left == []
    ensures ComesFrom([], used, left, [])
  {
  }

  /** Survivors keep their order, and new tracks come behind them. */
  lemma SurvivorsInOrder(tracks: seq<TrackState>, dets: seq<Detection>, threshold: real, maxMissing: int,
                         newId: nat -> string, i: nat, j: nat, v: nat)
    requires DistinctIds(tracks) && FreshIds(tracks, |dets|, newId)
    requires var left := TracksAfterFrame(tracks, dets, threshold, maxMissing, newId);
             i < j < |left| && v < |tracks| && left[j].id == tracks[v].id
    ensures var left := TracksAfterFrame(tracks, dets, threshold, maxMissing, newId);
            exists u :: 0 <= u < v && left[i].id == tracks[u].id
  {
    AllMatched(tracks, dets, threshold, newId);
    var f := MatchAll(tracks, dets, threshold, newId);
    hide MatchAll, AgeOut, FreshIds;
    var from := AgeOutOrder(f.tracks, f.used, maxMissing);
    assert f.tracks[v].id == tracks[v].id;
    SameIdSameTrack(f.tracks, from[j], v);
    assert from[i] < from[j];
    assert f.tracks[from[i]].id == tracks[from[i]].id;
  }
}
