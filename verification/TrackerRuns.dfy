/** What the tracker guarantees over a frame and over any sequence of frames. */
module TrackerRuns {
  import opened Tracker

  predicate DistinctIds(tracks: seq<TrackState>) {
    forall i, j {:trigger tracks[i].id, tracks[j].id} :: 0 <= i < j < |tracks| ==> tracks[i].id != tracks[j].id
  }

  predicate HasId(tracks: seq<TrackState>, id: string) {
    exists i :: 0 <= i < |tracks| && tracks[i].id == id
  }

  /** The ids a frame of `n` detections may draw are new and different from each other. */
  ghost predicate FreshIds(tracks: seq<TrackState>, n: nat, newId: nat -> string) {
    && (forall i: nat :: i < n ==> !HasId(tracks, newId(i)))
    && (forall i: nat, j: nat :: i < j < n ==> newId(i) != newId(j))
  }

  ghost predicate DrawnId(id: string, n: nat, newId: nat -> string) {
    exists m: nat :: m < n && id == newId(m)
  }

  /** The state of a frame after `n` detections: no track is picked twice, picked tracks are the used
      ones and have no misses, the others are as they were. */
  ghost predicate Matched(tracks: seq<TrackState>, f: Frame, n: nat, newId: nat -> string) {
    && FrameOk(f) && |f.picks| == n && |tracks| <= |f.tracks|
    && DistinctIds(f.tracks)
    && (forall t :: 0 <= t < |f.tracks| ==>
          if t < |tracks| then f.tracks[t].id == tracks[t].id else DrawnId(f.tracks[t].id, n, newId))
    && (forall t :: 0 <= t < |f.tracks| && f.used[t] ==> f.tracks[t].missed == 0)
    && (forall t :: 0 <= t < |f.tracks| && !f.used[t] ==> t < |tracks| && f.tracks[t] == tracks[t])
    && (forall i :: 0 <= i < n ==> f.used[f.picks[i]])
    && (forall i, j {:trigger f.picks[i], f.picks[j]} :: 0 <= i < j < n ==> f.picks[i] != f.picks[j])
    && (forall t :: 0 <= t < |f.tracks| && f.used[t] ==> t in f.picks)
  }

  lemma NewIdIsNew(tracks: seq<TrackState>, f: Frame, n: nat, newId: nat -> string)
    requires Matched(tracks, f, n, newId) && FreshIds(tracks, n + 1, newId)
    ensures forall t :: 0 <= t < |f.tracks| ==> f.tracks[t].id != newId(n)
  {
    assert !HasId(tracks, newId(n));
    forall t | 0 <= t < |f.tracks|
      ensures f.tracks[t].id != newId(n)
    {
      if t >= |tracks| {
        assert DrawnId(f.tracks[t].id, n, newId);
        var m: nat :| m < n && f.tracks[t].id == newId(m);
        assert newId(m) != newId(n);
      } else {
        assert f.tracks[t].id == tracks[t].id;
      }
    }
  }

  lemma KeptInPicks(picks: seq<nat>, b: nat)
    ensures b in picks + [b] && forall t :: t in picks ==> t in picks + [b]
  {
  }

  lemma PickedStep(tracks: seq<TrackState>, f: Frame, n: nat, newId: nat -> string, b: nat, t: TrackState)
    requires Matched(tracks, f, n, newId)
    requires b < |f.tracks| && !f.used[b] && t.id == f.tracks[b].id && t.missed == 0
    ensures Matched(tracks, Frame(f.tracks[b := t], f.used[b := true], f.picks + [b]), n + 1, newId)
  {
    var f' := Frame(f.tracks[b := t], f.used[b := true], f.picks + [b]);
    assert f'.picks[n] == b;
    assert forall i :: 0 <= i < n ==> f'.picks[i] == f.picks[i];
    KeptInPicks(f.picks, b);
  }

  lemma CreatedStep(tracks: seq<TrackState>, f: Frame, n: nat, newId: nat -> string, t: TrackState)
    requires Matched(tracks, f, n, newId) && FreshIds(tracks, n + 1, newId)
    requires t.id == newId(n) && t.missed == 0
    ensures Matched(tracks, Frame(f.tracks + [t], f.used + [true], f.picks + [|f.tracks|]), n + 1, newId)
  {
    NewIdIsNew(tracks, f, n, newId);
    hide FreshIds;
    var f' := Frame(f.tracks + [t], f.used + [true], f.picks + [|f.tracks|]);
    assert f'.picks[n] == |f.tracks|;
    assert forall i :: 0 <= i < n ==> f'.picks[i] == f.picks[i];
  }

  lemma MatchedStep(tracks: seq<TrackState>, f: Frame, n: nat, newId: nat -> string, det: Detection, threshold: real)
    requires Matched(tracks, f, n, newId) && FreshIds(tracks, n + 1, newId)
    ensures Matched(tracks, MatchDetection(f, det, threshold, newId(n)), n + 1, newId)
  {
    var b := Best(f.tracks, f.used, det, threshold, |f.tracks|);
    hide Best, FreshIds, DistinctIds;
    if b >= 0 {
      PickedStep(tracks, f, n, newId, b, f.tracks[b].(lastBox := det.bbox, missed := 0));
    } else {
      CreatedStep(tracks, f, n, newId, TrackState(newId(n), det.classLabel, det.bbox, 0));
    }
  }

  lemma {:induction false} AllMatched(tracks: seq<TrackState>, dets: seq<Detection>, threshold: real,
                                      newId: nat -> string)
    requires DistinctIds(tracks) && FreshIds(tracks, |dets|, newId)
    ensures Matched(tracks, MatchAll(tracks, dets, threshold, newId), |dets|, newId)
  {
    hide MatchDetection;
    if dets != [] {
      var n := |dets| - 1;
      AllMatched(tracks, dets[..n], threshold, newId);
      MatchedStep(tracks, MatchAll(tracks, dets[..n], threshold, newId), n, newId, dets[n], threshold);
    }
  }

  // ---------- a whole frame ----------

  lemma {:induction false} AgeOutMember(tracks: seq<TrackState>, used: seq<bool>, maxMissing: int, t: TrackState)
    returns (i: nat)
    requires |used| == |tracks| && t in AgeOut(tracks, used, maxMissing)
    ensures i < |tracks| && t == Aged(tracks[i], used[i]) && t.missed <= maxMissing
  {
    var n := |tracks| - 1;
    if t in AgeOut(tracks[..n], used[..n], maxMissing) {
      i := AgeOutMember(tracks[..n], used[..n], maxMissing, t);
    } else {
      i := n;
    }
  }

  /** Compaction keeps ids distinct and never lets a track with too many misses stay. */
  lemma {:induction false} AgeOutDistinct(tracks: seq<TrackState>, used: seq<bool>, maxMissing: int)
    requires |used| == |tracks| && DistinctIds(tracks)
    ensures DistinctIds(AgeOut(tracks, used, maxMissing))
  {
    if tracks != [] {
      var n := |tracks| - 1;
      var front := AgeOut(tracks[..n], used[..n], maxMissing);
      assert DistinctIds(tracks[..n]);
      AgeOutDistinct(tracks[..n], used[..n], maxMissing);
      forall i | 0 <= i < |front|
        ensures front[i].id != tracks[n].id
      {
        var k := AgeOutMember(tracks[..n], used[..n], maxMissing, front[i]);
        assert tracks[..n][k].id == tracks[k].id;
      }
    }
  }

  lemma PickedIdOf(f: Frame, id: string) returns (i: nat)
    requires FrameOk(f) && id in PickedIds(f)
    ensures i < |f.picks| && f.tracks[f.picks[i]].id == id
  {
    i :| 0 <= i < |PickedIds(f)| && PickedIds(f)[i] == id;
  }

  lemma SameIdSameTrack(tracks: seq<TrackState>, i: nat, j: nat)
    requires DistinctIds(tracks) && i < |tracks| && j < |tracks| && tracks[i].id == tracks[j].id
    ensures i == j
  {
  }

  /** A track is used in a frame exactly when some detection carries its id. */
  lemma UsedIffHit(tracks: seq<TrackState>, f: Frame, n: nat, newId: nat -> string, t: nat)
    requires Matched(tracks, f, n, newId) && t < |f.tracks|
    ensures f.used[t] <==> f.tracks[t].id in PickedIds(f)
  {
    if f.used[t] {
      var i :| 0 <= i < n && f.picks[i] == t;
      assert PickedIds(f)[i] == f.tracks[t].id;
    } else if f.tracks[t].id in PickedIds(f) {
      var i := PickedIdOf(f, f.tracks[t].id);
      SameIdSameTrack(f.tracks, t, f.picks[i]);
    }
  }

  /** No two detections of one frame share a track id. */
  lemma HitsAreDistinct(tracks: seq<TrackState>, dets: seq<Detection>, threshold: real, newId: nat -> string,
                        i: nat, j: nat)
    requires DistinctIds(tracks) && FreshIds(tracks, |dets|, newId) && i < j < |dets|
    ensures HitIds(tracks, dets, threshold, newId)[i] != HitIds(tracks, dets, threshold, newId)[j]
  {
    AllMatched(tracks, dets, threshold, newId);
    var f := MatchAll(tracks, dets, threshold, newId);
    hide MatchAll;
    assert f.picks[i] != f.picks[j];
  }

  /** A track that survives a frame was hit in it and has no misses, or was not hit and has one more. */
  lemma SurvivorOf(tracks: seq<TrackState>, dets: seq<Detection>, threshold: real, maxMissing: int,
                   newId: nat -> string, t: TrackState)
    requires DistinctIds(tracks) && FreshIds(tracks, |dets|, newId)
    requires t in TracksAfterFrame(tracks, dets, threshold, maxMissing, newId)
    ensures DistinctIds(TracksAfterFrame(tracks, dets, threshold, maxMissing, newId))
    ensures t.missed <= maxMissing
    ensures if t.missed == 0 then t.id in HitIds(tracks, dets, threshold, newId)
            else t.id !in HitIds(tracks, dets, threshold, newId) && t.(missed := t.missed - 1) in tracks
  {
    AllMatched(tracks, dets, threshold, newId);
    var f := MatchAll(tracks, dets, threshold, newId);
    hide MatchAll, AgeOut;
    AgeOutDistinct(f.tracks, f.used, maxMissing);
    var i := AgeOutMember(f.tracks, f.used, maxMissing, t);
    UsedIffHit(tracks, f, |dets|, newId, i);
  }

  // ---------- runs ----------

  datatype FrameInput = FrameInput(dets: seq<Detection>, newId: nat -> string)

  /** The tracks after the first `k` frames. */
  function TracksAt(frames: seq<FrameInput>, threshold: real, maxMissing: int, k: nat): seq<TrackState>
    requires k <= |frames|
  {
    if k == 0 then []
    else TracksAfterFrame(TracksAt(frames, threshold, maxMissing, k - 1), frames[k - 1].dets, threshold, maxMissing,
                          frames[k - 1].newId)
  }

  /** The ids written in frame `k` (the first frame is 1). */
  function HitsAt(frames: seq<FrameInput>, threshold: real, maxMissing: int, k: nat): seq<string>
    requires 1 <= k <= |frames|
  {
    HitIds(TracksAt(frames, threshold, maxMissing, k - 1), frames[k - 1].dets, threshold, frames[k - 1].newId)
  }

  ghost predicate FreshAt(frames: seq<FrameInput>, threshold: real, maxMissing: int, k: nat) {
    k < |frames| ==> FreshIds(TracksAt(frames, threshold, maxMissing, k), |frames[k].dets|, frames[k].newId)
  }

  ghost predicate FreshRun(frames: seq<FrameInput>, threshold: real, maxMissing: int) {
    forall k: nat :: FreshAt(frames, threshold, maxMissing, k)
  }

  lemma {:induction false} LiveIdsDistinct(frames: seq<FrameInput>, threshold: real, maxMissing: int, k: nat)
    requires FreshRun(frames, threshold, maxMissing) && k <= |frames|
    ensures DistinctIds(TracksAt(frames, threshold, maxMissing, k))
  {
    if k > 0 {
      LiveIdsDistinct(frames, threshold, maxMissing, k - 1);
      var before, fr := TracksAt(frames, threshold, maxMissing, k - 1), frames[k - 1];
      assert FreshAt(frames, threshold, maxMissing, k - 1);
      AllMatched(before, fr.dets, threshold, fr.newId);
      var f := MatchAll(before, fr.dets, threshold, fr.newId);
      hide MatchAll, AgeOut;
      AgeOutDistinct(f.tracks, f.used, maxMissing);
    }
  }

  lemma LastFrame(frames: seq<FrameInput>, threshold: real, maxMissing: int, k: nat, t: TrackState)
    requires FreshRun(frames, threshold, maxMissing) && 1 <= k <= |frames|
    requires t in TracksAt(frames, threshold, maxMissing, k)
    ensures t.missed <= maxMissing
    ensures if t.missed == 0 then t.id in HitsAt(frames, threshold, maxMissing, k)
            else && t.id !in HitsAt(frames, threshold, maxMissing, k)
                 && t.(missed := t.missed - 1) in TracksAt(frames, threshold, maxMissing, k - 1)
  {
    LiveIdsDistinct(frames, threshold, maxMissing, k - 1);
    assert FreshAt(frames, threshold, maxMissing, k - 1);
    hide TracksAfterFrame, HitIds, DistinctIds, FreshIds;
    SurvivorOf(TracksAt(frames, threshold, maxMissing, k - 1), frames[k - 1].dets, threshold, maxMissing,
               frames[k - 1].newId, t);
  }

  /** Frame `m` is the last one up to `k` in which the id was given to a detection. */
  predicate LastHit(frames: seq<FrameInput>, threshold: real, maxMissing: int, id: string, m: nat, k: nat) {
    && 1 <= m <= k <= |frames|
    && id in HitsAt(frames, threshold, maxMissing, m)
    && forall j: nat :: m < j <= k ==> id !in HitsAt(frames, threshold, maxMissing, j)
  }

  /** After any frames with fresh ids: a live track was last hit exactly `missed` frames ago, and that
      is never more than the configured maximum. */
  lemma {:induction false} MissedCountsFrames(frames: seq<FrameInput>, threshold: real, maxMissing: int, k: nat,
                                              t: TrackState)
    requires FreshRun(frames, threshold, maxMissing) && k <= |frames|
    requires t in TracksAt(frames, threshold, maxMissing, k)
    ensures t.missed <= maxMissing && t.missed < k
    ensures LastHit(frames, threshold, maxMissing, t.id, k - t.missed, k)
  {
    hide TracksAt, HitsAt, FreshRun;
    NoTracksAtStart(frames, threshold, maxMissing);
    if k > 0 {
      LastFrame(frames, threshold, maxMissing, k, t);
      if t.missed > 0 {
        MissedCountsFrames(frames, threshold, maxMissing, k - 1, t.(missed := t.missed - 1));
        assert t.id !in HitsAt(frames, threshold, maxMissing, k);
      }
    }
  }

  lemma NoTracksAtStart(frames: seq<FrameInput>, threshold: real, maxMissing: int)
    ensures TracksAt(frames, threshold, maxMissing, 0) == []
  {
  }

  /** In every run, no two detections of a frame share a track. */
  lemma NoSharedTrack(frames: seq<FrameInput>, threshold: real, maxMissing: int, k: nat, i: nat, j: nat)
    requires FreshRun(frames, threshold, maxMissing) && 1 <= k <= |frames| && i < j < |frames[k - 1].dets|
    ensures HitsAt(frames, threshold, maxMissing, k)[i] != HitsAt(frames, threshold, maxMissing, k)[j]
  {
    hide HitIds, TracksAt;
    LiveIdsDistinct(frames, threshold, maxMissing, k - 1);
    assert FreshAt(frames, threshold, maxMissing, k - 1);
    HitsAreDistinct(TracksAt(frames, threshold, maxMissing, k - 1), frames[k - 1].dets, threshold,
                    frames[k - 1].newId, i, j);
  }
}
