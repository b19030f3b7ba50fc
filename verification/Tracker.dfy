/** The greedy IoU tracker: matching the detections of a frame to tracks, and ageing tracks out. */
module Tracker {
  import opened Options
  import opened Boxes

  datatype TrackState = TrackState(id: string, classLabel: string, lastBox: Option<Box>, missed: nat)

  datatype Detection = Detection(classLabel: string, bbox: Option<Box>, trackId: string)

  datatype TrackHit = TrackHit(detectionIndex: nat, trackId: string)

  // ---------- matching one detection ----------

  predicate Matches(tracks: seq<TrackState>, used: seq<bool>, det: Detection, threshold: real, ti: nat)
    requires |used| == |tracks| && ti < |tracks|
  {
    var iou := Iou(tracks[ti].lastBox, det.bbox);
    !used[ti] && tracks[ti].classLabel == det.classLabel && iou > 0.0 && iou >= threshold
  }

  /** The best of the first `n` tracks, -1 if none matches; the first one wins ties. */
  function Best(tracks: seq<TrackState>, used: seq<bool>, det: Detection, threshold: real, n: nat): (b: int)
    requires |used| == |tracks| && n <= |tracks|
    ensures -1 <= b < n && (b >= 0 ==> Matches(tracks, used, det, threshold, b))
  {
    if n == 0 then -1
    else
      var b := Best(tracks, used, det, threshold, n - 1);
      if Matches(tracks, used, det, threshold, n - 1)
         && (b < 0 || Iou(tracks[n - 1].lastBox, det.bbox) > Iou(tracks[b].lastBox, det.bbox))
      then n - 1 else b
  }

  /** The chosen track has the largest overlap of all unused tracks of the class at or above the
      threshold, and none is chosen only if there is none. */
  lemma {:induction false} BestIsBest(tracks: seq<TrackState>, used: seq<bool>, det: Detection, threshold: real,
                                      n: nat, ti: nat)
    requires |used| == |tracks| && ti < n <= |tracks| && Matches(tracks, used, det, threshold, ti)
    ensures var b := Best(tracks, used, det, threshold, n);
      && b >= 0
      && Iou(tracks[ti].lastBox, det.bbox) <= Iou(tracks[b].lastBox, det.bbox)
      && (ti < b ==> Iou(tracks[ti].lastBox, det.bbox) < Iou(tracks[b].lastBox, det.bbox))
  {
    if ti < n - 1 {
      BestIsBest(tracks, used, det, threshold, n - 1, ti);
    }
  }

  // ---------- one frame ----------

  /** The tracks while a frame is matched; `picks[i]` is the track given to detection `i`. */
  datatype Frame = Frame(tracks: seq<TrackState>, used: seq<bool>, picks: seq<nat>)

  predicate FrameOk(f: Frame) {
    && |f.used| == |f.tracks|
    && (forall i :: 0 <= i < |f.picks| ==> f.picks[i] < |f.tracks|)
  }

  /** The id a created track gets; a detection that matches does not use one. */
  function MatchDetection(f: Frame, det: Detection, threshold: real, newId: string): (f': Frame)
    requires FrameOk(f)
    ensures FrameOk(f') && |f'.picks| == |f.picks| + 1
  {
    var b := Best(f.tracks, f.used, det, threshold, |f.tracks|);
    if b >= 0 then
      Frame(f.tracks[b := f.tracks[b].(lastBox := det.bbox, missed := 0)], f.used[b := true], f.picks + [b])
    else
      Frame(f.tracks + [TrackState(newId, det.classLabel, det.bbox, 0)], f.used + [true], f.picks + [|f.tracks|])
  }

  function MatchAll(tracks: seq<TrackState>, dets: seq<Detection>, threshold: real, newId: nat -> string): (f: Frame)
    ensures FrameOk(f) && |f.picks| == |dets|
  {
    if dets == [] then Frame(tracks, seq(|tracks|, _ => false), [])
    else
      var n := |dets| - 1;
      MatchDetection(MatchAll(tracks, dets[..n], threshold, newId), dets[n], threshold, newId(n))
  }

  function Aged(t: TrackState, used: bool): TrackState {
    if used then t else t.(missed := t.missed + 1)
  }

  /** The surviving tracks, in their old order. */
  function AgeOut(tracks: seq<TrackState>, used: seq<bool>, maxMissing: int): seq<TrackState>
    requires |used| == |tracks|
  {
    if tracks == [] then []
    else
      var n := |tracks| - 1;
      var t := Aged(tracks[n], used[n]);
      AgeOut(tracks[..n], used[..n], maxMissing) + if t.missed <= maxMissing then [t] else []
  }

  lemma AgeOutNone(maxMissing: int)
    ensures AgeOut([], [], maxMissing) == []
  {
  }

  lemma AgeOutSnoc(tracks: seq<TrackState>, used: seq<bool>, maxMissing: int, n: nat)
    requires |used| == |tracks| && n < |tracks|
    ensures var t := Aged(tracks[n], used[n]);
            AgeOut(tracks[..n + 1], used[..n + 1], maxMissing)
            == AgeOut(tracks[..n], used[..n], maxMissing) + if t.missed <= maxMissing then [t] else []
  {
    assert tracks[..n + 1][..n] == tracks[..n] && used[..n + 1][..n] == used[..n];
  }

  function TracksAfterFrame(tracks: seq<TrackState>, dets: seq<Detection>, threshold: real, maxMissing: int,
                            newId: nat -> string): seq<TrackState>
  {
    var f := MatchAll(tracks, dets, threshold, newId);
    AgeOut(f.tracks, f.used, maxMissing)
  }

  function PickedIds(f: Frame): seq<string>
    requires FrameOk(f)
  {
    seq(|f.picks|, i requires 0 <= i < |f.picks| => f.tracks[f.picks[i]].id)
  }

  /** The track ids written to the detections of a frame. */
  function HitIds(tracks: seq<TrackState>, dets: seq<Detection>, threshold: real, newId: nat -> string): seq<string> {
    PickedIds(MatchAll(tracks, dets, threshold, newId))
  }

  function PickedId(f: Frame, det: Detection, threshold: real, newId: string): string
    requires FrameOk(f)
  {
    var b := Best(f.tracks, f.used, det, threshold, |f.tracks|);
    if b >= 0 then f.tracks[b].id else newId
  }

  /** Matching never renames a track. */
  lemma PickedIdsStep(f: Frame, det: Detection, threshold: real, newId: string)
    requires FrameOk(f)
    ensures PickedIds(MatchDetection(f, det, threshold, newId)) == PickedIds(f) + [PickedId(f, det, threshold, newId)]
  {
    hide Best;
  }

  // ---------- the tracker object ----------

  class Tracker {
    const threshold: real
    const maxMissing: int
    var buffer: array<TrackState>
    var count: nat

    ghost predicate Valid()
      reads this
    {
      count <= buffer.Length
    }

    function Tracks(): seq<TrackState>
      requires Valid()
      reads this, buffer
    {
      buffer[..count]
    }

    constructor (iouThreshold: real, maxMissing: int)
      ensures Valid() && Tracks() == [] && fresh(buffer)
      ensures threshold == if iouThreshold <= 0.0 then 0.25 else iouThreshold
      ensures this.maxMissing == if maxMissing <= 0 then 30 else maxMissing
    {
      threshold := if iouThreshold <= 0.0 then 0.25 else iouThreshold;
      this.maxMissing := if maxMissing <= 0 then 30 else maxMissing;
      buffer := new TrackState[0];
      count := 0;
    }

    /** Appending to a slice: in place while there is room, otherwise in a larger copy. */
    method Append(t: TrackState)
      requires Valid()
      modifies this, buffer
      ensures Valid() && Tracks() == old(Tracks()) + [t]
      ensures buffer == old(buffer) || fresh(buffer)
    {
      if count == buffer.Length {
        var larger := new TrackState[2 * count + 1](_ => t);
        forall i | 0 <= i < count {
          larger[i] := buffer[i];
        }
        buffer := larger;
      }
      buffer[count] := t;
      count := count + 1;
    }

    /** The scan for one detection. */
    method FindBest(used: seq<bool>, det: Detection) returns (bestIdx: int)
      requires Valid() && |used| == count
      ensures bestIdx == Best(Tracks(), used, det, threshold, count)
    {
      bestIdx := -1;
      var bestIou := 0.0;
      for ti := 0 to count
        invariant bestIdx == Best(Tracks(), used, det, threshold, ti)
        invariant bestIou == if bestIdx < 0 then 0.0 else Iou(Tracks()[bestIdx].lastBox, det.bbox)
      {
        var tr := buffer[ti];
        if used[ti] {
          continue;
        }
        if tr.classLabel != det.classLabel {
          continue;
        }
        var iou := Iou(tr.lastBox, det.bbox);
        if iou > bestIou && iou >= threshold {
          bestIou := iou;
          bestIdx := ti;
        }
      }
    }

    /** Drops the tracks missed too often, compacting the slice in place. */
    method DropMissing(used: seq<bool>)
      requires Valid() && |used| == count
      modifies this`count, buffer
      ensures Valid() && Tracks() == AgeOut(old(Tracks()), used, maxMissing)
    {
      hide AgeOut;
      ghost var before := Tracks();
      AgeOutNone(maxMissing);
      var w := 0;
      for ti := 0 to count
        invariant w <= ti && count == old(count)
        invariant buffer[..w] == AgeOut(before[..ti], used[..ti], maxMissing)
        invariant forall k :: ti <= k < count ==> buffer[k] == before[k]
      {
        AgeOutSnoc(before, used, maxMissing, ti);
        ghost var front := buffer[..w];
        var tr := buffer[ti];
        if !used[ti] {
          tr := tr.(missed := tr.missed + 1);
        }
        if tr.missed <= maxMissing {
          buffer[w] := tr;
          w := w + 1;
          assert buffer[..w] == front + [tr];
        }
      }
      assert before[..count] == before && used[..count] == used;
      count := w;
    }

    /** The body of the loop over the detections: `used` and the id given to the detection. */
    method MatchOne(used: seq<bool>, det: Detection, newId: string, ghost f: Frame)
      returns (used': seq<bool>, id: string)
      requires Valid() && FrameOk(f) && Tracks() == f.tracks && used == f.used
      modifies this, buffer
      ensures Valid() && (buffer == old(buffer) || fresh(buffer))
      ensures Tracks() == MatchDetection(f, det, threshold, newId).tracks
      ensures used' == MatchDetection(f, det, threshold, newId).used
      ensures id == PickedId(f, det, threshold, newId)
    {
      hide Matches;
      var best := FindBest(used, det);
      if best >= 0 {
        id := buffer[best].id;
        used' := used[best := true];
        buffer[best] := buffer[best].(lastBox := det.bbox, missed := 0);
      } else {
        id := newId;
        Append(TrackState(id, det.classLabel, det.bbox, 0));
        used' := used + [true];
      }
    }

    /** Assigns a track to every detection of a frame, in place. */
    method Assign(dets: array<Detection>, newId: nat -> string) returns (hits: seq<TrackHit>)
      requires Valid() && dets as object != buffer && dets as object != this
      modifies this, buffer, dets
      ensures Valid()
      ensures Tracks() == TracksAfterFrame(old(Tracks()), old(dets[..]), threshold, maxMissing, newId)
      ensures var ids := HitIds(old(Tracks()), old(dets[..]), threshold, newId);
        && |ids| == |hits| == dets.Length
        && forall i :: 0 <= i < dets.Length ==>
             dets[i] == old(dets[i]).(trackId := ids[i]) && hits[i] == TrackHit(i, ids[i])
    {
      hide MatchDetection, AgeOut, PickedIds, Best;
      ghost var given := dets[..];
      ghost var f := Frame(Tracks(), seq(count, _ => false), []);
      ghost var ids: seq<string> := PickedIds(f);
      assert ids == [] by { NoPicks(f); }
      var used := seq(count, _ => false);
      hits := [];
      for di := 0 to dets.Length
        invariant Valid() && (buffer == old(buffer) || fresh(buffer)) && dets as object != buffer
        invariant f == MatchAll(old(Tracks()), given[..di], threshold, newId) && ids == PickedIds(f)
        invariant Tracks() == f.tracks && used == f.used && |ids| == |hits| == di
        invariant forall i :: 0 <= i < di ==> dets[i] == given[i].(trackId := ids[i]) && hits[i] == TrackHit(i, ids[i])
        invariant forall i :: di <= i < dets.Length ==> dets[i] == given[i]
      {
        assert given[..di + 1][..di] == given[..di];
        var det := dets[di];
        var id;
        PickedIdsStep(f, det, threshold, newId(di));
        used, id := MatchOne(used, det, newId(di), f);
        f, ids := MatchDetection(f, det, threshold, newId(di)), ids + [id];
        dets[di] := det.(trackId := id);
        hits := hits + [TrackHit(di, id)];
      }
      assert given[..dets.Length] == given;
      DropMissing(used);
    }
  }

  lemma NoPicks(f: Frame)
    requires FrameOk(f) && f.picks == []
    ensures PickedIds(f) == []
  {
  }
}
