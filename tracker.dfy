/** One frame of tracking: track2Frames and matchCurrentFrameBlobsToExistingBlobs. */
module Tracker {
  import opened Geometry
  import opened Blobs
  import opened Admission
  import opened Assignment
  import opened Lifecycle

  /** The whole of matchCurrentFrameBlobsToExistingBlobs: reset and predict,
      assign every candidate in order, then the bookkeeping. */
  function MatchFrame(existing: seq<Blob>, current: seq<Blob>, predict: seq<Point> -> Point): Outcome
    requires AllSeeded(current)
  {
    match AssignAll(ResetAll(existing, predict), current)
    case Tracked(t) => Tracked(AgeAll(t))
    case IndexOutOfRange(k) => IndexOutOfRange(k)
  }

  method MatchCurrentFrameBlobsToExistingBlobs(existingBlobs: seq<Blob>, currentFrameBlobs: seq<Blob>,
                                               predict: seq<Point> -> Point)
    returns (r: Outcome)
    requires AllSeeded(currentFrameBlobs)
    ensures r == MatchFrame(existingBlobs, currentFrameBlobs, predict)
  {
    var tracks := ResetTracks(existingBlobs, predict);

    var j := 0;
    while j < |currentFrameBlobs|
      invariant 0 <= j <= |currentFrameBlobs|
      invariant AllSeeded(currentFrameBlobs[j..])
      invariant AssignAll(tracks, currentFrameBlobs[j..]) == AssignAll(ResetAll(existingBlobs, predict), currentFrameBlobs)
    {
      var currentFrameBlob := currentFrameBlobs[j];
      ghost var rest := currentFrameBlobs[j..];
      assert rest[0] == currentFrameBlob;
      assert rest[1..] == currentFrameBlobs[j + 1..];
      ghost var before := tracks;
      var indexOfLeastDistance, leastSq := FindNearest(tracks, LastCenter(currentFrameBlob));
      if 4 * leastSq < currentFrameBlob.diagonalSq {
        if indexOfLeastDistance >= |tracks| {
          AssignAllCons(before, rest, IndexOutOfRange(indexOfLeastDistance));
          return IndexOutOfRange(indexOfLeastDistance);
        }
        tracks := UpdateExistingBlob(currentFrameBlob, tracks, indexOfLeastDistance);
      } else {
        tracks := AddNewBlob(currentFrameBlob, tracks);
      }
      AssignAllCons(before, rest, Tracked(tracks));
      j := j + 1;
    }

    tracks := AgeTracks(tracks);
    r := Tracked(tracks);
  }

  lemma AdmittedSeeded(hulls: seq<seq<Point>>, newBlob: seq<Point> -> Blob)
    requires forall i :: 0 <= i < |hulls| ==> Seeded(newBlob(hulls[i]))
    ensures AllSeeded(Admitted(Candidates(hulls, newBlob)))
  {
    var blobs := Candidates(hulls, newBlob);
    AdmittedIsOrderedSelection(blobs);
  }

  /** track2Frames from the convex hulls on: the admission filter, then the
      matching of the admitted blobs against the tracks. */
  method Track2Frames(convexHulls: seq<seq<Point>>, blobs: seq<Blob>,
                      newBlob: seq<Point> -> Blob, predict: seq<Point> -> Point)
    returns (r: Outcome)
    requires forall i :: 0 <= i < |convexHulls| ==> Seeded(newBlob(convexHulls[i]))
    ensures AllSeeded(Admitted(Candidates(convexHulls, newBlob)))
    ensures r == MatchFrame(blobs, Admitted(Candidates(convexHulls, newBlob)), predict)
  {
    var curFrameBlobs := AdmitCandidates(convexHulls, newBlob);
    AdmittedSeeded(convexHulls, newBlob);
    r := MatchCurrentFrameBlobsToExistingBlobs(blobs, curFrameBlobs, predict);
  }

  /** What one frame does to the tracks: the vector never shrinks and grows by
      at most one track per candidate; every old track keeps its history as a
      prefix and is flagged exactly when its history grew, in which case its
      counter went up by one, otherwise it is unchanged apart from the new
      prediction; every appended track is flagged; and on return no track
      with a counter of 5 or more is still tracked. */
  lemma FrameEffect(existing: seq<Blob>, current: seq<Blob>, predict: seq<Point> -> Point)
    requires AllSeeded(current) && MatchFrame(existing, current, predict).Tracked?
    ensures var u := MatchFrame(existing, current, predict).tracks;
      && |existing| <= |u| <= |existing| + |current|
      && (forall i :: 0 <= i < |existing| ==>
            && |existing[i].centerPositions| <= |u[i].centerPositions|
            && u[i].centerPositions[..|existing[i].centerPositions|] == existing[i].centerPositions
            && (u[i].matchFoundOrNewBlob <==> |u[i].centerPositions| > |existing[i].centerPositions|)
            && u[i].framesWithoutAMatch == existing[i].framesWithoutAMatch + (if u[i].matchFoundOrNewBlob then 1 else 0)
            && (!u[i].matchFoundOrNewBlob ==>
                  Age(ResetTrack(existing[i], predict)) == u[i]))
      && (forall i :: |existing| <= i < |u| ==> u[i].matchFoundOrNewBlob)
      && (forall i :: 0 <= i < |u| && u[i].framesWithoutAMatch >= 5 ==> !u[i].stillBeingTracked)
  {
    var t := ResetAll(existing, predict);
    ResetClearsFlags(existing, predict);
    AssignAllShape(t, current);
    var a := AssignAll(t, current).tracks;
    var u := MatchFrame(existing, current, predict).tracks;
    assert u == AgeAll(a);
    forall i | 0 <= i < |existing|
      ensures u[i].centerPositions[..|existing[i].centerPositions|] == existing[i].centerPositions
    {
      assert t[i].centerPositions == existing[i].centerPositions;
    }
  }

  /** Every track that is no longer tracked has reached a count of 5. This
      holds of every fresh blob (it is tracked) and is kept by each frame. */
  ghost predicate RetiredHaveReachedFive(tracks: seq<Blob>) {
    forall i :: 0 <= i < |tracks| && !tracks[i].stillBeingTracked ==> tracks[i].framesWithoutAMatch >= 5
  }

  lemma {:induction false} AssignAllKeepsRetiredCount(tracks: seq<Blob>, cs: seq<Blob>)
    requires AllSeeded(cs) && AssignAll(tracks, cs).Tracked?
    requires RetiredHaveReachedFive(tracks) && RetiredHaveReachedFive(cs)
    ensures RetiredHaveReachedFive(AssignAll(tracks, cs).tracks)
    decreases |cs|
  {
    if |cs| > 0 {
      assert AllSeeded(cs[1..]) && RetiredHaveReachedFive(cs[1..]) by {
        assert forall k :: 0 <= k < |cs[1..]| ==> cs[1..][k] == cs[k + 1];
      }
      var next := Assign(tracks, cs[0]).tracks;
      assert RetiredHaveReachedFive(next);
      AssignAllKeepsRetiredCount(next, cs[1..]);
    }
  }

  /** Retirement is permanent at frame granularity: a track that was not
      tracked before the frame is not tracked after it, even when the
      sentinel fallback merged a candidate into it, and the invariant
      carries over to the next frame. */
  lemma RetiredStayRetired(existing: seq<Blob>, current: seq<Blob>, predict: seq<Point> -> Point)
    requires AllSeeded(current) && MatchFrame(existing, current, predict).Tracked?
    requires RetiredHaveReachedFive(existing)
    requires forall k :: 0 <= k < |current| ==> current[k].stillBeingTracked
    ensures var u := MatchFrame(existing, current, predict).tracks;
      && RetiredHaveReachedFive(u)
      && |existing| <= |u|
      && forall i :: 0 <= i < |existing| && !existing[i].stillBeingTracked ==> !u[i].stillBeingTracked
  {
    var t := ResetAll(existing, predict);
    AssignAllShape(t, current);
    AssignAllKeepsRetiredCount(t, current);
  }
}
