/** The greedy frame-to-frame assignment of matchCurrentFrameBlobsToExistingBlobs,
    with updateExistingBlob and addNewBlob. */
module Assignment {
  import opened Geometry
  import opened Blobs

  /** leastDistance starts at 100000.0; distances are kept squared. */
  const SentinelSq: int := 100000 * 100000

  /** The vector after the call, or the index the source would use out of range. */
  datatype Outcome = Tracked(tracks: seq<Blob>) | IndexOutOfRange(index: int)

  /** The per-track start of a frame: clear the flag, predict the next position. */
  function ResetTrack(b: Blob, predict: seq<Point> -> Point): Blob {
    b.(matchFoundOrNewBlob := false, predictedNextPosition := predict(b.centerPositions))
  }

  function ResetAll(tracks: seq<Blob>, predict: seq<Point> -> Point): (r: seq<Blob>)
    ensures |r| == |tracks|
    ensures forall i :: 0 <= i < |r| ==> r[i] == ResetTrack(tracks[i], predict)
  {
    seq(|tracks|, i requires 0 <= i < |tracks| => ResetTrack(tracks[i], predict))
  }

  /** After the reset every flag is false and only the prediction has changed. */
  lemma ResetClearsFlags(tracks: seq<Blob>, predict: seq<Point> -> Point)
    ensures |ResetAll(tracks, predict)| == |tracks|
    ensures forall i :: 0 <= i < |tracks| ==>
      && !ResetAll(tracks, predict)[i].matchFoundOrNewBlob
      && ResetAll(tracks, predict)[i].predictedNextPosition == predict(tracks[i].centerPositions)
      && ResetAll(tracks, predict)[i].(matchFoundOrNewBlob := tracks[i].matchFoundOrNewBlob,
                                       predictedNextPosition := tracks[i].predictedNextPosition) == tracks[i]
  {
  }

  /** The first loop of matchCurrentFrameBlobsToExistingBlobs: clear every
      flag and store every track's prediction. */
  method ResetTracks(existingBlobs: seq<Blob>, predict: seq<Point> -> Point) returns (tracks: seq<Blob>)
    ensures tracks == ResetAll(existingBlobs, predict)
  {
    tracks := existingBlobs;
    var i := 0;
    while i < |tracks|
      invariant 0 <= i <= |tracks| == |existingBlobs|
      invariant forall k :: 0 <= k < i ==> tracks[k] == ResetTrack(existingBlobs[k], predict)
      invariant forall k :: i <= k < |tracks| ==> tracks[k] == existingBlobs[k]
    {
      tracks := tracks[i := tracks[i].(matchFoundOrNewBlob := false)];
      tracks := tracks[i := tracks[i].(predictedNextPosition := predict(tracks[i].centerPositions))];
      i := i + 1;
    }
  }

  /** Squared distance from a candidate center to a track's predicted position. */
  function Dist(t: Blob, p: Point): int {
    DistanceSq(p, t.predictedNextPosition)
  }

  /** (indexOfLeastDistance, leastDistance^2) after the strict-< scan of the
      tracks, starting from (0, 100000.0) and skipping tracks no longer tracked. */
  function NearestActive(tracks: seq<Blob>, p: Point): (nat, int)
    decreases |tracks|
  {
    if |tracks| == 0 then (0, SentinelSq)
    else
      var i := |tracks| - 1;
      var (k, d) := NearestActive(tracks[..i], p);
      if tracks[i].stillBeingTracked && Dist(tracks[i], p) < d then (i, Dist(tracks[i], p)) else (k, d)
  }

  /** Some tracked track lies strictly nearer than the sentinel. */
  ghost predicate AnyWithinSentinel(tracks: seq<Blob>, p: Point) {
    exists j :: 0 <= j < |tracks| && tracks[j].stillBeingTracked && Dist(tracks[j], p) < SentinelSq
  }

  /** The declarative meaning of the scan: a tracked track of least distance,
      the first such in vector order; or, when no tracked track is nearer than
      the sentinel, index 0 with the sentinel distance. */
  ghost predicate IsNearest(tracks: seq<Blob>, p: Point, index: nat, leastSq: int) {
    if AnyWithinSentinel(tracks, p) then
      && index < |tracks|
      && tracks[index].stillBeingTracked
      && leastSq == Dist(tracks[index], p)
      && (forall j :: 0 <= j < |tracks| && tracks[j].stillBeingTracked ==> leastSq <= Dist(tracks[j], p))
      && (forall j :: 0 <= j < index && tracks[j].stillBeingTracked ==> leastSq < Dist(tracks[j], p))
    else
      index == 0 && leastSq == SentinelSq
  }

  lemma {:induction false} NearestActiveIsNearest(tracks: seq<Blob>, p: Point)
    ensures IsNearest(tracks, p, NearestActive(tracks, p).0, NearestActive(tracks, p).1)
    decreases |tracks|
  {
    if |tracks| > 0 {
      var i := |tracks| - 1;
      var pre := tracks[..i];
      NearestActiveIsNearest(pre, p);
      assert forall j :: 0 <= j < i ==> pre[j] == tracks[j];
      var (k, d) := NearestActive(pre, p);
      if AnyWithinSentinel(pre, p) {
        var j0 :| 0 <= j0 < |pre| && pre[j0].stillBeingTracked && Dist(pre[j0], p) < SentinelSq;
        assert tracks[j0].stillBeingTracked && Dist(tracks[j0], p) < SentinelSq;
      } else if tracks[i].stillBeingTracked && Dist(tracks[i], p) < d {
        assert AnyWithinSentinel(tracks, p);
      } else {
        assert !AnyWithinSentinel(tracks, p);
      }
    }
  }

  /** IsNearest pins down one pair: the scan's result is unique. */
  lemma NearestUnique(tracks: seq<Blob>, p: Point, i1: nat, d1: int, i2: nat, d2: int)
    requires IsNearest(tracks, p, i1, d1) && IsNearest(tracks, p, i2, d2)
    ensures i1 == i2 && d1 == d2
  {
    if AnyWithinSentinel(tracks, p) {
      assert d1 <= d2 && d2 <= d1;
    }
  }

  /** Of two tracked tracks at the same distance, the later one is never chosen. */
  lemma NearestTieBreak(tracks: seq<Blob>, p: Point, i: nat, j: nat)
    requires i < j < |tracks|
    requires tracks[i].stillBeingTracked && tracks[j].stillBeingTracked
    requires Dist(tracks[i], p) == Dist(tracks[j], p)
    ensures NearestActive(tracks, p).0 != j
  {
    NearestActiveIsNearest(tracks, p);
    var (k, d) := NearestActive(tracks, p);
  }

  /** The nearest-track scan of the assignment loop. */
  method FindNearest(tracks: seq<Blob>, p: Point) returns (indexOfLeastDistance: nat, leastSq: int)
    ensures (indexOfLeastDistance, leastSq) == NearestActive(tracks, p)
    ensures IsNearest(tracks, p, indexOfLeastDistance, leastSq)
  {
    indexOfLeastDistance, leastSq := 0, SentinelSq;
    var i := 0;
    while i < |tracks|
      invariant 0 <= i <= |tracks|
      invariant (indexOfLeastDistance, leastSq) == NearestActive(tracks[..i], p)
    {
      assert tracks[..i + 1][..i] == tracks[..i];
      if tracks[i].stillBeingTracked {
        var distance := Dist(tracks[i], p);
        if distance < leastSq {
          leastSq := distance;
          indexOfLeastDistance := i;
        }
      }
      i := i + 1;
    }
    assert tracks[..i] == tracks;
    NearestActiveIsNearest(tracks, p);
  }

  /** The track after updateExistingBlob has merged candidate c into it. */
  function Merge(t: Blob, c: Blob): Blob
    requires Seeded(c)
  {
    t.(currentContour := c.currentContour,
       currentBoundingRect := c.currentBoundingRect,
       centerPositions := t.centerPositions + [LastCenter(c)],
       diagonalSq := c.diagonalSq,
       aspectRatio := c.aspectRatio,
       stillBeingTracked := true,
       matchFoundOrNewBlob := true)
  }

  /** The track that addNewBlob appends for candidate c. */
  function AsNewTrack(c: Blob): Blob {
    c.(matchFoundOrNewBlob := true)
  }

  /** updateExistingBlob: the seven field writes on existingBlobs[index]. */
  method UpdateExistingBlob(currentFrameBlob: Blob, existingBlobs: seq<Blob>, index: nat)
    returns (r: seq<Blob>)
    requires Seeded(currentFrameBlob) && index < |existingBlobs|
    ensures r == existingBlobs[index := Merge(existingBlobs[index], currentFrameBlob)]
    ensures |r| == |existingBlobs|
    ensures forall j :: 0 <= j < |r| && j != index ==> r[j] == existingBlobs[j]
    ensures r[index].currentContour == currentFrameBlob.currentContour
    ensures r[index].currentBoundingRect == currentFrameBlob.currentBoundingRect
    ensures r[index].diagonalSq == currentFrameBlob.diagonalSq
    ensures r[index].aspectRatio == currentFrameBlob.aspectRatio
    ensures |r[index].centerPositions| == |existingBlobs[index].centerPositions| + 1
    ensures r[index].centerPositions[..|existingBlobs[index].centerPositions|] == existingBlobs[index].centerPositions
    ensures r[index].centerPositions[|existingBlobs[index].centerPositions|] == LastCenter(currentFrameBlob)
    ensures r[index].stillBeingTracked && r[index].matchFoundOrNewBlob
    ensures r[index].predictedNextPosition == existingBlobs[index].predictedNextPosition
    ensures r[index].framesWithoutAMatch == existingBlobs[index].framesWithoutAMatch
  {
    var b := existingBlobs[index];
    b := b.(currentContour := currentFrameBlob.currentContour);
    b := b.(currentBoundingRect := currentFrameBlob.currentBoundingRect);
    b := b.(centerPositions := b.centerPositions + [LastCenter(currentFrameBlob)]);
    b := b.(diagonalSq := currentFrameBlob.diagonalSq);
    b := b.(aspectRatio := currentFrameBlob.aspectRatio);
    b := b.(stillBeingTracked := true);
    b := b.(matchFoundOrNewBlob := true);
    r := existingBlobs[index := b];
  }

  /** addNewBlob: flag the candidate and push it back. */
  method AddNewBlob(currentFrameBlob: Blob, existingBlobs: seq<Blob>) returns (r: seq<Blob>)
    ensures r == existingBlobs + [AsNewTrack(currentFrameBlob)]
    ensures |r| == |existingBlobs| + 1 && r[..|existingBlobs|] == existingBlobs
    ensures r[|existingBlobs|].matchFoundOrNewBlob
    ensures r[|existingBlobs|].(matchFoundOrNewBlob := currentFrameBlob.matchFoundOrNewBlob) == currentFrameBlob
  {
    var b := currentFrameBlob.(matchFoundOrNewBlob := true);
    r := existingBlobs + [b];
  }

  /** One candidate: merge into the nearest track when 4 * leastSq < diagonal^2
      (that is, leastDistance < diagonal * 0.5); otherwise append it. */
  function Assign(tracks: seq<Blob>, c: Blob): (r: Outcome)
    requires Seeded(c)
    ensures r.Tracked? ==> |tracks| <= |r.tracks| <= |tracks| + 1
    ensures r.IndexOutOfRange? ==> |tracks| == 0
  {
    assert |tracks| > 0 ==> NearestActive(tracks, LastCenter(c)).0 < |tracks| by {
      if |tracks| > 0 { NearestInRange(tracks, LastCenter(c)); }
    }
    var (index, leastSq) := NearestActive(tracks, LastCenter(c));
    if 4 * leastSq < c.diagonalSq then
      if index < |tracks| then Tracked(tracks[index := Merge(tracks[index], c)])
      else IndexOutOfRange(index)
    else Tracked(tracks + [AsNewTrack(c)])
  }

  predicate AllSeeded(cs: seq<Blob>) {
    forall k :: 0 <= k < |cs| ==> Seeded(cs[k])
  }

  /** The candidates in order, each against the vector as the earlier ones left it. */
  function AssignAll(tracks: seq<Blob>, cs: seq<Blob>): (r: Outcome)
    requires AllSeeded(cs)
    ensures r.Tracked? ==> |tracks| <= |r.tracks| <= |tracks| + |cs|
    decreases |cs|
  {
    if |cs| == 0 then Tracked(tracks)
    else
      match Assign(tracks, cs[0])
      case Tracked(next) => AssignAll(next, cs[1..])
      case IndexOutOfRange(k) => IndexOutOfRange(k)
  }

  /** The first candidate of a seeded list is seeded, and so are the rest. */
  lemma AllSeededTail(cs: seq<Blob>)
    requires AllSeeded(cs) && |cs| > 0
    ensures Seeded(cs[0]) && AllSeeded(cs[1..])
  {
    assert forall k :: 0 <= k < |cs[1..]| ==> cs[1..][k] == cs[k + 1];
  }

  /** Assigning the first candidate and then the rest. */
  lemma AssignAllCons(tracks: seq<Blob>, cs: seq<Blob>, next: Outcome)
    requires AllSeeded(cs) && |cs| > 0
    requires Assign(tracks, cs[0]) == next
    ensures AllSeeded(cs[1..])
    ensures next.Tracked? ==> AssignAll(tracks, cs) == AssignAll(next.tracks, cs[1..])
    ensures next.IndexOutOfRange? ==> AssignAll(tracks, cs) == next
  {
    AllSeededTail(cs);
  }

  /** The integer test is the source's test on exact square roots: with
      leastDistance and the diagonal the non-negative roots of leastSq and
      diagonalSq, leastDistance < diagonal * 0.5 exactly when
      4 * leastSq < diagonalSq. */
  lemma MergeTestOnRoots(leastDistance: real, diagonal: real, leastSq: int, diagonalSq: int)
    requires leastDistance >= 0.0 && diagonal >= 0.0
    requires leastDistance * leastDistance == leastSq as real
    requires diagonal * diagonal == diagonalSq as real
    ensures leastDistance < diagonal * 0.5 <==> 4 * leastSq < diagonalSq
  {
    HalfComparison(leastDistance, diagonal);
    assert 4.0 * (leastDistance * leastDistance) == (4 * leastSq) as real;
  }

  /** The merge decision against the nearest track as IsNearest specifies it:
      a candidate merges into that track exactly when 4 * leastSq is below its
      squared diagonal, which keeps the length; otherwise it is appended. */
  lemma AssignDecision(tracks: seq<Blob>, c: Blob, index: nat, leastSq: int)
    requires Seeded(c) && IsNearest(tracks, LastCenter(c), index, leastSq)
    ensures 4 * leastSq < c.diagonalSq && index < |tracks| ==>
      Assign(tracks, c) == Tracked(tracks[index := Merge(tracks[index], c)])
    ensures 4 * leastSq < c.diagonalSq && index >= |tracks| ==>
      |tracks| == 0 && Assign(tracks, c) == IndexOutOfRange(index)
    ensures 4 * leastSq >= c.diagonalSq ==> Assign(tracks, c) == Tracked(tracks + [AsNewTrack(c)])
    ensures Assign(tracks, c).Tracked? ==>
      (|Assign(tracks, c).tracks| == |tracks| <==> 4 * leastSq < c.diagonalSq)
  {
    var p := LastCenter(c);
    NearestActiveIsNearest(tracks, p);
    var (i, d) := NearestActive(tracks, p);
    NearestUnique(tracks, p, i, d, index, leastSq);
  }

  /** With one tracked track within the sentinel, the scan picks it. */
  lemma NearestOfOne(t: Blob, p: Point)
    requires t.stillBeingTracked && Dist(t, p) < SentinelSq
    ensures NearestActive([t], p) == (0, Dist(t, p))
  {
    assert [t][..0] == [];
  }

  /** The merge decision: a candidate 140 away from the only tracked track,
      with diagonal 300, merges into it; at 160 it starts a new track. */
  lemma MergeThreshold(t: Blob, near: Blob, far: Blob)
    requires t.stillBeingTracked
    requires Seeded(near) && Seeded(far)
    requires near.diagonalSq == 300 * 300 && far.diagonalSq == 300 * 300
    requires Dist(t, LastCenter(near)) == 140 * 140
    requires Dist(t, LastCenter(far)) == 160 * 160
    ensures Assign([t], near) == Tracked([Merge(t, near)])
    ensures Assign([t], far) == Tracked([t, AsNewTrack(far)])
  {
    NearestOfOne(t, LastCenter(near));
    NearestOfOne(t, LastCenter(far));
  }

  /** With no tracked track nearer than 100000 and a diagonal above 200000,
      the sentinel index 0 is used: track 0 receives the merge whether or not
      it is still tracked, and an empty vector is indexed out of range. */
  lemma SentinelFallback(tracks: seq<Blob>, c: Blob)
    requires Seeded(c) && 4 * SentinelSq < c.diagonalSq
    requires forall j :: 0 <= j < |tracks| && tracks[j].stillBeingTracked ==> Dist(tracks[j], LastCenter(c)) >= SentinelSq
    ensures |tracks| > 0 ==> Assign(tracks, c) == Tracked(tracks[0 := Merge(tracks[0], c)])
    ensures |tracks| == 0 ==> Assign(tracks, c) == IndexOutOfRange(0)
  {
    NearestActiveIsNearest(tracks, LastCenter(c));
  }

  /** The scan's index is in range whenever the vector is not empty. */
  lemma NearestInRange(tracks: seq<Blob>, p: Point)
    requires |tracks| > 0
    ensures NearestActive(tracks, p).0 < |tracks|
  {
    NearestActiveIsNearest(tracks, p);
  }

  /** The out-of-range index is reached exactly when the vector is empty and
      the first candidate takes the sentinel fallback. */
  lemma {:induction false} AssignAllFailsIff(tracks: seq<Blob>, cs: seq<Blob>)
    requires AllSeeded(cs)
    ensures AssignAll(tracks, cs).IndexOutOfRange? <==>
      (|tracks| == 0 && |cs| > 0 && 4 * SentinelSq < cs[0].diagonalSq)
    ensures AssignAll(tracks, cs).IndexOutOfRange? ==> AssignAll(tracks, cs).index == 0
    decreases |cs|
  {
    if |cs| > 0 {
      var c := cs[0];
      assert AllSeeded(cs[1..]) by {
        assert forall k :: 0 <= k < |cs[1..]| ==> cs[1..][k] == cs[k + 1];
      }
      if |tracks| > 0 {
        NearestInRange(tracks, LastCenter(c));
        var next := Assign(tracks, c).tracks;
        assert |next| > 0;
        AssignAllFailsIff(next, cs[1..]);
      } else if 4 * SentinelSq < c.diagonalSq {
        assert NearestActive(tracks, LastCenter(c)) == (0, SentinelSq);
      } else {
        assert NearestActive(tracks, LastCenter(c)) == (0, SentinelSq);
        AssignAllFailsIff([AsNewTrack(c)], cs[1..]);
      }
    }
  }

  /** How one vector of tracks evolves into another during the assignment:
      it only grows; each old track either stays as it was or has been
      flagged, kept tracked and given a longer history that extends the old
      one; its counter and prediction are untouched; every appended track is
      flagged; and a tracked candidate leaves every appended track tracked. */
  ghost predicate Evolves(t: seq<Blob>, u: seq<Blob>) {
    && |t| <= |u|
    && (forall i :: 0 <= i < |t| ==>
          && |t[i].centerPositions| <= |u[i].centerPositions|
          && u[i].centerPositions[..|t[i].centerPositions|] == t[i].centerPositions
          && u[i].framesWithoutAMatch == t[i].framesWithoutAMatch
          && u[i].predictedNextPosition == t[i].predictedNextPosition
          && (u[i] == t[i] ||
              (u[i].matchFoundOrNewBlob && u[i].stillBeingTracked &&
               |u[i].centerPositions| > |t[i].centerPositions|)))
    && (forall i :: |t| <= i < |u| ==> u[i].matchFoundOrNewBlob)
  }

  lemma EvolvesTransitive(a: seq<Blob>, b: seq<Blob>, c: seq<Blob>)
    requires Evolves(a, b) && Evolves(b, c)
    ensures Evolves(a, c)
  {
    forall i | 0 <= i < |a|
      ensures c[i].centerPositions[..|a[i].centerPositions|] == a[i].centerPositions
    {
      var ca, cb := |a[i].centerPositions|, |b[i].centerPositions|;
      assert c[i].centerPositions[..ca] == c[i].centerPositions[..cb][..ca];
    }
  }

  lemma AssignEvolves(tracks: seq<Blob>, c: Blob)
    requires Seeded(c) && Assign(tracks, c).Tracked?
    ensures Evolves(tracks, Assign(tracks, c).tracks)
    ensures |Assign(tracks, c).tracks| <= |tracks| + 1
  {
    var (index, leastSq) := NearestActive(tracks, LastCenter(c));
    var u := Assign(tracks, c).tracks;
    if 4 * leastSq < c.diagonalSq {
      var t := tracks[index];
      assert u[index].centerPositions[..|t.centerPositions|] == t.centerPositions;
    }
  }

  /** Each candidate creates or updates a track: the vector never shrinks and
      grows by at most one entry per candidate; existing indices keep their
      history as a prefix; no counter or prediction changes. Starting from
      all flags false (as after the reset), an old track is flagged exactly
      when its history grew, an unflagged one is unchanged, and every
      appended track is flagged. */
  lemma {:induction false} AssignAllShape(tracks: seq<Blob>, cs: seq<Blob>)
    requires AllSeeded(cs) && AssignAll(tracks, cs).Tracked?
    ensures Evolves(tracks, AssignAll(tracks, cs).tracks)
    ensures |tracks| <= |AssignAll(tracks, cs).tracks| <= |tracks| + |cs|
    ensures (forall i :: 0 <= i < |tracks| ==> !tracks[i].matchFoundOrNewBlob) ==>
      forall i :: 0 <= i < |tracks| ==>
        var u := AssignAll(tracks, cs).tracks[i];
        && (u.matchFoundOrNewBlob <==> |u.centerPositions| > |tracks[i].centerPositions|)
        && (!u.matchFoundOrNewBlob ==> u == tracks[i])
    decreases |cs|
  {
    if |cs| > 0 {
      assert AllSeeded(cs[1..]) by {
        assert forall k :: 0 <= k < |cs[1..]| ==> cs[1..][k] == cs[k + 1];
      }
      var next := Assign(tracks, cs[0]).tracks;
      AssignEvolves(tracks, cs[0]);
      AssignAllShape(next, cs[1..]);
      EvolvesTransitive(tracks, next, AssignAll(tracks, cs).tracks);
    }
    var u := AssignAll(tracks, cs).tracks;
    forall i | 0 <= i < |tracks| && !tracks[i].matchFoundOrNewBlob
      ensures u[i].matchFoundOrNewBlob <==> |u[i].centerPositions| > |tracks[i].centerPositions|
    {
    }
  }

  /** How many of the candidates fail the merge test against the nearest
      track, as the vector stands when each is considered. */
  function Unmerged(tracks: seq<Blob>, cs: seq<Blob>): (n: nat)
    requires AllSeeded(cs)
    ensures n <= |cs|
    decreases |cs|
  {
    if |cs| == 0 then 0
    else
      var c := cs[0];
      var fails := if 4 * NearestActive(tracks, LastCenter(c)).1 < c.diagonalSq then 0 else 1;
      match Assign(tracks, c)
      case Tracked(next) => fails + Unmerged(next, cs[1..])
      case IndexOutOfRange(_) => fails
  }

  /** The vector ends exactly as long as it started plus one track for each
      candidate that was not merged. */
  lemma {:induction false} AssignAllLength(tracks: seq<Blob>, cs: seq<Blob>)
    requires AllSeeded(cs) && AssignAll(tracks, cs).Tracked?
    ensures |AssignAll(tracks, cs).tracks| == |tracks| + Unmerged(tracks, cs)
    decreases |cs|
  {
    if |cs| > 0 {
      var next := Assign(tracks, cs[0]);
      AssignAllCons(tracks, cs, next);
      AssignAllLength(next.tracks, cs[1..]);
    }
  }

  /** The number of recorded centers over all tracks. */
  function TotalHistory(tracks: seq<Blob>): nat
    decreases |tracks|
  {
    if |tracks| == 0 then 0 else TotalHistory(tracks[..|tracks| - 1]) + |tracks[|tracks| - 1].centerPositions|
  }

  lemma {:induction false} TotalHistoryUpdate(tracks: seq<Blob>, i: nat, b: Blob)
    requires i < |tracks|
    ensures TotalHistory(tracks[i := b]) == TotalHistory(tracks) - |tracks[i].centerPositions| + |b.centerPositions|
    decreases |tracks|
  {
    var n := |tracks| - 1;
    var u := tracks[i := b];
    if i < n {
      assert u[..n] == tracks[..n][i := b];
      TotalHistoryUpdate(tracks[..n], i, b);
    } else {
      assert u[..n] == tracks[..n];
    }
  }

  lemma TotalHistoryAppend(tracks: seq<Blob>, b: Blob)
    ensures TotalHistory(tracks + [b]) == TotalHistory(tracks) + |b.centerPositions|
  {
    assert (tracks + [b])[..|tracks|] == tracks;
  }

  /** One candidate with one center adds one recorded center. */
  lemma AssignRecordsCandidate(tracks: seq<Blob>, c: Blob)
    requires Seeded(c) && |c.centerPositions| == 1 && Assign(tracks, c).Tracked?
    ensures TotalHistory(Assign(tracks, c).tracks) == TotalHistory(tracks) + 1
  {
    var (index, leastSq) := NearestActive(tracks, LastCenter(c));
    if 4 * leastSq < c.diagonalSq {
      TotalHistoryUpdate(tracks, index, Merge(tracks[index], c));
    } else {
      TotalHistoryAppend(tracks, AsNewTrack(c));
    }
  }

  /** No candidate is dropped: when every candidate carries one center, the
      tracks gain exactly one recorded center per candidate, merged or new. */
  lemma {:induction false} AssignAllRecordsEveryCandidate(tracks: seq<Blob>, cs: seq<Blob>)
    requires forall k :: 0 <= k < |cs| ==> |cs[k].centerPositions| == 1
    requires AllSeeded(cs) && AssignAll(tracks, cs).Tracked?
    ensures TotalHistory(AssignAll(tracks, cs).tracks) == TotalHistory(tracks) + |cs|
    decreases |cs|
  {
    if |cs| > 0 {
      var rest := cs[1..];
      assert forall k :: 0 <= k < |rest| ==> |rest[k].centerPositions| == 1 by {
        assert forall k :: 0 <= k < |rest| ==> rest[k] == cs[k + 1];
      }
      var next := Assign(tracks, cs[0]);
      AssignAllCons(tracks, cs, next);
      AssignRecordsCandidate(tracks, cs[0]);
      AssignAllRecordsEveryCandidate(next.tracks, rest);
    }
  }
}
