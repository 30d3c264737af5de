/** The lifecycle bookkeeping at the end of matchCurrentFrameBlobsToExistingBlobs. */
module Lifecycle {
  import opened Geometry
  import opened Blobs
  import opened Assignment

  /** One track after the bookkeeping: the counter goes up by one when the flag
      IS set (the source's rule, inverted from its name), and a track whose
      counter has reached 5 stops being tracked. */
  function Age(b: Blob): (r: Blob)
    ensures r.framesWithoutAMatch == b.framesWithoutAMatch + (if b.matchFoundOrNewBlob then 1 else 0)
    ensures r.framesWithoutAMatch >= b.framesWithoutAMatch
    ensures r.stillBeingTracked <==> b.stillBeingTracked && r.framesWithoutAMatch < 5
    ensures r.(framesWithoutAMatch := b.framesWithoutAMatch, stillBeingTracked := b.stillBeingTracked) == b
  {
    var n := if b.matchFoundOrNewBlob then b.framesWithoutAMatch + 1 else b.framesWithoutAMatch;
    b.(framesWithoutAMatch := n, stillBeingTracked := if n >= 5 then false else b.stillBeingTracked)
  }

  function AgeAll(tracks: seq<Blob>): (r: seq<Blob>)
    ensures |r| == |tracks|
    ensures forall i :: 0 <= i < |r| ==> r[i] == Age(tracks[i])
  {
    seq(|tracks|, i requires 0 <= i < |tracks| => Age(tracks[i]))
  }

  /** The last loop of matchCurrentFrameBlobsToExistingBlobs. */
  method AgeTracks(existingBlobs: seq<Blob>) returns (tracks: seq<Blob>)
    ensures tracks == AgeAll(existingBlobs)
  {
    tracks := existingBlobs;
    var i := 0;
    while i < |tracks|
      invariant 0 <= i <= |tracks| == |existingBlobs|
      invariant forall k :: 0 <= k < i ==> tracks[k] == Age(existingBlobs[k])
      invariant forall k :: i <= k < |tracks| ==> tracks[k] == existingBlobs[k]
    {
      if tracks[i].matchFoundOrNewBlob {
        tracks := tracks[i := tracks[i].(framesWithoutAMatch := tracks[i].framesWithoutAMatch + 1)];
      }
      if tracks[i].framesWithoutAMatch >= 5 {
        tracks := tracks[i := tracks[i].(stillBeingTracked := false)];
      }
      i := i + 1;
    }
  }

  /** After the bookkeeping: each flagged track gained exactly one count and
      the others none, so counters never decrease; every track with a count
      of 5 or more is no longer tracked; and no track was brought back. */
  lemma AgeAllEffect(tracks: seq<Blob>)
    ensures |AgeAll(tracks)| == |tracks|
    ensures forall i :: 0 <= i < |tracks| ==>
      var u := AgeAll(tracks)[i];
      && u.framesWithoutAMatch == (if tracks[i].matchFoundOrNewBlob then tracks[i].framesWithoutAMatch + 1
                                   else tracks[i].framesWithoutAMatch)
      && (u.framesWithoutAMatch >= 5 ==> !u.stillBeingTracked)
      && (u.stillBeingTracked ==> tracks[i].stillBeingTracked)
      && u.centerPositions == tracks[i].centerPositions
      && u.matchFoundOrNewBlob == tracks[i].matchFoundOrNewBlob
  {
  }

  /** A track that wins a candidate in every one of the frames cs: reset and
      predict, merge the candidate, then the bookkeeping. */
  function MatchedEveryFrame(b: Blob, cs: seq<Blob>, predict: seq<Point> -> Point): Blob
    requires AllSeeded(cs)
    decreases |cs|
  {
    if |cs| == 0 then b
    else
      assert AllSeeded(cs[1..]) by {
        assert forall k :: 0 <= k < |cs[1..]| ==> cs[1..][k] == cs[k + 1];
      }
      MatchedEveryFrame(Age(Merge(ResetTrack(b, predict), cs[0])), cs[1..], predict)
  }

  /** Under the source's rule a track is retired by its matches: with a
      counter starting at 0, after n matched frames the counter is n, and
      the track is still tracked exactly when n < 5, so it flips on the
      fifth such frame, not the fourth or the sixth. */
  lemma {:induction false} RetiredByFifthMatch(b: Blob, cs: seq<Blob>, predict: seq<Point> -> Point)
    requires AllSeeded(cs)
    ensures MatchedEveryFrame(b, cs, predict).framesWithoutAMatch == b.framesWithoutAMatch + |cs|
    ensures |cs| > 0 ==>
      (MatchedEveryFrame(b, cs, predict).stillBeingTracked <==> b.framesWithoutAMatch + |cs| < 5)
    decreases |cs|
  {
    if |cs| > 0 {
      assert AllSeeded(cs[1..]) by {
        assert forall k :: 0 <= k < |cs[1..]| ==> cs[1..][k] == cs[k + 1];
      }
      var b1 := Age(Merge(ResetTrack(b, predict), cs[0]));
      RetiredByFifthMatch(b1, cs[1..], predict);
    }
  }
}
