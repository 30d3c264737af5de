/** The candidate admission filter of track2Frames: every convex hull becomes
    a Blob, which is kept only when all seven geometric thresholds hold. */
module Admission {
  import opened Geometry
  import opened Blobs

  /** The seven thresholds, on the blob's own fields. The diagonal test
      "diagonal > 256.0" is taken on the square; the solidity quotient is
      well defined because the area test comes first. */
  predicate Admissible(b: Blob) {
    var r := b.currentBoundingRect;
    && Area(r) > 32000
    && b.aspectRatio > 1.2
    && b.aspectRatio < 4.0
    && r.width > 128
    && r.height > 128
    && b.diagonalSq > 256 * 256
    && (TwiceContourArea(b.currentContour) as real / 2.0) / (Area(r) as real) > 0.5
  }

  /** The test on the square is the source's test on the root: for the
      non-negative diagonal with square diagonalSq, diagonal > 256.0 exactly
      when diagonalSq > 256 * 256. */
  lemma DiagonalTestOnRoots(diagonal: real, diagonalSq: int)
    requires diagonal >= 0.0 && diagonal * diagonal == diagonalSq as real
    ensures diagonal > 256.0 <==> diagonalSq > 256 * 256
  {
    assert (diagonal - 256.0) * (diagonal + 256.0) == diagonalSq as real - 65536.0;
    if diagonal > 256.0 {
      ProductPositive(diagonal - 256.0, diagonal + 256.0);
    } else {
      ProductNonNegative(256.0 - diagonal, diagonal + 256.0);
      assert (256.0 - diagonal) * (diagonal + 256.0) == 65536.0 - diagonalSq as real;
    }
  }

  lemma QuotientAbove(a: real, b: real, c: real)
    requires b > 0.0
    ensures a / b > c <==> a > c * b
  {
    assert (a / b) * b == a;
    if a / b > c {
      assert (a / b) * b > c * b;
    }
    if a > c * b {
      assert (a / b) * b > c * b;
    }
  }

  lemma QuotientBelow(a: real, b: real, c: real)
    requires b > 0.0
    ensures a / b < c <==> a < c * b
  {
    QuotientAbove(-a, b, -c);
    assert -a / b == -(a / b);
  }

  /** For a blob whose diagonal and aspect ratio come from its box, the
      filter is a pure integer test on the box and the contour. */
  lemma AdmissibleIffIntegerTest(b: Blob)
    requires DerivedFromBox(b)
    ensures Admissible(b) <==>
      var w, h := b.currentBoundingRect.width, b.currentBoundingRect.height;
      && w * h > 32000
      && 6 * h < 5 * w
      && w < 4 * h
      && w > 128 && h > 128
      && w * w + h * h > 65536
      && TwiceContourArea(b.currentContour) > w * h
  {
    var w, h := b.currentBoundingRect.width, b.currentBoundingRect.height;
    var area := Area(b.currentBoundingRect);
    QuotientAbove(w as real, h as real, 1.2);
    QuotientBelow(w as real, h as real, 4.0);
    assert w * h > 0 by {
      assert w > 0 && h > 0;
    }
    QuotientAbove(TwiceContourArea(b.currentContour) as real / 2.0, (w * h) as real, 0.5);
  }

  /** A box no larger than 32000 square pixels, such as 100 x 100, is never
      admitted, whatever its other attributes are. */
  lemma SmallBoxNeverAdmitted(b: Blob)
    requires Area(b.currentBoundingRect) <= 32000
    ensures !Admissible(b)
  {
  }

  /** A 300 x 200 box whose contour is the box itself passes every test. */
  lemma FullBoxAdmitted(b: Blob)
    requires b.currentBoundingRect.width == 300 && b.currentBoundingRect.height == 200
    requires DerivedFromBox(b) && b.currentContour == BoxContour(b.currentBoundingRect)
    ensures Admissible(b)
  {
    BoxContourArea(b.currentBoundingRect);
    AdmissibleIffIntegerTest(b);
  }

  /** Blob(convexHull) for every hull, in hull order. */
  function Candidates(hulls: seq<seq<Point>>, newBlob: seq<Point> -> Blob): (r: seq<Blob>)
    ensures |r| == |hulls|
    ensures forall i :: 0 <= i < |hulls| ==> r[i] == newBlob(hulls[i])
  {
    seq(|hulls|, i requires 0 <= i < |hulls| => newBlob(hulls[i]))
  }

  /** The admissible blobs of a sequence, in order. */
  function Admitted(blobs: seq<Blob>): seq<Blob>
    decreases |blobs|
  {
    if |blobs| == 0 then []
    else
      var last := blobs[|blobs| - 1];
      Admitted(blobs[..|blobs| - 1]) + (if Admissible(last) then [last] else [])
  }

  /** The positions of the admissible blobs, in increasing order. */
  ghost function AdmittedIndices(blobs: seq<Blob>): seq<nat>
    decreases |blobs|
  {
    if |blobs| == 0 then []
    else
      var i := |blobs| - 1;
      AdmittedIndices(blobs[..i]) + (if Admissible(blobs[i]) then [i] else [])
  }

  lemma AdmittedSnoc(blobs: seq<Blob>)
    requires |blobs| > 0
    ensures var n := |blobs| - 1;
      && Admitted(blobs) == Admitted(blobs[..n]) + (if Admissible(blobs[n]) then [blobs[n]] else [])
      && AdmittedIndices(blobs) == AdmittedIndices(blobs[..n]) + (if Admissible(blobs[n]) then [n] else [])
  {
  }

  /** The k-th admitted blob is the blob at the k-th admitted index. */
  lemma {:induction false} AdmittedAtIndices(blobs: seq<Blob>)
    ensures |AdmittedIndices(blobs)| == |Admitted(blobs)|
    ensures forall k :: 0 <= k < |AdmittedIndices(blobs)| ==>
      AdmittedIndices(blobs)[k] < |blobs| && Admitted(blobs)[k] == blobs[AdmittedIndices(blobs)[k]]
    decreases |blobs|
  {
    if |blobs| > 0 {
      var n := |blobs| - 1;
      var pre := blobs[..n];
      AdmittedAtIndices(pre);
      AdmittedSnoc(blobs);
      var idx, r := AdmittedIndices(blobs), Admitted(blobs);
      var pidx, pr := AdmittedIndices(pre), Admitted(pre);
      forall k | 0 <= k < |idx|
        ensures idx[k] < |blobs| && r[k] == blobs[idx[k]]
      {
        if k < |pidx| {
          assert idx[k] == pidx[k] && r[k] == pr[k];
          assert pre[pidx[k]] == blobs[pidx[k]];
        }
      }
    }
  }

  /** The admitted indices are below |blobs| and strictly increasing. */
  lemma {:induction false} AdmittedIndicesIncreasing(blobs: seq<Blob>)
    ensures forall k :: 0 <= k < |AdmittedIndices(blobs)| ==> AdmittedIndices(blobs)[k] < |blobs|
    ensures forall k, l :: 0 <= k < l < |AdmittedIndices(blobs)| ==>
      AdmittedIndices(blobs)[k] < AdmittedIndices(blobs)[l]
    decreases |blobs|
  {
    if |blobs| > 0 {
      var n := |blobs| - 1;
      AdmittedIndicesIncreasing(blobs[..n]);
      AdmittedSnoc(blobs);
      var idx, pidx := AdmittedIndices(blobs), AdmittedIndices(blobs[..n]);
      assert forall k :: 0 <= k < |pidx| ==> idx[k] == pidx[k];
    }
  }

  /** A position is admitted exactly when its blob is admissible. */
  lemma {:induction false} AdmittedIndicesExactly(blobs: seq<Blob>)
    ensures forall i :: 0 <= i < |blobs| ==> (i in AdmittedIndices(blobs) <==> Admissible(blobs[i]))
    decreases |blobs|
  {
    if |blobs| > 0 {
      var n := |blobs| - 1;
      var pre := blobs[..n];
      AdmittedIndicesExactly(pre);
      AdmittedIndicesIncreasing(pre);
      AdmittedSnoc(blobs);
      var idx := AdmittedIndices(blobs);
      forall i | 0 <= i < |blobs|
        ensures i in idx <==> Admissible(blobs[i])
      {
        if i < n {
          assert pre[i] == blobs[i];
          assert n !in AdmittedIndices(pre);
        }
      }
    }
  }

  /** Admitted keeps exactly the admissible blobs and keeps them in their
      original order: it is the subsequence of blobs at AdmittedIndices. */
  lemma AdmittedIsOrderedSelection(blobs: seq<Blob>)
    ensures |AdmittedIndices(blobs)| == |Admitted(blobs)|
    ensures forall k :: 0 <= k < |AdmittedIndices(blobs)| ==>
      AdmittedIndices(blobs)[k] < |blobs| && Admitted(blobs)[k] == blobs[AdmittedIndices(blobs)[k]]
    ensures forall k, l :: 0 <= k < l < |AdmittedIndices(blobs)| ==>
      AdmittedIndices(blobs)[k] < AdmittedIndices(blobs)[l]
    ensures forall i :: 0 <= i < |blobs| ==> (i in AdmittedIndices(blobs) <==> Admissible(blobs[i]))
  {
    AdmittedAtIndices(blobs);
    AdmittedIndicesIncreasing(blobs);
    AdmittedIndicesExactly(blobs);
  }

  /** Every blob that the filter keeps passes all seven thresholds. */
  lemma AdmittedAreAdmissible(blobs: seq<Blob>)
    ensures forall b :: b in Admitted(blobs) ==> Admissible(b)
    ensures |Admitted(blobs)| <= |blobs|
  {
    AdmittedIsOrderedSelection(blobs);
    forall b | b in Admitted(blobs)
      ensures Admissible(b)
    {
      var k :| 0 <= k < |Admitted(blobs)| && Admitted(blobs)[k] == b;
      var i := AdmittedIndices(blobs)[k];
      assert i in AdmittedIndices(blobs);
    }
    IndicesBound(AdmittedIndices(blobs), |blobs|);
  }

  /** A strictly increasing sequence of indices below n has at most n elements. */
  lemma {:induction false} IndicesBound(idx: seq<nat>, n: nat)
    requires forall k :: 0 <= k < |idx| ==> idx[k] < n
    requires forall k, l :: 0 <= k < l < |idx| ==> idx[k] < idx[l]
    ensures |idx| <= n
    decreases n
  {
    if |idx| > 0 {
      var m := idx[|idx| - 1];
      var pre := idx[..|idx| - 1];
      assert forall k :: 0 <= k < |pre| ==> pre[k] < m;
      IndicesBound(pre, m);
    }
  }

  /** The admission loop of track2Frames: build Blob(convexHull) for each
      hull in turn and push it back when it is admissible. */
  method AdmitCandidates(hulls: seq<seq<Point>>, newBlob: seq<Point> -> Blob)
    returns (curFrameBlobs: seq<Blob>)
    ensures curFrameBlobs == Admitted(Candidates(hulls, newBlob))
  {
    curFrameBlobs := [];
    var i := 0;
    while i < |hulls|
      invariant 0 <= i <= |hulls|
      invariant curFrameBlobs == Admitted(Candidates(hulls[..i], newBlob))
    {
      var possibleBlob := newBlob(hulls[i]);
      assert Candidates(hulls[..i + 1], newBlob)[..i] == Candidates(hulls[..i], newBlob);
      if Admissible(possibleBlob) {
        curFrameBlobs := curFrameBlobs + [possibleBlob];
      }
      i := i + 1;
    }
    assert hulls[..i] == hulls;
  }
}
