/** The tracked-object record (class Blob). */
module Blobs {
  import opened Geometry

  /** The fields of Blob that the tracker reads and writes. The two double
      fields are kept exactly: dblCurrentDiagonalSize by its square, so that
      no square root is needed, and dblCurrentAspectRatio as a real. */
  datatype Blob = Blob(
    currentContour: seq<Point>,
    currentBoundingRect: Rect,
    centerPositions: seq<Point>,
    predictedNextPosition: Point,
    diagonalSq: int,
    aspectRatio: real,
    stillBeingTracked: bool,
    matchFoundOrNewBlob: bool,
    framesWithoutAMatch: int)

  /** A blob has at least one center, so centerPositions.back() is defined. */
  predicate Seeded(b: Blob) {
    |b.centerPositions| > 0
  }

  /** centerPositions.back(). */
  function LastCenter(b: Blob): Point
    requires Seeded(b)
  {
    b.centerPositions[|b.centerPositions| - 1]
  }

  /** What the Blob(contour) constructor is designed to produce: the diagonal
      and aspect ratio derived from a box of positive size. */
  predicate DerivedFromBox(b: Blob) {
    var r := b.currentBoundingRect;
    && r.width > 0 && r.height > 0
    && b.diagonalSq == r.width * r.width + r.height * r.height
    && b.aspectRatio == r.width as real / r.height as real
  }
}
