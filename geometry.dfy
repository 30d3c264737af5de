/** Integer plane geometry used by the tracker: points, boxes, squared distances
    and the shoelace area of a contour. */
module Geometry {

  /** A pixel position (cv::Point). */
  datatype Point = Point(x: int, y: int)

  /** An axis-aligned box (cv::Rect): top-left corner, width and height. */
  datatype Rect = Rect(x: int, y: int, width: int, height: int)

  function Abs(n: int): (r: nat)
    ensures r == n || r == -n
  {
    if n < 0 then -n else n
  }

  /** cv::Rect::area(). */
  function Area(r: Rect): int {
    r.width * r.height
  }

  lemma SquareNonNegative(n: int)
    ensures n * n >= 0
  {
  }

  /** The square of what distanceBetweenPoints returns: dx^2 + dy^2 over the
      absolute coordinate differences, without the final square root. */
  function DistanceSq(p: Point, q: Point): (d: int)
    ensures d >= 0
    ensures d == 0 <==> p == q
  {
    var dx := Abs(p.x - q.x);
    var dy := Abs(p.y - q.y);
    SquareNonNegative(dx);
    SquareNonNegative(dy);
    assert dx > 0 ==> dx * dx > 0;
    assert dy > 0 ==> dy * dy > 0;
    dx * dx + dy * dy
  }

  /** Comparing squares decides the source's test on the distances themselves:
      for non-negative d and D, d < D * 0.5 exactly when 4 d^2 < D^2. */
  lemma HalfComparison(d: real, diag: real)
    requires d >= 0.0 && diag >= 0.0
    ensures d < diag * 0.5 <==> 4.0 * (d * d) < diag * diag
  {
    var e := 2.0 * d;
    assert diag * diag - e * e == (diag - e) * (diag + e);
    assert 4.0 * (d * d) == e * e;
    if e < diag {
      ProductPositive(diag - e, diag + e);
    } else {
      ProductNonNegative(e - diag, e + diag);
      assert (e - diag) * (e + diag) == -((diag - e) * (diag + e));
    }
  }

  lemma ProductPositive(a: real, b: real)
    requires a > 0.0 && b > 0.0
    ensures a * b > 0.0
  {
  }

  lemma ProductNonNegative(a: real, b: real)
    requires a >= 0.0 && b >= 0.0
    ensures a * b >= 0.0
  {
  }

  lemma DistanceSqSymmetric(p: Point, q: Point)
    ensures DistanceSq(p, q) == DistanceSq(q, p)
  {
  }

  /** The cross term prev.x * p.y - prev.y * p.x of one polygon edge. */
  function Cross(prev: Point, p: Point): int {
    prev.x * p.y - prev.y * p.x
  }

  /** Sum of the cross terms of the open chain c[0], c[1], ..., c[|c|-1]. */
  function ChainSum(c: seq<Point>): int
    decreases |c|
  {
    if |c| < 2 then 0 else Cross(c[0], c[1]) + ChainSum(c[1..])
  }

  /** Twice the unsigned area of a closed polygon by the shoelace formula; this
      is 2 * cv::contourArea(c) with the default non-oriented result. */
  function TwiceContourArea(c: seq<Point>): (a: nat)
  {
    if |c| == 0 then 0 else Abs(ChainSum(c) + Cross(c[|c| - 1], c[0]))
  }

  /** The four corners of a box, in order, as a contour. */
  function BoxContour(r: Rect): seq<Point> {
    [Point(r.x, r.y), Point(r.x + r.width, r.y),
     Point(r.x + r.width, r.y + r.height), Point(r.x, r.y + r.height)]
  }

  /** The shoelace area of a box outline is the box's own area. */
  lemma BoxContourArea(r: Rect)
    requires r.width >= 0 && r.height >= 0
    ensures TwiceContourArea(BoxContour(r)) == 2 * Area(r)
  {
    var c := BoxContour(r);
    var x, y, w, h := r.x, r.y, r.width, r.height;
    assert ChainSum(c[3..]) == 0;
    assert ChainSum(c[2..]) == Cross(c[2], c[3]);
    assert ChainSum(c[1..]) == Cross(c[1], c[2]) + Cross(c[2], c[3]);
    assert ChainSum(c) == Cross(c[0], c[1]) + Cross(c[1], c[2]) + Cross(c[2], c[3]);
    assert Cross(c[0], c[1]) == x * y - y * (x + w);
    assert Cross(c[1], c[2]) == (x + w) * (y + h) - y * (x + w);
    assert Cross(c[2], c[3]) == (x + w) * (y + h) - (y + h) * x;
    assert Cross(c[3], c[0]) == x * y - (y + h) * x;
    assert ChainSum(c) + Cross(c[3], c[0]) == 2 * (w * h);
    assert w * h >= 0;
  }
}
