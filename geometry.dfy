/** Integer geometry of one detected text region: the padded, clamped
    bounding box of its quadrilateral, Python's slice normalisation used
    to cut the region of interest out of the image, and the font size. */
module Geometry {

  /** A point in pixel coordinates: `x` is the column, `y` the row. */
  datatype Point = Point(x: int, y: int)

  /** The detector reports a region as four corner points. */
  type Quad = q: seq<Point> | |q| == 4
    witness [Point(0, 0), Point(0, 0), Point(0, 0), Point(0, 0)]

  /** Padding added on every side of the envelope of a quadrilateral. */
  const Pad: int := 2

  /** The smallest font size ever requested for the translated text. */
  const MinFontSize: int := 14

  /** The corners of the box as the source computes them. Only the two
      lower corners are clamped from below and only the two upper ones
      from above, so `xMax < xMin` is possible. */
  datatype Box = Box(xMin: int, yMin: int, xMax: int, yMax: int)

  /** A half-open range `[lo, hi)` of indices into a dimension of length `n`. */
  datatype Span = Span(lo: int, hi: int) {
    predicate IsEmpty() { hi <= lo }
    predicate Has(i: int) { lo <= i < hi }
  }

  function MinX(q: seq<Point>): (r: int)
    requires |q| > 0
    ensures forall i :: 0 <= i < |q| ==> r <= q[i].x
    ensures exists i :: 0 <= i < |q| && r == q[i].x
  {
    if |q| == 1 then q[0].x
    else
      var m := MinX(q[1..]);
      if q[0].x <= m then q[0].x else m
  }

  function MaxX(q: seq<Point>): (r: int)
    requires |q| > 0
    ensures forall i :: 0 <= i < |q| ==> q[i].x <= r
    ensures exists i :: 0 <= i < |q| && r == q[i].x
  {
    if |q| == 1 then q[0].x
    else
      var m := MaxX(q[1..]);
      if q[0].x >= m then q[0].x else m
  }

  function MinY(q: seq<Point>): (r: int)
    requires |q| > 0
    ensures forall i :: 0 <= i < |q| ==> r <= q[i].y
    ensures exists i :: 0 <= i < |q| && r == q[i].y
  {
    if |q| == 1 then q[0].y
    else
      var m := MinY(q[1..]);
      if q[0].y <= m then q[0].y else m
  }

  function MaxY(q: seq<Point>): (r: int)
    requires |q| > 0
    ensures forall i :: 0 <= i < |q| ==> q[i].y <= r
    ensures exists i :: 0 <= i < |q| && r == q[i].y
  {
    if |q| == 1 then q[0].y
    else
      var m := MaxY(q[1..]);
      if q[0].y >= m then q[0].y else m
  }

  function Max(a: int, b: int): (r: int) { if a >= b then a else b }
  function Min(a: int, b: int): (r: int) { if a <= b then a else b }

  /** The envelope of the quadrilateral padded by `Pad`, with the lower
      corner clamped at 0 and the upper corner clamped at the image size
      `width` x `height` (no clamp from the other side). */
  function BoxOf(q: Quad, width: int, height: int): (b: Box)
    ensures 0 <= b.xMin && 0 <= b.yMin && b.xMax <= width && b.yMax <= height
  {
    Box(Max(0, MinX(q) - Pad), Max(0, MinY(q) - Pad),
        Min(width, MaxX(q) + Pad), Min(height, MaxY(q) + Pad))
  }

  /** Each corner of the box is a padded extreme of the four points, clamped
      on one side only: the lower corner is the largest of 0 and the
      smallest padded coordinate, the upper corner the smallest of the image
      size and the largest padded coordinate. */
  lemma BoxIsClampedEnvelope(q: Quad, width: int, height: int)
    ensures var b := BoxOf(q, width, height);
      (forall i :: 0 <= i < 4 ==> b.xMin <= Max(0, q[i].x - Pad) && b.yMin <= Max(0, q[i].y - Pad)) &&
      (exists i :: 0 <= i < 4 && b.xMin == Max(0, q[i].x - Pad)) &&
      (exists i :: 0 <= i < 4 && b.yMin == Max(0, q[i].y - Pad)) &&
      (forall i :: 0 <= i < 4 ==> Min(width, q[i].x + Pad) <= b.xMax && Min(height, q[i].y + Pad) <= b.yMax) &&
      (exists i :: 0 <= i < 4 && b.xMax == Min(width, q[i].x + Pad)) &&
      (exists i :: 0 <= i < 4 && b.yMax == Min(height, q[i].y + Pad))
  {
    var b := BoxOf(q, width, height);
    var i0 :| 0 <= i0 < 4 && MinX(q) == q[i0].x;
    assert b.xMin == Max(0, q[i0].x - Pad);
    var i1 :| 0 <= i1 < 4 && MinY(q) == q[i1].y;
    assert b.yMin == Max(0, q[i1].y - Pad);
    var i2 :| 0 <= i2 < 4 && MaxX(q) == q[i2].x;
    assert b.xMax == Min(width, q[i2].x + Pad);
    var i3 :| 0 <= i3 < 4 && MaxY(q) == q[i3].y;
    assert b.yMax == Min(height, q[i3].y + Pad);
  }

  /** The upper corner has no clamp from below: a quadrilateral entirely
      more than `Pad` pixels left of the image gets a negative `xMax`, and
      one entirely above it a negative `yMax`. */
  lemma LeftOfImageNegativeXMax(q: Quad, width: int, height: int)
    requires forall i :: 0 <= i < 4 ==> q[i].x < -Pad
    ensures BoxOf(q, width, height).xMax < 0
  {
    var i :| 0 <= i < 4 && MaxX(q) == q[i].x;
  }

  lemma AboveImageNegativeYMax(q: Quad, width: int, height: int)
    requires forall i :: 0 <= i < 4 ==> q[i].y < -Pad
    ensures BoxOf(q, width, height).yMax < 0
  {
    var i :| 0 <= i < 4 && MaxY(q) == q[i].y;
  }

  /** The indices that Python's `s[start:stop]` selects from a dimension of
      length `n` (step 1): a negative bound counts from the end, and the
      result is empty when the normalised stop is not past the start. */
  function PySlice(start: int, stop: int, n: nat): (s: Span)
    ensures 0 <= s.lo <= s.hi <= n
    // bounds inside the dimension are taken as they are
    ensures 0 <= start <= stop <= n ==> s == Span(start, stop)
    // a start at or beyond the end selects nothing
    ensures start >= n ==> s.IsEmpty()
    // a negative stop counts back from the end of the dimension
    ensures 0 <= stop + n && stop < 0 && 0 <= start ==>
      s == Span(Min(start, n), Max(Min(start, n), n + stop))
    // a stop more than the length before the end selects nothing
    ensures stop + n < 0 ==> s.IsEmpty()
  {
    var lo := if start < 0 then Max(0, start + n) else Min(start, n);
    var hi := if stop < 0 then Max(0, stop + n) else Min(stop, n);
    Span(lo, Max(lo, hi))
  }

  /** The part of a `width` x `height` image that `img[yMin:yMax, xMin:xMax]`
      selects: the rows and the columns of the region of interest. */
  datatype Roi = Roi(rows: Span, cols: Span) {
    predicate IsEmpty() { rows.IsEmpty() || cols.IsEmpty() }
  }

  function RoiOf(b: Box, width: nat, height: nat): (r: Roi)
    ensures 0 <= r.rows.lo <= r.rows.hi <= height
    ensures 0 <= r.cols.lo <= r.cols.hi <= width
    ensures 0 <= b.yMin <= b.yMax && 0 <= b.xMin <= b.xMax && b.xMax <= width && b.yMax <= height ==>
      r == Roi(Span(b.yMin, b.yMax), Span(b.xMin, b.xMax))
  {
    Roi(PySlice(b.yMin, b.yMax, height), PySlice(b.xMin, b.xMax, width))
  }

  /** Whether the filled rectangle drawn between the corners of `b` covers
      pixel `(x, y)`: both corners are included, in whichever order they come. */
  predicate Covers(b: Box, x: int, y: int) {
    Min(b.xMin, b.xMax) <= x <= Max(b.xMin, b.xMax) &&
    Min(b.yMin, b.yMax) <= y <= Max(b.yMin, b.yMax)
  }

  /** Python's `int(f)` of the double nearest `0.8 * h`: the product truncated
      toward zero. */
  function TruncFourFifths(h: int): (r: int) {
    if h >= 0 then (4 * h) / 5 else -((-4 * h) / 5)
  }

  /** The point size for a box of height `h`: 80% of the height truncated,
      and never below `MinFontSize`. */
  function FontSize(h: int): (r: int)
    ensures r >= MinFontSize
    // below 17.5 pixels of height the minimum applies
    ensures 4 * h < 5 * MinFontSize ==> r == MinFontSize
    // otherwise r is the integer part of 4h/5
    ensures 4 * h >= 5 * MinFontSize ==> 5 * r <= 4 * h < 5 * r + 5
  {
    Max(MinFontSize, TruncFourFifths(h))
  }

  /** The padded envelope is exact when the quadrilateral keeps `Pad` pixels
      away from every edge, and then the region of interest is exactly the
      box with its upper corner excluded. */
  lemma BoxInsideImage(q: Quad, width: nat, height: nat)
    requires forall i :: 0 <= i < 4 ==> Pad <= q[i].x && q[i].x + Pad <= width && Pad <= q[i].y && q[i].y + Pad <= height
    ensures var b := BoxOf(q, width, height);
      b == Box(MinX(q) - Pad, MinY(q) - Pad, MaxX(q) + Pad, MaxY(q) + Pad) &&
      b.xMin <= b.xMax && b.yMin <= b.yMax &&
      RoiOf(b, width, height) == Roi(Span(b.yMin, b.yMax), Span(b.xMin, b.xMax))
  {
  }

  /** The envelope of an axis-aligned rectangle listed clockwise from its
      top-left corner is that rectangle. */
  lemma EnvelopeOfRectangle(left: int, top: int, right: int, bottom: int)
    requires left <= right && top <= bottom
    ensures var q := [Point(left, top), Point(right, top), Point(right, bottom), Point(left, bottom)];
      MinX(q) == left && MaxX(q) == right && MinY(q) == top && MaxY(q) == bottom
  {
    var q := [Point(left, top), Point(right, top), Point(right, bottom), Point(left, bottom)];
    assert q[1..][1..][1..] == [Point(left, bottom)];
  }

  /** A quadrilateral entirely left of the image (every x below `-Pad`)
      gives a negative `xMax`, which Python's slicing counts from the right
      edge: the region of interest is then not empty, but columns
      `0 .. width + xMax - 1`, while the rectangle only covers column 0. */
  lemma LeftOfImageWraps()
    ensures var q: Quad := [Point(-20, 5), Point(-10, 5), Point(-10, 9), Point(-20, 9)];
      var b := BoxOf(q, 100, 50);
      b == Box(0, 3, -8, 11) &&
      RoiOf(b, 100, 50) == Roi(Span(3, 11), Span(0, 92)) &&
      Covers(b, 0, 5) && !Covers(b, 1, 5)
  {
    EnvelopeOfRectangle(-20, 5, -10, 9);
  }

  /** A quadrilateral more than the image's width left of it gives an
      `xMax` below `-width`, which Python's slicing clamps to 0: the
      region of interest is empty and nothing is filled. */
  lemma FarLeftOfImageIsEmpty()
    ensures var q: Quad := [Point(-300, 5), Point(-200, 5), Point(-200, 9), Point(-300, 9)];
      var b := BoxOf(q, 100, 50);
      b == Box(0, 3, -198, 11) && RoiOf(b, 100, 50).IsEmpty()
  {
    EnvelopeOfRectangle(-300, 5, -200, 9);
  }

  /** The worked example of a 100 x 50 image with a region from (10, 10)
      to (60, 30): the box is (8, 8)-(62, 32), and the region of interest
      rows 8..31 and columns 8..61. */
  lemma HelloBox()
    ensures var q: Quad := [Point(10, 10), Point(60, 10), Point(60, 30), Point(10, 30)];
      var b := BoxOf(q, 100, 50);
      b == Box(8, 8, 62, 32) && RoiOf(b, 100, 50) == Roi(Span(8, 32), Span(8, 62))
  {
    EnvelopeOfRectangle(10, 10, 60, 30);
  }
}
