/** The 3-channel, 8-bit pixel buffer the pipeline works on: the
    per-channel mean of a region of interest (numpy's `mean` over the
    first two axes, truncated to an integer) and the filled rectangle that
    paints it over the region (OpenCV's `rectangle` with negative
    thickness). */
module Raster {
  import opened Geometry

  type Byte = v: int | 0 <= v < 256

  /** One pixel, its channels in the order the buffer stores them
      (blue, green, red for the decoded image). */
  datatype Pixel = Pixel(c0: Byte, c1: Byte, c2: Byte)

  type Channel = k: int | 0 <= k < 3

  function Chan(p: Pixel, k: Channel): (v: Byte) {
    if k == 0 then p.c0 else if k == 1 then p.c1 else p.c2
  }

  /** An image as a value: `height` rows of `width` pixels each. */
  type Image = seq<seq<Pixel>>

  predicate IsGrid(img: Image, width: nat, height: nat) {
    |img| == height && forall y :: 0 <= y < height ==> |img[y]| == width
  }

  predicate Within(roi: Roi, width: nat, height: nat) {
    0 <= roi.rows.lo <= roi.rows.hi <= height && 0 <= roi.cols.lo <= roi.cols.hi <= width
  }

  predicate InRoi(roi: Roi, x: int, y: int) {
    roi.rows.Has(y) && roi.cols.Has(x)
  }

  /** Number of pixels in a region of interest. */
  function Count(roi: Roi): (n: int) {
    (roi.rows.hi - roi.rows.lo) * (roi.cols.hi - roi.cols.lo)
  }

  lemma CountPositive(roi: Roi)
    requires !roi.IsEmpty()
    ensures Count(roi) > 0
  {
    MultiplyMonotone(roi.rows.hi - roi.rows.lo, 1, roi.cols.hi - roi.cols.lo);
  }

  lemma Distribute(p: int, q: int, a: int)
    ensures (p + q) * a == p * a + q * a
  {
  }

  lemma MultiplyMonotone(n: int, p: int, q: int)
    requires n >= 0 && p <= q
    ensures n * p <= n * q
  {
    assert n * q - n * p == n * (q - p);
  }

  /** Integer division by a positive count keeps the bounds of the dividend. */
  lemma DivBounds(s: int, n: int, a: int, b: int)
    requires n > 0 && n * a <= s <= n * b
    ensures a <= s / n <= b
  {
    var m := s / n;
    assert n * m <= s < n * m + n;
    if m < a {
      MultiplyMonotone(n, m + 1, a);
    }
    if m > b {
      MultiplyMonotone(n, b + 1, m);
    }
  }

  /** Sum of channel `k` over `row[lo..hi]`. */
  function RowSum(row: seq<Pixel>, k: Channel, lo: int, hi: int): (s: int)
    requires 0 <= lo <= hi <= |row|
    decreases hi - lo
  {
    if hi == lo then 0 else RowSum(row, k, lo, hi - 1) + Chan(row[hi - 1], k)
  }

  /** Sum of channel `k` over every pixel of the region of interest. */
  function RoiSum(img: Image, width: nat, height: nat, k: Channel, roi: Roi): (s: int)
    requires IsGrid(img, width, height) && Within(roi, width, height)
    decreases roi.rows.hi - roi.rows.lo
  {
    if roi.rows.IsEmpty() then 0
    else
      RoiSum(img, width, height, k, Roi(Span(roi.rows.lo, roi.rows.hi - 1), roi.cols))
      + RowSum(img[roi.rows.hi - 1], k, roi.cols.lo, roi.cols.hi)
  }

  lemma {:induction false} RowSumBounds(row: seq<Pixel>, k: Channel, lo: int, hi: int, a: int, b: int)
    requires 0 <= lo <= hi <= |row|
    requires forall x :: lo <= x < hi ==> a <= Chan(row[x], k) <= b
    ensures (hi - lo) * a <= RowSum(row, k, lo, hi) <= (hi - lo) * b
  {
    if hi > lo {
      RowSumBounds(row, k, lo, hi - 1, a, b);
      assert (hi - lo) * a == (hi - 1 - lo) * a + a;
      assert (hi - lo) * b == (hi - 1 - lo) * b + b;
    }
  }

  /** If every pixel of the region has channel `k` in `a..b`, the channel's
      sum lies between `a` and `b` times the pixel count. */
  lemma {:induction false} RoiSumBounds(img: Image, width: nat, height: nat, k: Channel, roi: Roi, a: int, b: int)
    requires IsGrid(img, width, height) && Within(roi, width, height)
    requires forall y, x :: InRoi(roi, x, y) ==> a <= Chan(img[y][x], k) <= b
    ensures Count(roi) * a <= RoiSum(img, width, height, k, roi) <= Count(roi) * b
    decreases roi.rows.hi - roi.rows.lo
  {
    if !roi.rows.IsEmpty() {
      var top := Roi(Span(roi.rows.lo, roi.rows.hi - 1), roi.cols);
      var y := roi.rows.hi - 1;
      var n := roi.cols.hi - roi.cols.lo;
      RoiSumBounds(img, width, height, k, top, a, b);
      RowSumBounds(img[y], k, roi.cols.lo, roi.cols.hi, a, b);
      var rows := roi.rows.hi - roi.rows.lo;
      assert Count(top) == (rows - 1) * n && Count(roi) == rows * n;
      Distribute(rows - 1, 1, n);
      assert Count(roi) == Count(top) + n;
      Distribute(Count(top), n, a);
      Distribute(Count(top), n, b);
    }
  }

  /** The truncated mean of channel `k` over a non-empty region: the `m`
      with `m * count <= sum < (m + 1) * count`, always a byte. */
  function MeanChannel(img: Image, width: nat, height: nat, roi: Roi, k: Channel): (m: Byte)
    requires IsGrid(img, width, height) && Within(roi, width, height) && !roi.IsEmpty()
    ensures Count(roi) * m <= RoiSum(img, width, height, k, roi) < Count(roi) * (m + 1)
  {
    RoiSumBounds(img, width, height, k, roi, 0, 255);
    CountPositive(roi);
    DivBounds(RoiSum(img, width, height, k, roi), Count(roi), 0, 255);
    RoiSum(img, width, height, k, roi) / Count(roi)
  }

  /** `np.mean(roi, axis=(0, 1)).astype(int)`: the fill colour. */
  function MeanColor(img: Image, width: nat, height: nat, roi: Roi): (c: Pixel)
    requires IsGrid(img, width, height) && Within(roi, width, height) && !roi.IsEmpty()
    ensures forall k: Channel :: Chan(c, k) == MeanChannel(img, width, height, roi, k)
  {
    Pixel(MeanChannel(img, width, height, roi, 0),
          MeanChannel(img, width, height, roi, 1),
          MeanChannel(img, width, height, roi, 2))
  }

  /** Each channel of the fill colour lies between that channel's smallest
      and largest value in the region (any bounds `a..b` on it will do). */
  lemma MeanWithinRoiRange(img: Image, width: nat, height: nat, roi: Roi, k: Channel, a: int, b: int)
    requires IsGrid(img, width, height) && Within(roi, width, height) && !roi.IsEmpty()
    requires forall y, x :: InRoi(roi, x, y) ==> a <= Chan(img[y][x], k) <= b
    ensures a <= Chan(MeanColor(img, width, height, roi), k) <= b
  {
    RoiSumBounds(img, width, height, k, roi, a, b);
    CountPositive(roi);
    DivBounds(RoiSum(img, width, height, k, roi), Count(roi), a, b);
  }

  /** A region painted in one colour has that colour as its mean, so
      sampling an already filled region gives back its fill. */
  lemma MeanOfUniform(img: Image, width: nat, height: nat, roi: Roi, c: Pixel)
    requires IsGrid(img, width, height) && Within(roi, width, height) && !roi.IsEmpty()
    requires forall y, x :: InRoi(roi, x, y) ==> img[y][x] == c
    ensures MeanColor(img, width, height, roi) == c
  {
    var m := MeanColor(img, width, height, roi);
    forall k: Channel ensures Chan(m, k) == Chan(c, k) {
      MeanWithinRoiRange(img, width, height, roi, k, Chan(c, k), Chan(c, k));
    }
    assert Chan(m, 0) == Chan(c, 0) && Chan(m, 1) == Chan(c, 1) && Chan(m, 2) == Chan(c, 2);
  }

  /** The image after a filled rectangle between the corners of `b`, in
      colour `c`, clipped to the image. */
  function Paint(img: Image, width: nat, height: nat, b: Box, c: Pixel): (r: Image)
    requires IsGrid(img, width, height)
    ensures IsGrid(r, width, height)
    ensures forall y, x :: 0 <= y < height && 0 <= x < width ==>
      r[y][x] == if Covers(b, x, y) then c else img[y][x]
  {
    seq(height, y requires 0 <= y < height =>
      seq(width, x requires 0 <= x < width => if Covers(b, x, y) then c else img[y][x]))
  }

  /** The contents of a buffer of `Length0` rows and `Length1` columns. */
  function Grid(a: array2<Pixel>): (g: Image)
    reads a
    ensures IsGrid(g, a.Length1, a.Length0)
    ensures forall y, x :: 0 <= y < a.Length0 && 0 <= x < a.Length1 ==> g[y][x] == a[y, x]
  {
    seq(a.Length0, y requires 0 <= y < a.Length0 reads a =>
      seq(a.Length1, x requires 0 <= x < a.Length1 reads a => a[y, x]))
  }

  /** Two grids of the same size are equal when they agree on every pixel. */
  lemma GridsEqual(g: Image, h: Image, width: nat, height: nat)
    requires IsGrid(g, width, height) && IsGrid(h, width, height)
    requires forall y, x :: 0 <= y < height && 0 <= x < width ==> g[y][x] == h[y][x]
    ensures g == h
  {
    forall y | 0 <= y < height ensures g[y] == h[y] {
      assert forall x :: 0 <= x < width ==> g[y][x] == h[y][x];
    }
  }

  /** `cv2.rectangle(a, (xMin, yMin), (xMax, yMax), c, -1)`: every pixel of
      the buffer that the rectangle covers, corners included, becomes `c`;
      every other pixel keeps its value. */
  method FillRectangle(a: array2<Pixel>, b: Box, c: Pixel)
    modifies a
    ensures forall y, x :: 0 <= y < a.Length0 && 0 <= x < a.Length1 ==>
      a[y, x] == if Covers(b, x, y) then c else old(a[y, x])
    ensures Grid(a) == Paint(old(Grid(a)), a.Length1, a.Length0, b, c)
  {
    ghost var before := Grid(a);
    forall y, x | 0 <= y < a.Length0 && 0 <= x < a.Length1 && Covers(b, x, y) {
      a[y, x] := c;
    }
    GridsEqual(Grid(a), Paint(before, a.Length1, a.Length0, b, c), a.Length1, a.Length0);
  }

  /** The same pixels with the first and last channel exchanged
      (`cv2.cvtColor` between BGR and RGB order). */
  function SwapRedBlue(img: Image): (r: Image)
    ensures |r| == |img|
    ensures forall y :: 0 <= y < |img| ==> |r[y]| == |img[y]|
    ensures forall y, x :: 0 <= y < |img| && 0 <= x < |img[y]| ==>
      r[y][x] == Pixel(img[y][x].c2, img[y][x].c1, img[y][x].c0)
  {
    seq(|img|, y requires 0 <= y < |img| =>
      seq(|img[y]|, x requires 0 <= x < |img[y]| => Pixel(img[y][x].c2, img[y][x].c1, img[y][x].c0)))
  }
}
