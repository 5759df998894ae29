/** The per-region loop of `translate_image`: filter the detections by
    confidence, erase each surviving region with a flat fill of its mean
    colour, translate its text and draw the translation at the box's
    top-left corner. */
module Pipeline {
  import opened Geometry
  import opened Raster
  import opened Translation

  /** One detector result: the region's corners, its recognised text and
      the detector's confidence. */
  datatype Detection = Detection(quad: Quad, text: string, prob: real)

  /** Detections less confident than this are skipped. */
  const Threshold: real := 0.3

  /** The loop skips a detection whose confidence is below the threshold,
      so it keeps exactly those at or above it. */
  predicate Keep(d: Detection)
    ensures Keep(d) <==> Threshold <= d.prob
  {
    !(d.prob < Threshold)
  }

  /** The detections the loop acts on, in the detector's order. */
  ghost function Survivors(rs: seq<Detection>): (r: seq<Detection>)
    ensures |r| <= |rs|
    ensures forall d :: d in r <==> d in rs && Keep(d)
  {
    if rs == [] then []
    else Survivors(rs[..|rs| - 1]) + (if Keep(rs[|rs| - 1]) then [rs[|rs| - 1]] else [])
  }

  /** Filtering a concatenation filters each part and keeps them in order:
      survivors are handled in the order the detector listed them. */
  lemma {:induction false} SurvivorsPreserveOrder(a: seq<Detection>, b: seq<Detection>)
    ensures Survivors(a + b) == Survivors(a) + Survivors(b)
    decreases |b|
  {
    if b != [] {
      var b' := b[..|b| - 1];
      assert (a + b)[..|a + b| - 1] == a + b';
      SurvivorsPreserveOrder(a, b');
    }
    else {
      assert a + b == a;
    }
  }

  /** The font `draw.text` uses: the scalable font at a size, or the
      built-in bitmap font when the scalable one cannot be used. */
  datatype Font = TrueType(size: int) | DefaultFont

  /** One call of `draw.text`: anchor, text and font (the ink is always black). */
  datatype TextDraw = TextDraw(anchor: Point, text: string, font: Font)

  /** The image after the erase step of one detection: nothing for a
      skipped detection or an empty region of interest; otherwise the
      rectangle between the box's corners filled with the mean colour of the
      region of interest, sampled from `img` as it is at this point. */
  function EraseRegion(img: Image, width: nat, height: nat, d: Detection): (r: Image)
    requires IsGrid(img, width, height)
    ensures IsGrid(r, width, height)
    // only a kept detection with a non-empty region of interest changes
    // anything, and then only pixels its rectangle covers
    ensures (!Keep(d) || RoiOf(BoxOf(d.quad, width, height), width, height).IsEmpty()) ==> r == img
    ensures forall y, x :: 0 <= y < height && 0 <= x < width && !Covers(BoxOf(d.quad, width, height), x, y) ==>
      r[y][x] == img[y][x]
  {
    if !Keep(d) then img
    else
      var b := BoxOf(d.quad, width, height);
      var roi := RoiOf(b, width, height);
      if roi.IsEmpty() then img
      else Paint(img, width, height, b, MeanColor(img, width, height, roi))
  }

  /** A kept detection with a non-empty region of interest paints every
      pixel its rectangle covers with the mean colour of that region, as
      the buffer holds it before the fill. */
  lemma EraseRegionFills(img: Image, width: nat, height: nat, d: Detection)
    requires IsGrid(img, width, height)
    requires Keep(d) && !RoiOf(BoxOf(d.quad, width, height), width, height).IsEmpty()
    ensures var b := BoxOf(d.quad, width, height);
      var c := MeanColor(img, width, height, RoiOf(b, width, height));
      forall y, x :: 0 <= y < height && 0 <= x < width && Covers(b, x, y) ==>
        EraseRegion(img, width, height, d)[y][x] == c
  {
  }

  /** No surviving detection in `rs` has a rectangle covering `(x, y)`. */
  ghost predicate Untouched(rs: seq<Detection>, width: nat, height: nat, x: int, y: int) {
    forall i :: 0 <= i < |rs| && Keep(rs[i]) ==> !Covers(BoxOf(rs[i].quad, width, height), x, y)
  }

  /** The buffer after the loop has erased the detections `rs` in order. */
  ghost function Erased(img: Image, width: nat, height: nat, rs: seq<Detection>): (r: Image)
    requires IsGrid(img, width, height)
    ensures IsGrid(r, width, height)
    // a pixel that no surviving detection's rectangle covers keeps its value
    ensures forall y, x :: 0 <= y < height && 0 <= x < width && Untouched(rs, width, height, x, y) ==>
      r[y][x] == img[y][x]
  {
    if rs == [] then img
    else EraseRegion(Erased(img, width, height, rs[..|rs| - 1]), width, height, rs[|rs| - 1])
  }

  /** The draw call for a surviving detection; it depends on the box and the
      reply only, never on the pixels. */
  function DrawFor(d: Detection, reply: Reply, width: nat, height: nat, fontAvailable: bool): (t: TextDraw)
    // anchored at the top-left corner of the box, which lies at or right of
    // and below the image's origin
    ensures t.anchor == Point(BoxOf(d.quad, width, height).xMin, BoxOf(d.quad, width, height).yMin)
    ensures 0 <= t.anchor.x && 0 <= t.anchor.y
    // the service's translation when it delivered one, the original text otherwise
    ensures Delivered(reply) ==> t.text == reply.body.fields[TranslatedKey]
    ensures !Delivered(reply) ==> t.text == d.text
    // the scalable font at a size of at least 14, or the built-in one
    ensures fontAvailable ==> t.font.TrueType? && t.font.size >= MinFontSize
    ensures fontAvailable ==> t.font.size == FontSize(BoxOf(d.quad, width, height).yMax - BoxOf(d.quad, width, height).yMin)
    ensures !fontAvailable ==> t.font == DefaultFont
  {
    var b := BoxOf(d.quad, width, height);
    TextDraw(Point(b.xMin, b.yMin), TranslateText(d.text, reply),
             if fontAvailable then TrueType(FontSize(b.yMax - b.yMin)) else DefaultFont)
  }

  /** The draw calls the loop makes for the detections `rs`, whose
      translation requests came back as `replies`: one per surviving
      detection. */
  ghost function Drawn(rs: seq<Detection>, replies: seq<Reply>, width: nat, height: nat, fontAvailable: bool): (r: seq<TextDraw>)
    requires |replies| == |rs|
    ensures |r| == |Survivors(rs)|
  {
    if rs == [] then []
    else
      var n := |rs| - 1;
      Drawn(rs[..n], replies[..n], width, height, fontAvailable)
      + (if Keep(rs[n]) then [DrawFor(rs[n], replies[n], width, height, fontAvailable)] else [])
  }

  /** The drawing surface `pil_output`. Its pixels are copied from the
      buffer once, when it is made; afterwards only text is drawn on it. */
  class Canvas {
    var pixels: Image
    var draws: seq<TextDraw>

    constructor FromBuffer(a: array2<Pixel>)
      ensures pixels == SwapRedBlue(Grid(a)) && draws == []
    {
      pixels := SwapRedBlue(Grid(a));
      draws := [];
    }

    /** `draw.text(anchor, text, font=...)`. */
    method Text(anchor: Point, text: string, font: Font)
      modifies this
      ensures pixels == old(pixels)
      ensures draws == old(draws) + [TextDraw(anchor, text, font)]
    {
      draws := draws + [TextDraw(anchor, text, font)];
    }
  }

  /** One pass of the loop body for detection `d`: skip it when it is not
      confident enough; otherwise erase its box (when its region of interest
      is not empty) and draw its translation, whatever the erase did. */
  method ProcessRegion(output: array2<Pixel>, canvas: Canvas, d: Detection, reply: Reply, fontAvailable: bool)
    modifies output, canvas
    ensures Grid(output) == EraseRegion(old(Grid(output)), output.Length1, output.Length0, d)
    ensures canvas.pixels == old(canvas.pixels)
    ensures canvas.draws == old(canvas.draws) +
      if Keep(d) then [DrawFor(d, reply, output.Length1, output.Length0, fontAvailable)] else []
  {
    var width, height := output.Length1, output.Length0;
    if d.prob < Threshold {
      return;
    }
    var b := BoxOf(d.quad, width, height);
    var roi := RoiOf(b, width, height);
    if !roi.IsEmpty() {
      var color := MeanColor(Grid(output), width, height, roi);
      FillRectangle(output, b, color);
    }
    var translated := TranslateText(d.text, reply);
    var font := if fontAvailable then TrueType(FontSize(b.yMax - b.yMin)) else DefaultFont;
    assert DrawFor(d, reply, width, height, fontAvailable) == TextDraw(Point(b.xMin, b.yMin), translated, font);
    canvas.Text(Point(b.xMin, b.yMin), translated, font);
  }

  /** The loop of `translate_image` over the detector's `results`, on a copy
      of the decoded image `source`. `replies[i]` is how the translation
      request for `results[i]` ended (unused when the detection is skipped);
      `fontAvailable` says whether the scalable font can be loaded.
      The buffer ends up erased region by region, each region sampled after
      the earlier fills; the saved surface keeps the pixels the buffer had
      before the loop, with one draw call per surviving detection. */
  method TranslateRegions(source: array2<Pixel>, results: seq<Detection>, replies: seq<Reply>, fontAvailable: bool)
    returns (output: array2<Pixel>, canvas: Canvas)
    requires |replies| == |results|
    ensures fresh(output) && fresh(canvas)
    ensures output.Length0 == source.Length0 && output.Length1 == source.Length1
    ensures Grid(output) == Erased(Grid(source), source.Length1, source.Length0, results)
    ensures canvas.pixels == SwapRedBlue(Grid(source))
    ensures canvas.draws == Drawn(results, replies, source.Length1, source.Length0, fontAvailable)
  {
    var width, height := source.Length1, source.Length0;
    output := new Pixel[height, width]((y: nat, x: nat) requires y < height && x < width reads source => source[y, x]);
    GridsEqual(Grid(output), Grid(source), width, height);
    canvas := new Canvas.FromBuffer(output);
    for i := 0 to |results|
      invariant output.Length0 == height && output.Length1 == width
      invariant Grid(output) == Erased(Grid(source), width, height, results[..i])
      invariant canvas.pixels == SwapRedBlue(Grid(source))
      invariant canvas.draws == Drawn(results[..i], replies[..i], width, height, fontAvailable)
    {
      assert results[..i + 1][..i] == results[..i] && replies[..i + 1][..i] == replies[..i];
      ProcessRegion(output, canvas, results[i], replies[i], fontAvailable);
    }
    assert results[..|results|] == results && replies[..|replies|] == replies;
  }
}
