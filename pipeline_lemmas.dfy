/** What the per-region loop guarantees over whole detection lists: one
    draw call per surviving detection, in order and whatever the erase did;
    the fallback text when the service is unreachable; erasing a region is
    idempotent; a later region samples the fills of earlier ones. */
module PipelineLemmas {
  import opened Geometry
  import opened Raster
  import opened Translation
  import opened Pipeline

  /** Draw call `t` is the one for detection `d`: at the top-left corner of
      its box, in a size taken from the box's height. */
  ghost predicate PlacedFor(t: TextDraw, d: Detection, width: nat, height: nat, fontAvailable: bool) {
    var b := BoxOf(d.quad, width, height);
    t.anchor == Point(b.xMin, b.yMin) &&
    t.font == if fontAvailable then TrueType(FontSize(b.yMax - b.yMin)) else DefaultFont
  }

  /** Each surviving detection gets exactly one draw call, in the detector's
      order, anchored at the top-left corner of its box and sized from the
      box's height; skipped detections get none. */
  lemma {:induction false} DrawnPerSurvivor(rs: seq<Detection>, replies: seq<Reply>, width: nat, height: nat, fontAvailable: bool)
    requires |replies| == |rs|
    ensures |Drawn(rs, replies, width, height, fontAvailable)| == |Survivors(rs)|
    ensures forall k :: 0 <= k < |Survivors(rs)| ==>
      PlacedFor(Drawn(rs, replies, width, height, fontAvailable)[k], Survivors(rs)[k], width, height, fontAvailable)
  {
    if rs != [] {
      var n := |rs| - 1;
      var pre, sp := Drawn(rs[..n], replies[..n], width, height, fontAvailable), Survivors(rs[..n]);
      DrawnPerSurvivor(rs[..n], replies[..n], width, height, fontAvailable);
      var all, sall := Drawn(rs, replies, width, height, fontAvailable), Survivors(rs);
      assert all == pre + (if Keep(rs[n]) then [DrawFor(rs[n], replies[n], width, height, fontAvailable)] else []);
      assert sall == sp + (if Keep(rs[n]) then [rs[n]] else []);
      forall k | 0 <= k < |sall|
        ensures PlacedFor(all[k], sall[k], width, height, fontAvailable)
      {
        if k < |sp| {
          assert all[k] == pre[k] && sall[k] == sp[k];
        } else {
          assert all[k] == DrawFor(rs[n], replies[n], width, height, fontAvailable) && sall[k] == rs[n];
        }
      }
    }
  }

  /** The replies to the requests the loop actually makes: those of the
      surviving detections, in order. */
  ghost function SurvivingReplies(rs: seq<Detection>, replies: seq<Reply>): (r: seq<Reply>)
    requires |replies| == |rs|
    ensures |r| == |Survivors(rs)|
  {
    if rs == [] then []
    else
      var n := |rs| - 1;
      SurvivingReplies(rs[..n], replies[..n]) + (if Keep(rs[n]) then [replies[n]] else [])
  }

  /** The k-th draw call is the one for the k-th surviving detection and
      the reply to its own request: in particular, when that request
      delivered a translation, the translation is what is drawn. */
  lemma {:induction false} DrawnTexts(rs: seq<Detection>, replies: seq<Reply>, width: nat, height: nat, fontAvailable: bool)
    requires |replies| == |rs|
    ensures forall k :: 0 <= k < |Survivors(rs)| ==>
      Drawn(rs, replies, width, height, fontAvailable)[k] ==
      DrawFor(Survivors(rs)[k], SurvivingReplies(rs, replies)[k], width, height, fontAvailable)
    ensures forall k :: 0 <= k < |Survivors(rs)| && Delivered(SurvivingReplies(rs, replies)[k]) ==>
      Drawn(rs, replies, width, height, fontAvailable)[k].text ==
      SurvivingReplies(rs, replies)[k].body.fields[TranslatedKey]
  {
    if rs != [] {
      var n := |rs| - 1;
      DrawnTexts(rs[..n], replies[..n], width, height, fontAvailable);
      var pre, sp, rp := Drawn(rs[..n], replies[..n], width, height, fontAvailable), Survivors(rs[..n]), SurvivingReplies(rs[..n], replies[..n]);
      var all, sall, rall := Drawn(rs, replies, width, height, fontAvailable), Survivors(rs), SurvivingReplies(rs, replies);
      forall k | 0 <= k < |sall|
        ensures all[k] == DrawFor(sall[k], rall[k], width, height, fontAvailable)
      {
        if k < |sp| {
          assert all[k] == pre[k] && sall[k] == sp[k] && rall[k] == rp[k];
        } else {
          assert all[k] == DrawFor(rs[n], replies[n], width, height, fontAvailable) && sall[k] == rs[n] && rall[k] == replies[n];
        }
      }
    }
  }

  /** When no request delivers a translation (the service is unreachable,
      times out or answers with an error), every drawn text is the
      detection's original text. */
  lemma {:induction false} UnreachableServiceKeepsText(rs: seq<Detection>, replies: seq<Reply>, width: nat, height: nat, fontAvailable: bool)
    requires |replies| == |rs|
    requires forall i :: 0 <= i < |replies| ==> !Delivered(replies[i])
    ensures |Drawn(rs, replies, width, height, fontAvailable)| == |Survivors(rs)|
    ensures forall k :: 0 <= k < |Survivors(rs)| ==>
      Drawn(rs, replies, width, height, fontAvailable)[k].text == Survivors(rs)[k].text
  {
    if rs != [] {
      var n := |rs| - 1;
      UnreachableServiceKeepsText(rs[..n], replies[..n], width, height, fontAvailable);
    }
  }

  /** When every detection is below the threshold, the buffer is left as it
      was and nothing is drawn. */
  lemma {:induction false} NothingKeptNothingChanges(img: Image, width: nat, height: nat, rs: seq<Detection>, replies: seq<Reply>, fontAvailable: bool)
    requires IsGrid(img, width, height) && |replies| == |rs|
    requires forall i :: 0 <= i < |rs| ==> rs[i].prob < Threshold
    ensures Erased(img, width, height, rs) == img
    ensures Drawn(rs, replies, width, height, fontAvailable) == []
  {
    if rs != [] {
      var n := |rs| - 1;
      NothingKeptNothingChanges(img, width, height, rs[..n], replies[..n], fontAvailable);
    }
  }

  /** Skipped detections leave no trace: erasing the detector's whole list
      gives the same buffer as erasing only its survivors. */
  lemma {:induction false} SkippedDetectionsHaveNoEffect(img: Image, width: nat, height: nat, rs: seq<Detection>)
    requires IsGrid(img, width, height)
    ensures Erased(img, width, height, rs) == Erased(img, width, height, Survivors(rs))
  {
    if rs != [] {
      var n := |rs| - 1;
      SkippedDetectionsHaveNoEffect(img, width, height, rs[..n]);
      var sp := Survivors(rs[..n]);
      if Keep(rs[n]) {
        assert Survivors(rs) == sp + [rs[n]];
        assert (sp + [rs[n]])[..|sp|] == sp;
      } else {
        assert Survivors(rs) == sp;
      }
    }
  }

  /** With non-negative corners the region of interest lies inside the
      filled rectangle: the slice excludes the upper corner, the rectangle
      includes it. */
  lemma RoiInsideRectangle(b: Box, width: nat, height: nat)
    requires 0 <= b.xMin && 0 <= b.yMin && 0 <= b.xMax <= width && 0 <= b.yMax <= height
    ensures forall y, x :: InRoi(RoiOf(b, width, height), x, y) ==> Covers(b, x, y)
  {
  }

  /** Erasing the same detection twice gives the same buffer as erasing it
      once, as long as the box's upper corner is not negative (no
      wrap-around in the slice): the second pass samples its own fill. */
  lemma EraseIdempotent(img: Image, width: nat, height: nat, d: Detection)
    requires IsGrid(img, width, height)
    requires BoxOf(d.quad, width, height).xMax >= 0 && BoxOf(d.quad, width, height).yMax >= 0
    ensures EraseRegion(EraseRegion(img, width, height, d), width, height, d) == EraseRegion(img, width, height, d)
  {
    var b := BoxOf(d.quad, width, height);
    var roi := RoiOf(b, width, height);
    if Keep(d) && !roi.IsEmpty() {
      var c := MeanColor(img, width, height, roi);
      var once := Paint(img, width, height, b, c);
      RoiInsideRectangle(b, width, height);
      MeanOfUniform(once, width, height, roi, c);
      GridsEqual(Paint(once, width, height, b, c), once, width, height);
    }
  }

  lemma ErasedPair(img: Image, width: nat, height: nat, d1: Detection, d2: Detection)
    requires IsGrid(img, width, height)
    ensures Erased(img, width, height, [d1, d2]) ==
      EraseRegion(EraseRegion(img, width, height, d1), width, height, d2)
  {
    var once := EraseRegion(img, width, height, d1);
    assert [d1][..0] == [] && [d1, d2][..1] == [d1] && [d1, d2][1] == d2;
    assert Erased(img, width, height, [d1]) == EraseRegion(Erased(img, width, height, []), width, height, d1);
    assert Erased(img, width, height, [d1]) == once;
    assert Erased(img, width, height, [d1, d2]) == EraseRegion(Erased(img, width, height, [d1]), width, height, d2);
  }

  /** A region of interest inside a filled rectangle samples the fill. */
  lemma SampleInsideFill(img: Image, width: nat, height: nat, b: Box, c: Pixel, roi: Roi)
    requires IsGrid(img, width, height) && Within(roi, width, height) && !roi.IsEmpty()
    requires forall y, x :: InRoi(roi, x, y) ==> Covers(b, x, y)
    ensures MeanColor(Paint(img, width, height, b, c), width, height, roi) == c
  {
    MeanOfUniform(Paint(img, width, height, b, c), width, height, roi, c);
  }

  /** The mean is taken from the buffer as earlier regions left it: when a
      later region's region of interest lies inside an earlier region's
      filled rectangle, the later region is filled with the earlier
      region's colour, not with the mean of the original pixels. */
  lemma LaterRegionSamplesEarlierFill(img: Image, width: nat, height: nat, d1: Detection, d2: Detection)
    requires IsGrid(img, width, height) && Keep(d1) && Keep(d2)
    requires !RoiOf(BoxOf(d1.quad, width, height), width, height).IsEmpty()
    requires !RoiOf(BoxOf(d2.quad, width, height), width, height).IsEmpty()
    requires forall y, x :: InRoi(RoiOf(BoxOf(d2.quad, width, height), width, height), x, y) ==>
      Covers(BoxOf(d1.quad, width, height), x, y)
    ensures var b1 := BoxOf(d1.quad, width, height);
      var c1 := MeanColor(img, width, height, RoiOf(b1, width, height));
      var after1 := EraseRegion(img, width, height, d1);
      after1 == Paint(img, width, height, b1, c1) &&
      Erased(img, width, height, [d1, d2]) == Paint(after1, width, height, BoxOf(d2.quad, width, height), c1)
  {
    var b1, b2 := BoxOf(d1.quad, width, height), BoxOf(d2.quad, width, height);
    var c1 := MeanColor(img, width, height, RoiOf(b1, width, height));
    ErasedPair(img, width, height, d1, d2);
    SampleInsideFill(img, width, height, b1, c1, RoiOf(b2, width, height));
  }

  /** The worked example's detection: "HELLO" in the rectangle
      (10, 10)-(60, 30), with confidence 0.9. */
  function Hello(): Detection {
    Detection([Point(10, 10), Point(60, 10), Point(60, 30), Point(10, 30)], "HELLO", 0.9)
  }

  /** The worked example on a 100 x 50 image: the box (8, 8)-(62, 32) is
      filled with the mean of rows 8..31 and columns 8..61, the region of
      interest the slice selects. */
  lemma HelloErase(img: Image, box: Box, roi: Roi)
    requires IsGrid(img, 100, 50)
    requires box == Box(8, 8, 62, 32) && roi == Roi(Span(8, 32), Span(8, 62))
    ensures Erased(img, 100, 50, [Hello()]) == Paint(img, 100, 50, box, MeanColor(img, 100, 50, roi))
  {
    HelloBox();
    assert BoxOf(Hello().quad, 100, 50) == box && RoiOf(box, 100, 50) == roi;
    ErasedSingle(img, 100, 50, Hello());
  }

  lemma ErasedSingle(img: Image, width: nat, height: nat, d: Detection)
    requires IsGrid(img, width, height)
    ensures Erased(img, width, height, [d]) == EraseRegion(img, width, height, d)
  {
    assert [d][..0] == [];
  }

  /** The worked example on a 100 x 50 image: the service's translation is
      drawn at (8, 8) in size 19; when the request fails, "HELLO" itself is
      drawn there. */
  lemma HelloDraws(d: Detection, translated: string)
    requires d == Hello()
    ensures Drawn([d], [Response(200, JsonObject(map[TranslatedKey := translated]))], 100, 50, true) ==
      [TextDraw(Point(8, 8), translated, TrueType(19))]
    ensures Drawn([d], [Raised], 100, 50, true) == [TextDraw(Point(8, 8), "HELLO", TrueType(19))]
  {
    var b := BoxOf(d.quad, 100, 50);
    assert b == Box(8, 8, 62, 32) by {
      EnvelopeOfRectangle(10, 10, 60, 30);
    }
    assert FontSize(b.yMax - b.yMin) == 19 by { assert TruncFourFifths(24) == 19; }
    SingleDraw(d, Response(200, JsonObject(map[TranslatedKey := translated])), 100, 50, true);
    SingleDraw(d, Raised, 100, 50, true);
  }

  lemma SingleDraw(d: Detection, reply: Reply, width: nat, height: nat, fontAvailable: bool)
    requires Keep(d)
    ensures Drawn([d], [reply], width, height, fontAvailable) == [DrawFor(d, reply, width, height, fontAvailable)]
  {
    assert [d][..0] == [] && [reply][..0] == [];
  }

  /** The same detection with confidence 0.2 is dropped: the buffer is
      unchanged and nothing is drawn. */
  lemma LowConfidenceHello(img: Image, reply: Reply)
    requires IsGrid(img, 100, 50)
    ensures var d := Hello().(prob := 0.2);
      Erased(img, 100, 50, [d]) == img && Drawn([d], [reply], 100, 50, true) == []
  {
    NothingKeptNothingChanges(img, 100, 50, [Hello().(prob := 0.2)], [reply], true);
  }
}
