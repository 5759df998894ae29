# Region-wise overlay loop of the manga translator backend

This project models the core of the `/translate` endpoint of the manga
translator backend (`Qwen_python_app.py`): the loop of `translate_image`
that walks the OCR detector's results and, for each confident detection,
erases the original text with a flat fill and draws the translated text
in its place. It also models the fallback of `translate_text`.

The model has five modules:

- `Geometry` (geometry.dfy) covers the padded and clamped bounding box of
  a detection's four corner points. It also covers Python's slice
  normalisation, which cuts the region of interest (ROI) out of the image,
  and the font size `max(14, int(0.8 * h))`, written as exact integer
  arithmetic.
- `Raster` (raster.dfy) covers the 3-channel, 8-bit pixel buffer. It has
  the truncated per-channel mean of the ROI (`np.mean(...).astype(int)`)
  and the filled rectangle (`cv2.rectangle(..., -1)`), which is a method
  that updates an `array2` in place.
- `Translation` (translation.dfy) covers `translate_text`. The outcome of
  the HTTP request is an input: an exception, or a status with a body.
- `Pipeline` (pipeline.dfy) covers the confidence filter, the value-level
  specification of the loop (`Erased`, `Drawn`) and the drawing surface
  `pil_output` as a class (`Canvas`). It also has the loop itself as a
  method with invariants: `TranslateRegions`, whose body runs
  `ProcessRegion` once per detection.
- `PipelineLemmas` (pipeline_lemmas.dfy) holds the properties of the whole
  loop.

Behaviour of the code worth knowing when reading the model:

- The fill colour is sampled from `output_img` as earlier regions have
  already painted it, not from the decoded image
  (`LaterRegionSamplesEarlierFill`).
- `cv2.rectangle` with negative thickness fills both corner points and is
  clipped to the image, while the ROI slice excludes the upper corner
  (`RoiInsideRectangle`).
- No region is skipped for lying outside the image: the text is drawn for
  every surviving detection, and only the fill is guarded by
  `roi.size > 0` (`ProcessRegion`). `x_max`/`y_max` have no clamp from
  below: every x below -2 makes `x_max` negative
  (`LeftOfImageNegativeXMax`), and Python then counts the slice end back
  from the right edge. The ROI is columns `0 .. width + x_max - 1`, so it
  is not empty while `x_max > -width` (`LeftOfImageWraps`), and empty once
  `x_max <= -width` (`FarLeftOfImageIsEmpty`). The same holds for rows.
- The font size is `int(0.8 * h)`, truncated, with a minimum of 14.
- The saved image is `pil_output`, copied from `output_img` before the
  loop. The fills never reach it; only the text does (`TranslateRegions`).

## Model

| member | source | states |
|---|---|---|
| `Geometry.MinX` | Qwen_python_app.py:77 | the result is at most every point's x and equals one of them |
| `Geometry.MinY` | Qwen_python_app.py:78 | the result is at most every point's y and equals one of them |
| `Geometry.MaxX` | Qwen_python_app.py:79 | the result is at least every point's x and equals one of them |
| `Geometry.MaxY` | Qwen_python_app.py:80 | the result is at least every point's y and equals one of them |
| `Geometry.BoxOf` | Qwen_python_app.py:76-87 | `x_min`, `y_min` are at least 0; `x_max` is at most the width and `y_max` at most the height |
| `Geometry.BoxIsClampedEnvelope` | Qwen_python_app.py:77-87 | `x_min` is `max(0, x - 2)` for the smallest x of the four points and at most that value for every point; `x_max` is `min(width, x + 2)` for the largest x and at least that value for every point; the same for y with the height |
| `Geometry.LeftOfImageNegativeXMax` | Qwen_python_app.py:79-87 | `x_max` has no clamp from below: when every x is below -2, `x_max` is negative |
| `Geometry.AboveImageNegativeYMax` | Qwen_python_app.py:80-87 | `y_max` has no clamp from below: when every y is below -2, `y_max` is negative |
| `Geometry.BoxInsideImage` | Qwen_python_app.py:76-89 | a quad at least 2 pixels inside every edge gets the exact padded envelope, with `x_min <= x_max`, `y_min <= y_max`, and the ROI is exactly the box without its upper corner |
| `Geometry.EnvelopeOfRectangle` | Qwen_python_app.py:77-80 | the envelope of an axis-aligned rectangle given as four corners is that rectangle |
| `Geometry.HelloBox` | Qwen_python_app.py:76-89 | the quad (10,10)-(60,30) in a 100 x 50 image gets the box (8,8)-(62,32) and the ROI rows 8..31, columns 8..61 |
| `Geometry.PySlice` | Qwen_python_app.py:89 | Python slicing of one axis: the span is always inside the axis; in-range bounds are taken as they are; a start past the end selects nothing; a negative stop counts back from the end; a stop more than the length before the end selects nothing |
| `Geometry.RoiOf` | Qwen_python_app.py:89 | the ROI rows and columns lie inside the image; for a box with ordered, in-range corners the ROI is exactly `[y_min, y_max) x [x_min, x_max)` |
| `Geometry.LeftOfImageWraps` | Qwen_python_app.py:84-92 | a quad entirely left of the image gives `x_max = -8`; the ROI is then columns 0..91, not empty, while the rectangle covers only column 0 |
| `Geometry.FarLeftOfImageIsEmpty` | Qwen_python_app.py:84-91 | a quad at x -300..-200 in a 100 x 50 image gives `x_max = -198`, below `-width`, so the ROI is empty and no fill happens |
| `Geometry.FontSize` | Qwen_python_app.py:99 | the size is at least 14; it is exactly 14 when `0.8 * h < 14`; otherwise it is the integer part of `0.8 * h` |
| `Raster.RowSumBounds` | Qwen_python_app.py:91 | if each channel value in a row segment lies in `a..b`, the segment's sum lies between `n * a` and `n * b` |
| `Raster.RoiSumBounds` | Qwen_python_app.py:91 | if each channel value in the ROI lies in `a..b`, the ROI's channel sum lies between `count * a` and `count * b` |
| `Raster.MeanChannel` | Qwen_python_app.py:91 | for a non-empty ROI, each channel of the fill colour is the mean truncated: `m * count <= sum < (m + 1) * count`, and it is a byte |
| `Raster.MeanColor` | Qwen_python_app.py:91 | the fill colour's channel k is the truncated mean of channel k over the ROI |
| `Raster.MeanWithinRoiRange` | Qwen_python_app.py:89-91 | each channel of the fill colour lies between that channel's smallest and largest value in the ROI |
| `Raster.MeanOfUniform` | Qwen_python_app.py:89-92 | a ROI that is all one colour has that colour as its mean |
| `Raster.Paint` | Qwen_python_app.py:92 | after the fill, each pixel covered by the rectangle (both corners included, clipped) has the fill colour, and every other pixel keeps its value |
| `Raster.FillRectangle` | Qwen_python_app.py:92 | in place on the buffer: each covered pixel becomes the colour; every other pixel is unchanged |
| `Raster.SwapRedBlue` | Qwen_python_app.py:68 | the BGR-to-RGB conversion exchanges the first and last channel of each pixel and keeps the shape |
| `Translation.TranslateText` | Qwen_python_app.py:30-44 | the result is the service's `translatedText` when the reply is a 200 with a JSON object holding that key; in every other case it is the input text: no key, another status, a body that is not a JSON object, or an exception |
| `Pipeline.Keep` | Qwen_python_app.py:72-73 | a detection is kept exactly when its confidence is at least 0.3 |
| `Pipeline.Survivors` | Qwen_python_app.py:71-73 | a detection survives if and only if it is in the input and its confidence is at least 0.3 |
| `Pipeline.SurvivorsPreserveOrder` | Qwen_python_app.py:71-73 | filtering distributes over concatenation, so survivors keep the detector's order |
| `Pipeline.EraseRegion` | Qwen_python_app.py:72-92 | erasing one detection changes nothing when it is below 0.3 or its ROI is empty; otherwise it changes only pixels its rectangle covers |
| `Pipeline.EraseRegionFills` | Qwen_python_app.py:84-92 | for a kept detection with a non-empty ROI, every pixel the rectangle covers takes the ROI's mean colour, sampled from the buffer before the fill |
| `Pipeline.Erased` | Qwen_python_app.py:71-92 | after erasing a list of detections in order, a pixel that no surviving detection's rectangle covers keeps its original value |
| `Pipeline.DrawFor` | Qwen_python_app.py:95-104 | the draw call is anchored at `(x_min, y_min)`, which is not negative; its text is the service's translation when delivered, the original text otherwise; its font is TrueType of `FontSize(y_max - y_min)`, at least 14, or the default font |
| `Pipeline.Drawn` | Qwen_python_app.py:71-104 | the loop makes exactly one draw call per surviving detection |
| `Pipeline.Canvas.FromBuffer` | Qwen_python_app.py:68-69 | the surface's pixels are the buffer's pixels in RGB order, and nothing has been drawn yet |
| `Pipeline.Canvas.Text` | Qwen_python_app.py:100-104 | drawing appends one draw call (anchor, text, font) and leaves the pixels as they were |
| `Pipeline.ProcessRegion` | Qwen_python_app.py:71-104 | one loop pass: a detection below 0.3 changes nothing. Otherwise the buffer becomes the erase of that detection, sampled from the buffer as it is now. One draw call is appended, whether or not the ROI was empty |
| `Pipeline.TranslateRegions` | Qwen_python_app.py:67-104 | the buffer ends up erased detection by detection, in order. The saved surface holds the pre-loop pixels and exactly the draw calls for the surviving detections |
| `PipelineLemmas.DrawnPerSurvivor` | Qwen_python_app.py:71-104 | there is one draw call per surviving detection, in order. Each is anchored at its box's top-left corner and sized from its box's height (or uses the default font) |
| `PipelineLemmas.DrawnTexts` | Qwen_python_app.py:71-104 | the k-th draw call is the one for the k-th surviving detection and the reply to its own request; when that request delivered a translation, the translation is drawn |
| `PipelineLemmas.UnreachableServiceKeepsText` | Qwen_python_app.py:39-44 | when no reply delivers a translation, every drawn text is the detection's original text |
| `PipelineLemmas.NothingKeptNothingChanges` | Qwen_python_app.py:71-73 | when every detection is below 0.3, the buffer is unchanged and nothing is drawn |
| `PipelineLemmas.SkippedDetectionsHaveNoEffect` | Qwen_python_app.py:71-73 | erasing the whole list equals erasing only its survivors |
| `PipelineLemmas.RoiInsideRectangle` | Qwen_python_app.py:89-92 | with non-negative corners, every ROI pixel is covered by the filled rectangle |
| `PipelineLemmas.SampleInsideFill` | Qwen_python_app.py:89-92 | a ROI that lies inside a filled rectangle has the fill colour as its mean |
| `PipelineLemmas.EraseIdempotent` | Qwen_python_app.py:89-92 | erasing a detection twice equals erasing it once when its box's upper corner is not negative |
| `PipelineLemmas.LaterRegionSamplesEarlierFill` | Qwen_python_app.py:89-92 | when a later ROI lies inside an earlier rectangle, the later region is filled with the earlier region's colour, not with the original pixels' mean |
| `PipelineLemmas.HelloErase` | Qwen_python_app.py:76-92 | in the 100 x 50 example, the box (8,8)-(62,32) is filled with the mean of rows 8..31 and columns 8..61 |
| `PipelineLemmas.HelloDraws` | Qwen_python_app.py:95-104 | in the 100 x 50 example, the translation is drawn at (8,8) in size 19; when the request fails, "HELLO" is drawn there instead |
| `PipelineLemmas.LowConfidenceHello` | Qwen_python_app.py:71-73 | the same detection with confidence 0.2 leaves the buffer unchanged and draws nothing |

## Left out

- HTTP routing, JSON request parsing and error responses (`Qwen_python_app.py:46-53`, `:111-120`): request plumbing, outside the loop.
- Fetching and decoding the image (`:57-59`): network I/O and a foreign library. The decoded image is the input buffer `source`.
- The OCR model (`:18`, `:64`): a foreign model. Its results are the input sequence of `Detection`s (four integer points, text, confidence).
- The POST to the translation service (`:33-38`): network I/O. The target language only goes into that request, so it is not modelled. Each request's outcome is an input `Reply`, one per detection.
- Non-string JSON values under `translatedText` (for example `null`): the model takes every value as a string.
- TrueType loading and glyph rasterisation (`:100-104`): foreign code. A draw is recorded as an event (anchor, text, font). The ink colour, always black, is not recorded. A single process-wide flag says whether the scalable font loads, so a failure that depends on the call, or an exception in the fallback draw itself, is not modelled.
- The MD5 file name from the wall clock and the JPEG save (`:107-109`): hashing, clock and file I/O.
- The font download at start-up (`:22-28`): I/O.
- Floating point: the confidence is an exact real compared with exactly 3/10. A double equal to the double nearest 0.3 would be kept by the source and dropped by the model. `int(0.8 * h)` is written as truncation of `4h/5`, which is exact for every integer `h`. The truncated `np.mean` is written as `sum / count`, which is exact for any ROI of fewer than about 2^44 pixels.
- `np.int32` conversion of the corner points and 32-bit overflow in the box arithmetic: the points are integers already, and the model's integers are unbounded.
- The detector always reports four corner points; a different count (for which `min` over an empty list would raise) is not modelled.
- Concurrency: the source runs the loop sequentially, and so does the model.
