/** The per-frame part of the video loop: detect, then for each box in
    order recognise its crop, draw its rectangle and draw its label, all into
    the one frame buffer that the crops are views of. */
module Annotation {
  import opened Frames
  import opened Detection
  import TextNormalizer

  /** A point as OpenCV takes it: `x` is the column, `y` the row. */
  datatype Point = Point(x: int, y: int)

  /** The two OpenCV drawing calls the loop makes, with their arguments. */
  datatype DrawOp =
    | Rectangle(pt1: Point, pt2: Point, color: Pixel, thickness: int)
    | PutText(text: string, org: Point, fontFace: int, fontScale: real, color: Pixel, thickness: int)

  /** `(0, 255, 0)`: green in a BGR frame. */
  const GREEN: Pixel := Pixel(0, 255, 0)
  const THICKNESS: int := 2
  /** `cv2.FONT_HERSHEY_SIMPLEX`. */
  const FONT_HERSHEY_SIMPLEX: int := 0
  const FONT_SCALE: real := 0.5
  /** The label is drawn this many pixels above the box's top edge. */
  const LABEL_LIFT: int := 10

  /** Which pixels `(x, y)` a drawing call covers. OpenCV draws with its
      default 8-connected lines, so a covered pixel takes the call's colour
      and every other pixel is left as it was; which pixels are covered is
      the library's business. */
  type Ink = (DrawOp, int, int) -> bool

  /** The OCR engine, called on a crop's pixels; its raw output. */
  type Ocr = Raster -> string

  /** The frame after one drawing call. */
  function ApplyOp(r: Raster, op: DrawOp, ink: Ink): (q: Raster)
    ensures |q| == |r| && forall i :: 0 <= i < |r| ==> |q[i]| == |r[i]|
  {
    seq(|r|, i requires 0 <= i < |r| => PaintRow(r[i], i, op, ink))
  }

  /** Row `y` after one drawing call. */
  function PaintRow(row: seq<Pixel>, y: int, op: DrawOp, ink: Ink): (q: seq<Pixel>)
    ensures |q| == |row|
  {
    seq(|row|, x requires 0 <= x < |row| => if ink(op, x, y) then op.color else row[x])
  }

  /** The frame after a sequence of drawing calls, first to last. */
  function ApplyOps(r: Raster, ops: seq<DrawOp>, ink: Ink): Raster
  {
    if ops == [] then r else ApplyOp(ApplyOps(r, ops[..|ops| - 1], ink), ops[|ops| - 1], ink)
  }

  /** Drawing never changes a frame's size. */
  lemma {:induction false} ApplyOpsShape(r: Raster, ops: seq<DrawOp>, ink: Ink)
    ensures |ApplyOps(r, ops, ink)| == |r|
    ensures forall i :: 0 <= i < |r| ==> |ApplyOps(r, ops, ink)[i]| == |r[i]|
  {
    if ops != [] {
      ApplyOpsShape(r, ops[..|ops| - 1], ink);
    }
  }

  /** `cv2.rectangle` / `cv2.putText` on the frame buffer, in place. */
  method Draw(frame: array2<Pixel>, op: DrawOp, ink: Ink)
    modifies frame
    ensures RasterOf(frame) == ApplyOp(old(RasterOf(frame)), op, ink)
  {
    ghost var before := RasterOf(frame);
    forall y, x | 0 <= y < frame.Length0 && 0 <= x < frame.Length1 {
      frame[y, x] := if ink(op, x, y) then op.color else frame[y, x];
    }
    ghost var after := ApplyOp(before, op, ink);
    forall y | 0 <= y < frame.Length0 ensures RasterOf(frame)[y] == after[y] {
      assert |RasterOf(frame)[y]| == |after[y]|;
    }
  }

  /** The rectangle and the label drawn for one box. */
  function BoxOps(b: Box, text: string): seq<DrawOp> {
    [Rectangle(Point(b.x1, b.y1), Point(b.x2, b.y2), GREEN, THICKNESS),
     PutText(text, Point(b.x1, b.y1 - LABEL_LIFT), FONT_HERSHEY_SIMPLEX, FONT_SCALE, GREEN, THICKNESS)]
  }

  /** `recognize_license_plate(plate_image)`: OCR on the pixels the crop
      shows now, then normalisation. */
  function RecognizeLicensePlate(plate: Crop, ocr: Ocr): (text: string)
    reads plate.base
    requires InFrame(plate)
    ensures text == TextNormalizer.PlateChars(ocr(CropPixels(plate)))
    ensures forall i :: 0 <= i < |text| ==> TextNormalizer.Kept(text[i])
  {
    TextNormalizer.Normalize(ocr(CropPixels(plate)))
  }

  /** The normalised OCR text of the pixels of `r` inside `win`, stated by
      the reference filter that `TextNormalizer.Normalize` is proved equal
      to; the window fits whenever the loop calls this (see `ReadPlateFits`). */
  function ReadPlate(r: Raster, win: Window, ocr: Ocr): string
  {
    if Fits(r, win) then TextNormalizer.PlateChars(ocr(Pixels(r, win))) else []
  }

  /** What the annotate loop has produced after some boxes: the recognised
      texts and the drawing calls made, in order. The frame then holds the
      original contents with those calls applied. */
  datatype Annotated = Annotated(texts: seq<string>, ops: seq<DrawOp>)

  /** The annotate loop over the first `n` boxes of an `h` x `w` frame that
      held `r0` before the loop. Box `n-1` is read on the frame as the
      drawing calls for boxes `0..n-2` left it. */
  function AnnotateBoxes(r0: Raster, h: nat, w: nat, boxes: seq<Box>, ocr: Ocr, ink: Ink, n: nat): (a: Annotated)
    requires n <= |boxes|
    ensures |a.texts| == n && |a.ops| == 2 * n
  {
    if n == 0 then Annotated([], [])
    else
      var prev := AnnotateBoxes(r0, h, w, boxes, ocr, ink, n - 1);
      var b := boxes[n - 1];
      var text := ReadPlate(ApplyOps(r0, prev.ops, ink), WindowOf(b, h, w), ocr);
      Annotated(prev.texts + [text], prev.ops + BoxOps(b, text))
  }

  /** The annotate loop over every box the detector finds in `r`. */
  function FrameAnnotation(r: Raster, h: nat, w: nat, model: Detector, ocr: Ocr, ink: Ink): Annotated
  {
    var boxes := AllBoxes(model(r));
    AnnotateBoxes(r, h, w, boxes, ocr, ink, |boxes|)
  }

  // ---------------------------------------------------------------------
  // Lemmas

  lemma {:induction false} ApplyOpsSnoc2(r: Raster, ops: seq<DrawOp>, o1: DrawOp, o2: DrawOp, ink: Ink)
    ensures ApplyOps(r, ops + [o1, o2], ink) == ApplyOp(ApplyOp(ApplyOps(r, ops, ink), o1, ink), o2, ink)
  {
    var all := ops + [o1, o2];
    assert all[..|all| - 1] == ops + [o1];
    assert (ops + [o1])[..|ops|] == ops;
  }

  lemma PrefixOfConcat<T>(s: seq<T>, t: seq<T>, i: nat)
    requires i <= |s|
    ensures (s + t)[..i] == s[..i]
  {
  }

  /** One more box appends the text read on the frame as drawn so far, and
      that box's two drawing calls. */
  lemma AnnotateStep(r0: Raster, h: nat, w: nat, boxes: seq<Box>, ocr: Ocr, ink: Ink, n: nat)
    requires IsGrid(r0, h, w) && 0 < n <= |boxes|
    ensures var a, prev := AnnotateBoxes(r0, h, w, boxes, ocr, ink, n), AnnotateBoxes(r0, h, w, boxes, ocr, ink, n - 1);
      var text := ReadPlate(ApplyOps(r0, prev.ops, ink), WindowOf(boxes[n - 1], h, w), ocr);
      a.texts == prev.texts + [text] && a.ops == prev.ops + BoxOps(boxes[n - 1], text)
  {
  }

  /** One more box appends one text and that box's two drawing calls. */
  lemma AnnotateExtends(r0: Raster, h: nat, w: nat, boxes: seq<Box>, ocr: Ocr, ink: Ink, n: nat)
    requires IsGrid(r0, h, w) && 0 < n <= |boxes|
    ensures var a, prev := AnnotateBoxes(r0, h, w, boxes, ocr, ink, n), AnnotateBoxes(r0, h, w, boxes, ocr, ink, n - 1);
      a.texts == prev.texts + [a.texts[n - 1]] && a.ops == prev.ops + BoxOps(boxes[n - 1], a.texts[n - 1])
  {
    AnnotateStep(r0, h, w, boxes, ocr, ink, n);
  }

  /** The step the loop takes for box `i`: on the frame as drawn so far, the
      text read in box `i`'s window and that box's two calls extend the run. */
  lemma AnnotateAdvance(r0: Raster, h: nat, w: nat, boxes: seq<Box>, ocr: Ocr, ink: Ink, i: nat, drawn: Raster)
    requires IsGrid(r0, h, w) && i < |boxes|
    requires drawn == ApplyOps(r0, AnnotateBoxes(r0, h, w, boxes, ocr, ink, i).ops, ink)
    ensures Fits(drawn, WindowOf(boxes[i], h, w))
    ensures var text := TextNormalizer.PlateChars(ocr(Pixels(drawn, WindowOf(boxes[i], h, w))));
      AnnotateBoxes(r0, h, w, boxes, ocr, ink, i + 1).ops ==
      AnnotateBoxes(r0, h, w, boxes, ocr, ink, i).ops + BoxOps(boxes[i], text)
  {
    AnnotateStep(r0, h, w, boxes, ocr, ink, i + 1);
    ApplyOpsShape(r0, AnnotateBoxes(r0, h, w, boxes, ocr, ink, i).ops, ink);
    assert IsGrid(drawn, h, w);
    ReadPlateFits(drawn, h, w, boxes[i], ocr);
  }

  /** On a frame of the right size the window of a box always fits. */
  lemma ReadPlateFits(r: Raster, h: nat, w: nat, b: Box, ocr: Ocr)
    requires IsGrid(r, h, w)
    ensures Fits(r, WindowOf(b, h, w))
    ensures ReadPlate(r, WindowOf(b, h, w), ocr) == TextNormalizer.PlateChars(ocr(Pixels(r, WindowOf(b, h, w))))
  {
  }

  /** The first `i` boxes of a longer run are annotated exactly as in a run
      of `i` boxes: later boxes do not change earlier results. */
  lemma {:induction false} AnnotatePrefix(r0: Raster, h: nat, w: nat, boxes: seq<Box>, ocr: Ocr, ink: Ink, i: nat, n: nat)
    requires IsGrid(r0, h, w) && i <= n <= |boxes|
    ensures AnnotateBoxes(r0, h, w, boxes, ocr, ink, n).texts[..i] == AnnotateBoxes(r0, h, w, boxes, ocr, ink, i).texts
    ensures AnnotateBoxes(r0, h, w, boxes, ocr, ink, n).ops[..2 * i] == AnnotateBoxes(r0, h, w, boxes, ocr, ink, i).ops
    decreases n
  {
    var a := AnnotateBoxes(r0, h, w, boxes, ocr, ink, n);
    if i < n {
      var prev := AnnotateBoxes(r0, h, w, boxes, ocr, ink, n - 1);
      AnnotatePrefix(r0, h, w, boxes, ocr, ink, i, n - 1);
      AnnotateExtends(r0, h, w, boxes, ocr, ink, n);
      var text := a.texts[n - 1];
      PrefixOfConcat(prev.texts, [text], i);
      PrefixOfConcat(prev.ops, BoxOps(boxes[n - 1], text), 2 * i);
    } else {
      assert a.texts[..i] == a.texts;
      assert a.ops[..2 * i] == a.ops;
    }
  }

  /** Each box gets exactly one rectangle at its corners and then one label
      with its recognised text, anchored at `(x1, y1 - 10)` without clamping. */
  lemma {:induction false} AnnotateDrawsEachBox(r0: Raster, h: nat, w: nat, boxes: seq<Box>, ocr: Ocr, ink: Ink, n: nat, i: nat)
    requires IsGrid(r0, h, w) && n <= |boxes| && i < n
    ensures var a := AnnotateBoxes(r0, h, w, boxes, ocr, ink, n); var b := boxes[i];
      a.ops[2 * i] == Rectangle(Point(b.x1, b.y1), Point(b.x2, b.y2), GREEN, THICKNESS) &&
      a.ops[2 * i + 1] == PutText(a.texts[i], Point(b.x1, b.y1 - 10), FONT_HERSHEY_SIMPLEX, FONT_SCALE, GREEN, THICKNESS)
  {
    AnnotatePrefix(r0, h, w, boxes, ocr, ink, i + 1, n);
    var a, at := AnnotateBoxes(r0, h, w, boxes, ocr, ink, n), AnnotateBoxes(r0, h, w, boxes, ocr, ink, i + 1);
    assert a.ops[2 * i] == a.ops[..2 * (i + 1)][2 * i];
    assert a.ops[2 * i + 1] == a.ops[..2 * (i + 1)][2 * i + 1];
    assert a.texts[i] == a.texts[..i + 1][i];
  }

  /** The last box of a run of `n` is read on the frame as the calls of the
      first `n - 1` boxes left it. */
  lemma AnnotateLastText(r0: Raster, h: nat, w: nat, boxes: seq<Box>, ocr: Ocr, ink: Ink, n: nat)
    requires IsGrid(r0, h, w) && 0 < n <= |boxes|
    ensures var drawn := ApplyOps(r0, AnnotateBoxes(r0, h, w, boxes, ocr, ink, n - 1).ops, ink);
      Fits(drawn, WindowOf(boxes[n - 1], h, w)) &&
      AnnotateBoxes(r0, h, w, boxes, ocr, ink, n).texts[n - 1] ==
      TextNormalizer.PlateChars(ocr(Pixels(drawn, WindowOf(boxes[n - 1], h, w))))
  {
    AnnotateStep(r0, h, w, boxes, ocr, ink, n);
    var prev := AnnotateBoxes(r0, h, w, boxes, ocr, ink, n - 1);
    var drawn := ApplyOps(r0, prev.ops, ink);
    ApplyOpsShape(r0, prev.ops, ink);
    assert IsGrid(drawn, h, w);
    ReadPlateFits(drawn, h, w, boxes[n - 1], ocr);
  }

  /** Box `i`'s crop is recognised on the frame with the rectangles and
      labels of boxes `0..i-1` already drawn into it, and none of its own. */
  lemma {:induction false} AnnotateRecognizesDrawnFrame(r0: Raster, h: nat, w: nat, boxes: seq<Box>, ocr: Ocr, ink: Ink, n: nat, i: nat)
    requires IsGrid(r0, h, w) && n <= |boxes| && i < n
    ensures var a := AnnotateBoxes(r0, h, w, boxes, ocr, ink, n);
      Fits(ApplyOps(r0, a.ops[..2 * i], ink), WindowOf(boxes[i], h, w)) &&
      a.texts[i] == TextNormalizer.PlateChars(ocr(Pixels(ApplyOps(r0, a.ops[..2 * i], ink), WindowOf(boxes[i], h, w))))
  {
    var a := AnnotateBoxes(r0, h, w, boxes, ocr, ink, n);
    AnnotatePrefix(r0, h, w, boxes, ocr, ink, i + 1, n);
    AnnotatePrefix(r0, h, w, boxes, ocr, ink, i, n);
    assert a.texts[i] == a.texts[..i + 1][i] == AnnotateBoxes(r0, h, w, boxes, ocr, ink, i + 1).texts[i];
    assert a.ops[..2 * i] == AnnotateBoxes(r0, h, w, boxes, ocr, ink, i).ops;
    AnnotateLastText(r0, h, w, boxes, ocr, ink, i + 1);
  }

  /** A pixel that no call in `ops` covers keeps its value. */
  lemma {:induction false} ApplyOpsUncovered(r: Raster, ops: seq<DrawOp>, ink: Ink, y: nat, x: nat)
    requires y < |r| && x < |r[y]|
    requires forall k :: 0 <= k < |ops| ==> !ink(ops[k], x, y)
    ensures y < |ApplyOps(r, ops, ink)| && x < |ApplyOps(r, ops, ink)[y]|
    ensures ApplyOps(r, ops, ink)[y][x] == r[y][x]
  {
    ApplyOpsShape(r, ops, ink);
    if ops != [] {
      ApplyOpsUncovered(r, ops[..|ops| - 1], ink, y, x);
      ApplyOpsShape(r, ops[..|ops| - 1], ink);
    }
  }

  /** Calls that cover no pixel of a window leave its pixels as they were. */
  lemma ApplyOpsUncoveredWindow(r: Raster, ops: seq<DrawOp>, ink: Ink, win: Window)
    requires Fits(r, win)
    requires forall k, y, x :: 0 <= k < |ops| && win.rows.lo <= y < win.rows.hi && win.cols.lo <= x < win.cols.hi ==>
      !ink(ops[k], x, y)
    ensures Fits(ApplyOps(r, ops, ink), win)
    ensures Pixels(ApplyOps(r, ops, ink), win) == Pixels(r, win)
  {
    var drawn := ApplyOps(r, ops, ink);
    ApplyOpsShape(r, ops, ink);
    var p, q := Pixels(drawn, win), Pixels(r, win);
    forall y, x | 0 <= y < |p| && 0 <= x < |p[y]| ensures p[y][x] == q[y][x] {
      ApplyOpsUncovered(r, ops, ink, win.rows.lo + y, win.cols.lo + x);
    }
    forall y | 0 <= y < |p| ensures p[y] == q[y] {
      assert |p[y]| == |q[y]|;
    }
  }

  /** When no earlier drawing covers box `i`'s window, its text is what the
      untouched frame would give. */
  lemma AnnotateUncoveredCrop(r0: Raster, h: nat, w: nat, boxes: seq<Box>, ocr: Ocr, ink: Ink, n: nat, i: nat)
    requires IsGrid(r0, h, w) && n <= |boxes| && i < n
    requires var a := AnnotateBoxes(r0, h, w, boxes, ocr, ink, n); var win := WindowOf(boxes[i], h, w);
      forall k, y, x :: 0 <= k < 2 * i && win.rows.lo <= y < win.rows.hi && win.cols.lo <= x < win.cols.hi ==>
        !ink(a.ops[k], x, y)
    ensures AnnotateBoxes(r0, h, w, boxes, ocr, ink, n).texts[i] ==
      TextNormalizer.PlateChars(ocr(Pixels(r0, WindowOf(boxes[i], h, w))))
  {
    var a := AnnotateBoxes(r0, h, w, boxes, ocr, ink, n);
    var win := WindowOf(boxes[i], h, w);
    var before := a.ops[..2 * i];
    AnnotateRecognizesDrawnFrame(r0, h, w, boxes, ocr, ink, n, i);
    assert forall k :: 0 <= k < |before| ==> before[k] == a.ops[k];
    ApplyOpsUncoveredWindow(r0, before, ink, win);
  }

  /** Drawing only ever paints green: every pixel of the annotated frame is
      the original pixel or green. */
  lemma {:induction false} ApplyOpsPaintsGreen(r: Raster, ops: seq<DrawOp>, ink: Ink)
    requires forall k :: 0 <= k < |ops| ==> ops[k].color == GREEN
    ensures |ApplyOps(r, ops, ink)| == |r|
    ensures forall y :: 0 <= y < |r| ==> |ApplyOps(r, ops, ink)[y]| == |r[y]|
    ensures var q := ApplyOps(r, ops, ink);
      forall y, x :: 0 <= y < |r| && 0 <= x < |r[y]| ==> q[y][x] == r[y][x] || q[y][x] == GREEN
  {
    ApplyOpsShape(r, ops, ink);
    if ops != [] {
      ApplyOpsPaintsGreen(r, ops[..|ops| - 1], ink);
    }
  }

  lemma AnnotatePaintsGreen(r0: Raster, h: nat, w: nat, boxes: seq<Box>, ocr: Ocr, ink: Ink, n: nat)
    requires IsGrid(r0, h, w) && n <= |boxes|
    ensures IsGrid(ApplyOps(r0, AnnotateBoxes(r0, h, w, boxes, ocr, ink, n).ops, ink), h, w)
    ensures var q := ApplyOps(r0, AnnotateBoxes(r0, h, w, boxes, ocr, ink, n).ops, ink);
      forall y, x :: 0 <= y < h && 0 <= x < w ==> q[y][x] == r0[y][x] || q[y][x] == GREEN
  {
    var a := AnnotateBoxes(r0, h, w, boxes, ocr, ink, n);
    forall k | 0 <= k < |a.ops| ensures a.ops[k].color == GREEN {
      AnnotateDrawsEachBox(r0, h, w, boxes, ocr, ink, n, k / 2);
    }
    ApplyOpsPaintsGreen(r0, a.ops, ink);
  }

  // ---------------------------------------------------------------------
  // The loop

  /** Lines 75-78 for one box: recognise the plate the crop shows now, then
      draw the box's rectangle and its label into the frame, in that order. */
  method AnnotateBox(frame: array2<Pixel>, plate: Crop, box: Box, ocr: Ocr, ink: Ink)
    returns (rect: DrawOp, tag: DrawOp)
    requires plate.base == frame && InFrame(plate)
    modifies frame
    ensures [rect, tag] == BoxOps(box, TextNormalizer.PlateChars(ocr(Pixels(old(RasterOf(frame)), plate.win))))
    ensures RasterOf(frame) == ApplyOp(ApplyOp(old(RasterOf(frame)), rect, ink), tag, ink)
  {
    var text := RecognizeLicensePlate(plate, ocr);
    rect := Rectangle(Point(box.x1, box.y1), Point(box.x2, box.y2), GREEN, THICKNESS);
    Draw(frame, rect, ink);
    tag := PutText(text, Point(box.x1, box.y1 - LABEL_LIFT), FONT_HERSHEY_SIMPLEX, FONT_SCALE, GREEN, THICKNESS);
    Draw(frame, tag, ink);
  }

  /** Lines 72-78 on one frame read from the video: the drawing calls made
      are returned in order, and the frame now holds its old contents with
      exactly those calls applied. */
  method AnnotateFrame(frame: array2<Pixel>, model: Detector, ocr: Ocr, ink: Ink)
    returns (ops: seq<DrawOp>)
    modifies frame
    ensures ops == FrameAnnotation(old(RasterOf(frame)), frame.Length0, frame.Length1, model, ocr, ink).ops
    ensures RasterOf(frame) == ApplyOps(old(RasterOf(frame)), ops, ink)
  {
    ghost var r0 := RasterOf(frame);
    ghost var h, w := frame.Length0, frame.Length1;
    var plates, coordinates := DetectLicensePlate(frame, model);
    ops := [];
    for i := 0 to |coordinates|
      invariant ops == AnnotateBoxes(r0, h, w, coordinates, ocr, ink, i).ops
      invariant RasterOf(frame) == ApplyOps(r0, ops, ink)
    {
      AnnotateAdvance(r0, h, w, coordinates, ocr, ink, i, RasterOf(frame));
      var rect, tag := AnnotateBox(frame, plates[i], coordinates[i], ocr, ink);
      ApplyOpsSnoc2(r0, ops, rect, tag, ink);
      ops := ops + [rect, tag];
    }
  }
}
