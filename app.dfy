/** `main`: the image branch (detect on the uploaded image, then show it,
    each plate crop and each plate's text) and the video branch (read frames
    until a read fails, annotate each in place, show it converted to RGB,
    then release the capture). */
module App {
  import opened Frames
  import opened Detection
  import opened Annotation
  import TextNormalizer
  import Decimal

  datatype Option<T> = None | Some(value: T)

  /** What a capture is asked to do, in order. */
  datatype CaptureEvent = ReadCall(ok: bool) | ReleaseCall

  /** `cv2.VideoCapture` on a video file. The decoder's answer to each read
      is fixed in advance: `outcomes[k]` is the frame the `k`-th read
      decodes, or `None` when decoding fails there; reading past the last
      outcome fails too. */
  class VideoCapture {
    const outcomes: seq<Option<Raster>>
    var next: nat
    var isOpen: bool
    var log: seq<CaptureEvent>

    /** Decoded frames are rectangular and `next` counts the reads made. */
    ghost predicate Valid()
      reads this
    {
      next <= |outcomes| &&
      forall k :: 0 <= k < |outcomes| && outcomes[k].Some? ==> IsRect(outcomes[k].value)
    }

    /** A capture on a file; `isOpen` says whether the file could be opened. */
    constructor (outcomes: seq<Option<Raster>>, isOpen: bool)
      requires forall k :: 0 <= k < |outcomes| && outcomes[k].Some? ==> IsRect(outcomes[k].value)
      ensures Valid()
      ensures this.outcomes == outcomes && this.isOpen == isOpen && next == 0 && log == []
    {
      this.outcomes := outcomes;
      this.isOpen := isOpen;
      next := 0;
      log := [];
    }

    /** `cap.isOpened()`. */
    function IsOpened(): bool
      reads this
    {
      isOpen
    }

    /** `cap.read()`: an open capture consumes the next outcome, if any is
      left; the result is a fresh frame buffer holding the decoded frame,
      or failure (`ret` false, no frame). */
    method Read() returns (ok: bool, frame: array2?<Pixel>)
      requires Valid()
      modifies this
      ensures Valid()
      ensures ok <==> old(isOpen && next < |outcomes| && outcomes[next].Some?)
      ensures ok ==> (frame != null && fresh(frame) &&
        frame.Length0 == |outcomes[old(next)].value| && frame.Length1 == Width(outcomes[old(next)].value) &&
        RasterOf(frame) == outcomes[old(next)].value)
      ensures !ok ==> frame == null
      ensures next == if old(isOpen) && old(next) < |outcomes| then old(next) + 1 else old(next)
      ensures isOpen == old(isOpen) && log == old(log) + [ReadCall(ok)]
    {
      ok, frame := false, null;
      if isOpen && next < |outcomes| {
        var outcome := outcomes[next];
        if outcome.Some? {
          var r := outcome.value;
          assert IsRect(r);
          var a := new Pixel[|r|, Width(r)]((i: int, j: int) requires 0 <= i < |r| && 0 <= j < |r[i]| => r[i][j]);
          forall i | 0 <= i < |r| ensures RasterOf(a)[i] == r[i] {
            assert |RasterOf(a)[i]| == |r[i]|;
          }
          ok, frame := true, a;
        }
        next := next + 1;
      }
      log := log + [ReadCall(ok)];
    }

    /** `cap.release()`. */
    method Release()
      requires Valid()
      modifies this
      ensures Valid()
      ensures !isOpen && next == old(next) && log == old(log) + [ReleaseCall]
    {
      isOpen := false;
      log := log + [ReleaseCall];
    }
  }

  /** The `st.empty()` placeholder of the video branch; each `image` call
      replaces what it shows, and `shown` keeps every frame it was given. */
  class FrameSlot {
    var shown: seq<Raster>

    constructor ()
      ensures shown == []
    {
      shown := [];
    }

    /** `stframe.image(frame_rgb, channels="RGB")`. */
    method Image(frame: Raster)
      modifies this
      ensures shown == old(shown) + [frame]
    {
      shown := shown + [frame];
    }
  }

  /** One element the image branch puts on the page. */
  datatype Widget = Picture(pixels: Raster, caption: string) | Text(line: string)

  /** The page of the image branch, element by element. */
  class Page {
    var items: seq<Widget>

    constructor ()
      ensures items == []
    {
      items := [];
    }

    /** `st.image(pixels, caption=caption)`. */
    method Image(pixels: Raster, caption: string)
      modifies this
      ensures items == old(items) + [Picture(pixels, caption)]
    {
      items := items + [Picture(pixels, caption)];
    }

    /** `st.write(line)`. */
    method Write(line: string)
      modifies this
      ensures items == old(items) + [Text(line)]
    {
      items := items + [Text(line)];
    }
  }

  // ---------------------------------------------------------------------
  // The image branch

  const UPLOADED_CAPTION: string := "Uploaded Image"

  /** `f'Detected Plate {i+1}'` for the plate at index `i`. */
  function PlateCaption(i: nat): string {
    "Detected Plate " + Decimal.Numeral(i + 1)
  }

  /** `f"Detected License Plate Text {i+1}: {text}"`. */
  function PlateLine(i: nat, text: string): string {
    "Detected License Plate Text " + Decimal.Numeral(i + 1) + ": " + text
  }

  /** The pixels each box selects on an `h` x `w` image holding `r`, in
      the boxes' order. */
  function PlateCrops(r: Raster, h: nat, w: nat, boxes: seq<Box>): (cs: seq<Raster>)
    requires IsGrid(r, h, w)
    ensures |cs| == |boxes|
  {
    seq(|boxes|, i requires 0 <= i < |boxes| => Pixels(r, WindowOf(boxes[i], h, w)))
  }

  /** What lines 52-54 add for the plate at index `i` showing `p`. */
  function PlateEntry(i: nat, p: Raster, ocr: Ocr): seq<Widget> {
    [Picture(p, PlateCaption(i)), Text(PlateLine(i, TextNormalizer.PlateChars(ocr(p))))]
  }

  /** The widgets for a run of plate crops, first to last. */
  function PlateWidgets(crops: seq<Raster>, ocr: Ocr): (ws: seq<Widget>)
    ensures |ws| == 2 * |crops|
  {
    if crops == [] then []
    else PlateWidgets(crops[..|crops| - 1], ocr) + PlateEntry(|crops| - 1, crops[|crops| - 1], ocr)
  }

  /** The whole page the image branch produces for an uploaded image. */
  function ImagePage(r: Raster, h: nat, w: nat, model: Detector, ocr: Ocr): seq<Widget>
    requires IsGrid(r, h, w)
  {
    [Picture(r, UPLOADED_CAPTION)] + PlateWidgets(PlateCrops(r, h, w, AllBoxes(model(r))), ocr)
  }

  /** Plate `i`'s widgets are element `2i` and `2i+1` of the plate widgets. */
  lemma {:induction false} PlateWidgetsAt(crops: seq<Raster>, ocr: Ocr, i: nat)
    requires i < |crops|
    ensures PlateWidgets(crops, ocr)[2 * i] == Picture(crops[i], PlateCaption(i))
    ensures PlateWidgets(crops, ocr)[2 * i + 1] == Text(PlateLine(i, TextNormalizer.PlateChars(ocr(crops[i]))))
  {
    if i < |crops| - 1 {
      PlateWidgetsAt(crops[..|crops| - 1], ocr, i);
    }
  }

  /** The page holds the uploaded image first, then for each detected box,
      in detector order, its crop captioned with its 1-based number and a
      line with the same number and the plate's normalised OCR text. */
  lemma ImagePageItems(r: Raster, h: nat, w: nat, model: Detector, ocr: Ocr)
    requires IsGrid(r, h, w)
    ensures var page, boxes := ImagePage(r, h, w, model, ocr), AllBoxes(model(r));
      |page| == 1 + 2 * |boxes| && page[0] == Picture(r, "Uploaded Image") &&
      forall i :: 0 <= i < |boxes| ==>
        var p := Pixels(r, WindowOf(boxes[i], h, w));
        page[1 + 2 * i] == Picture(p, "Detected Plate " + Decimal.Numeral(i + 1)) &&
        page[2 + 2 * i] == Text("Detected License Plate Text " + Decimal.Numeral(i + 1) + ": " +
                                TextNormalizer.Normalize(ocr(p)))
  {
    var boxes := AllBoxes(model(r));
    var page := ImagePage(r, h, w, model, ocr);
    var crops := PlateCrops(r, h, w, boxes);
    forall i | 0 <= i < |boxes|
      ensures var p := Pixels(r, WindowOf(boxes[i], h, w));
        page[1 + 2 * i] == Picture(p, "Detected Plate " + Decimal.Numeral(i + 1)) &&
        page[2 + 2 * i] == Text("Detected License Plate Text " + Decimal.Numeral(i + 1) + ": " +
                                TextNormalizer.Normalize(ocr(p)))
    {
      PlateWidgetsAt(crops, ocr, i);
    }
  }

  /** No two plates share a caption or a text line. */
  lemma PlateNumbersDistinct(i: nat, j: nat, s: string, t: string)
    requires i != j
    ensures PlateCaption(i) != PlateCaption(j)
    ensures PlateLine(i, s) != PlateLine(j, t)
  {
    var di, dj := Decimal.Numeral(i + 1), Decimal.Numeral(j + 1);
    if di == dj {
      Decimal.DecimalInjective(i + 1, j + 1);
    }
    var lead := "Detected Plate ";
    assert (lead + di)[|lead|..] == di && (lead + dj)[|lead|..] == dj;
    NumberedLinesDiffer("Detected License Plate Text ", di, dj, s, t);
  }

  /** Two lines `lead + d + ": " + text` with different canonical numerals
      `d` differ: they differ at the first place the numerals do, or the
      shorter numeral is followed by `:` where the longer has a digit. */
  lemma NumberedLinesDiffer(lead: string, d: string, e: string, s: string, t: string)
    requires d != e && Decimal.IsCanonical(d) && Decimal.IsCanonical(e)
    ensures lead + d + ": " + s != lead + e + ": " + t
  {
    var x, y := lead + d + ": " + s, lead + e + ": " + t;
    var n := |lead|;
    if |d| == |e| {
      var k :| 0 <= k < |d| && d[k] != e[k];
      assert x[n + k] == d[k] && y[n + k] == e[k];
    } else if |d| < |e| {
      assert x[n + |d|] == ':' && y[n + |d|] == e[|d|];
    } else {
      assert y[n + |e|] == ':' && x[n + |e|] == d[|e|];
    }
  }

  /** Lines 52-54 for the plate at index `i`: show its crop, then the line
      with its recognised text. */
  method ShowPlate(page: Page, plate: Crop, i: nat, ocr: Ocr)
    requires InFrame(plate)
    modifies page
    ensures page.items == old(page.items) + PlateEntry(i, CropPixels(plate), ocr)
  {
    page.Image(CropPixels(plate), PlateCaption(i));
    var text := RecognizeLicensePlate(plate, ocr);
    page.Write(PlateLine(i, text));
  }

  /** Lines 39-54 once an image has been uploaded: detect first, then show
      the image, and for each plate its crop, then its recognised text. The
      image itself is only read. */
  method RunImage(image: array2<Pixel>, model: Detector, ocr: Ocr, page: Page)
    modifies page
    ensures page.items == old(page.items) + ImagePage(RasterOf(image), image.Length0, image.Length1, model, ocr)
  {
    ghost var r, h, w := RasterOf(image), image.Length0, image.Length1;
    var plates, coordinates := DetectLicensePlate(image, model);
    ghost var crops := PlateCrops(r, h, w, coordinates);
    ghost var head := [Picture(r, UPLOADED_CAPTION)];
    page.Image(RasterOf(image), UPLOADED_CAPTION);
    assert page.items == old(page.items) + (head + PlateWidgets(crops[..0], ocr));
    for i := 0 to |plates|
      invariant page.items == old(page.items) + (head + PlateWidgets(crops[..i], ocr))
    {
      ghost var done := PlateWidgets(crops[..i], ocr);
      ghost var entry := PlateEntry(i, crops[i], ocr);
      PlateWidgetsSnoc(crops, i, ocr);
      assert CropPixels(plates[i]) == crops[i];
      ShowPlate(page, plates[i], i, ocr);
      Concat3(old(page.items), head + done, entry);
      Concat3(head, done, entry);
    }
    assert crops[..|plates|] == crops;
  }

  lemma PlateWidgetsSnoc(crops: seq<Raster>, i: nat, ocr: Ocr)
    requires i < |crops|
    ensures PlateWidgets(crops[..i + 1], ocr) == PlateWidgets(crops[..i], ocr) + PlateEntry(i, crops[i], ocr)
  {
    assert crops[..i + 1][..i] == crops[..i];
  }

  /** Concatenation is associative. */
  lemma Concat3<T>(a: seq<T>, b: seq<T>, c: seq<T>)
    ensures (a + b) + c == a + (b + c)
  {
  }

  // ---------------------------------------------------------------------
  // The video branch

  /** The frames a capture delivers before its first failed read: the
      decoded frames up to the first `None` or the end. */
  function FramesBeforeFailure(outs: seq<Option<Raster>>): seq<Raster>
  {
    if outs == [] || outs[0].None? then [] else [outs[0].value] + FramesBeforeFailure(outs[1..])
  }

  /** The frames are the decoded outcomes, in order, and stop exactly at
      the first failure: the outcome after the last frame, if any, is
      `None`. */
  lemma {:induction false} FramesBeforeFailureStops(outs: seq<Option<Raster>>)
    ensures var fs := FramesBeforeFailure(outs);
      |fs| <= |outs| && (forall k :: 0 <= k < |fs| ==> outs[k] == Some(fs[k])) &&
      (|fs| == |outs| || outs[|fs|].None?)
  {
    if outs != [] && outs[0].Some? {
      FramesBeforeFailureStops(outs[1..]);
    }
  }

  /** The frames the loop processes: none when the file did not open. */
  function Played(isOpen: bool, outs: seq<Option<Raster>>): seq<Raster> {
    if isOpen then FramesBeforeFailure(outs) else []
  }

  /** What the loop shows for one decoded frame `r`: the frame with the
      rectangles and labels of every detected box drawn in, in RGB order. */
  function FrameOutput(r: Raster, model: Detector, ocr: Ocr, ink: Ink): Raster
  {
    ToRgb(ApplyOps(r, FrameAnnotation(r, |r|, Width(r), model, ocr, ink).ops, ink))
  }

  /** The outputs for a run of frames, first to last. */
  function Outputs(frames: seq<Raster>, model: Detector, ocr: Ocr, ink: Ink): seq<Raster>
  {
    if frames == [] then []
    else Outputs(frames[..|frames| - 1], model, ocr, ink) + [FrameOutput(frames[|frames| - 1], model, ocr, ink)]
  }

  /** One output per frame, in the frames' order. */
  lemma {:induction false} OutputsAt(frames: seq<Raster>, model: Detector, ocr: Ocr, ink: Ink)
    ensures |Outputs(frames, model, ocr, ink)| == |frames|
    ensures forall k :: 0 <= k < |frames| ==> Outputs(frames, model, ocr, ink)[k] == FrameOutput(frames[k], model, ocr, ink)
  {
    if frames != [] {
      OutputsAt(frames[..|frames| - 1], model, ocr, ink);
    }
  }

  /** `n` successful reads. */
  function Successes(n: nat): seq<CaptureEvent> {
    if n == 0 then [] else Successes(n - 1) + [ReadCall(true)]
  }

  lemma {:induction false} SuccessesAll(n: nat)
    ensures |Successes(n)| == n && forall k :: 0 <= k < n ==> Successes(n)[k] == ReadCall(true)
  {
    if n > 0 {
      SuccessesAll(n - 1);
    }
  }

  /** What the video branch asks of a capture that delivers `n` frames. */
  function VideoLog(isOpen: bool, n: nat): seq<CaptureEvent> {
    if isOpen then Successes(n) + [ReadCall(false), ReleaseCall] else [ReleaseCall]
  }

  /** The capture is released exactly once, after its last read; the only
      failed read is the one just before the release, and there is none
      when the file did not open. */
  lemma VideoLogReleasesOnce(isOpen: bool, n: nat)
    ensures var log := VideoLog(isOpen, n);
      |log| > 0 && log[|log| - 1] == ReleaseCall &&
      (forall k :: 0 <= k < |log| - 1 ==> log[k] != ReleaseCall) &&
      (forall k :: 0 <= k < |log| - 1 && log[k] == ReadCall(false) ==> isOpen && k == |log| - 2) &&
      |log| == if isOpen then n + 2 else 1
  {
    SuccessesAll(n);
  }

  /** Every pixel shown is the RGB form of the decoded pixel or green, and
      the shown frame has the decoded frame's size. */
  lemma FrameOutputPaintsGreen(r: Raster, model: Detector, ocr: Ocr, ink: Ink)
    requires IsRect(r)
    ensures var q := FrameOutput(r, model, ocr, ink);
      IsGrid(q, |r|, Width(r)) &&
      forall y, x :: 0 <= y < |r| && 0 <= x < Width(r) ==>
        q[y][x] == SwapRedBlue(r[y][x]) || q[y][x] == Pixel(0, 255, 0)
  {
    var boxes := AllBoxes(model(r));
    AnnotatePaintsGreen(r, |r|, Width(r), boxes, ocr, ink, |boxes|);
  }

  lemma FramesStep(outs: seq<Option<Raster>>, at: nat)
    requires at < |outs| && outs[at].Some?
    ensures FramesBeforeFailure(outs[at..]) == [outs[at].value] + FramesBeforeFailure(outs[at + 1..])
  {
    assert outs[at..][1..] == outs[at + 1..];
  }

  lemma FramesEnd(outs: seq<Option<Raster>>, at: nat)
    requires at <= |outs| && (at == |outs| || outs[at].None?)
    ensures FramesBeforeFailure(outs[at..]) == []
  {
  }

  lemma OutputsSnoc(frames: seq<Raster>, r: Raster, model: Detector, ocr: Ocr, ink: Ink)
    ensures Outputs(frames + [r], model, ocr, ink) == Outputs(frames, model, ocr, ink) + [FrameOutput(r, model, ocr, ink)]
  {
    assert (frames + [r])[..|frames|] == frames;
  }

  /** Lines 72-82 on a frame just read: annotate it in place, then show
      its RGB conversion. */
  method ShowAnnotated(frame: array2<Pixel>, slot: FrameSlot, model: Detector, ocr: Ocr, ink: Ink)
    requires frame.Length1 == Width(RasterOf(frame))
    modifies frame, slot
    ensures RasterOf(frame) == ApplyOps(old(RasterOf(frame)),
      FrameAnnotation(old(RasterOf(frame)), frame.Length0, frame.Length1, model, ocr, ink).ops, ink)
    ensures slot.shown == old(slot.shown) + [FrameOutput(old(RasterOf(frame)), model, ocr, ink)]
  {
    var ops := AnnotateFrame(frame, model, ocr, ink);
    slot.Image(ToRgb(RasterOf(frame)));
  }

  /** Lines 67-82, one pass of the loop body: read a frame and, when one
      came, annotate and show it. `ok` is the `ret` of the read. */
  method PlayFrame(cap: VideoCapture, slot: FrameSlot, model: Detector, ocr: Ocr, ink: Ink) returns (ok: bool)
    requires cap.Valid() && cap.isOpen
    modifies cap, slot
    ensures cap.Valid() && cap.isOpen
    ensures ok <==> old(cap.next) < |cap.outcomes| && cap.outcomes[old(cap.next)].Some?
    ensures cap.next == Min(old(cap.next) + 1, |cap.outcomes|)
    ensures cap.log == old(cap.log) + [ReadCall(ok)]
    ensures slot.shown == old(slot.shown) +
      if ok then [FrameOutput(cap.outcomes[old(cap.next)].value, model, ocr, ink)] else []
  {
    var frame;
    ok, frame := cap.Read();
    if ok {
      ShowAnnotated(frame, slot, model, ocr, ink);
    }
  }

  /** Lines 56-84 once a video has been uploaded and a capture opened on
      it: while the capture is open, read a frame, stop at the first failed
      read, annotate the frame in place and show it in RGB; then release. */
  method RunVideo(cap: VideoCapture, slot: FrameSlot, model: Detector, ocr: Ocr, ink: Ink)
    requires cap.Valid()
    modifies cap, slot
    ensures cap.Valid() && !cap.isOpen
    ensures var played := Played(old(cap.isOpen), cap.outcomes[old(cap.next)..]);
      slot.shown == old(slot.shown) + Outputs(played, model, ocr, ink) &&
      cap.log == old(cap.log) + VideoLog(old(cap.isOpen), |played|) &&
      cap.next == if old(cap.isOpen) then Min(old(cap.next) + |played| + 1, |cap.outcomes|) else old(cap.next)
  {
    ghost var start := cap.next;
    ghost var outs := cap.outcomes[start..];
    ghost var done: seq<Raster> := [];
    ghost var failed := false;
    while cap.IsOpened()
      invariant cap.Valid() && cap.isOpen == old(cap.isOpen) && !failed
      invariant start <= cap.next && cap.next - start == |done|
      invariant !cap.isOpen ==> done == []
      invariant cap.isOpen ==> FramesBeforeFailure(outs) == done + FramesBeforeFailure(cap.outcomes[cap.next..])
      invariant slot.shown == old(slot.shown) + Outputs(done, model, ocr, ink)
      invariant cap.log == old(cap.log) + Successes(|done|)
      decreases |cap.outcomes| - cap.next
    {
      ghost var at := cap.next;
      var ok := PlayFrame(cap, slot, model, ocr, ink);
      if !ok {
        FramesEnd(cap.outcomes, at);
        assert FramesBeforeFailure(outs) == done;
        assert cap.next == Min(start + |done| + 1, |cap.outcomes|);
        assert cap.log == old(cap.log) + Successes(|done|) + [ReadCall(false)];
        failed := true;
        break;
      }
      ghost var r := cap.outcomes[at].value;
      FramesStep(cap.outcomes, at);
      Concat3(done, [r], FramesBeforeFailure(cap.outcomes[cap.next..]));
      OutputsSnoc(done, r, model, ocr, ink);
      Concat3(old(slot.shown), Outputs(done, model, ocr, ink), [FrameOutput(r, model, ocr, ink)]);
      Concat3(old(cap.log), Successes(|done|), [ReadCall(true)]);
      done := done + [r];
    }
    assert failed == old(cap.isOpen);
    assert Played(old(cap.isOpen), outs) == done;
    ghost var logged := cap.log;
    cap.Release();
    if failed {
      ghost var taken := Successes(|done|);
      Concat3(old(cap.log), taken, [ReadCall(false)]);
      Concat3(old(cap.log), taken + [ReadCall(false)], [ReleaseCall]);
      assert (taken + [ReadCall(false)]) + [ReleaseCall] == taken + [ReadCall(false), ReleaseCall];
    }
  }
}
