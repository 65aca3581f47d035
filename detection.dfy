/** `detect_license_plate`: run the detector on an image, then walk its
    results and their boxes in order, collecting for each box a crop of the
    image and the box's corners. */
module Detection {
  import opened Frames

  /** One detected box, `box.xyxy[0]` converted to integers: left, top,
      right and bottom edge in pixels. */
  datatype Box = Box(x1: nat, y1: nat, x2: nat, y2: nat)

  /** One element of the detector's output, with its `boxes`. */
  datatype DetectionResult = DetectionResult(boxes: seq<Box>)

  /** The detection model, called on the image's contents. */
  type Detector = Raster -> seq<DetectionResult>

  /** A crop is a numpy view into `base`, not a copy: its pixels are what
      `base` holds at the moment they are read. */
  datatype Crop = Crop(base: array2<Pixel>, win: Window)

  /** The window `image[y1:y2, x1:x2]` selects on an `h` x `w` image. */
  function WindowOf(b: Box, h: nat, w: nat): (win: Window)
    ensures win.rows.lo <= win.rows.hi <= h && win.cols.lo <= win.cols.hi <= w
  {
    CropWindow(b.x1, b.y1, b.x2, b.y2, h, w)
  }

  /** The window of a crop lies inside the frame it views. */
  predicate InFrame(c: Crop) {
    c.win.rows.lo <= c.win.rows.hi <= c.base.Length0 &&
    c.win.cols.lo <= c.win.cols.hi <= c.base.Length1
  }

  /** The pixels a crop shows now. */
  function CropPixels(c: Crop): (p: Raster)
    reads c.base
    requires InFrame(c)
    ensures IsGrid(p, c.win.rows.hi - c.win.rows.lo, c.win.cols.hi - c.win.cols.lo)
  {
    Pixels(RasterOf(c.base), c.win)
  }

  /** Every box of every result, results first, then boxes. */
  function AllBoxes(rs: seq<DetectionResult>): seq<Box> {
    if rs == [] then [] else AllBoxes(rs[..|rs| - 1]) + rs[|rs| - 1].boxes
  }

  /** The number of boxes the results hold together. */
  function BoxCount(rs: seq<DetectionResult>): nat {
    if rs == [] then 0 else |rs[0].boxes| + BoxCount(rs[1..])
  }

  lemma {:induction false} BoxCountSnoc(rs: seq<DetectionResult>, r: DetectionResult)
    ensures BoxCount(rs + [r]) == BoxCount(rs) + |r.boxes|
  {
    if rs == [] {
      assert [] + [r] == [r];
      assert [r][1..] == [];
    } else {
      assert (rs + [r])[1..] == rs[1..] + [r];
      BoxCountSnoc(rs[1..], r);
    }
  }

  /** No box is dropped or added: one entry per box summed over all results. */
  lemma {:induction false} AllBoxesLength(rs: seq<DetectionResult>)
    ensures |AllBoxes(rs)| == BoxCount(rs)
  {
    if rs != [] {
      var n := |rs|;
      AllBoxesLength(rs[..n - 1]);
      BoxCountSnoc(rs[..n - 1], rs[n - 1]);
      assert rs[..n - 1] + [rs[n - 1]] == rs;
    }
  }

  /** Box `k` of result `j` sits right after the boxes of results `0..j-1`:
      no sorting, no deduplication. */
  lemma {:induction false} AllBoxesOrder(rs: seq<DetectionResult>, j: nat, k: nat)
    requires j < |rs| && k < |rs[j].boxes|
    ensures |AllBoxes(rs[..j])| + k < |AllBoxes(rs)|
    ensures AllBoxes(rs)[|AllBoxes(rs[..j])| + k] == rs[j].boxes[k]
  {
    var n := |rs|;
    if j == n - 1 {
    } else {
      AllBoxesOrder(rs[..n - 1], j, k);
      assert rs[..n - 1][..j] == rs[..j];
    }
  }

  /** The two lists `detect_license_plate` returns: `plates[i]` is the view
      `image[y1:y2, x1:x2]` of box `i` and `coordinates[i]` its corners,
      taken from the detector's output in order, degenerate boxes included.
      The image is only read. */
  method DetectLicensePlate(image: array2<Pixel>, model: Detector)
    returns (plates: seq<Crop>, coordinates: seq<Box>)
    ensures coordinates == AllBoxes(model(RasterOf(image)))
    ensures |plates| == |coordinates|
    ensures forall i :: 0 <= i < |plates| ==>
      plates[i] == Crop(image, WindowOf(coordinates[i], image.Length0, image.Length1))
  {
    var results := model(RasterOf(image));
    plates, coordinates := [], [];
    for j := 0 to |results|
      invariant coordinates == AllBoxes(results[..j])
      invariant |plates| == |coordinates|
      invariant forall i :: 0 <= i < |plates| ==>
        plates[i] == Crop(image, WindowOf(coordinates[i], image.Length0, image.Length1))
    {
      var boxes := results[j].boxes;
      for k := 0 to |boxes|
        invariant coordinates == AllBoxes(results[..j]) + boxes[..k]
        invariant |plates| == |coordinates|
        invariant forall i :: 0 <= i < |plates| ==>
          plates[i] == Crop(image, WindowOf(coordinates[i], image.Length0, image.Length1))
      {
        var box := boxes[k];
        plates := plates + [Crop(image, WindowOf(box, image.Length0, image.Length1))];
        coordinates := coordinates + [box];
        assert boxes[..k + 1] == boxes[..k] + [box];
      }
      assert results[..j + 1][..j] == results[..j];
      assert boxes[..|boxes|] == boxes;
    }
    assert results[..|results|] == results;
  }
}
