/** Frames as the application holds them: a height x width grid of
    3-channel 8-bit pixels (a numpy array), the bounds of a Python slice,
    the window `image[y1:y2, x1:x2]` selects, and OpenCV's BGR-to-RGB
    conversion. */
module Frames {

  type Channel = x: int | 0 <= x < 256

  /** One pixel; in a frame read by OpenCV the channels are blue, green, red. */
  datatype Pixel = Pixel(c0: Channel, c1: Channel, c2: Channel)

  /** The contents of a frame, row by row. */
  type Raster = seq<seq<Pixel>>

  function Min(a: int, b: int): int { if a <= b then a else b }

  function Max(a: int, b: int): int { if a <= b then b else a }

  /** `r` has `h` rows of `w` pixels each. */
  predicate IsGrid(r: Raster, h: nat, w: nat) {
    |r| == h && forall i :: 0 <= i < h ==> |r[i]| == w
  }

  /** The length of the first row (0 for a raster without rows). */
  function Width(r: Raster): nat {
    if r == [] then 0 else |r[0]|
  }

  /** All rows have the same length. */
  predicate IsRect(r: Raster) {
    IsGrid(r, |r|, Width(r))
  }

  /** The current contents of a frame buffer. */
  function RasterOf(a: array2<Pixel>): (r: Raster)
    reads a
    ensures IsGrid(r, a.Length0, a.Length1)
    ensures forall i, j :: 0 <= i < a.Length0 && 0 <= j < a.Length1 ==> r[i][j] == a[i, j]
  {
    seq(a.Length0, i requires 0 <= i < a.Length0 reads a =>
      seq(a.Length1, j requires 0 <= j < a.Length1 reads a => a[i, j]))
  }

  // ---------------------------------------------------------------------
  // Python slicing

  /** The half-open index range `lo..hi-1` of a slice. */
  datatype Span = Span(lo: nat, hi: nat)

  /** Bounds of the slice `s[start:stop]` of a length-`n` sequence, for
      non-negative `start` and `stop`: both ends are clamped to `n`, and the
      slice is empty when `start >= stop`. */
  function SliceSpan(start: nat, stop: nat, n: nat): (sp: Span)
    ensures sp.lo <= sp.hi <= n
  {
    var lo := Min(start, n);
    Span(lo, Max(lo, Min(stop, n)))
  }

  /** Python's definition of `s[start:stop]`: the items of `s` whose index
      `k` satisfies `start <= k < stop`, in order. */
  function SliceRef<T>(s: seq<T>, start: nat, stop: nat): seq<T> {
    if s == [] then []
    else SliceRef(s[..|s| - 1], start, stop) +
         (if start <= |s| - 1 < stop then [s[|s| - 1]] else [])
  }

  /** The clamped bounds select exactly Python's slice. */
  lemma {:induction false} SliceSpanIsSlice<T>(s: seq<T>, start: nat, stop: nat)
    ensures var sp := SliceSpan(start, stop, |s|);
      SliceRef(s, start, stop) == s[sp.lo..sp.hi]
  {
    if s != [] {
      var n := |s|;
      var init := s[..n - 1];
      SliceSpanIsSlice(init, start, stop);
      var sp, sp' := SliceSpan(start, stop, n), SliceSpan(start, stop, n - 1);
      if start <= n - 1 < stop {
        assert sp == Span(start, n) && sp' == Span(start, n - 1);
        assert s[start..n] == init[start..n - 1] + [s[n - 1]];
      } else if n - 1 < start {
        assert sp.lo == sp.hi;
      } else {
        assert sp == sp';
        assert s[sp.lo..sp.hi] == init[sp'.lo..sp'.hi];
      }
    }
  }

  // ---------------------------------------------------------------------
  // Crop windows

  /** The rows and columns a two-dimensional slice selects. */
  datatype Window = Window(rows: Span, cols: Span)

  /** The window of `image[y1:y2, x1:x2]` on an `h` x `w` image. */
  function CropWindow(x1: nat, y1: nat, x2: nat, y2: nat, h: nat, w: nat): (win: Window)
    ensures win.rows.lo <= win.rows.hi <= h && win.cols.lo <= win.cols.hi <= w
  {
    Window(SliceSpan(y1, y2, h), SliceSpan(x1, x2, w))
  }

  /** `win` lies inside the rows of `r`. */
  predicate Fits(r: Raster, win: Window) {
    win.rows.lo <= win.rows.hi <= |r| && win.cols.lo <= win.cols.hi &&
    forall i :: win.rows.lo <= i < win.rows.hi ==> win.cols.hi <= |r[i]|
  }

  /** The pixels of `r` inside `win`. */
  function Pixels(r: Raster, win: Window): (p: Raster)
    requires Fits(r, win)
    ensures IsGrid(p, win.rows.hi - win.rows.lo, win.cols.hi - win.cols.lo)
  {
    seq(win.rows.hi - win.rows.lo, i requires 0 <= i < win.rows.hi - win.rows.lo =>
      r[win.rows.lo + i][win.cols.lo..win.cols.hi])
  }

  /** Column slice `row[x1:x2]` of every row. */
  function SliceEachRow(rows: Raster, x1: nat, x2: nat): (q: Raster)
    ensures |q| == |rows|
  {
    seq(|rows|, i requires 0 <= i < |rows| => SliceRef(rows[i], x1, x2))
  }

  /** The window of a crop selects what numpy's `image[y1:y2, x1:x2]`
      selects: the rows `image[y1:y2]`, each cut to `[x1:x2]`. */
  lemma CropIsNestedSlice(r: Raster, h: nat, w: nat, x1: nat, y1: nat, x2: nat, y2: nat)
    requires IsGrid(r, h, w)
    ensures Pixels(r, CropWindow(x1, y1, x2, y2, h, w)) == SliceEachRow(SliceRef(r, y1, y2), x1, x2)
  {
    var win := CropWindow(x1, y1, x2, y2, h, w);
    var p := Pixels(r, win);
    SliceSpanIsSlice(r, y1, y2);
    var rows := SliceRef(r, y1, y2);
    var q := SliceEachRow(rows, x1, x2);
    assert |p| == |q|;
    forall i | 0 <= i < |p| ensures p[i] == q[i] {
      var row := r[win.rows.lo + i];
      assert rows[i] == row;
      SliceSpanIsSlice(row, x1, x2);
      assert p[i] == row[win.cols.lo..win.cols.hi];
    }
  }

  /** A box with `y1 >= y2` gives a crop without rows; one with `x1 >= x2`
      gives rows without pixels. Neither is an error. */
  lemma DegenerateCropIsEmpty(r: Raster, h: nat, w: nat, x1: nat, y1: nat, x2: nat, y2: nat)
    requires IsGrid(r, h, w)
    ensures y1 >= y2 ==> Pixels(r, CropWindow(x1, y1, x2, y2, h, w)) == []
    ensures x1 >= x2 ==> forall i :: 0 <= i < |Pixels(r, CropWindow(x1, y1, x2, y2, h, w))| ==>
      Pixels(r, CropWindow(x1, y1, x2, y2, h, w))[i] == []
  {
  }

  /** A box inside the image crops to exactly `y2 - y1` rows of `x2 - x1`
      pixels, row `i` and column `j` of the crop being pixel `(y1 + i, x1 + j)`. */
  lemma CropInsideImage(r: Raster, h: nat, w: nat, x1: nat, y1: nat, x2: nat, y2: nat)
    requires IsGrid(r, h, w)
    requires x1 <= x2 <= w && y1 <= y2 <= h
    ensures var p := Pixels(r, CropWindow(x1, y1, x2, y2, h, w));
      IsGrid(p, y2 - y1, x2 - x1) &&
      forall i, j :: 0 <= i < y2 - y1 && 0 <= j < x2 - x1 ==> p[i][j] == r[y1 + i][x1 + j]
  {
  }

  // ---------------------------------------------------------------------
  // Colour conversion

  /** `cv2.COLOR_BGR2RGB` on one pixel: the first and last channel swap. */
  function SwapRedBlue(p: Pixel): Pixel {
    Pixel(p.c2, p.c1, p.c0)
  }

  /** `cv2.cvtColor(frame, cv2.COLOR_BGR2RGB)`. */
  function ToRgb(r: Raster): (q: Raster)
    ensures |q| == |r| && forall i :: 0 <= i < |r| ==> |q[i]| == |r[i]|
  {
    seq(|r|, i requires 0 <= i < |r| =>
      seq(|r[i]|, j requires 0 <= j < |r[i]| => SwapRedBlue(r[i][j])))
  }

  /** Converting twice gives the original frame back. */
  lemma ToRgbInvolution(r: Raster)
    ensures ToRgb(ToRgb(r)) == r
  {
    var q := ToRgb(ToRgb(r));
    forall i | 0 <= i < |r| ensures q[i] == r[i] {
      assert |q[i]| == |r[i]|;
    }
  }
}
