# License plate recognition: a Dafny model of the detection and annotation pipeline

This project models the core of the Streamlit license plate app in
`src/streamlit/license_plate/license_plate_app.py`:

- **the text normaliser** that `recognize_license_plate` applies to the raw OCR
  string (`"".join(s.split()).replace(":", "").replace("-", "").strip()`);
- **`detect_license_plate`**, which runs the detector and walks its results and
  their boxes in order, collecting a crop `image[y1:y2, x1:x2]` and the corner
  tuple of every box;
- **the image branch of `main`**, which shows the uploaded image, then for each
  plate its crop captioned `Detected Plate {i+1}`, then the line
  `Detected License Plate Text {i+1}: {text}`;
- **the video branch of `main`**, which reads frames until a read fails. It
  detects on each frame, then for every box in order recognises the crop,
  draws the rectangle and draws the label at `(x1, y1-10)` into the same frame
  buffer. It shows the frame converted to RGB, and releases the capture once
  after the loop.

The detector (YOLO) and the OCR engine (Tesseract) are parameters: a
`Detector` is a function from the frame's pixels to a list of results, each
holding integer boxes, and an `Ocr` is a function from a crop's pixels to a raw
string. The pixels OpenCV's drawing calls cover are likewise a parameter
(`Ink`); a covered pixel takes the call's colour and every other pixel keeps
its value.

## Modules

- `text_normalizer.dfy` (`TextNormalizer`): each Python string operation used
  (`str.split()`, `"".join`, `str.replace`, `str.strip()`, with Python's
  `isspace` set), their chain `Normalize`, and the reference filter
  `PlateChars` it is proved equal to.
- `frames.dfy` (`Frames`): pixels and rasters, Python's slice bounds
  (clamping and empty slices), the window `image[y1:y2, x1:x2]` selects, and
  `cv2.COLOR_BGR2RGB`.
- `detection.dfy` (`Detection`): boxes, detector results, crops as numpy
  views into a frame buffer (their pixels are read from the buffer when they
  are used), and the method `DetectLicensePlate` with its two nested loops.
- `annotation.dfy` (`Annotation`): the drawing calls, in-place drawing into a
  frame buffer (`array2`), the reference function `AnnotateBoxes` for the
  per-box loop, and the methods `AnnotateBox` and `AnnotateFrame`.
- `decimal.dfy` (`Decimal`): the decimal text an f-string prints for a
  non-negative integer, used in the captions.
- `app.dfy` (`App`): the capture (`cv2.VideoCapture`) as a class with a read
  cursor, an open flag and a log of calls; the `st.empty()` slot and the page
  as classes that record what is shown; the image branch `RunImage`; and the
  video loop `RunVideo`.

## Behaviour of the code worth noting

- Degenerate boxes (`x1 >= x2` or `y1 >= y2`) are not skipped. They give an
  empty crop, a coordinate entry, an OCR call, a rectangle and a label
  (`Frames.DegenerateCropIsEmpty`, `Detection.DetectLicensePlate`).
- Boxes are not clipped by the pipeline. The crop is clipped only by Python's
  slice clamping (`Frames.SliceSpan`).
- The label is anchored at `(x1, y1 - 10)` with no clamping to the frame, so
  it may lie above the top edge (`Annotation.AnnotateDrawsEachBox`).
- Annotation draws into the frame the crops are views of, not into a copy. A
  later box's crop is read after the earlier boxes were drawn, and it may show
  those drawings (`Annotation.AnnotateRecognizesDrawnFrame`).
- Nothing is caught. A failing detector or OCR call is not recovered. The
  capture is released only after the loop exits normally, either on a failed
  read or because the capture never opened, in which case it is released
  without any read (`App.RunVideo`, `App.VideoLogReleasesOnce`). An exception
  skips the release.

## Model

| member | source | states |
|---|---|---|
| TextNormalizer.Normalize | src/streamlit/license_plate/license_plate_app.py:27-28 | the normalised text is exactly the raw OCR characters other than whitespace, `:` and `-`, in their original order; no whitespace, `:` or `-` is left |
| TextNormalizer.JoinSplitDropsSpaces | src/streamlit/license_plate/license_plate_app.py:27 | `"".join(s.split())` removes exactly the whitespace characters of `s` and keeps the others in order |
| TextNormalizer.SplitWords | src/streamlit/license_plate/license_plate_app.py:27 | every word `str.split()` returns is non-empty and free of whitespace |
| TextNormalizer.ReplaceDropsChar | src/streamlit/license_plate/license_plate_app.py:27 | `.replace(c, "")` for a one-character `c` deletes every `c` and keeps the other characters in order |
| TextNormalizer.DropsComposeToPlateChars | src/streamlit/license_plate/license_plate_app.py:27 | removing whitespace, then `:`, then `-` is the same as one filter dropping all three |
| TextNormalizer.PlateCharsAreKept | src/streamlit/license_plate/license_plate_app.py:27 | the filtered text contains no whitespace, no `:` and no `-` |
| TextNormalizer.StripWithoutSpaces | src/streamlit/license_plate/license_plate_app.py:28 | the final `strip()` leaves a whitespace-free string unchanged |
| TextNormalizer.PlateCharsOfKept | src/streamlit/license_plate/license_plate_app.py:27-28 | a string made only of kept characters passes the filter unchanged |
| TextNormalizer.NormalizeIdempotent | src/streamlit/license_plate/license_plate_app.py:25-28 | normalising an already normalised text returns it unchanged |
| TextNormalizer.PlateCharsCounts | src/streamlit/license_plate/license_plate_app.py:27 | each kept character occurs in the result as often as in the raw text, and each dropped character not at all |
| TextNormalizer.NormalizeExample | src/streamlit/license_plate/license_plate_app.py:27-28 | `"AB:12-34"` normalises to `"AB1234"` |
| Frames.SliceSpanIsSlice | src/streamlit/license_plate/license_plate_app.py:18 | the clamped bounds select exactly Python's `s[start:stop]`: the items with `start <= k < stop`, in order |
| Frames.CropIsNestedSlice | src/streamlit/license_plate/license_plate_app.py:18 | the crop window selects what `image[y1:y2, x1:x2]` selects: the rows `image[y1:y2]`, each cut to `[x1:x2]` |
| Frames.DegenerateCropIsEmpty | src/streamlit/license_plate/license_plate_app.py:17-18 | `y1 >= y2` gives a crop without rows and `x1 >= x2` gives rows without pixels, with no error |
| Frames.CropInsideImage | src/streamlit/license_plate/license_plate_app.py:18 | a box inside the image crops to `y2-y1` rows of `x2-x1` pixels, crop pixel `(i, j)` being image pixel `(y1+i, x1+j)` |
| Frames.ToRgbInvolution | src/streamlit/license_plate/license_plate_app.py:81 | the BGR-to-RGB conversion only swaps channels: converting twice gives the frame back |
| Detection.DetectLicensePlate | src/streamlit/license_plate/license_plate_app.py:10-22 | the coordinates are every box of every result, results first and then boxes, with none skipped; the two lists have equal length; plate `i` is the view of box `i`'s window on the image; the image is not written |
| Detection.AllBoxesLength | src/streamlit/license_plate/license_plate_app.py:15-20 | there is one entry per box, summed over all results |
| Detection.AllBoxesOrder | src/streamlit/license_plate/license_plate_app.py:15-20 | box `k` of result `j` is the entry right after the boxes of results `0..j-1`: no sorting, no deduplication |
| Annotation.Draw | src/streamlit/license_plate/license_plate_app.py:77-78 | a drawing call changes the frame buffer in place: covered pixels take the call's colour, all others keep their value |
| Annotation.ApplyOpsShape | src/streamlit/license_plate/license_plate_app.py:77-78 | drawing never changes the frame's size |
| Annotation.RecognizeLicensePlate | src/streamlit/license_plate/license_plate_app.py:25-28 | the recognised text is the filtered OCR output of the pixels the crop shows at the moment of the call, and contains no whitespace, `:` or `-` |
| Annotation.AnnotateBoxes | src/streamlit/license_plate/license_plate_app.py:75-78 | after `n` boxes the loop has produced exactly `n` texts and `2n` drawing calls |
| Annotation.ReadPlateFits | src/streamlit/license_plate/license_plate_app.py:18 | on a frame of the right size every box's window fits, so the crop is always defined |
| Annotation.AnnotatePrefix | src/streamlit/license_plate/license_plate_app.py:75-78 | later boxes never change the texts or calls of earlier boxes |
| Annotation.AnnotateDrawsEachBox | src/streamlit/license_plate/license_plate_app.py:77-78 | box `i` gets call `2i`, a green thickness-2 rectangle at its corners, and call `2i+1`, a label with its text at `(x1, y1-10)` without clamping |
| Annotation.AnnotateLastText | src/streamlit/license_plate/license_plate_app.py:75-76 | the last box of a run is recognised on the original frame with the calls of all earlier boxes applied; its window always fits that frame, so the crop is always taken |
| Annotation.AnnotateRecognizesDrawnFrame | src/streamlit/license_plate/license_plate_app.py:75-78 | box `i`'s crop is recognised on the original frame with the calls of boxes `0..i-1` applied and none of its own |
| Annotation.ApplyOpsUncovered | src/streamlit/license_plate/license_plate_app.py:77-78 | a pixel that no call covers keeps its value |
| Annotation.ApplyOpsUncoveredWindow | src/streamlit/license_plate/license_plate_app.py:76-78 | calls that cover no pixel of a window leave the crop of that window as it was |
| Annotation.AnnotateUncoveredCrop | src/streamlit/license_plate/license_plate_app.py:75-78 | when no earlier call covers box `i`'s window, its text is the one the untouched frame gives |
| Annotation.ApplyOpsPaintsGreen | src/streamlit/license_plate/license_plate_app.py:77-78 | green-only calls leave every pixel either as it was or green |
| Annotation.AnnotatePaintsGreen | src/streamlit/license_plate/license_plate_app.py:75-78 | after the loop every pixel of the frame is its original value or green, and the size is unchanged |
| Annotation.AnnotateBox | src/streamlit/license_plate/license_plate_app.py:75-78 | one loop step first recognises the crop on the frame as it is, then draws the rectangle and then the label into the frame |
| Annotation.AnnotateFrame | src/streamlit/license_plate/license_plate_app.py:72-78 | the calls made are those of the reference `AnnotateBoxes` over all detected boxes, and the frame ends up as its old contents with exactly those calls applied in order |
| Decimal.Numeral | src/streamlit/license_plate/license_plate_app.py:52 | the numeral printed for a number is non-empty, all digits, and has no leading zero |
| Decimal.DecimalRoundTrip | src/streamlit/license_plate/license_plate_app.py:52 | reading the printed numeral back gives the number |
| Decimal.CanonicalRoundTrip | src/streamlit/license_plate/license_plate_app.py:52 | every digit string without a leading zero is the numeral of its value |
| Decimal.DecimalInjective | src/streamlit/license_plate/license_plate_app.py:52-54 | different numbers print as different numerals |
| App.VideoCapture.constructor | src/streamlit/license_plate/license_plate_app.py:63 | a new capture is at the first frame, open or not as the file allowed, with no calls made |
| App.VideoCapture.Read | src/streamlit/license_plate/license_plate_app.py:67 | a read succeeds exactly when the capture is open and the next outcome is a decoded frame; a success gives a fresh buffer holding that frame; an open capture moves past the outcome; the call is logged |
| App.VideoCapture.Release | src/streamlit/license_plate/license_plate_app.py:84 | release closes the capture and is logged |
| App.FrameSlot.constructor | src/streamlit/license_plate/license_plate_app.py:64 | the placeholder starts with nothing shown |
| App.FrameSlot.Image | src/streamlit/license_plate/license_plate_app.py:82 | showing a frame appends it to what the placeholder has shown |
| App.Page.Image | src/streamlit/license_plate/license_plate_app.py:50-52 | `st.image` appends a captioned picture to the page |
| App.Page.Write | src/streamlit/license_plate/license_plate_app.py:54 | `st.write` appends a text line to the page |
| App.PlateWidgets | src/streamlit/license_plate/license_plate_app.py:51-54 | each plate adds exactly two page elements |
| App.PlateWidgetsAt | src/streamlit/license_plate/license_plate_app.py:51-54 | plate `i` gives element `2i`, its crop captioned with number `i+1`, and element `2i+1`, the line with number `i+1` and its normalised text |
| App.ImagePageItems | src/streamlit/license_plate/license_plate_app.py:39-54 | the page is the uploaded image captioned `Uploaded Image`, then for each detected box in order its crop captioned `Detected Plate {i+1}` and the line `Detected License Plate Text {i+1}: {text}`; there are `1 + 2n` elements for `n` boxes |
| App.PlateNumbersDistinct | src/streamlit/license_plate/license_plate_app.py:52-54 | two different plates never share a caption or a text line |
| App.NumberedLinesDiffer | src/streamlit/license_plate/license_plate_app.py:54 | text lines with different numbers differ whatever the recognised texts are |
| App.ShowPlate | src/streamlit/license_plate/license_plate_app.py:52-54 | one plate adds its crop with its caption, then its numbered text line |
| App.RunImage | src/streamlit/license_plate/license_plate_app.py:39-54 | the image branch appends exactly the page `ImagePage` describes, and the image is not written |
| App.FramesBeforeFailureStops | src/streamlit/license_plate/license_plate_app.py:66-69 | the frames played are the decoded outcomes in source order, and play stops exactly at the first failed read or at the end |
| App.OutputsAt | src/streamlit/license_plate/license_plate_app.py:80-82 | one output is shown per frame played, in the frames' order |
| App.VideoLogReleasesOnce | src/streamlit/license_plate/license_plate_app.py:66-84 | the capture is released exactly once, as the last call; the only failed read is the one just before the release; a capture that did not open is only released |
| App.FrameOutputPaintsGreen | src/streamlit/license_plate/license_plate_app.py:75-82 | a shown frame has the decoded frame's size, and each of its pixels is the RGB form of the decoded pixel or green |
| App.ShowAnnotated | src/streamlit/license_plate/license_plate_app.py:72-82 | a frame just read is annotated in place, so the buffer ends up as its old contents with the reference calls for all detected boxes applied, and its RGB form is shown |
| App.PlayFrame | src/streamlit/license_plate/license_plate_app.py:67-82 | one loop pass reads once; when the read succeeds, the annotated frame is shown; nothing is shown on a failed read |
| App.RunVideo | src/streamlit/license_plate/license_plate_app.py:56-84 | the loop shows the annotated RGB outputs of exactly the frames before the first failed read, in order; the calls made are that many successful reads, one failed read and one release (only the release if the file did not open); the capture ends closed |

## Left out

- The YOLO model, its loading and inference (lines 11, 36-37), and Tesseract (line 26) are calls into code outside this repository. They become the parameters `Detector` and `Ocr`.
- The float-to-int conversion of box coordinates (line 17) is not modelled. Boxes are given as non-negative integers, so negative Python indices, which would count from the end, do not arise.
- The pixels `cv2.rectangle` and `cv2.putText` cover are not computed: line rasterisation and font rendering are library behaviour. They are the parameter `Ink`, and the calls are recorded with their arguments.
- The Streamlit UI is not modelled. This covers the titles, the sidebar radio that chooses the branch, `use_column_width`, and `st.file_uploader` with its `None` case. Each branch is modelled from the point where a file has been uploaded.
- The temporary file and the actual opening of the video are outside the model. Whether the file opened is the constructor's `isOpen`, and the frames the decoder would produce are given in advance as outcomes.
- The PIL image shown at line 50 and the numpy array at line 44 hold the same pixels here. PIL's own image type is not modelled.
- Frames are 3-channel 8-bit images only. Other channel counts are not modelled.
- Exceptions and their propagation are not modelled. No path through the model raises, and the model has no release on an exception path, which matches the code.
- App.PlayFrame: the loop's read and its processing of the frame are one method, and `RunVideo` breaks on a failed read, as lines 67-69 do.
- src/streamlit/dashboard/dashboard_app.py, src/streamlit/license_plate/app.py and src/front_end/app.py are not part of this model. They consist of pandas and plotting calls, a transformer OCR call, and HTML embedding.
