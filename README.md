# TextScanner: a Dafny model of the scanner window's core

`printed_test_scanner.py` is one PyQt window, `TextScanner`. It loads a still
image or shows a live camera feed in a fixed 800x600 label. The user can drag a
region of interest (ROI) on the label, run Tesseract OCR over the ROI or the
whole image, and save the recognised text. OCR also draws green boxes around
the confidently recognised words, straight into the working image.

This project models the part of that window that has logic in it:

- `geometry.dfy` (module `Geometry`): the coordinate arithmetic. It covers:
  - fitting the image into the label (`show_image`);
  - turning a drag on the label into a source-pixel ROI (`end_roi`);
  - mapping the ROI back onto the label (`draw_roi_overlay`).

  The program's scale ratios are floating point. Here they are exact
  rationals, so `int(c * a / b)` becomes `TruncDiv(c * a, b)`: exact division,
  then truncation toward zero.
- `slicing.dfy` (module `Slicing`): Python/numpy basic slicing of one axis, as
  `run_ocr` uses it for `image[y1:y2, x1:x2]`. A negative bound counts from the
  end, bounds are clamped to the axis, and a slice whose stop is before its
  start is empty.
- `raster.dfy` (module `Raster`): pixel buffers as `array2<Pixel>` in numpy's
  [row, column] order, read as values by `Cells`. It also holds the in-place
  operations `run_ocr` performs:
  - copying the crop;
  - drawing the word boxes into the copy in a loop;
  - pasting the copy back into the ROI slice.

  Drawing one box is modelled as painting the two corners passed to
  `cv2.rectangle` in the box colour (0, 255, 0).
- `scanner.dfy` (module `Scanner`): the window's session state as the class
  `TextScanner`. Its fields are `image`, `display` (the size of
  `display_image`), `roi`, `origin`, `isCameraRunning`, `timerActive`, `video`
  and `text`. There is one method per slot. `Valid()` is the invariant the slots
  keep: the camera runs exactly when the timer is active and the capture is
  open, and a display size exists only for a loaded, non-empty image.
- `options.dfy`: `Option`, standing for Python's `None`.

Everything outside the program is a parameter:

- the path the file dialog returned (empty when cancelled);
- the decoded image (null when `cv2.imread` failed);
- whether the camera opened;
- each frame read;
- the OCR engine, as two functions from the crop to an optional result, where
  `None` means the engine raised.

The methods `SelectionScenario` and `CameraScenario` walk the object through
two example sessions:

- a 1600x1200 image shown at 800x600 with a drag from (10,10) to (110,60)
  stores the ROI (20,20,220,120);
- a click without a drag gives an ROI that OCR rejects;
- a failed camera open leaves an unopened capture in `video`;
- stopping the camera twice is the same as stopping it once.

Behaviour of the code that a reader may not expect:

- `load_image` does not clear the ROI, and neither does `start_camera`.
- The ROI is not clipped to the image. A corner dragged outside the label can
  make a coordinate negative, and a negative bound then counts from the far
  edge (`Slicing.NegativeBoundWraps`).
- The word boxes are drawn into `self.image` itself. Repeated OCR runs
  therefore accumulate them.
- After a failed camera open, `video` keeps the unopened capture, because
  `stop_camera` only acts while the camera is running.
- The label round trip is guaranteed to stay within one pixel when the
  display is at most one pixel larger than the image (`Geometry.RoundTrip`).
  When the image was enlarged by more than that, a round trip can lose more
  (`Geometry.RoundTripLossWhenEnlarged`).
- A press at label position (0, 0) is Qt's null point, so a drag starting there
  commits nothing.

## Model

| member | source | states |
|---|---|---|
| Geometry.TruncDiv | printed_test_scanner.py:163 | `int()` of an exact quotient: `|q|*b <= |a| < (|q|+1)*b`, and q has the sign of a (truncation toward zero) |
| Geometry.Scale | printed_test_scanner.py:130 | the scale factor is positive, at most both 800/w and 600/h, and equal to one of them (their minimum) |
| Geometry.FitSize | printed_test_scanner.py:129-131 | the display size fits the label (width <= 800, height <= 600) and one side meets its bound exactly |
| Geometry.FitSizeIsScaledAndTruncated | printed_test_scanner.py:129-131 | FitSize equals `(int(w*s), int(h*s))` with `s = min(800/w, 600/h)` in exact arithmetic |
| Geometry.FitShrinksExactlyLargeImages | printed_test_scanner.py:129-131 | both sides shrink iff the image is at least 800 wide or 600 tall; a smaller image is enlarged on both sides |
| Geometry.ToSource | printed_test_scanner.py:155-163 | the source coordinate is `int(c*image/display)`: `|s|*display <= |c*image| < (|s|+1)*display`, with the sign of c |
| Geometry.ToDisplay | printed_test_scanner.py:173-176 | the label coordinate is `int(c*display/image)`: `|d|*image <= |c*display| < (|d|+1)*image`, with the sign of c |
| Geometry.ToDisplayMonotone | printed_test_scanner.py:173-176 | mapping source coordinates to the label keeps their order |
| Geometry.BackMap | printed_test_scanner.py:173-176 | the outline of a normalised ROI is normalised again (x1 <= x2, y1 <= y2) |
| Geometry.ToSourceMonotone | printed_test_scanner.py:155-163 | scaling a label coordinate to the source and truncating keeps order |
| Geometry.NormaliseDrag | printed_test_scanner.py:158-161 | the drag rectangle is the per-axis min and max of the two corners: normalised, and each corner is one of the inputs |
| Geometry.QtBand | printed_test_scanner.py:147 | Qt 5's `QRect(a, b).normalized()`: each axis keeps its two end points, and afterwards its width `x2 - x1 + 1` is non-negative |
| Geometry.BandIsDrag | printed_test_scanner.py:147 | the rubber band equals the normalised drag exactly when the pointer is not one pixel left of or above the press |
| Geometry.CommitRoi | printed_test_scanner.py:153-163 | the stored ROI always has x1 <= x2 and y1 <= y2 |
| Geometry.CommitRoiSymmetric | printed_test_scanner.py:158-163 | the stored ROI does not depend on which corner the drag started from |
| Geometry.CommitRoiExample | printed_test_scanner.py:153-163 | a 1600x1200 image is shown at 800x600, and the drag (10,10)-(110,60) stores (20,20,220,120) |
| Geometry.RoundTrip | printed_test_scanner.py:173-176 | a label coordinate mapped to the source and back never moves away from zero; when display <= image + 1 it moves at most one pixel |
| Geometry.RoundTripNegate | printed_test_scanner.py:173-176 | the round trip commutes with negation |
| Geometry.RoundTripLossWhenEnlarged | printed_test_scanner.py:173-176 | for an enlarged image the one-pixel bound fails: label x = 7 on a 100-to-800 scale comes back as 0, and with display = image + 2 (1 to 3) label x = 2 comes back as 0, so RoundTrip's condition cannot be relaxed |
| Geometry.OutlineTracksDrag | printed_test_scanner.py:168-176 | when display <= image + 1 on each axis (so for every shrunk image) and for a non-negative drag, each edge of the outline is at most one pixel inside the dragged rectangle |
| Slicing.Bound | printed_test_scanner.py:197 | a normalised slice bound lies in the axis and is the bound itself when already inside it |
| Slicing.SliceSpan | printed_test_scanner.py:197 | the selected range lies in the axis, start <= stop |
| Slicing.SliceSpanSelects | printed_test_scanner.py:197 | the clamped range selects exactly the positions the slicing rule (negative bounds from the end) selects, both directions |
| Slicing.EmptySliceSelectsNothing | printed_test_scanner.py:197-198 | `size == 0` of a crop axis iff the slicing rule selects no position |
| Slicing.EqualBoundsEmpty | printed_test_scanner.py:197-198 | a click without a drag (x1 == x2) gives an empty slice |
| Slicing.InBoundsSlice | printed_test_scanner.py:197 | in-bounds ordered bounds select exactly lo..hi |
| Slicing.NegativeBoundWraps | printed_test_scanner.py:197 | a negative corner counts from the far edge: `-3:5` on 10 is empty, `-3:10` is the last three |
| Raster.Cells | printed_test_scanner.py:194 | the value of a buffer: same shape, same pixel at every index |
| Raster.BgrToRgb | printed_test_scanner.py:95 | converting one pixel keeps the green channel and swapping back gives the original pixel |
| Raster.ToRgb | printed_test_scanner.py:95 | the converted frame has the frame's height and width |
| Raster.ToRgbInvolution | printed_test_scanner.py:95 | the BGR-to-RGB conversion loses nothing: applied twice it is the identity |
| Raster.ConvertFrame | printed_test_scanner.py:95 | a fresh buffer of the frame's shape holding the converted frame |
| Raster.Region | printed_test_scanner.py:194-197 | `g[rows, cols]` has the slice's shape, and crop pixel (i, j) is source pixel (rows.start+i, cols.start+j) |
| Raster.RegionOfWhole | printed_test_scanner.py:209 | slicing with the full extent is a plain copy, as `overlay = img_ocr.copy()` here and the whole-image `self.image.copy()` at line 194 are |
| Raster.CopyRegion | printed_test_scanner.py:194-197 | a fresh buffer holding exactly the crop |
| Raster.PasteRegion | printed_test_scanner.py:220 | `image[y1:y2, x1:x2] = overlay`: the slice takes the overlay, every other pixel keeps its value |
| Raster.HitIff | printed_test_scanner.py:211-216 | after the drawing loop, a pixel is painted iff some word with conf > 60 has a box corner on it |
| Raster.Kept | printed_test_scanner.py:213 | a word is drawn exactly when its integer confidence is at least 61; conf = -1 (no text) is never drawn |
| Raster.Annotated | printed_test_scanner.py:209-216 | the overlay has the crop's height and width |
| Raster.ConfidenceFilter | printed_test_scanner.py:212-215 | a word with conf <= 60 (including -1) leaves the overlay unchanged; one above 60 paints its corners |
| Raster.NothingKeptNothingDrawn | printed_test_scanner.py:211-216 | with no word above 60 the overlay is the crop itself |
| Raster.AnnotatedPixel | printed_test_scanner.py:211-216 | each overlay pixel is the box colour iff a kept word has a corner there, and otherwise the crop's own pixel |
| Raster.MarkBox | printed_test_scanner.py:215 | `cv2.rectangle` in place: the box corners inside the buffer take the box colour, nothing else changes |
| Raster.DrawWordBoxes | printed_test_scanner.py:210-216 | the loop over the engine's entries leaves the buffer equal to Annotated of its old contents |
| Scanner.DisplayAfterShow | printed_test_scanner.py:126-132 | without an image the display size is unchanged; a new display size is non-empty and fits within 800x600 |
| Scanner.ShowImageIdempotent | printed_test_scanner.py:126-132 | showing twice gives what showing once gives; without an image nothing changes |
| Scanner.VideoAfterStop | printed_test_scanner.py:107-113 | `video` is either kept or cleared, and cleared whenever the camera was running |
| Scanner.StopCameraIdempotent | printed_test_scanner.py:107-113 | a second stop changes nothing; stopping a running camera sets `video` to None |
| Scanner.CropIsEmpty | printed_test_scanner.py:198 | without an ROI the crop is empty only for an empty image |
| Scanner.CropIsEmptyIff | printed_test_scanner.py:194-198 | with an ROI the crop is empty exactly when the slicing rule selects no row or no column |
| Scanner.CropRows | printed_test_scanner.py:194-197 | the rows handed to the engine lie in the image: all rows, or the slice `y1:y2` |
| Scanner.CropCols | printed_test_scanner.py:194-197 | the columns handed to the engine lie in the image: all columns, or the slice `x1:x2` |
| Scanner.AfterOcr | printed_test_scanner.py:209-222 | the image after OCR has the shape of the image before |
| Scanner.AfterOcrWithRoi | printed_test_scanner.py:218-220 | with an ROI, pixels outside the slice are unchanged; a pixel inside is the box colour iff a kept word has a corner at its crop-local position |
| Scanner.AfterOcrWithoutRoi | printed_test_scanner.py:221-222 | without an ROI the whole image becomes the annotated copy |
| Scanner.NothingKeptImageUnchanged | printed_test_scanner.py:209-222 | if no word is above 60, OCR leaves every pixel as it was |
| Scanner.BoxLandsAtRoiOffset | printed_test_scanner.py:215-220 | for an in-bounds ROI, a kept word's box at crop-local (left, top) shows at source (x1+left, y1+top) |
| Scanner.OverlayPixels | printed_test_scanner.py:209-216 | each pixel of the drawn copy is the box colour where a kept word has a corner, and otherwise the source pixel under it |
| Scanner.PastedOverlay | printed_test_scanner.py:218-220 | pasting the drawn copy into the ROI slice leaves exactly AfterOcr |
| Scanner.TextScanner.constructor | printed_test_scanner.py:75-86 | no image, display, ROI or capture; camera stopped; null origin; empty text |
| Scanner.TextScanner.ShowImage | printed_test_scanner.py:126-132 | with an image whose fit is non-empty the display becomes FitSize; with no image nothing changes; an empty fit is reported as failed |
| Scanner.TextScanner.LoadImage | printed_test_scanner.py:91-96 | cancel changes nothing; otherwise the camera is stopped first, then a decoded image replaces the working image and is shown; the ROI and text are kept |
| Scanner.TextScanner.StartCamera | printed_test_scanner.py:98-105 | a no-op while running; otherwise `video` is the new capture and the camera runs (with the timer) iff it opened |
| Scanner.TextScanner.StopCamera | printed_test_scanner.py:107-113 | afterwards the camera is stopped; a running camera's `video` becomes None, otherwise it is unchanged |
| Scanner.TextScanner.UpdateCamera | printed_test_scanner.py:115-119 | a read frame replaces the image, converted, and is shown; a failed read changes nothing |
| Scanner.TextScanner.CaptureImage | printed_test_scanner.py:121-124 | while running, stops the camera and re-shows the last frame; otherwise nothing changes |
| Scanner.TextScanner.StartRoi | printed_test_scanner.py:140-143 | the press position becomes the drag origin, and the window invariant is kept |
| Scanner.TextScanner.DrawRoi | printed_test_scanner.py:145-147 | a rubber band is shown exactly when a drag is in progress (origin not null), and it is Qt's normalised `QRect(origin, pos)` |
| Scanner.TextScanner.EndRoi | printed_test_scanner.py:149-166 | with a drag in progress the ROI becomes CommitRoi and is outlined at BackMap; otherwise the ROI is unchanged; the origin is always reset |
| Scanner.TextScanner.DrawRoiOverlay | printed_test_scanner.py:168-182 | an outline exists iff there is an ROI and a display image; it is the back-mapped ROI; no field changes |
| Scanner.TextScanner.ClearRoi | printed_test_scanner.py:184-186 | the ROI becomes None and the image is re-shown |
| Scanner.TextScanner.RunOcr | printed_test_scanner.py:188-227 | no image: NoImage and nothing changes; empty ROI crop: InvalidRoi, engine not consulted, nothing changes; an engine error keeps the image; otherwise text replaced and the image becomes AfterOcr |
| Scanner.TextScanner.Recognise | printed_test_scanner.py:201-227 | the engine calls, text panel, boxes and redisplay, with the same outcomes as RunOcr from the crop on |
| Scanner.TextScanner.DrawAndWriteBack | printed_test_scanner.py:207-222 | with an ROI the same buffer is updated in place, without one the image is a fresh buffer; either way it then holds AfterOcr |
| Scanner.TextScanner.SaveText | printed_test_scanner.py:229-237 | empty text writes nothing; a cancelled dialog writes nothing; otherwise the text goes to the chosen path |

## Left out

- Widget construction, layout and signal wiring (lines 15-89) and the `__main__` event loop: these are UI with no logic.
- QTimer scheduling, QRubberBand painting, the QImage/QPixmap conversion and the label's centred alignment. These are presentation. Event positions are given integers. `show_image` hiding the rubber band is not modelled.
- Floating-point rounding of the scale ratios. Every ratio is an exact rational, so cases where the program's float product lands just below an integer (for example `w * (800 / w)` giving 799.999…) are not reproduced.
- `cv2.resize` pixel interpolation: only the size of `display_image` is kept. A resize to an empty size raises. `ShowImage` reports this as `failed` and keeps the previous display size. Only `run_ocr` catches the exception; what Qt does with an exception escaping other slots is not modelled.
- `cv2.imread` decoding and the exception `cvtColor` raises on a failed decode. Both are modelled as the outcome `DecodeFailed`: the camera has already been stopped, and the image is unchanged.
- The rest of `cv2.rectangle`'s outline, its stroke width, and every `cv2.putText` label. Only the two corners that define each box are painted.
- Tesseract itself, the `tesseract_cmd` path and the dictionary returned by `image_to_data`. The engine is an abstract function returning words whose confidence is already an integer, so the `int(float(conf))` parse is not modelled.
- The file dialogs, the actual file write in `save_text`, message boxes and the text panel's own handling of the text. `SaveText` returns what would be written and where.
- Camera device I/O: `isOpened` and `read` are inputs.
- Scanner.TextScanner.EndRoi: requires a display image when a drag is in progress. The code would raise on a missing `display_image`, and the model does not capture that crash.
- Scanner.TextScanner.UpdateCamera: requires the timer to be active, as only the timer calls it. A read frame must be non-empty.
