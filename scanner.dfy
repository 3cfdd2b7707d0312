/**
  The session state of the TextScanner window and the handlers that change
  it: loading an image, the live camera, the ROI drag, clearing the ROI,
  OCR and saving the text.

  Everything outside the program is a parameter: the file-dialog path (empty
  when cancelled), the decoded image (null when decoding failed), whether the
  camera opened, each frame read, and the OCR engine, given as two functions
  from the crop to a result (None when the engine raised).
*/
module Scanner {
  import opened Options
  import opened Geometry
  import opened Slicing
  import opened Raster

  /** A cv2.VideoCapture handle; `isOpen` is what isOpened() reported. */
  datatype Capture = Capture(isOpen: bool)

  datatype LoadOutcome = Cancelled | DecodeFailed | Loaded
  datatype OcrOutcome = NoImage | InvalidRoi | OcrError | Extracted
  datatype SaveOutcome = NoText | SaveCancelled | Saved(path: string, contents: string)

  /** An image buffer's (width, height): numpy's shape[1] and shape[0]. */
  function Dims(a: array2<Pixel>): Size {
    Size(a.Length1, a.Length0)
  }

  /** What show_image leaves as the display size: the fit, unless there is no image or cv2.resize rejects an empty size. */
  function DisplayAfterShow(previous: Option<Size>, image: array2?<Pixel>): (d: Option<Size>)
    ensures image == null ==> d == previous
    ensures d != previous ==>
      && image != null && d.Some? && d.value.NonEmpty()
      && d.value.width <= CanvasWidth && d.value.height <= CanvasHeight
  {
    if image == null || image.Length0 == 0 || image.Length1 == 0 then previous
    else if FitSize(Dims(image)).NonEmpty() then Some(FitSize(Dims(image)))
    else previous
  }

  /** What stop_camera leaves in `video`. */
  function VideoAfterStop(running: bool, video: Option<Capture>): (v: Option<Capture>)
    ensures v.None? || v == video
    ensures running ==> v.None?
  {
    if running then None else video
  }

  /** Showing the same image twice leaves the display size the first showing gave. */
  lemma ShowImageIdempotent(previous: Option<Size>, image: array2?<Pixel>)
    ensures DisplayAfterShow(DisplayAfterShow(previous, image), image) == DisplayAfterShow(previous, image)
    ensures image == null ==> DisplayAfterShow(previous, image) == previous
  {
  }

  /** A second stop_camera changes nothing: the camera is stopped and `video` stays as the first left it. */
  lemma StopCameraIdempotent(running: bool, video: Option<Capture>)
    ensures VideoAfterStop(false, VideoAfterStop(running, video)) == VideoAfterStop(running, video)
    ensures running ==> VideoAfterStop(running, video) == None
  {
  }

  /** The rows run_ocr hands to the engine: all of them, or the slice `y1:y2` of the ROI. */
  function CropRows(roi: Option<Rect>, height: nat): (s: Span)
    ensures Within(s, height)
  {
    if roi.None? then Span(0, height) else SliceSpan(roi.value.y1, roi.value.y2, height)
  }

  /** The columns run_ocr hands to the engine: all of them, or the slice `x1:x2` of the ROI. */
  function CropCols(roi: Option<Rect>, width: nat): (s: Span)
    ensures Within(s, width)
  {
    if roi.None? then Span(0, width) else SliceSpan(roi.value.x1, roi.value.x2, width)
  }

  /** numpy's `img_ocr.size == 0` for the crop: no rows or no columns. */
  predicate CropIsEmpty(roi: Option<Rect>, image: Size)
    ensures CropIsEmpty(roi, image) && roi.None? ==> !image.NonEmpty()
  {
    CropRows(roi, image.height).Length() == 0 || CropCols(roi, image.width).Length() == 0
  }

  /**
    With an ROI, run_ocr's `img_ocr.size == 0` holds exactly when the slicing
    rule selects no row or no column.
  */
  lemma CropIsEmptyIff(roi: Rect, image: Size)
    ensures CropIsEmpty(Some(roi), image) <==>
      || (forall k :: 0 <= k < image.height ==> !Selects(roi.y1, roi.y2, image.height, k))
      || (forall k :: 0 <= k < image.width ==> !Selects(roi.x1, roi.x2, image.width, k))
  {
    EmptySliceSelectsNothing(roi.y1, roi.y2, image.height);
    EmptySliceSelectsNothing(roi.x1, roi.x2, image.width);
  }

  /**
    The image run_ocr leaves behind when the engine returned `words` for the
    crop of `before`: a pixel of the cropped slice takes the box colour when
    drawing the words paints its crop-local position, and every other pixel
    keeps its value.  Without an ROI the slice is the whole image.
  */
  ghost function AfterOcr(before: Grid, image: Size, roi: Option<Rect>, words: seq<Word>): (g: Grid)
    requires IsRect(before, image.height, image.width)
    ensures IsRect(g, image.height, image.width)
  {
    var rows, cols := CropRows(roi, image.height), CropCols(roi, image.width);
    seq(image.height, i requires 0 <= i < image.height => seq(image.width, j requires 0 <= j < image.width =>
      if rows.start <= i < rows.stop && cols.start <= j < cols.stop && Hit(words, i - rows.start, j - cols.start)
      then BoxColour else before[i][j]))
  }

  /**
    With an ROI only the slice `image[y1:y2, x1:x2]` changes: a pixel outside
    it keeps its value, and a pixel inside it takes the box colour exactly
    when a kept word has a box corner at its crop-local position.
  */
  lemma AfterOcrWithRoi(before: Grid, image: Size, roi: Rect, words: seq<Word>, i: int, j: int)
    requires IsRect(before, image.height, image.width)
    requires 0 <= i < image.height && 0 <= j < image.width
    ensures var rows, cols := CropRows(Some(roi), image.height), CropCols(Some(roi), image.width);
      AfterOcr(before, image, Some(roi), words)[i][j] ==
        if rows.start <= i < rows.stop && cols.start <= j < cols.stop
           && exists k :: 0 <= k < |words| && Kept(words[k]) && AtCorner(words[k], i - rows.start, j - cols.start)
        then BoxColour else before[i][j]
  {
    var rows, cols := CropRows(Some(roi), image.height), CropCols(Some(roi), image.width);
    HitIff(words, i - rows.start, j - cols.start);
  }

  /** Without an ROI the whole image is replaced by the annotated copy. */
  lemma AfterOcrWithoutRoi(before: Grid, image: Size, words: seq<Word>)
    requires IsRect(before, image.height, image.width)
    ensures AfterOcr(before, image, None, words) == Annotated(before, words)
  {
    var r, a := AfterOcr(before, image, None, words), Annotated(before, words);
    forall i | 0 <= i < image.height ensures r[i] == a[i] {
      forall j | 0 <= j < image.width ensures r[i][j] == a[i][j] {
        AnnotatedAt(before, words, i, j);
      }
    }
  }

  /** When the engine reports no word above the threshold, OCR leaves the image as it was. */
  lemma NothingKeptImageUnchanged(before: Grid, image: Size, roi: Option<Rect>, words: seq<Word>)
    requires IsRect(before, image.height, image.width)
    requires forall k :: 0 <= k < |words| ==> !Kept(words[k])
    ensures AfterOcr(before, image, roi, words) == before
  {
    var r := AfterOcr(before, image, roi, words);
    forall i | 0 <= i < image.height ensures r[i] == before[i] {
      forall j | 0 <= j < image.width ensures r[i][j] == before[i][j] {
        HitIff(words, i - CropRows(roi, image.height).start, j - CropCols(roi, image.width).start);
      }
    }
  }

  /**
    For an ROI inside the image with non-negative corners, a kept word whose
    box starts at crop-local (left, top) inside the crop shows at source pixel
    (x1 + left, y1 + top).
  */
  lemma BoxLandsAtRoiOffset(before: Grid, image: Size, roi: Rect, words: seq<Word>, k: nat)
    requires IsRect(before, image.height, image.width)
    requires 0 <= roi.x1 <= roi.x2 <= image.width && 0 <= roi.y1 <= roi.y2 <= image.height
    requires k < |words| && Kept(words[k])
    requires 0 <= words[k].left < roi.x2 - roi.x1 && 0 <= words[k].top < roi.y2 - roi.y1
    ensures AfterOcr(before, image, Some(roi), words)[roi.y1 + words[k].top][roi.x1 + words[k].left] == BoxColour
  {
    InBoundsSlice(roi.y1, roi.y2, image.height);
    InBoundsSlice(roi.x1, roi.x2, image.width);
    HitIff(words, words[k].top, words[k].left);
  }

  /** The copy of the crop with the boxes drawn, pixel by pixel. */
  lemma OverlayPixels(overlay: array2<Pixel>, before: Grid, width: nat, rows: Span, cols: Span, words: seq<Word>)
    requires IsRect(before, |before|, width) && Within(rows, |before|) && Within(cols, width)
    requires overlay.Length0 == rows.Length() && overlay.Length1 == cols.Length()
    requires Cells(overlay) == Annotated(Region(before, width, rows, cols), words)
    ensures forall i, j {:trigger overlay[i, j]} :: 0 <= i < overlay.Length0 && 0 <= j < overlay.Length1 ==>
      overlay[i, j] == if Hit(words, i, j) then BoxColour else before[rows.start + i][cols.start + j]
  {
    var crop := Region(before, width, rows, cols);
    forall i, j | 0 <= i < overlay.Length0 && 0 <= j < overlay.Length1
      ensures overlay[i, j] == if Hit(words, i, j) then BoxColour else before[rows.start + i][cols.start + j]
    {
      AnnotatedAt(crop, words, i, j);
    }
  }

  /** The write-back `image[y1:y2, x1:x2] = overlay` of the annotated crop leaves the image AfterOcr describes. */
  lemma PastedOverlay(image: array2<Pixel>, overlay: array2<Pixel>, before: Grid, rows: Span, cols: Span, roi: Option<Rect>, words: seq<Word>)
    requires IsRect(before, image.Length0, image.Length1)
    requires rows == CropRows(roi, image.Length0) && cols == CropCols(roi, image.Length1)
    requires overlay.Length0 == rows.Length() && overlay.Length1 == cols.Length()
    requires forall i, j {:trigger overlay[i, j]} :: 0 <= i < overlay.Length0 && 0 <= j < overlay.Length1 ==>
      overlay[i, j] == if Hit(words, i, j) then BoxColour else before[rows.start + i][cols.start + j]
    requires forall i, j {:trigger image[i, j]} :: 0 <= i < image.Length0 && 0 <= j < image.Length1 ==>
      image[i, j] == if rows.start <= i < rows.stop && cols.start <= j < cols.stop
                     then overlay[i - rows.start, j - cols.start] else before[i][j]
    ensures Cells(image) == AfterOcr(before, Dims(image), roi, words)
  {
    CellsAre(image, AfterOcr(before, Dims(image), roi, words));
  }

  class TextScanner {
    /** The working image (RGB), null until one is loaded or captured. */
    var image: array2?<Pixel>
    /** The size of the resized display image, None until one is shown. */
    var display: Option<Size>
    /** The selected region in source pixels. */
    var roi: Option<Rect>
    /** Where the current drag started; the null point when no drag is in progress. */
    var origin: Point
    var isCameraRunning: bool
    /** Whether the 30 ms frame timer is active. */
    var timerActive: bool
    var video: Option<Capture>
    /** The contents of the text panel. */
    var text: string

    ghost predicate Valid()
      reads this
    {
      && (image != null ==> image.Length0 > 0 && image.Length1 > 0)
      && (display.Some? ==> image != null && display.value.NonEmpty())
      && (isCameraRunning ==> video == Some(Capture(true)))
      && timerActive == isCameraRunning
    }

    constructor ()
      ensures Valid()
      ensures image == null && display == None && roi == None && origin.IsNull()
      ensures !isCameraRunning && video == None && text == ""
    {
      image := null;
      display := None;
      roi := None;
      origin := Point(0, 0);
      isCameraRunning := false;
      timerActive := false;
      video := None;
      text := "";
    }

    /** show_image: resize the image to fit the label. `failed` is cv2.resize rejecting an empty size. */
    method ShowImage() returns (failed: bool)
      requires Valid()
      modifies this`display
      ensures Valid()
      ensures display == DisplayAfterShow(old(display), image)
      ensures failed <==> image != null && !FitSize(Dims(image)).NonEmpty()
    {
      if image == null {
        return false;
      }
      var fit := FitSize(Dims(image));
      if !fit.NonEmpty() {
        return true;
      }
      display := Some(fit);
      failed := false;
    }

    /** load_image, given the dialog's path and what cv2.imread returned for it. */
    method LoadImage(path: string, decoded: array2?<Pixel>) returns (outcome: LoadOutcome)
      requires Valid()
      requires decoded != null ==> decoded.Length0 > 0 && decoded.Length1 > 0
      modifies this`image, this`display, this`video, this`isCameraRunning, this`timerActive
      ensures Valid()
      ensures roi == old(roi) && text == old(text)
      ensures path == "" ==>
        && outcome == Cancelled && image == old(image) && display == old(display)
        && video == old(video) && isCameraRunning == old(isCameraRunning)
      ensures path != "" ==> !isCameraRunning && video == VideoAfterStop(old(isCameraRunning), old(video))
      ensures path != "" && decoded == null ==> outcome == DecodeFailed && image == old(image) && display == old(display)
      ensures path != "" && decoded != null ==>
        && outcome == Loaded && fresh(image) && Dims(image) == Dims(decoded)
        && Cells(image) == ToRgb(Cells(decoded)) && display == DisplayAfterShow(old(display), image)
    {
      if path == "" {
        return Cancelled;
      }
      StopCamera();
      if decoded == null {
        return DecodeFailed;
      }
      image := ConvertFrame(decoded);
      var _ := ShowImage();
      outcome := Loaded;
    }

    /** start_camera, given whether the device opened. */
    method StartCamera(opens: bool)
      requires Valid()
      modifies this`video, this`isCameraRunning, this`timerActive
      ensures Valid()
      ensures old(isCameraRunning) ==> isCameraRunning && video == old(video)
      ensures !old(isCameraRunning) ==> video == Some(Capture(opens)) && isCameraRunning == opens
    {
      if !isCameraRunning {
        video := Some(Capture(opens));
        if !opens {
          return;
        }
        isCameraRunning := true;
        timerActive := true;
      }
    }

    /** stop_camera: stop the timer and release the device; nothing happens when the camera is not running. */
    method StopCamera()
      requires Valid()
      modifies this`video, this`isCameraRunning, this`timerActive
      ensures Valid()
      ensures !isCameraRunning && video == VideoAfterStop(old(isCameraRunning), old(video))
    {
      if isCameraRunning {
        isCameraRunning := false;
        timerActive := false;
        video := None;
      }
    }

    /** update_camera, on a timer tick, given what video.read() returned. */
    method UpdateCamera(ret: bool, frame: array2?<Pixel>)
      requires Valid() && timerActive
      requires ret ==> frame != null && frame.Length0 > 0 && frame.Length1 > 0
      modifies this`image, this`display
      ensures Valid()
      ensures !ret ==> image == old(image) && display == old(display)
      ensures ret ==>
        && fresh(image) && Dims(image) == Dims(frame) && Cells(image) == ToRgb(Cells(frame))
        && display == DisplayAfterShow(old(display), image)
    {
      if ret {
        image := ConvertFrame(frame);
        var _ := ShowImage();
      }
    }

    /** capture_image: freeze the current frame by stopping the camera. */
    method CaptureImage()
      requires Valid()
      modifies this`display, this`video, this`isCameraRunning, this`timerActive
      ensures Valid()
      ensures !isCameraRunning && video == VideoAfterStop(old(isCameraRunning), old(video))
      ensures display == if old(isCameraRunning) then DisplayAfterShow(old(display), image) else old(display)
    {
      if isCameraRunning {
        StopCamera();
        var _ := ShowImage();
      }
    }

    /** start_roi: a press on the label anchors a drag. */
    method StartRoi(p: Point)
      requires Valid()
      modifies this`origin
      ensures Valid()
      ensures origin == p
    {
      origin := p;
    }

    /** draw_roi: the rubber band a move shows, None when no drag is in progress. */
    method DrawRoi(p: Point) returns (band: Option<Rect>)
      ensures band.None? <==> origin.IsNull()
      ensures band.Some? ==> band.value == QtBand(origin, p)
    {
      if origin.IsNull() {
        return None;
      }
      band := Some(QtBand(origin, p));
    }

    /**
      end_roi: a release commits the drag as the ROI when a drag is in
      progress, outlines it on the label, and always ends the drag.
    */
    method EndRoi(p: Point) returns (outline: Option<Rect>)
      requires Valid()
      requires !origin.IsNull() ==> display.Some?
      modifies this`roi, this`origin
      ensures Valid() && origin.IsNull()
      ensures old(origin).IsNull() ==> roi == old(roi) && outline == None
      ensures !old(origin).IsNull() ==>
        && roi == Some(CommitRoi(old(origin), p, display.value, Dims(image)))
        && outline == Some(BackMap(roi.value, Dims(image), display.value))
    {
      if !origin.IsNull() {
        roi := Some(CommitRoi(origin, p, display.value, Dims(image)));
        outline := DrawRoiOverlay();
      } else {
        outline := None;
      }
      origin := Point(0, 0);
    }

    /** draw_roi_overlay: the label rectangle outlined for the ROI, drawn on a copy of the display image. */
    method DrawRoiOverlay() returns (outline: Option<Rect>)
      requires Valid()
      ensures outline.Some? <==> roi.Some? && display.Some?
      ensures outline.Some? ==> outline.value == BackMap(roi.value, Dims(image), display.value)
    {
      if roi.Some? && display.Some? {
        outline := Some(BackMap(roi.value, Dims(image), display.value));
      } else {
        outline := None;
      }
    }

    /** clear_roi */
    method ClearRoi()
      requires Valid()
      modifies this`roi, this`display
      ensures Valid()
      ensures roi == None && display == DisplayAfterShow(old(display), image)
    {
      roi := None;
      var _ := ShowImage();
    }

    /**
      run_ocr.  `engineText` and `engineData` are image_to_string and
      image_to_data on the crop; None is the engine raising, which the
      handler's try block catches.
    */
    method RunOcr(engineText: Grid -> Option<string>, engineData: Grid -> Option<seq<Word>>)
      returns (outcome: OcrOutcome)
      requires Valid()
      modifies this`image, this`display, this`text, image
      ensures Valid()
      ensures roi == old(roi)
      ensures old(image) == null ==> outcome == NoImage && image == null && display == old(display) && text == old(text)
      ensures old(image) != null && CropIsEmpty(roi, Dims(old(image))) ==>
        && outcome == InvalidRoi && image == old(image) && Cells(image) == old(Cells(image))
        && display == old(display) && text == old(text)
      ensures old(image) != null && !CropIsEmpty(roi, Dims(old(image))) ==>
        var size := Dims(old(image));
        var crop := Region(old(Cells(image)), size.width, CropRows(roi, size.height), CropCols(roi, size.width));
        && (engineText(crop).None? ==>
              outcome == OcrError && image == old(image) && Cells(image) == old(Cells(image))
              && display == old(display) && text == old(text))
        && (engineText(crop).Some? ==> text == engineText(crop).value)
        && (engineText(crop).Some? && engineData(crop).None? ==>
              outcome == OcrError && image == old(image) && Cells(image) == old(Cells(image))
              && display == old(display))
        && (engineText(crop).Some? && engineData(crop).Some? ==>
              && image != null && (roi.Some? ==> image == old(image)) && (roi.None? ==> fresh(image))
              && Cells(image) == AfterOcr(old(Cells(image)), size, roi, engineData(crop).value)
              && display == DisplayAfterShow(old(display), image)
              && outcome == (if FitSize(size).NonEmpty() then Extracted else OcrError))
    {
      if image == null {
        return NoImage;
      }
      var size := Dims(image);
      var rows, cols := CropRows(roi, size.height), CropCols(roi, size.width);
      if roi.Some? && (rows.Length() == 0 || cols.Length() == 0) {
        return InvalidRoi;
      }
      var imgOcr := CopyRegion(image, rows, cols);
      outcome := Recognise(imgOcr, engineText, engineData);
    }

    /**
      run_ocr from the crop on: the engine calls, the text panel, the boxes
      and the redisplay.
    */
    method Recognise(imgOcr: array2<Pixel>, engineText: Grid -> Option<string>, engineData: Grid -> Option<seq<Word>>)
      returns (outcome: OcrOutcome)
      requires Valid() && image != null && imgOcr != image
      requires var size := Dims(image);
        && imgOcr.Length0 == CropRows(roi, size.height).Length()
        && imgOcr.Length1 == CropCols(roi, size.width).Length()
        && Cells(imgOcr) == Region(Cells(image), size.width, CropRows(roi, size.height), CropCols(roi, size.width))
      modifies this`image, this`display, this`text, image
      ensures Valid()
      ensures var crop := old(Cells(imgOcr));
        && (engineText(crop).None? ==>
              outcome == OcrError && image == old(image) && Cells(image) == old(Cells(image))
              && display == old(display) && text == old(text))
        && (engineText(crop).Some? ==> text == engineText(crop).value)
        && (engineText(crop).Some? && engineData(crop).None? ==>
              outcome == OcrError && image == old(image) && Cells(image) == old(Cells(image))
              && display == old(display))
        && (engineText(crop).Some? && engineData(crop).Some? ==>
              && image != null && (roi.Some? ==> image == old(image)) && (roi.None? ==> fresh(image))
              && Cells(image) == AfterOcr(old(Cells(image)), Dims(old(image)), roi, engineData(crop).value)
              && display == DisplayAfterShow(old(display), image)
              && outcome == (if FitSize(Dims(old(image))).NonEmpty() then Extracted else OcrError))
    {
      var crop := Cells(imgOcr);
      var recognised := engineText(crop);
      if recognised.None? {
        return OcrError;
      }
      text := recognised.value;
      var data := engineData(crop);
      if data.None? {
        return OcrError;
      }
      DrawAndWriteBack(imgOcr, data.value);
      var failed := ShowImage();
      if failed {
        return OcrError;
      }
      var _ := DrawRoiOverlay();
      outcome := Extracted;
    }

    /**
      The second half of run_ocr: copy the crop, draw the boxes of the kept
      words into the copy, and put it back as the ROI slice of the image or,
      without an ROI, as the whole image.
    */
    method DrawAndWriteBack(imgOcr: array2<Pixel>, words: seq<Word>)
      requires Valid() && image != null && imgOcr != image
      requires var size := Dims(image);
        && imgOcr.Length0 == CropRows(roi, size.height).Length()
        && imgOcr.Length1 == CropCols(roi, size.width).Length()
        && Cells(imgOcr) == Region(Cells(image), size.width, CropRows(roi, size.height), CropCols(roi, size.width))
      modifies this`image, image
      ensures Valid() && image != null && Dims(image) == Dims(old(image))
      ensures roi.Some? ==> image == old(image)
      ensures roi.None? ==> fresh(image)
      ensures Cells(image) == AfterOcr(old(Cells(image)), Dims(old(image)), roi, words)
    {
      var size := Dims(image);
      var rows, cols := CropRows(roi, size.height), CropCols(roi, size.width);
      ghost var before := Cells(image);
      ghost var crop := Cells(imgOcr);
      var overlay := CopyRegion(imgOcr, Span(0, imgOcr.Length0), Span(0, imgOcr.Length1));
      RegionOfWhole(crop, imgOcr.Length1);
      DrawWordBoxes(overlay, words);
      if roi.Some? {
        PasteRegion(image, rows, cols, overlay);
        OverlayPixels(overlay, before, size.width, rows, cols, words);
        PastedOverlay(image, overlay, before, rows, cols, roi, words);
      } else {
        RegionOfWhole(before, size.width);
        AfterOcrWithoutRoi(before, size, words);
        image := overlay;
      }
    }

    /** save_text, given the save dialog's path: what would be written, and where. */
    method SaveText(path: string) returns (outcome: SaveOutcome)
      ensures text == "" <==> outcome == NoText
      ensures text != "" && path == "" ==> outcome == SaveCancelled
      ensures text != "" && path != "" ==> outcome == Saved(path, text)
    {
      if text == "" {
        return NoText;
      }
      if path == "" {
        return SaveCancelled;
      }
      outcome := Saved(path, text);
    }
  }

  /**
    A 1600x1200 image is shown at 800x600; a drag from (10,10) to (110,60)
    commits the ROI (20,20,220,120); the release ends the drag, so a later
    move shows nothing; a click without a drag makes OCR report an invalid ROI.
  */
  method SelectionScenario(engineText: Grid -> Option<string>, engineData: Grid -> Option<seq<Word>>)
  {
    var s := new TextScanner();
    var page := new Pixel[1200, 1600];
    var loaded := s.LoadImage("page.png", page);
    assert loaded == Loaded;
    assert s.display == Some(Size(800, 600));
    s.StartRoi(Point(10, 10));
    var outline := s.EndRoi(Point(110, 60));
    assert s.roi == Some(Rect(20, 20, 220, 120));
    assert outline == Some(Rect(10, 10, 110, 60));
    var band := s.DrawRoi(Point(300, 300));
    assert band == None;
    s.StartRoi(Point(50, 50));
    outline := s.EndRoi(Point(50, 50));
    assert s.roi == Some(Rect(100, 100, 100, 100));
    var ocr := s.RunOcr(engineText, engineData);
    assert ocr == InvalidRoi;
  }

  /**
    A failed open leaves the camera stopped with the unopened capture kept in
    `video`; start_camera does nothing while the camera runs; stopping twice
    is the same as stopping once.
  */
  method CameraScenario() {
    var s := new TextScanner();
    s.StartCamera(false);
    assert !s.isCameraRunning && s.video == Some(Capture(false));
    s.StopCamera();
    assert s.video == Some(Capture(false));
    s.StartCamera(true);
    assert s.isCameraRunning && s.timerActive;
    s.StartCamera(false);
    assert s.isCameraRunning && s.video == Some(Capture(true));
    s.StopCamera();
    assert !s.isCameraRunning && !s.timerActive && s.video == None;
    s.StopCamera();
    assert !s.isCameraRunning && s.video == None;
  }
}
