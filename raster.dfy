/**
  Pixel buffers and what run_ocr does to them: the crop handed to the OCR
  engine, the confidence-filtered word boxes drawn into a copy of it, and the
  write-back of that copy into the image.

  Buffers are `array2<Pixel>` indexed [row, column], as numpy indexes an image;
  `Cells` reads one as a value.  Drawing is abstracted: cv2.rectangle is
  modelled by painting the two corners that define the box in the box colour,
  without rasterising the rest of the outline or the label text.
*/
module Raster {
  import opened Slicing

  /** One pixel; the channel order is RGB in the session's image, BGR straight from the decoder. */
  datatype Pixel = Pixel(c0: int, c1: int, c2: int)

  /** The colour run_ocr draws word boxes in. */
  const BoxColour: Pixel := Pixel(0, 255, 0)

  /** The confidence a word must exceed to be drawn. */
  const MinConfidence: int := 60

  /** A pixel buffer as a value: a sequence of rows. */
  type Grid = seq<seq<Pixel>>

  ghost predicate IsRect(g: Grid, rows: nat, cols: nat) {
    |g| == rows && forall i :: 0 <= i < rows ==> |g[i]| == cols
  }

  predicate Within(s: Span, n: nat) { s.start <= s.stop <= n }

  /** The contents of a buffer. */
  function Cells(a: array2<Pixel>): (g: Grid)
    reads a
    ensures IsRect(g, a.Length0, a.Length1)
    ensures forall i, j :: 0 <= i < a.Length0 && 0 <= j < a.Length1 ==> g[i][j] == a[i, j]
  {
    seq(a.Length0, i requires 0 <= i < a.Length0 reads a =>
      seq(a.Length1, j requires 0 <= j < a.Length1 reads a => a[i, j]))
  }

  /** A buffer that agrees with a grid of its shape pixel by pixel holds that grid. */
  lemma CellsAre(a: array2<Pixel>, g: Grid)
    requires IsRect(g, a.Length0, a.Length1)
    requires forall i, j :: 0 <= i < a.Length0 && 0 <= j < a.Length1 ==> a[i, j] == g[i][j]
    ensures Cells(a) == g
  {
    var c := Cells(a);
    forall i | 0 <= i < a.Length0 ensures c[i] == g[i] {
    }
  }

  // ---------------------------------------------------------------------
  // Colour conversion

  /** cv2.cvtColor(..., COLOR_BGR2RGB): the first and third channels trade places. */
  function BgrToRgb(p: Pixel): (q: Pixel)
    ensures q.c1 == p.c1
    ensures Pixel(q.c2, q.c1, q.c0) == p
  {
    Pixel(p.c2, p.c1, p.c0)
  }

  ghost function ToRgb(g: Grid): (r: Grid)
    ensures |r| == |g| && forall i :: 0 <= i < |g| ==> |r[i]| == |g[i]|
  {
    seq(|g|, i requires 0 <= i < |g| => seq(|g[i]|, j requires 0 <= j < |g[i]| => BgrToRgb(g[i][j])))
  }

  /** The conversion loses nothing: applying it twice gives the decoded frame back. */
  lemma ToRgbInvolution(g: Grid)
    ensures ToRgb(ToRgb(g)) == g
  {
    var r := ToRgb(ToRgb(g));
    forall i | 0 <= i < |g| ensures r[i] == g[i] {
    }
  }

  /** The converted copy of a decoded frame. */
  method ConvertFrame(frame: array2<Pixel>) returns (image: array2<Pixel>)
    ensures fresh(image)
    ensures image.Length0 == frame.Length0 && image.Length1 == frame.Length1
    ensures Cells(image) == ToRgb(Cells(frame))
  {
    image := new Pixel[frame.Length0, frame.Length1]((i: nat, j: nat) reads frame =>
      if i < frame.Length0 && j < frame.Length1 then BgrToRgb(frame[i, j]) else BoxColour);
    CellsAre(image, ToRgb(Cells(frame)));
  }

  // ---------------------------------------------------------------------
  // The crop and its write-back

  /** numpy's `g[rows, cols]` as a value. */
  ghost function Region(g: Grid, width: nat, rows: Span, cols: Span): (c: Grid)
    requires IsRect(g, |g|, width) && Within(rows, |g|) && Within(cols, width)
    ensures IsRect(c, rows.Length(), cols.Length())
    ensures forall i, j :: 0 <= i < rows.Length() && 0 <= j < cols.Length() ==>
      c[i][j] == g[rows.start + i][cols.start + j]
  {
    seq(rows.stop - rows.start, i requires 0 <= i < rows.stop - rows.start => g[rows.start + i][cols.start..cols.stop])
  }

  /** Slicing an image with its own full extent gives the image: `g.copy()`. */
  lemma RegionOfWhole(g: Grid, width: nat)
    requires IsRect(g, |g|, width)
    ensures Region(g, width, Span(0, |g|), Span(0, width)) == g
  {
    var r := Region(g, width, Span(0, |g|), Span(0, width));
    forall i | 0 <= i < |g| ensures r[i] == g[i] {
    }
  }

  /** A fresh copy of `src[rows, cols]`. */
  method CopyRegion(src: array2<Pixel>, rows: Span, cols: Span) returns (dst: array2<Pixel>)
    requires Within(rows, src.Length0) && Within(cols, src.Length1)
    ensures fresh(dst)
    ensures dst.Length0 == rows.Length() && dst.Length1 == cols.Length()
    ensures Cells(dst) == Region(Cells(src), src.Length1, rows, cols)
  {
    dst := new Pixel[rows.stop - rows.start, cols.stop - cols.start]((i: nat, j: nat) reads src =>
      if rows.start + i < src.Length0 && cols.start + j < src.Length1
      then src[rows.start + i, cols.start + j] else BoxColour);
    CellsAre(dst, Region(Cells(src), src.Length1, rows, cols));
  }

  /** `dst[rows, cols] = src`, in place: the slice takes the patch, every other pixel keeps its value. */
  method PasteRegion(dst: array2<Pixel>, rows: Span, cols: Span, src: array2<Pixel>)
    requires dst != src
    requires Within(rows, dst.Length0) && Within(cols, dst.Length1)
    requires src.Length0 == rows.Length() && src.Length1 == cols.Length()
    modifies dst
    ensures forall i, j {:trigger dst[i, j]} :: 0 <= i < dst.Length0 && 0 <= j < dst.Length1 ==>
      dst[i, j] == if rows.start <= i < rows.stop && cols.start <= j < cols.stop
                   then src[i - rows.start, j - cols.start] else old(Cells(dst))[i][j]
  {
    forall i, j | rows.start <= i < rows.stop && cols.start <= j < cols.stop {
      dst[i, j] := src[i - rows.start, j - cols.start];
    }
  }

  // ---------------------------------------------------------------------
  // Word boxes

  /** One entry of the engine's word data: text, confidence and box (left, top, width, height) in crop pixels. */
  datatype Word = Word(text: string, conf: int, left: int, top: int, width: int, height: int)

  /** The confidence filter: only words above MinConfidence get a box. */
  predicate Kept(w: Word)
    ensures Kept(w) <==> w.conf >= MinConfidence + 1
    ensures w.conf == -1 ==> !Kept(w)
  {
    w.conf > MinConfidence
  }

  /** Whether (row, col) is one of the two corners cv2.rectangle is given for the word's box. */
  predicate AtCorner(w: Word, row: int, col: int) {
    (row == w.top && col == w.left) || (row == w.top + w.height && col == w.left + w.width)
  }

  /** Whether drawing the boxes of `words`, in order, paints (row, col). */
  function Hit(words: seq<Word>, row: int, col: int): bool
  {
    if words == [] then false
    else Hit(words[..|words| - 1], row, col) || (Kept(words[|words| - 1]) && AtCorner(words[|words| - 1], row, col))
  }

  /**
    A pixel is painted exactly when some kept word has a box corner on it.
    This is a fact about the model's drawing, which paints only the two
    corners of each box: the real cv2.rectangle also paints the rest of the
    outline, and cv2.putText the label above it.
  */
  lemma {:induction false} HitIff(words: seq<Word>, row: int, col: int)
    ensures Hit(words, row, col) <==> exists k :: 0 <= k < |words| && Kept(words[k]) && AtCorner(words[k], row, col)
  {
    if words != [] {
      var init := words[..|words| - 1];
      HitIff(init, row, col);
      if Hit(init, row, col) {
        var k :| 0 <= k < |init| && Kept(init[k]) && AtCorner(init[k], row, col);
        assert words[k] == init[k];
      }
      if k :| 0 <= k < |words| && Kept(words[k]) && AtCorner(words[k], row, col) {
        if k < |init| {
          assert init[k] == words[k];
        }
      }
    }
  }

  /** The overlay run_ocr builds: `g` with the box corners of every kept word painted. */
  ghost function Annotated(g: Grid, words: seq<Word>): (r: Grid)
    ensures |r| == |g| && forall i :: 0 <= i < |g| ==> |r[i]| == |g[i]|
  {
    seq(|g|, i requires 0 <= i < |g| => seq(|g[i]|, j requires 0 <= j < |g[i]| =>
      if Hit(words, i, j) then BoxColour else g[i][j]))
  }

  /** One pixel of the overlay. */
  lemma AnnotatedAt(g: Grid, words: seq<Word>, i: int, j: int)
    requires 0 <= i < |g| && 0 <= j < |g[i]|
    ensures Annotated(g, words)[i][j] == if Hit(words, i, j) then BoxColour else g[i][j]
  {
  }

  /**
    The confidence filter: a word at or below the threshold (a confidence of
    60, or the -1 the engine reports for non-word entries) leaves the overlay
    as it was, and a word above it paints its box corners that lie in the crop.
  */
  lemma ConfidenceFilter(g: Grid, words: seq<Word>, w: Word)
    ensures !Kept(w) ==> Annotated(g, words + [w]) == Annotated(g, words)
    ensures Kept(w) ==> forall i, j :: 0 <= i < |g| && 0 <= j < |g[i]| && AtCorner(w, i, j) ==>
      Annotated(g, words + [w])[i][j] == BoxColour
  {
    var ws := words + [w];
    assert ws[..|ws| - 1] == words;
    if !Kept(w) {
      var a, b := Annotated(g, ws), Annotated(g, words);
      forall i | 0 <= i < |g| ensures a[i] == b[i] {
      }
    }
  }

  /** With no word above the threshold the overlay is the crop itself. */
  lemma NothingKeptNothingDrawn(g: Grid, words: seq<Word>)
    requires forall k :: 0 <= k < |words| ==> !Kept(words[k])
    ensures Annotated(g, words) == g
  {
    var a := Annotated(g, words);
    forall i, j | 0 <= i < |g| && 0 <= j < |g[i]| ensures a[i][j] == g[i][j] {
      HitIff(words, i, j);
    }
    forall i | 0 <= i < |g| ensures a[i] == g[i] {
    }
  }

  /**
    Every pixel of the overlay is the crop's own or carries a kept word's box
    corner.  As for HitIff, the "exactly" holds because drawing is reduced to
    the two box corners; the outline and label the program also draws are
    not part of this model.
  */
  lemma AnnotatedPixel(g: Grid, words: seq<Word>, i: int, j: int)
    requires 0 <= i < |g| && 0 <= j < |g[i]|
    ensures Annotated(g, words)[i][j] ==
      if exists k :: 0 <= k < |words| && Kept(words[k]) && AtCorner(words[k], i, j) then BoxColour else g[i][j]
  {
    HitIff(words, i, j);
  }

  /** cv2.rectangle for one word, in place: its box corners that lie in the buffer take the box colour. */
  method MarkBox(buf: array2<Pixel>, w: Word)
    modifies buf
    ensures forall i, j :: 0 <= i < buf.Length0 && 0 <= j < buf.Length1 ==>
      buf[i, j] == if AtCorner(w, i, j) then BoxColour else old(buf[i, j])
  {
    if 0 <= w.top < buf.Length0 && 0 <= w.left < buf.Length1 {
      buf[w.top, w.left] := BoxColour;
    }
    var bottom, right := w.top + w.height, w.left + w.width;
    if 0 <= bottom < buf.Length0 && 0 <= right < buf.Length1 {
      buf[bottom, right] := BoxColour;
    }
  }

  /** The loop over the engine's entries: a box for each word whose confidence exceeds the threshold. */
  method DrawWordBoxes(buf: array2<Pixel>, words: seq<Word>)
    modifies buf
    ensures Cells(buf) == Annotated(old(Cells(buf)), words)
  {
    ghost var before := Cells(buf);
    for n := 0 to |words|
      invariant forall i, j :: 0 <= i < buf.Length0 && 0 <= j < buf.Length1 ==>
        buf[i, j] == if Hit(words[..n], i, j) then BoxColour else before[i][j]
    {
      assert words[..n + 1][..n] == words[..n];
      if Kept(words[n]) {
        MarkBox(buf, words[n]);
      }
    }
    assert words[..|words|] == words;
    CellsAre(buf, Annotated(before, words));
  }
}
