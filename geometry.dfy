/**
  Coordinate arithmetic of the scanner window: fitting an image into the fixed
  800x600 label, turning a drag on the label into a source-pixel rectangle, and
  mapping a source rectangle back onto the label.

  The program computes its scale ratios in floating point and truncates with
  `int(...)`. Here every ratio is an exact rational, so `int(c * a / b)` is
  `TruncDiv(c * a, b)`: exact division followed by truncation toward zero
  (label positions, and therefore ROI corners, can be negative).
*/
module Geometry {

  /** The fixed size of the image label. */
  const CanvasWidth: nat := 800
  const CanvasHeight: nat := 600

  /** Width and height of an image, in pixels. */
  datatype Size = Size(width: nat, height: nat) {
    predicate NonEmpty() { width > 0 && height > 0 }
  }

  /** A position on the label as Qt reports it; (0, 0) is Qt's null point. */
  datatype Point = Point(x: int, y: int) {
    predicate IsNull() { x == 0 && y == 0 }
  }

  /** A rectangle by its two corners (x1, y1) and (x2, y2). */
  datatype Rect = Rect(x1: int, y1: int, x2: int, y2: int) {
    predicate Normalised() { x1 <= x2 && y1 <= y2 }
  }

  function Abs(a: int): nat { if a < 0 then -a else a }
  function Min(a: int, b: int): int { if a <= b then a else b }
  function Max(a: int, b: int): int { if a <= b then b else a }

  /** Python's `int(a / b)` for an exact quotient and b > 0: truncation toward zero. */
  function TruncDiv(a: int, b: int): (q: int)
    requires b > 0
    ensures Abs(q) * b <= Abs(a) < (Abs(q) + 1) * b
    ensures a >= 0 ==> q >= 0
    ensures a <= 0 ==> q <= 0
  {
    if a >= 0 then DivBounds(a, b); a / b
    else DivBounds(-a, b); -((-a) / b)
  }

  /** Euclidean division brackets its dividend. */
  lemma DivBounds(a: nat, b: nat)
    requires b > 0
    ensures (a / b) * b <= a < (a / b) * b + b
    ensures (a / b) * b + b == (a / b + 1) * b
  {
    var q, r := a / b, a % b;
    assert a == q * b + r && 0 <= r < b;
  }

  lemma MulLe(a: int, b: int, d: int)
    requires a <= b && d >= 0
    ensures a * d <= b * d
  {
    assert b * d - a * d == (b - a) * d;
  }

  lemma MulLt(a: int, b: int, d: int)
    requires a < b && d >= 0
    ensures a * d + d <= b * d
  {
    MulLe(a + 1, b, d);
    assert (a + 1) * d == a * d + d;
  }

  /** Truncating division keeps the order of its dividends. */
  lemma TruncDivMonotone(a: int, b: int, d: int)
    requires d > 0 && a <= b
    ensures TruncDiv(a, d) <= TruncDiv(b, d)
  {
    var qa, qb := TruncDiv(a, d), TruncDiv(b, d);
    if qa > qb {
      if a >= 0 {
        MulLe(qb + 1, qa, d);
        assert false;
      } else if b <= 0 {
        MulLe(-qa + 1, -qb, d);
        assert false;
      }
    }
  }

  /** Truncation toward zero is symmetric about zero. */
  lemma TruncDivNegate(a: int, b: int)
    requires b > 0
    ensures TruncDiv(-a, b) == -TruncDiv(a, b)
  {
  }

  // ---------------------------------------------------------------------
  // show_image: fitting the image into the label

  /** The scale show_image computes, `min(800 / width, 600 / height)`, as an exact real. */
  function Scale(image: Size): (s: real)
    requires image.NonEmpty()
    ensures 0.0 < s
    ensures s <= CanvasWidth as real / image.width as real && s <= CanvasHeight as real / image.height as real
    ensures s == CanvasWidth as real / image.width as real || s == CanvasHeight as real / image.height as real
  {
    var sx := CanvasWidth as real / image.width as real;
    var sy := CanvasHeight as real / image.height as real;
    if sx <= sy then sx else sy
  }

  /**
    The size of the resized display image.  Whichever side limits the scale
    meets its canvas bound exactly; the other is the truncated proportional
    length.
  */
  function FitSize(image: Size): (display: Size)
    requires image.NonEmpty()
    ensures display.width <= CanvasWidth && display.height <= CanvasHeight
    ensures display.width == CanvasWidth || display.height == CanvasHeight
  {
    if CanvasWidth * image.height <= CanvasHeight * image.width then
      DivAtMost(CanvasWidth * image.height, image.width, CanvasHeight);
      Size(CanvasWidth, CanvasWidth * image.height / image.width)
    else
      DivAtMost(CanvasHeight * image.width, image.height, CanvasWidth);
      Size(CanvasHeight * image.width / image.height, CanvasHeight)
  }

  lemma DivAtMost(n: nat, d: nat, c: nat)
    requires d > 0 && n <= c * d
    ensures n / d <= c
  {
    var q := n / d;
    DivBounds(n, d);
    if q > c {
      MulLt(c, q, d);
      assert false;
    }
  }

  /** The real quotient n/d truncates to Euclidean division. */
  lemma FloorOfQuotient(n: nat, d: nat)
    requires d > 0
    ensures (n as real / d as real).Floor == n / d
  {
    var q, r := n / d, n % d;
    var x, y := q as real, r as real / d as real;
    assert n == q * d + r;
    assert n as real == x * d as real + r as real;
    assert n as real / d as real == x + y;
    assert 0.0 <= y < 1.0;
  }

  /** `int(a * (n / d))` under exact arithmetic is `a * n / d`. */
  lemma ScaledFloor(a: nat, n: nat, d: nat)
    requires d > 0
    ensures (a as real * (n as real / d as real)).Floor == a * n / d
  {
    assert a as real * (n as real / d as real) == (a * n) as real / d as real;
    FloorOfQuotient(a * n, d);
  }

  /** `800 / width <= 600 / height` exactly when `800 * height <= 600 * width`. */
  lemma ScaleChoice(image: Size)
    requires image.NonEmpty()
    ensures (CanvasWidth as real / image.width as real <= CanvasHeight as real / image.height as real)
         == (CanvasWidth * image.height <= CanvasHeight * image.width)
  {
    var w, h := image.width as real, image.height as real;
    var cw, ch := CanvasWidth as real, CanvasHeight as real;
    var sx, sy := cw / w, ch / h;
    var c := w * h;
    assert sx * w == cw;
    assert sy * h == ch;
    assert sx * c == (sx * w) * h;
    assert sy * c == (sy * h) * w;
    RealScaleLe(sx, sy, c);
    assert (sx <= sy) == (cw * h <= ch * w);
    assert (CanvasWidth * image.height) as real == cw * h;
    assert (CanvasHeight * image.width) as real == ch * w;
  }

  lemma MulDivCancel(a: nat, d: nat)
    requires d > 0
    ensures d * a / d == a
  {
    var q, r := d * a / d, d * a % d;
    assert d * a == q * d + r;
    if q < a {
      MulLe(q + 1, a, d);
      assert false;
    } else if q > a {
      MulLe(a + 1, q, d);
      assert false;
    }
  }

  /**
    The integer closed form of FitSize is exactly what show_image computes
    with exact arithmetic: `(int(width * scale), int(height * scale))`.
  */
  lemma FitSizeIsScaledAndTruncated(image: Size)
    requires image.NonEmpty()
    ensures FitSize(image).width == (image.width as real * Scale(image)).Floor
    ensures FitSize(image).height == (image.height as real * Scale(image)).Floor
  {
    ScaleChoice(image);
    if CanvasWidth * image.height <= CanvasHeight * image.width {
      FitByWidth(image);
    } else {
      FitByHeight(image);
    }
  }

  /** The case where the width limits the scale: 800 / width. */
  lemma FitByWidth(image: Size)
    requires image.NonEmpty()
    requires Scale(image) == CanvasWidth as real / image.width as real
    requires CanvasWidth * image.height <= CanvasHeight * image.width
    ensures FitSize(image).width == (image.width as real * Scale(image)).Floor
    ensures FitSize(image).height == (image.height as real * Scale(image)).Floor
  {
    var w, h := image.width, image.height;
    ScaledFloor(w, CanvasWidth, w);
    ScaledFloor(h, CanvasWidth, w);
    MulDivCancel(CanvasWidth, w);
    assert w * CanvasWidth == CanvasWidth * w;
    assert h * CanvasWidth == CanvasWidth * h;
  }

  /** The case where the height limits the scale: 600 / height. */
  lemma FitByHeight(image: Size)
    requires image.NonEmpty()
    requires Scale(image) == CanvasHeight as real / image.height as real
    requires CanvasWidth * image.height > CanvasHeight * image.width
    ensures FitSize(image).width == (image.width as real * Scale(image)).Floor
    ensures FitSize(image).height == (image.height as real * Scale(image)).Floor
  {
    var w, h := image.width, image.height;
    ScaledFloor(w, CanvasHeight, h);
    ScaledFloor(h, CanvasHeight, h);
    MulDivCancel(CanvasHeight, h);
    assert h * CanvasHeight == CanvasHeight * h;
    assert w * CanvasHeight == CanvasHeight * w;
  }

  lemma RealScaleLe(a: real, b: real, c: real)
    requires c > 0.0
    ensures a <= b <==> a * c <= b * c
  {
    if a <= b {
      assert (b - a) * c >= 0.0;
    } else {
      assert (a - b) * c > 0.0;
    }
  }

  /**
    An image at least as wide or as tall as the label is shrunk (scale <= 1)
    on both axes; a smaller one is enlarged on both axes.
  */
  lemma FitShrinksExactlyLargeImages(image: Size)
    requires image.NonEmpty()
    ensures var d := FitSize(image);
      (image.width >= CanvasWidth || image.height >= CanvasHeight)
      <==> (d.width <= image.width && d.height <= image.height)
    ensures var d := FitSize(image);
      (image.width < CanvasWidth && image.height < CanvasHeight)
      ==> (d.width >= image.width && d.height >= image.height)
  {
    var w, h := image.width, image.height;
    if CanvasWidth * h <= CanvasHeight * w {
      if w >= CanvasWidth {
        MulLe(CanvasWidth, w, h);
        DivAtMost(CanvasWidth * h, w, h);
      } else {
        MulLe(w, CanvasWidth, h);
        DivAtLeast(CanvasWidth * h, w, h);
      }
    } else {
      if h >= CanvasHeight {
        MulLe(CanvasHeight, h, w);
        DivAtMost(CanvasHeight * w, h, w);
      } else {
        MulLe(h, CanvasHeight, w);
        DivAtLeast(CanvasHeight * w, h, w);
      }
    }
  }

  lemma DivAtLeast(n: nat, d: nat, c: nat)
    requires d > 0 && c * d <= n
    ensures c <= n / d
  {
    var q := n / d;
    DivBounds(n, d);
    if q < c {
      MulLe(q + 1, c, d);
      assert false;
    }
  }

  // ---------------------------------------------------------------------
  // end_roi and draw_roi_overlay: mapping between label and source pixels

  /** end_roi's `int(c * (orig / disp))` for one coordinate. */
  function ToSource(c: int, display: nat, image: nat): (s: int)
    requires display > 0
    ensures Abs(s) * display <= Abs(c * image) < (Abs(s) + 1) * display
    ensures c >= 0 ==> s >= 0
    ensures c <= 0 ==> s <= 0
  {
    TruncDiv(c * image, display)
  }

  /**
    draw_roi_overlay's `int(c * (disp / orig))` for one coordinate: the same
    scale-and-truncate as ToSource with the two sizes exchanged.
  */
  function ToDisplay(c: int, image: nat, display: nat): (d: int)
    requires image > 0
    ensures Abs(d) * image <= Abs(c * display) < (Abs(d) + 1) * image
    ensures c >= 0 ==> d >= 0
    ensures c <= 0 ==> d <= 0
  {
    ToSource(c, image, display)
  }

  /** Mapping back to the label keeps the order of source coordinates. */
  lemma ToDisplayMonotone(a: int, b: int, image: nat, display: nat)
    requires image > 0
    ensures a <= b ==> ToDisplay(a, image, display) <= ToDisplay(b, image, display)
  {
    if a <= b {
      MulLe(a, b, display);
      TruncDivMonotone(a * display, b * display, image);
    }
  }

  lemma ToSourceMonotone(a: int, b: int, display: nat, image: nat)
    requires display > 0 && a <= b
    ensures ToSource(a, display, image) <= ToSource(b, display, image)
  {
    MulLe(a, b, image);
    TruncDivMonotone(a * image, b * image, display);
  }

  /** The bounding box of a drag from `a` to `b`: per axis the smaller and the larger coordinate. */
  function NormaliseDrag(a: Point, b: Point): (r: Rect)
    ensures r.Normalised()
    ensures r.x1 <= a.x && r.x1 <= b.x && (r.x1 == a.x || r.x1 == b.x)
    ensures r.y1 <= a.y && r.y1 <= b.y && (r.y1 == a.y || r.y1 == b.y)
    ensures r.x2 >= a.x && r.x2 >= b.x && (r.x2 == a.x || r.x2 == b.x)
    ensures r.y2 >= a.y && r.y2 >= b.y && (r.y2 == a.y || r.y2 == b.y)
  {
    Rect(Min(a.x, b.x), Min(a.y, b.y), Max(a.x, b.x), Max(a.y, b.y))
  }

  /**
    The rubber band Qt 5 shows for QRect(a, b).normalized().  A QRect spans
    x1..x2 inclusive, so its width is x2 - x1 + 1, and normalized() swaps an
    axis only when that width is negative, that is when b.x < a.x - 1.
  */
  function QtBand(a: Point, b: Point): (r: Rect)
    ensures r.x1 <= r.x2 + 1 && r.y1 <= r.y2 + 1
    ensures (r.x1 == a.x && r.x2 == b.x) || (r.x1 == b.x && r.x2 == a.x)
    ensures (r.y1 == a.y && r.y2 == b.y) || (r.y1 == b.y && r.y2 == a.y)
  {
    Rect(if b.x < a.x - 1 then b.x else a.x, if b.y < a.y - 1 then b.y else a.y,
         if b.x < a.x - 1 then a.x else b.x, if b.y < a.y - 1 then a.y else b.y)
  }

  /**
    The band agrees with the normalised drag except when the pointer is
    exactly one pixel left of or above the press, where Qt keeps an empty
    band the wrong way round.
  */
  lemma BandIsDrag(a: Point, b: Point)
    ensures QtBand(a, b) == NormaliseDrag(a, b) <==> b.x != a.x - 1 && b.y != a.y - 1
  {
  }

  /**
    The ROI end_roi stores for a drag from `origin` to `end` over a display
    image of size `display` showing an image of size `image`: both corners
    normalised first, then scaled and truncated.
  */
  function CommitRoi(origin: Point, end: Point, display: Size, image: Size): (roi: Rect)
    requires display.NonEmpty()
    ensures roi.Normalised()
  {
    var d := NormaliseDrag(origin, end);
    ToSourceMonotone(d.x1, d.x2, display.width, image.width);
    ToSourceMonotone(d.y1, d.y2, display.height, image.height);
    Rect(ToSource(d.x1, display.width, image.width), ToSource(d.y1, display.height, image.height),
         ToSource(d.x2, display.width, image.width), ToSource(d.y2, display.height, image.height))
  }

  /** The committed ROI does not depend on the corner the drag started from. */
  lemma CommitRoiSymmetric(origin: Point, end: Point, display: Size, image: Size)
    requires display.NonEmpty()
    ensures CommitRoi(origin, end, display, image) == CommitRoi(end, origin, display, image)
  {
  }

  /** The example of a 1600x1200 image shown at 800x600 with a drag from (10,10) to (110,60). */
  lemma CommitRoiExample()
    ensures FitSize(Size(1600, 1200)) == Size(800, 600)
    ensures CommitRoi(Point(10, 10), Point(110, 60), Size(800, 600), Size(1600, 1200)) == Rect(20, 20, 220, 120)
  {
  }

  /** The label rectangle draw_roi_overlay outlines for the source rectangle `roi`. */
  function BackMap(roi: Rect, image: Size, display: Size): (r: Rect)
    requires image.NonEmpty()
    ensures roi.Normalised() ==> r.Normalised()
  {
    ToDisplayMonotone(roi.x1, roi.x2, image.width, display.width);
    ToDisplayMonotone(roi.y1, roi.y2, image.height, display.height);
    Rect(ToDisplay(roi.x1, image.width, display.width), ToDisplay(roi.y1, image.height, display.height),
         ToDisplay(roi.x2, image.width, display.width), ToDisplay(roi.y2, image.height, display.height))
  }

  /**
    A label coordinate mapped to the source and back never moves away from
    zero, and when the image was shrunk, or enlarged by at most one pixel
    (display <= image + 1), it moves toward zero by at most one pixel.
  */
  lemma {:induction false} RoundTrip(d: int, display: nat, image: nat)
    requires display > 0 && image > 0
    ensures var back := ToDisplay(ToSource(d, display, image), image, display);
      && (d >= 0 ==> 0 <= back <= d)
      && (d <= 0 ==> d <= back <= 0)
      && (display <= image + 1 && d >= 0 ==> d - 1 <= back)
      && (display <= image + 1 && d <= 0 ==> back <= d + 1)
  {
    if d >= 0 {
      RoundTripNonNegative(d, display, image);
    } else {
      RoundTripNonNegative(-d, display, image);
      RoundTripNegate(-d, display, image);
    }
  }

  /** Mapping there and back commutes with negation. */
  lemma RoundTripNegate(d: int, display: nat, image: nat)
    requires display > 0 && image > 0
    ensures ToDisplay(ToSource(-d, display, image), image, display)
         == -ToDisplay(ToSource(d, display, image), image, display)
  {
    var s := ToSource(d, display, image);
    assert (-d) * image == -(d * image);
    TruncDivNegate(d * image, display);
    assert ToSource(-d, display, image) == -s;
    assert (-s) * display == -(s * display);
    TruncDivNegate(s * display, image);
  }

  lemma RoundTripNonNegative(d: nat, display: nat, image: nat)
    requires display > 0 && image > 0
    ensures var back := ToDisplay(ToSource(d, display, image), image, display);
      && 0 <= back <= d
      && (display <= image + 1 ==> d - 1 <= back)
  {
    var s := (d * image) / display;
    DivBounds(d * image, display);
    var back := (s * display) / image;
    assert ToDisplay(ToSource(d, display, image), image, display) == back;
    DivAtMost(s * display, image, d);
    if display <= image + 1 && d >= 1 {
      assert (d - 1) * image == d * image - image;
      DivAtLeast(s * display, image, d - 1);
    }
  }

  /**
    When the image was enlarged by more than one pixel the round trip can
    lose more than a pixel: a 100-pixel-wide image shown 800 pixels wide maps
    label x = 7 to source x = 0, and back to label x = 0.  The bound of
    RoundTrip is tight: one source pixel shown three wide already takes
    label x = 2 back to 0.
  */
  lemma RoundTripLossWhenEnlarged()
    ensures ToSource(7, 800, 100) == 0
    ensures ToDisplay(ToSource(7, 800, 100), 100, 800) == 0
    ensures ToDisplay(ToSource(2, 3, 1), 1, 3) == 0
  {
  }

  /**
    The outline drawn after a release sits on the dragged rectangle: each
    edge at most one pixel inside it when the display is at most one pixel
    larger than the image on each axis (in particular when the image was
    shrunk), for a drag
    that stayed at non-negative label positions.
  */
  lemma OutlineTracksDrag(origin: Point, end: Point, display: Size, image: Size)
    requires display.NonEmpty() && image.NonEmpty()
    requires display.width <= image.width + 1 && display.height <= image.height + 1
    requires origin.x >= 0 && origin.y >= 0 && end.x >= 0 && end.y >= 0
    ensures var d := NormaliseDrag(origin, end);
      var o := BackMap(CommitRoi(origin, end, display, image), image, display);
      && d.x1 - 1 <= o.x1 <= d.x1 && d.y1 - 1 <= o.y1 <= d.y1
      && d.x2 - 1 <= o.x2 <= d.x2 && d.y2 - 1 <= o.y2 <= d.y2
  {
    var d := NormaliseDrag(origin, end);
    RoundTrip(d.x1, display.width, image.width);
    RoundTrip(d.y1, display.height, image.height);
    RoundTrip(d.x2, display.width, image.width);
    RoundTrip(d.y2, display.height, image.height);
  }
}
