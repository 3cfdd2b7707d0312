/**
  Python/numpy basic slicing of one axis with step 1, as run_ocr uses it to
  crop `image[y1:y2, x1:x2]` and to write the annotated crop back.  A bound
  below zero counts from the end of the axis, then every bound is clamped to
  the axis, and a slice whose stop falls before its start is empty.
*/
module Slicing {
  import opened Geometry

  /** The half-open range of positions [start, stop) that a slice selects. */
  datatype Span = Span(start: nat, stop: nat) {
    function Length(): nat { if start <= stop then stop - start else 0 }
  }

  /** One slice bound normalised against an axis of length n. */
  function Bound(i: int, n: nat): (r: nat)
    ensures r <= n
    ensures 0 <= i <= n ==> r == i
  {
    if i < 0 then (if i + n < 0 then 0 else i + n)
    else if i > n then n
    else i
  }

  /** The positions `lo:hi` selects on an axis of length n. */
  function SliceSpan(lo: int, hi: int, n: nat): (s: Span)
    ensures s.start <= s.stop <= n
  {
    var a := Bound(lo, n);
    var b := Bound(hi, n);
    Span(a, Max(a, b))
  }

  /**
    The language rule, stated without clamping: position k of an axis of
    length n is selected by `lo:hi` when it lies in the axis, at or after lo
    and before hi, a negative lo or hi being read as counted from the end.
  */
  predicate Selects(lo: int, hi: int, n: nat, k: int) {
    && 0 <= k < n
    && (if lo < 0 then lo + n else lo) <= k
    && k < (if hi < 0 then hi + n else hi)
  }

  /** SliceSpan selects exactly the positions the language rule selects. */
  lemma SliceSpanSelects(lo: int, hi: int, n: nat, k: int)
    ensures var s := SliceSpan(lo, hi, n); (s.start <= k < s.stop) <==> Selects(lo, hi, n, k)
  {
  }

  /** A slice is empty exactly when the language rule selects nothing. */
  lemma EmptySliceSelectsNothing(lo: int, hi: int, n: nat)
    ensures SliceSpan(lo, hi, n).Length() == 0 <==> forall k :: 0 <= k < n ==> !Selects(lo, hi, n, k)
  {
    var s := SliceSpan(lo, hi, n);
    if s.Length() != 0 {
      SliceSpanSelects(lo, hi, n, s.start);
    } else {
      forall k | 0 <= k < n ensures !Selects(lo, hi, n, k) {
        SliceSpanSelects(lo, hi, n, k);
      }
    }
  }

  /** A click without a drag gives equal bounds, and so an empty slice. */
  lemma EqualBoundsEmpty(i: int, n: nat)
    ensures SliceSpan(i, i, n).Length() == 0
  {
  }

  /** Inside the axis, a slice is the plain range of its bounds. */
  lemma InBoundsSlice(lo: int, hi: int, n: nat)
    requires 0 <= lo <= hi <= n
    ensures SliceSpan(lo, hi, n) == Span(lo, hi)
  {
  }

  /**
    A drag that started left of the label can give a negative lower corner,
    which counts from the far edge: on a 10-pixel axis `-3:5` selects nothing,
    and `-3:10` the last three positions.
  */
  lemma NegativeBoundWraps()
    ensures SliceSpan(-3, 5, 10).Length() == 0
    ensures SliceSpan(-3, 10, 10) == Span(7, 10)
  {
  }
}
