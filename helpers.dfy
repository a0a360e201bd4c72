/** digitre/helpers.py: the earliest draft of the crop, which cuts one index range out of both
    axes and stretches it to at least 28 pixels against a 200-pixel canvas, and the search for
    the first non-zero entry. Its header strip is DigitrePreprocessing.StripHeader and its
    flatten_img is Numpy.Flatten. */
module Helpers {
  import opened Python
  import opened Numpy

  /** `lowest_non_zero`: `np.nonzero(x)[0][0]`, the index of the first non-zero entry; the
      final `[0]` raises an IndexError when every entry is zero. */
  function LowestNonZero(x: seq<int>): (r: Result<nat>)
    ensures r.Err? <==> forall k :: 0 <= k < |x| ==> x[k] == 0
    ensures r.Err? ==> r.error == IndexOutOfBounds
    ensures r.Ok? ==> r.value < |x| && x[r.value] != 0
    ensures r.Ok? ==> forall k :: 0 <= k < r.value ==> x[k] == 0
  {
    var nz := NonzeroIndices(x);
    if |nz| == 0 then Err(IndexOutOfBounds)
    else
      assert forall m :: 0 <= m < |nz| ==> nz[0] <= nz[m];
      assert forall k :: 0 <= k < |x| && x[k] != 0 ==> nz[0] <= k;
      Ok(nz[0])
  }

  /** The half-open index range `[first:last]` that `crop_and_resize` cuts from both axes. */
  datatype Span = Span(first: int, last: int)

  /** The minimum-size adjustment: a range shorter than 28 is lengthened to exactly 28,
      forwards when that stays below the 200-pixel canvas, backwards otherwise. The range
      never shrinks. */
  function AdjustSpan(first: nat, last: nat): (s: Span)
    requires first <= last
    ensures s.last - s.first >= 28
    ensures 0 <= s.first <= first && last <= s.last
    ensures last - first >= 28 ==> s == Span(first, last)
    ensures last - first < 28 ==> s.last - s.first == 28
    ensures last - first < 28 && first + 28 < 200 ==> s.first == first && s.last < 200
    ensures last - first < 28 && first + 28 >= 200 ==> s.last == last
  {
    if last - first < 28 then
      if first + 28 < 200 then Span(first, first + 28) else Span(last - 28, last)
    else
      Span(first, last)
  }

  /** The range for the ink's bounds: from the smaller first index of the two axes to the
      larger last index, adjusted. */
  function CropSpan(b: Box): (s: Span)
    requires b.firstRow <= b.lastRow && b.firstCol <= b.lastCol
    ensures 0 <= s.first <= b.firstRow && s.first <= b.firstCol && s.last - s.first >= 28
  {
    AdjustSpan(Min(b.firstRow, b.firstCol), Max(b.lastRow, b.lastCol))
  }

  /** The same range on both axes. */
  function SpanWindow(s: Span): (w: Window)
    ensures w.rowStop - w.rowStart == w.colStop - w.colStart == s.last - s.first
  {
    Window(s.first, s.last, s.first, s.last)
  }

  /** `crop_and_resize` up to its slice: the ink's bounds (or the error of `.min()` on no ink)
      and `img[first:last, first:last]`. */
  function CropAndResize(im: Image<int>): (r: Result<Image<int>>)
    requires im.Valid()
    ensures r.Err? <==> !HasInk(im)
    ensures r.Err? ==> r.error == EmptyReduction
    ensures r.Ok? ==> r.value.Valid()
  {
    var b :- BoundingBox(im);
    var s := CropSpan(b);
    Ok(PySlice(im, s.first, s.last, s.first, s.last))
  }

  /** Once the bounding box is known, the crop is the slice of its range. */
  lemma CropAndResizeOfBox(im: Image<int>, b: Box)
    requires im.Valid() && BoundingBox(im) == Ok(b)
    ensures var s := CropSpan(b);
      CropAndResize(im) == Ok(PySlice(im, s.first, s.last, s.first, s.last))
  {
  }

  /** When the range ends inside both axes, the crop is a square of side at least 28 holding
      the image's pixels from the range's first corner on. */
  lemma CropSquare(im: Image<int>, b: Box)
    requires im.Valid() && b.firstRow <= b.lastRow && b.firstCol <= b.lastCol
    requires CropSpan(b).last <= im.height && CropSpan(b).last <= im.width
    ensures var s := CropSpan(b);
      var r := PySlice(im, s.first, s.last, s.first, s.last);
      && r.height == r.width == s.last - s.first >= 28
      && forall i, j :: 0 <= i < r.height && 0 <= j < r.width ==>
           r.px[i][j] == im.px[s.first + i][s.first + j]
  {
    SliceInside(im, SpanWindow(CropSpan(b)));
  }

  /** The range holds every inked pixel exactly when the adjustment lengthened it forwards;
      otherwise its exclusive end is the largest inked index, and the pixel there is cut. */
  lemma CropSpanKeepsInkIff(im: Image<int>, b: Box)
    requires im.Valid() && IsBoundingBox(im, b)
    ensures var first, last := Min(b.firstRow, b.firstCol), Max(b.lastRow, b.lastCol);
      KeepsAllInk(im, SpanWindow(CropSpan(b))) <==> last - first < 28 && first + 28 < 200
  {
    var first, last := Min(b.firstRow, b.firstCol), Max(b.lastRow, b.lastCol);
    var s := CropSpan(b);
    if !(last - first < 28 && first + 28 < 200) {
      assert s.last == last;
      if last == b.lastRow {
        var j :| IsInk(im, b.lastRow, j);
        assert !(b.lastRow < s.last);
      } else {
        var i :| IsInk(im, i, b.lastCol);
        assert !(b.lastCol < s.last);
      }
    }
  }

  /** The range with an exclusive end one past the largest inked index, adjusted the same
      way. */
  function CropSpanIntended(b: Box): (s: Span)
    requires b.firstRow <= b.lastRow && b.firstCol <= b.lastCol
    ensures s.first <= b.firstRow && s.first <= b.firstCol
    ensures b.lastRow < s.last && b.lastCol < s.last
    ensures s.last - s.first >= 28
  {
    AdjustSpan(Min(b.firstRow, b.firstCol), Max(b.lastRow, b.lastCol) + 1)
  }

  /** The corrected range holds every inked pixel, wherever the ink lies. */
  lemma CropSpanIntendedKeepsInk(im: Image<int>, b: Box)
    requires im.Valid() && IsBoundingBox(im, b)
    ensures KeepsAllInk(im, SpanWindow(CropSpanIntended(b)))
  {
  }
}
