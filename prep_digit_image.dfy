/** digitre/prep_digit_image.py: the earlier crop, which widens the ink's span by a 10-pixel
    margin, measures one length across rows and columns together, and returns the bare slice
    without a zero frame. Its header strip and channel selection are the same expressions as
    in digitre_preprocessing.py, and its flatten_img is Numpy.Flatten. */
module PrepDigitImage {
  import opened Python
  import opened Numpy

  /** `max(last - first, 28)` with `first = min(first_row, first_col) - 10` and
      `last = max(last_row, last_col) + 10`: the span of the ink over both axes plus twenty,
      at least 28. */
  function MarginLength(b: Box): (length: int)
    requires b.firstRow <= b.lastRow && b.firstCol <= b.lastCol
    ensures length >= 28
    ensures length >= Max(b.lastRow, b.lastCol) - Min(b.firstRow, b.firstCol) + 20
    ensures length >= b.RowExtent() + 20 && length >= b.ColExtent() + 20
    ensures length == 28 || length == Max(b.lastRow, b.lastCol) - Min(b.firstRow, b.firstCol) + 20
  {
    var first := Min(b.firstRow, b.firstCol) - 10;
    var last := Max(b.lastRow, b.lastCol) + 10;
    Max(last - first, 28)
  }

  /** `int(length / 2)`: half the length, rounded down, with no extra pixel. */
  function HalfLength(length: int): (half: int)
    requires length >= 28
    ensures half >= 14 && 2 * half <= length <= 2 * half + 1
  {
    length / 2
  }

  /** The window `[middle - half_length, middle + half_length)` on both axes, centred on the
      ink's midpoint on each axis. It reaches at least ten pixels before the first inked index
      and at least nine past the last, on each axis. */
  function MarginWindow(b: Box): (w: Window)
    requires b.firstRow <= b.lastRow && b.firstCol <= b.lastCol
    ensures w.rowStop - w.rowStart == 2 * HalfLength(MarginLength(b))
    ensures w.colStop - w.colStart == 2 * HalfLength(MarginLength(b))
    ensures w.rowStart <= b.firstRow - 10 && b.lastRow + 9 <= w.rowStop
    ensures w.colStart <= b.firstCol - 10 && b.lastCol + 9 <= w.colStop
    ensures w.rowStart + w.rowStop == 2 * ((b.firstRow + b.lastRow) / 2)
    ensures w.colStart + w.colStop == 2 * ((b.firstCol + b.lastCol) / 2)
  {
    var half := HalfLength(MarginLength(b));
    var middleRow := (b.lastRow + b.firstRow) / 2;
    var middleCol := (b.lastCol + b.firstCol) / 2;
    Window(middleRow - half, middleRow + half, middleCol - half, middleCol + half)
  }

  /** The window holds every inked pixel, wherever the ink lies. */
  lemma MarginWindowKeepsInk(im: Image<int>, b: Box)
    requires im.Valid() && IsBoundingBox(im, b)
    ensures KeepsAllInk(im, MarginWindow(b))
  {
  }

  /** `crop_img`: the slice of the window, with Python's index rules; an image without ink
      raises in `.min()`. */
  function CropImg(im: Image<int>): (r: Result<Image<int>>)
    requires im.Valid()
    ensures r.Err? <==> !HasInk(im)
    ensures r.Err? ==> r.error == EmptyReduction
    ensures r.Ok? ==> r.value.Valid()
  {
    var b :- BoundingBox(im);
    Ok(MarginCrop(im, b))
  }

  /** The slice of the window around b; Python's index rules can only shrink it. */
  function MarginCrop(im: Image<int>, b: Box): (r: Image<int>)
    requires im.Valid() && b.firstRow <= b.lastRow && b.firstCol <= b.lastCol
    ensures r.Valid()
    ensures r.height <= 2 * HalfLength(MarginLength(b)) && r.width <= 2 * HalfLength(MarginLength(b))
  {
    var w := MarginWindow(b);
    PySlice(im, w.rowStart, w.rowStop, w.colStart, w.colStop)
  }

  /** When the window lies inside the image, the crop around b is the window itself, with
      no frame added: a square of side `2 * half_length`, at least 28. */
  lemma MarginCropInside(im: Image<int>, b: Box)
    requires im.Valid() && b.firstRow <= b.lastRow && b.firstCol <= b.lastCol
    requires WindowInside(MarginWindow(b), im)
    ensures var w := MarginWindow(b);
      var r := MarginCrop(im, b);
      && r.height == w.rowStop - w.rowStart && r.width == w.colStop - w.colStart
      && forall i, j :: 0 <= i < r.height && 0 <= j < r.width ==>
           r.px[i][j] == im.px[w.rowStart + i][w.colStart + j]
  {
    SliceInside(im, MarginWindow(b));
  }

  /** When the window lies inside the image, the crop holds every inked pixel at the
      window's offset. */
  lemma CropImgKeepsInk(im: Image<int>, b: Box)
    requires im.Valid() && BoundingBox(im) == Ok(b)
    requires WindowInside(MarginWindow(b), im)
    ensures CropImg(im) == Ok(MarginCrop(im, b))
    ensures var w := MarginWindow(b);
      forall i, j :: IsInk(im, i, j) ==> IsInk(MarginCrop(im, b), i - w.rowStart, j - w.colStart)
  {
    CropImgOfBox(im, b);
    MarginWindowKeepsInk(im, b);
    MarginCropKeepsInk(im, b);
  }

  lemma MarginCropKeepsInk(im: Image<int>, b: Box)
    requires im.Valid() && b.firstRow <= b.lastRow && b.firstCol <= b.lastCol
    requires WindowInside(MarginWindow(b), im) && KeepsAllInk(im, MarginWindow(b))
    ensures var w := MarginWindow(b);
      forall i, j :: IsInk(im, i, j) ==> IsInk(MarginCrop(im, b), i - w.rowStart, j - w.colStart)
  {
    SliceKeepsInk(im, MarginWindow(b));
  }

  /** Once the bounding box is known, the crop is the slice of the window around it. */
  lemma CropImgOfBox(im: Image<int>, b: Box)
    requires im.Valid() && BoundingBox(im) == Ok(b)
    ensures CropImg(im) == Ok(MarginCrop(im, b))
  {
  }
}
