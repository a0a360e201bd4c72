/** digitre/digitre_preprocessing.py: from the canvas's data URL to the alpha plane, the crop
    around the ink with its 15-pixel zero frame, and the linear rescaling of pixel values. */
module DigitrePreprocessing {
  import opened Python
  import opened Numpy
  import opened PyStr

  // ---------------------------------------------------------------------------
  // b64_str_to_np: header strip and channel selection
  // ---------------------------------------------------------------------------

  /** The data-URL header strip: when the text mentions "base64", keep what follows its one
      comma; the tuple unpacking raises unless the split gives exactly two parts. */
  function StripHeader(s: string): (r: Result<string>)
    ensures !Contains(s, "base64") ==> r == Ok(s)
    ensures Contains(s, "base64") ==> (r.Ok? <==> Count(s, ',') == 1)
    ensures r.Err? ==> r.error == UnpackMismatch
    ensures Contains(s, "base64") && r.Ok? ==>
      exists k :: 0 <= k < |s| && s[k] == ',' && r.value == s[k + 1..] &&
        ',' !in s[..k] && ',' !in r.value
  {
    if Contains(s, "base64") then
      var parts := Split(s, ',');
      if |parts| == 2 then
        assert s == parts[0] + [','] + parts[1] by {
          assert Join(parts[1..], ',') == parts[1];
        }
        assert s[|parts[0]|] == ',' && s[..|parts[0]|] == parts[0];
        assert s[|parts[0]| + 1..] == parts[1];
        Ok(parts[1])
      else
        Err(UnpackMismatch)
    else
      Ok(s)
  }

  /** A data URL "<header>,<payload>" whose header names base64 gives back its payload. */
  lemma StripHeaderDataUrl(header: string, payload: string)
    requires Contains(header, "base64")
    requires ',' !in header && ',' !in payload
    ensures StripHeader(header + "," + payload) == Ok(payload)
  {
    var s := header + "," + payload;
    assert s == header + ("," + payload);
    ContainsPrefix(header, "," + payload, "base64");
    assert s == header + [','] + payload;
    SplitAfterFirst(header, payload, ',');
    SplitWithout(payload, ',');
    assert Split(s, ',') == [header, payload];
  }

  /** `img[:, :, 3]`: the alpha plane; numpy raises an IndexError when there is no fourth
      channel. */
  function SelectAlpha(img: Image3): (r: Result<Image<int>>)
    requires img.Valid()
    ensures r.Err? <==> img.channels < 4
    ensures r.Err? ==> r.error == IndexOutOfBounds
    ensures r.Ok? ==> r.value.Valid() && r.value.height == img.height && r.value.width == img.width
    ensures r.Ok? ==> forall i, j :: 0 <= i < img.height && 0 <= j < img.width ==>
      r.value.px[i][j] == img.px[i][j][3]
  {
    if img.channels < 4 then Err(IndexOutOfBounds)
    else
      Ok(Image(img.height, img.width,
               seq(img.height, i requires 0 <= i < img.height =>
                 seq(img.width, j requires 0 <= j < img.width => img.px[i][j][3]))))
  }

  /** The decoder only ever returns well-formed arrays. */
  ghost predicate DecodesToArrays(decode: string -> Result<Image3>) {
    forall t :: decode(t).Ok? ==> decode(t).value.Valid()
  }

  /** `b64_str_to_np`: strip the header, decode the payload (base64 and PNG, a parameter
      here), keep the alpha plane. */
  function B64StrToNp(s: string, decode: string -> Result<Image3>): (r: Result<Image<int>>)
    requires DecodesToArrays(decode)
    ensures r.Ok? ==> r.value.Valid()
    ensures r.Ok? <==>
      StripHeader(s).Ok? && decode(StripHeader(s).value).Ok? &&
      decode(StripHeader(s).value).value.channels >= 4
    ensures r.Ok? ==> var img := decode(StripHeader(s).value).value;
      r.value.height == img.height && r.value.width == img.width &&
      forall i, j :: 0 <= i < img.height && 0 <= j < img.width ==>
        r.value.px[i][j] == img.px[i][j][3]
  {
    var payload :- StripHeader(s);
    var img :- decode(payload);
    SelectAlpha(img)
  }

  // ---------------------------------------------------------------------------
  // crop_img
  // ---------------------------------------------------------------------------

  /** `int(np.mean([b, a]))` for indices: the midpoint, rounded down. */
  function Midpoint(a: nat, b: nat): (m: nat)
    ensures a <= b ==> a <= m <= b && m - a <= b - m <= m - a + 1
  {
    (a + b) / 2
  }

  /** `max(max(row_length, col_length), 28)`: the longer extent of the ink, at least 28. */
  function CropLength(b: Box): (length: int)
    ensures length >= 28 && length >= b.RowExtent() && length >= b.ColExtent()
    ensures length == 28 || length == b.RowExtent() || length == b.ColExtent()
  {
    Max(Max(b.RowExtent(), b.ColExtent()), 28)
  }

  /** `int(length / 2) + 1`: half the length plus one pixel, so the window side is one or
      two pixels more than the length. */
  function HalfLength(length: int): (half: int)
    requires length >= 28
    ensures half >= 15 && length < 2 * half <= length + 2
  {
    length / 2 + 1
  }

  /** The odd case: the row extent is the crop length and is odd (so at least 29). */
  predicate DropsLastRow(b: Box) {
    b.RowExtent() == CropLength(b) && CropLength(b) % 2 == 1
  }

  predicate DropsLastCol(b: Box) {
    b.ColExtent() == CropLength(b) && CropLength(b) % 2 == 1
  }

  /** The square window `[middle - half_length, middle + half_length)` on both axes,
      centred on the ink's midpoint on each axis. It starts before the first inked row and
      column; it ends after the last one except in the odd case, where its exclusive end is
      exactly the last inked index. */
  function CropWindow(b: Box): (w: Window)
    requires b.firstRow <= b.lastRow && b.firstCol <= b.lastCol
    ensures w.rowStop - w.rowStart == 2 * HalfLength(CropLength(b))
    ensures w.colStop - w.colStart == 2 * HalfLength(CropLength(b))
    ensures w.rowStart < b.firstRow && w.colStart < b.firstCol
    ensures b.lastRow < w.rowStop <==> !DropsLastRow(b)
    ensures b.lastCol < w.colStop <==> !DropsLastCol(b)
    ensures DropsLastRow(b) ==> b.lastRow == w.rowStop
    ensures DropsLastCol(b) ==> b.lastCol == w.colStop
    ensures w.rowStart + w.rowStop == 2 * Midpoint(b.firstRow, b.lastRow)
    ensures w.colStart + w.colStop == 2 * Midpoint(b.firstCol, b.lastCol)
  {
    var length := CropLength(b);
    var half := HalfLength(length);
    var middleRow := Midpoint(b.firstRow, b.lastRow);
    var middleCol := Midpoint(b.firstCol, b.lastCol);
    Window(middleRow - half, middleRow + half, middleCol - half, middleCol + half)
  }

  /** `crop_img`: slice the window (with Python's index rules) and add a 15-pixel zero frame;
      an image without ink raises in `.min()`. */
  function CropImg(im: Image<int>): (r: Result<Image<int>>)
    requires im.Valid()
    ensures r.Err? <==> !HasInk(im)
    ensures r.Err? ==> r.error == EmptyReduction
    ensures r.Ok? ==> r.value.Valid() && r.value.height >= 30 && r.value.width >= 30
    ensures r.Ok? ==> ZeroFrame(r.value, 15)
  {
    var b :- BoundingBox(im);
    Ok(CropAround(im, b))
  }

  /** The window around b, sliced and framed. */
  function CropAround(im: Image<int>, b: Box): (r: Image<int>)
    requires im.Valid() && b.firstRow <= b.lastRow && b.firstCol <= b.lastCol
    ensures r.Valid() && r.height >= 30 && r.width >= 30 && ZeroFrame(r, 15)
  {
    var w := CropWindow(b);
    Pad(PySlice(im, w.rowStart, w.rowStop, w.colStart, w.colStop), 15)
  }

  /** When the window lies inside the image, the crop around b is a square of side
      2 * half_length + 30 holding the window's pixels behind the 15-pixel frame. */
  lemma CropAroundInside(im: Image<int>, b: Box)
    requires im.Valid() && b.firstRow <= b.lastRow && b.firstCol <= b.lastCol
    requires WindowInside(CropWindow(b), im)
    ensures var w := CropWindow(b);
      var r := CropAround(im, b);
      var side := w.rowStop - w.rowStart;
      && side == w.colStop - w.colStart && side >= 30
      && r.height == side + 30 && r.width == side + 30
      && forall i, j :: 15 <= i < side + 15 && 15 <= j < side + 15 ==>
           r.px[i][j] == im.px[w.rowStart + i - 15][w.colStart + j - 15]
  {
    PadSliceInside(im, CropWindow(b), 15);
  }

  /** The window holds every inked pixel exactly when neither axis is in the odd case. */
  lemma CropWindowKeepsInk(im: Image<int>)
    requires im.Valid() && HasInk(im)
    ensures var b := BoundingBox(im).value;
      KeepsAllInk(im, CropWindow(b)) <==> !DropsLastRow(b) && !DropsLastCol(b)
  {
    var b := BoundingBox(im).value;
    WindowKeepsInkIff(im, b, CropWindow(b));
  }

  /** When the window lies inside the image and neither axis is in the odd case, the crop
      holds every inked pixel, moved by the window's corner and the 15-pixel frame. */
  lemma CropImgKeepsInk(im: Image<int>, b: Box)
    requires im.Valid() && BoundingBox(im) == Ok(b)
    requires WindowInside(CropWindow(b), im)
    requires !DropsLastRow(b) && !DropsLastCol(b)
    ensures CropImg(im).Ok?
    ensures var w := CropWindow(b);
      forall i, j :: IsInk(im, i, j) ==>
        IsInk(CropImg(im).value, i - w.rowStart + 15, j - w.colStart + 15)
  {
    CropImgOfBox(im, b);
    CropWindowKeepsInk(im);
    CropAroundKeepsInk(im, b);
  }

  /** Once a window inside the image covers the ink, the crop around b holds each inked pixel
      at the window's offset plus the frame. */
  lemma CropAroundKeepsInk(im: Image<int>, b: Box)
    requires im.Valid() && b.firstRow <= b.lastRow && b.firstCol <= b.lastCol
    requires WindowInside(CropWindow(b), im) && KeepsAllInk(im, CropWindow(b))
    ensures var w := CropWindow(b);
      forall i, j :: IsInk(im, i, j) ==>
        IsInk(CropAround(im, b), i - w.rowStart + 15, j - w.colStart + 15)
  {
    PadSliceInsideKeepsInk(im, CropWindow(b), 15);
  }

  /** The ink of im is exactly the two pixels (1, 15) and (30, 15) of a 31 x 30 grid: the rows
      span 29, which is odd and longer than the 28-pixel minimum. */
  ghost predicate TwoDots(im: Image<int>)
    requires im.Valid()
  {
    im.height == 31 && im.width == 30 &&
    forall i, j :: IsInk(im, i, j) <==> (i == 1 || i == 30) && j == 15
  }

  /** Such a drawing exists. */
  lemma TwoDotsExample()
    ensures var im := Image(31, 30, seq(31, i requires 0 <= i < 31 =>
      seq(30, j requires 0 <= j < 30 => if (i == 1 || i == 30) && j == 15 then 255 else 0)));
      im.Valid() && TwoDots(im)
  {
  }

  /** On a TwoDots drawing the crop keeps the dot of row 1 and loses the dot of row 30. */
  lemma OddExtentDropsInk(im: Image<int>)
    requires im.Valid() && TwoDots(im)
    ensures CropImg(im).Ok?
    ensures var r := CropImg(im).value;
      && r.height == 60 && r.width == 60 && r.px[16][30] == im.px[1][15] != 0
      && forall i, j :: IsInk(r, i, j) ==> i == 16 && j == 30
  {
    TwoDotsCrop(im);
    TwoDotsCropInk(im);
  }

  /** The crop of a TwoDots drawing is its top-left 30 x 30 square, framed. */
  lemma TwoDotsCrop(im: Image<int>)
    requires im.Valid() && TwoDots(im)
    ensures CropImg(im) == Ok(Pad(PySlice(im, 0, 30, 0, 30), 15))
  {
    TwoDotsBox(im);
    CropImgOfBox(im, Box(1, 30, 15, 15));
    TwoDotsWindow();
  }

  /** That framed square holds the dot of row 1 and nothing else. */
  lemma TwoDotsCropInk(im: Image<int>)
    requires im.Valid() && TwoDots(im)
    ensures var r := Pad(PySlice(im, 0, 30, 0, 30), 15);
      && r.height == 60 && r.width == 60 && r.px[16][30] == im.px[1][15] != 0
      && forall i, j :: IsInk(r, i, j) ==> i == 16 && j == 30
  {
    var c := PySlice(im, 0, 30, 0, 30);
    var r := Pad(c, 15);
    PadSliceInside(im, Window(0, 30, 0, 30), 15);
    assert IsInk(im, 1, 15);
    forall i, j | IsInk(r, i, j) ensures i == 16 && j == 30 {
      assert r.px[i][j] == PaddedPixel(c, 15, i, j);
      assert IsInk(im, i - 15, j - 15);
    }
  }

  /** The rows of a TwoDots drawing span 29, so the window is the top-left 30 x 30 square. */
  lemma TwoDotsWindow()
    ensures CropWindow(Box(1, 30, 15, 15)) == Window(0, 30, 0, 30)
  {
    assert CropLength(Box(1, 30, 15, 15)) == 29;
    assert HalfLength(29) == 15;
    assert Midpoint(1, 30) == 15 && Midpoint(15, 15) == 15;
  }

  /** Once the bounding box is known, the crop is the framed window around it. */
  lemma CropImgOfBox(im: Image<int>, b: Box)
    requires im.Valid() && BoundingBox(im) == Ok(b)
    ensures CropImg(im) == Ok(CropAround(im, b))
  {
  }

  lemma TwoDotsBox(im: Image<int>)
    requires im.Valid() && TwoDots(im)
    ensures BoundingBox(im) == Ok(Box(1, 30, 15, 15))
  {
    var b := Box(1, 30, 15, 15);
    assert IsInk(im, 1, 15) && IsInk(im, 30, 15);
    assert IsBoundingBox(im, b);
    BoundingBoxUnique(im, b, BoundingBox(im).value);
  }

  /** The ink of im is the single top pixel of a 30 x 1 column. */
  ghost predicate DotAtTop(im: Image<int>)
    requires im.Valid()
  {
    im.height == 30 && im.width == 1 && forall i, j :: IsInk(im, i, j) <==> i == 0 && j == 0
  }

  /** Such a drawing exists. */
  lemma DotAtTopExample()
    ensures var im := Image(30, 1, seq(30, i requires 0 <= i < 30 => [if i == 0 then 255 else 0]));
      im.Valid() && DotAtTop(im)
  {
  }

  /** On a DotAtTop drawing the window starts at -15; Python reads that as 15 from the end,
      the slice comes out empty, and the crop is nothing but the zero frame. */
  lemma TopEdgeLosesInk(im: Image<int>)
    requires im.Valid() && DotAtTop(im)
    ensures CropImg(im).Ok?
    ensures var r := CropImg(im).value;
      r.height == 30 && r.width == 31 && !HasInk(r)
  {
    var b := Box(0, 0, 0, 0);
    assert IsInk(im, 0, 0);
    assert IsBoundingBox(im, b);
    BoundingBoxUnique(im, b, BoundingBox(im).value);
    assert CropWindow(b) == Window(-15, 15, -15, 15);
    var c := PySlice(im, -15, 15, -15, 15);
    assert PyRange(-15, 15, 30) == Range(15, 15);
    assert c.height == 0 && c.width == 1;
    var r := CropImg(im).value;
    assert r == Pad(c, 15);
    PadFrame(c, 15);
  }

  // ---------------------------------------------------------------------------
  // The crop as its comments intend it
  // ---------------------------------------------------------------------------

  /** The window with the half length rounded up: `middle - half` lies before the first
      inked index and `middle + half` past the last one on both axes. */
  function IntendedWindow(b: Box): (w: Window)
    requires b.firstRow <= b.lastRow && b.firstCol <= b.lastCol
    ensures w.rowStart < b.firstRow && b.lastRow < w.rowStop
    ensures w.colStart < b.firstCol && b.lastCol < w.colStop
    ensures w.rowStop - w.rowStart == w.colStop - w.colStart > CropLength(b)
  {
    var length := CropLength(b);
    var half := (length + 1) / 2 + 1;
    var middleRow := Midpoint(b.firstRow, b.lastRow);
    var middleCol := Midpoint(b.firstCol, b.lastCol);
    Window(middleRow - half, middleRow + half, middleCol - half, middleCol + half)
  }

  /** `crop_img` corrected: the rounded-up window, clipped to the image instead of wrapped. */
  function CropImgIntended(im: Image<int>): (r: Result<Image<int>>)
    requires im.Valid()
    ensures r.Err? <==> !HasInk(im)
    ensures r.Err? ==> r.error == EmptyReduction
    ensures r.Ok? ==> r.value.Valid() && ZeroFrame(r.value, 15)
  {
    var b :- BoundingBox(im);
    Ok(IntendedCropAround(im, b))
  }

  /** The rows of the rounded-up window that lie in the image. */
  function IntendedRows(im: Image<int>, b: Box): (rows: Range)
    requires b.firstRow <= b.lastRow && b.firstCol <= b.lastCol
    ensures rows.lo <= rows.hi <= im.height
  {
    var w := IntendedWindow(b);
    ClampRange(w.rowStart, w.rowStop, im.height)
  }

  /** The columns of the rounded-up window that lie in the image. */
  function IntendedCols(im: Image<int>, b: Box): (cols: Range)
    requires b.firstRow <= b.lastRow && b.firstCol <= b.lastCol
    ensures cols.lo <= cols.hi <= im.width
  {
    var w := IntendedWindow(b);
    ClampRange(w.colStart, w.colStop, im.width)
  }

  /** The clipped window around b, sliced and framed. */
  function IntendedCropAround(im: Image<int>, b: Box): (r: Image<int>)
    requires im.Valid() && b.firstRow <= b.lastRow && b.firstCol <= b.lastCol
    ensures r.Valid() && ZeroFrame(r, 15)
  {
    Pad(Slice(im, IntendedRows(im, b), IntendedCols(im, b)), 15)
  }

  /** The corrected crop keeps every inked pixel, shifted by one offset per axis, whatever
      the position of the ink. */
  lemma CropImgIntendedKeepsInk(im: Image<int>, b: Box)
    requires im.Valid() && BoundingBox(im) == Ok(b)
    ensures CropImgIntended(im) == Ok(IntendedCropAround(im, b))
    ensures var rows, cols := IntendedRows(im, b), IntendedCols(im, b);
      forall i, j :: IsInk(im, i, j) ==>
        Covers(rows, i) && Covers(cols, j) && IsInk(IntendedCropAround(im, b), i - rows.lo + 15, j - cols.lo + 15)
  {
    IntendedClipKeepsInk(im, b);
    IntendedCropShifts(im, b);
  }

  /** Once the clipped window covers the ink, the crop holds each inked pixel at the
      window's offset plus the frame. */
  lemma IntendedCropShifts(im: Image<int>, b: Box)
    requires im.Valid() && b.firstRow <= b.lastRow && b.firstCol <= b.lastCol
    requires forall i, j :: IsInk(im, i, j) ==> Covers(IntendedRows(im, b), i) && Covers(IntendedCols(im, b), j)
    ensures var rows, cols := IntendedRows(im, b), IntendedCols(im, b);
      forall i, j :: IsInk(im, i, j) ==> IsInk(IntendedCropAround(im, b), i - rows.lo + 15, j - cols.lo + 15)
  {
    PadSliceKeepsInk(im, IntendedRows(im, b), IntendedCols(im, b), 15);
  }

  /** Clipping the rounded-up window to the image still covers every inked pixel. */
  lemma IntendedClipKeepsInk(im: Image<int>, b: Box)
    requires im.Valid() && IsBoundingBox(im, b)
    ensures forall i, j :: IsInk(im, i, j) ==> Covers(IntendedRows(im, b), i) && Covers(IntendedCols(im, b), j)
  {
    IntendedWindowKeepsInk(im, b);
  }

  /** The rounded-up window holds every inked pixel, whatever the parity of the extents. */
  lemma IntendedWindowKeepsInk(im: Image<int>, b: Box)
    requires im.Valid() && IsBoundingBox(im, b)
    ensures KeepsAllInk(im, IntendedWindow(b))
  {
  }

  /** Inside its frame, the clipped crop holds the clipped window pixel for pixel. */
  lemma IntendedCropMaps(im: Image<int>, b: Box)
    requires im.Valid() && b.firstRow <= b.lastRow && b.firstCol <= b.lastCol
    ensures var rows, cols := IntendedRows(im, b), IntendedCols(im, b);
      var r := IntendedCropAround(im, b);
      && r.height == rows.hi - rows.lo + 30 && r.width == cols.hi - cols.lo + 30
      && forall i, j :: 15 <= i < 15 + rows.hi - rows.lo && 15 <= j < 15 + cols.hi - cols.lo ==>
           r.px[i][j] == im.px[rows.lo + i - 15][cols.lo + j - 15]
  {
    PadSliceAt(im, IntendedRows(im, b), IntendedCols(im, b), 15);
  }

  /** When the rounded-up window lies inside the image nothing is clipped, so the corrected
      crop is a square: the window's side plus the frame on both axes. */
  lemma IntendedCropSquare(im: Image<int>, b: Box)
    requires im.Valid() && b.firstRow <= b.lastRow && b.firstCol <= b.lastCol
    requires WindowInside(IntendedWindow(b), im)
    ensures var w, r := IntendedWindow(b), IntendedCropAround(im, b);
      r.height == r.width == w.rowStop - w.rowStart + 30 && r.height > 58
  {
    IntendedCropMaps(im, b);
  }

  // ---------------------------------------------------------------------------
  // min_max_scaler
  // ---------------------------------------------------------------------------

  /** One pixel of `img / 255 * (px_max - px_min) + px_min`, in exact arithmetic. */
  function ScalePixel(v: int, finalRange: (real, real)): (x: real)
    ensures v == 0 ==> x == finalRange.0
    ensures v == 255 ==> x == finalRange.1
    ensures 0 <= v <= 255 && finalRange.0 <= finalRange.1 ==>
      finalRange.0 <= x <= finalRange.1
  {
    var pxMin, pxMax := finalRange.0, finalRange.1;
    var std := v as real / 255.0;
    var width := pxMax - pxMin;
    assert 0 <= v <= 255 && 0.0 <= width ==> 0.0 <= std * width <= width by {
      if 0 <= v <= 255 && 0.0 <= width {
        assert 0.0 <= std <= 1.0;
        FractionOfWidth(std, width);
      }
    }
    std * width + pxMin
  }

  /** A fraction in [0, 1] of a non-negative width lies between 0 and the width. */
  lemma FractionOfWidth(std: real, d: real)
    requires 0.0 <= std <= 1.0 && 0.0 <= d
    ensures 0.0 <= std * d <= d
  {
    assert (1.0 - std) * d == d - std * d;
    assert 0.0 <= (1.0 - std) * d;
  }

  /** `min_max_scaler`: the element-wise rescaling of the whole image. */
  function MinMaxScaler(im: Image<int>, finalRange: (real, real)): (r: Image<real>)
    requires im.Valid()
    ensures r.Valid() && r.height == im.height && r.width == im.width
    ensures forall i, j :: 0 <= i < im.height && 0 <= j < im.width ==>
      r.px[i][j] == ScalePixel(im.px[i][j], finalRange)
  {
    Image(im.height, im.width,
          seq(im.height, i requires 0 <= i < im.height =>
            seq(im.width, j requires 0 <= j < im.width => ScalePixel(im.px[i][j], finalRange))))
  }

  /** With the default range (0, 1) a pixel becomes v / 255. */
  lemma ScaleDefaultRange(v: int)
    ensures ScalePixel(v, (0.0, 1.0)) == v as real / 255.0
  {
  }

  /** Rescaling is undone by the inverse affine map whenever the range is not a point. */
  lemma ScaleInverse(v: int, finalRange: (real, real))
    requires finalRange.0 < finalRange.1
    ensures (ScalePixel(v, finalRange) - finalRange.0) / (finalRange.1 - finalRange.0) * 255.0
            == v as real
  {
    var d := finalRange.1 - finalRange.0;
    var x := ScalePixel(v, finalRange);
    assert x - finalRange.0 == (v as real / 255.0) * d;
    assert (x - finalRange.0) / d == v as real / 255.0;
  }

  /** Rescaling keeps the order of pixel values. */
  lemma ScaleMonotone(u: int, v: int, finalRange: (real, real))
    requires u <= v && finalRange.0 <= finalRange.1
    ensures ScalePixel(u, finalRange) <= ScalePixel(v, finalRange)
  {
    var d := finalRange.1 - finalRange.0;
    assert (v as real / 255.0 - u as real / 255.0) * d >= 0.0;
  }

  /** An 8-bit image lands inside the target range. */
  lemma MinMaxScalerWithin(im: Image<int>, finalRange: (real, real))
    requires im.Valid() && Within(im, 0, 255) && finalRange.0 <= finalRange.1
    ensures var r := MinMaxScaler(im, finalRange);
      forall i, j :: 0 <= i < r.height && 0 <= j < r.width ==>
        finalRange.0 <= r.px[i][j] <= finalRange.1
  {
  }
}
