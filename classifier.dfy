/** digitre/classifier.py: the preprocessing methods of the classifier class, which repeat
    the functions of digitre_preprocessing.py without touching the object's state. The header
    strip and the channel selection are the same expressions as there and are not restated;
    crop_img and min_max_scaler are written out again here and shown equal to the originals. */
module Classifier {
  import opened Python
  import opened Numpy
  import DigitrePreprocessing

  /** The window `crop_img` slices, step by step as the method spells it out: the truncated
      means of the bounds, the longer extent floored at 28, half of it plus one on each side
      of the means. */
  function CropWindow(b: Box): (w: Window)
    ensures w.rowStop - w.rowStart == w.colStop - w.colStart >= 30
  {
    var middleRow := (b.lastRow + b.firstRow) / 2;
    var middleCol := (b.lastCol + b.firstCol) / 2;
    var rowLength := b.lastRow - b.firstRow;
    var colLength := b.lastCol - b.firstCol;
    var length := Max(Max(rowLength, colLength), 28);
    var halfLength := length / 2 + 1;
    Window(middleRow - halfLength, middleRow + halfLength,
           middleCol - halfLength, middleCol + halfLength)
  }

  /** `crop_img`: the bounds of the ink (or the error of `.min()` on no ink), the window
      around them, the slice and the 15-pixel zero frame. */
  function CropImg(im: Image<int>): (r: Result<Image<int>>)
    requires im.Valid()
    ensures r.Err? <==> !HasInk(im)
    ensures r.Err? ==> r.error == EmptyReduction
    ensures r.Ok? ==> r.value.Valid() && r.value.height >= 30 && r.value.width >= 30
    ensures r.Ok? ==> ZeroFrame(r.value, 15)
  {
    var b :- BoundingBox(im);
    var w := CropWindow(b);
    var cropped := PySlice(im, w.rowStart, w.rowStop, w.colStart, w.colStop);
    PadFrame(cropped, 15);
    Ok(Pad(cropped, 15))
  }

  /** The method's window is the window of the module-level function, for every box. */
  lemma CropWindowMatchesPreprocessing(b: Box)
    requires b.firstRow <= b.lastRow && b.firstCol <= b.lastCol
    ensures CropWindow(b) == DigitrePreprocessing.CropWindow(b)
  {
  }

  /** The method and the module-level function crop every image alike, errors included. */
  lemma CropImgMatchesPreprocessing(im: Image<int>)
    requires im.Valid()
    ensures CropImg(im) == DigitrePreprocessing.CropImg(im)
  {
    var bb := BoundingBox(im);
    if bb.Ok? {
      CropWindowMatchesPreprocessing(bb.value);
      DigitrePreprocessing.CropImgOfBox(im, bb.value);
    }
  }

  /** `min_max_scaler`: divide by 255, stretch to the width of the range, shift to its low
      end. */
  function MinMaxScaler(im: Image<int>, finalRange: (real, real)): (r: Image<real>)
    requires im.Valid()
    ensures r.Valid() && r.height == im.height && r.width == im.width
    ensures forall i, j :: 0 <= i < im.height && 0 <= j < im.width ==>
      r.px[i][j] == DigitrePreprocessing.ScalePixel(im.px[i][j], finalRange)
  {
    var pxMin, pxMax := finalRange.0, finalRange.1;
    Image(im.height, im.width,
          seq(im.height, i requires 0 <= i < im.height =>
            seq(im.width, j requires 0 <= j < im.width =>
              im.px[i][j] as real / 255.0 * (pxMax - pxMin) + pxMin)))
  }

  /** The method and the module-level function scale every image alike. */
  lemma MinMaxScalerMatchesPreprocessing(im: Image<int>, finalRange: (real, real))
    requires im.Valid()
    ensures MinMaxScaler(im, finalRange) == DigitrePreprocessing.MinMaxScaler(im, finalRange)
  {
    var r, r' := MinMaxScaler(im, finalRange), DigitrePreprocessing.MinMaxScaler(im, finalRange);
    forall i | 0 <= i < im.height ensures r.px[i] == r'.px[i] {
      assert forall j :: 0 <= j < im.width ==> r.px[i][j] == r'.px[i][j];
    }
  }
}
