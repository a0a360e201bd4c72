/** digitre/digitre.py: the preprocessing chain that turns the canvas's data URL into the
    classifier's input tensor, and the choice of the most probable digit from the classifier's
    output. The base64/PNG decoder, PIL's resize and the classifier itself are outside the
    model: the first two are parameters, the third's output is an input. */
module Digitre {
  import opened Python
  import opened Numpy
  import DigitrePreprocessing
  import PrepDigitImage

  /** A 4-D ndarray of reals, as nested sequences. */
  type Tensor = seq<seq<seq<seq<real>>>>

  /** The shape (1, 28, 28, 1) the network's input layer takes. */
  predicate IsInputShape(t: Tensor) {
    && |t| == 1 && |t[0]| == 28
    && forall i :: 0 <= i < 28 ==>
         |t[0][i]| == 28 && forall j :: 0 <= j < 28 ==> |t[0][i][j]| == 1
  }

  /** Position (i, j) of a 28 x 28 grid lies among its 784 C-order positions. */
  lemma Below784(i: int, j: int)
    requires 0 <= i < 28 && 0 <= j < 28
    ensures 28 * i + j < 784
  {
  }

  /** `np.reshape(digit, (1, 28, 28, 1), order='C')`: the C-order elements regrouped into the
      new shape; numpy raises when the array does not hold exactly 784 elements. */
  function Reshape(digit: Image<real>): (r: Result<Tensor>)
    requires digit.Valid()
    ensures r.Ok? <==> digit.height * digit.width == 784
    ensures r.Err? ==> r.error == ReshapeMismatch
    ensures r.Ok? ==> IsInputShape(r.value)
    ensures r.Ok? ==> forall i, j :: 0 <= i < 28 && 0 <= j < 28 ==>
      28 * i + j < 784 && r.value[0][i][j][0] == Flatten(digit)[28 * i + j]
  {
    if digit.height * digit.width != 784 then Err(ReshapeMismatch)
    else
      var flat := Flatten(digit);
      Ok([seq(28, i requires 0 <= i < 28 =>
            seq(28, j requires 0 <= j < 28 => Below784(i, j); [flat[28 * i + j]]))])
  }

  /** A 28 x 28 image is reshaped without reordering: entry (0, i, j, 0) is pixel (i, j). */
  lemma ReshapeKeepsPixels(digit: Image<real>)
    requires digit.Valid() && digit.height == 28 && digit.width == 28
    ensures Reshape(digit).Ok?
    ensures forall i, j :: 0 <= i < 28 && 0 <= j < 28 ==>
      Reshape(digit).value[0][i][j][0] == digit.px[i][j]
  {
    forall i: nat, j: nat | i < 28 && j < 28
      ensures Reshape(digit).value[0][i][j][0] == digit.px[i][j]
    {
      FlattenRowMajor(digit, i, j);
    }
  }

  /** Whatever the shape of a 784-element image, every entry of the tensor is one of its
      pixels. */
  lemma ReshapeEntriesArePixels(digit: Image<real>, i: nat, j: nat)
    requires digit.Valid() && digit.height * digit.width == 784 && i < 28 && j < 28
    ensures Reshape(digit).Ok?
    ensures exists y, x ::
      (0 <= y < digit.height && 0 <= x < digit.width &&
       Reshape(digit).value[0][i][j][0] == digit.px[y][x])
  {
    Below784(i, j);
    FlattenElements(digit, 28 * i + j);
  }

  // ---------------------------------------------------------------------------
  // preprocess_digit_image
  // ---------------------------------------------------------------------------

  /** The resize step only ever returns well-formed arrays. */
  ghost predicate ResizesToArrays(resize: Image<int> -> Image<int>) {
    forall im: Image<int> :: im.Valid() ==> resize(im).Valid()
  }

  /** The resize step returns 8-bit images, and 28 x 28 ones for a square of side at least
      28: PIL's `thumbnail((28, 28))` keeps the aspect ratio and never enlarges, so a square
      is the shape it is sure to bring to 28 x 28. */
  ghost predicate ResizesTo28(resize: Image<int> -> Image<int>) {
    forall im: Image<int> :: im.Valid() ==>
      && resize(im).Valid() && Within(resize(im), 0, 255)
      && (im.height == im.width >= 28 ==> resize(im).height == 28 && resize(im).width == 28)
  }

  /** `preprocess_digit_image` composed, as its comments and call names intend, from the
      functions of digitre_preprocessing.py: decode, crop, resize, scale to (0, 1), reshape.
      The crop is the corrected one, which keeps all the ink; it fails on the same inputs as
      the crop as written. The first failing stage's error is the result. */
  function PreprocessDigitImage(s: string, decode: string -> Result<Image3>,
                                resize: Image<int> -> Image<int>): (r: Result<Tensor>)
    requires DigitrePreprocessing.DecodesToArrays(decode) && ResizesToArrays(resize)
    ensures r.Ok? ==> IsInputShape(r.value)
    ensures DigitrePreprocessing.B64StrToNp(s, decode).Err? ==>
      r == Err(DigitrePreprocessing.B64StrToNp(s, decode).error)
  {
    var digit :- DigitrePreprocessing.B64StrToNp(s, decode);
    var cropped :- DigitrePreprocessing.CropImgIntended(digit);
    var resized := resize(cropped);
    var scaled := DigitrePreprocessing.MinMaxScaler(resized, (0.0, 1.0));
    Reshape(scaled)
  }

  /** A canvas with no ink fails in the crop, before any resizing. */
  lemma PreprocessEmptyDrawing(s: string, decode: string -> Result<Image3>,
                               resize: Image<int> -> Image<int>)
    requires DigitrePreprocessing.DecodesToArrays(decode) && ResizesToArrays(resize)
    requires DigitrePreprocessing.B64StrToNp(s, decode).Ok?
    requires !HasInk(DigitrePreprocessing.B64StrToNp(s, decode).value)
    ensures PreprocessDigitImage(s, decode, resize) == Err(EmptyReduction)
  {
  }

  /** The chain succeeds only when the payload decodes to an image with an alpha plane and
      some ink on it; with such an image whose rounded-up crop window fits on the canvas, the
      crop is square, the thumbnail is 28 x 28 and the chain succeeds. */
  lemma PreprocessOkWhenResizedTo28(s: string, decode: string -> Result<Image3>,
                                    resize: Image<int> -> Image<int>)
    requires DigitrePreprocessing.DecodesToArrays(decode) && ResizesTo28(resize)
    ensures ResizesToArrays(resize)
    ensures var d := DigitrePreprocessing.B64StrToNp(s, decode);
      PreprocessDigitImage(s, decode, resize).Ok? ==> d.Ok? && HasInk(d.value)
    ensures var d := DigitrePreprocessing.B64StrToNp(s, decode);
      d.Ok? && HasInk(d.value) &&
      WindowInside(DigitrePreprocessing.IntendedWindow(BoundingBox(d.value).value), d.value) ==>
        PreprocessDigitImage(s, decode, resize).Ok?
  {
    var d := DigitrePreprocessing.B64StrToNp(s, decode);
    if d.Ok? && HasInk(d.value) {
      var b := BoundingBox(d.value).value;
      if WindowInside(DigitrePreprocessing.IntendedWindow(b), d.value) {
        SquareCropReshapes(d.value, b, resize);
        var resized := resize(DigitrePreprocessing.CropImgIntended(d.value).value);
        var scaled := DigitrePreprocessing.MinMaxScaler(resized, (0.0, 1.0));
        assert scaled.height * scaled.width == 784;
      }
    }
  }

  /** An inked image whose rounded-up window fits on the canvas gives a square crop, which the
      resize brings to 28 x 28, so the scaled crop has the 784 elements the reshape needs. */
  lemma SquareCropReshapes(im: Image<int>, b: Box, resize: Image<int> -> Image<int>)
    requires im.Valid() && BoundingBox(im) == Ok(b) && ResizesTo28(resize)
    requires WindowInside(DigitrePreprocessing.IntendedWindow(b), im)
    ensures DigitrePreprocessing.CropImgIntended(im).Ok?
    ensures var resized := resize(DigitrePreprocessing.CropImgIntended(im).value);
      resized.Valid() && resized.height == 28 && resized.width == 28
  {
    DigitrePreprocessing.CropImgIntendedKeepsInk(im, b);
    DigitrePreprocessing.IntendedCropSquare(im, b);
  }

  /** With a resize to 8-bit images, every entry of the tensor lies in [0, 1]. */
  lemma PreprocessInUnitRange(s: string, decode: string -> Result<Image3>,
                              resize: Image<int> -> Image<int>)
    requires DigitrePreprocessing.DecodesToArrays(decode) && ResizesTo28(resize)
    ensures ResizesToArrays(resize)
    ensures var r := PreprocessDigitImage(s, decode, resize);
      r.Ok? ==> forall i, j :: 0 <= i < 28 && 0 <= j < 28 ==> 0.0 <= r.value[0][i][j][0] <= 1.0
  {
    var r := PreprocessDigitImage(s, decode, resize);
    if r.Ok? {
      var digit := DigitrePreprocessing.B64StrToNp(s, decode).value;
      var cropped := DigitrePreprocessing.CropImgIntended(digit).value;
      var scaled := DigitrePreprocessing.MinMaxScaler(resize(cropped), (0.0, 1.0));
      DigitrePreprocessing.MinMaxScalerWithin(resize(cropped), (0.0, 1.0));
      forall i: nat, j: nat | i < 28 && j < 28
        ensures 0.0 <= r.value[0][i][j][0] <= 1.0
      {
        ReshapeEntriesArePixels(scaled, i, j);
      }
    }
  }

  /** `preprocess_digit_image` as the module actually imports it: `prep` is
      prep_digit_image.py, which has a crop and a resize but no `min_max_scaler`, so a drawing
      that gets past the crop ends in an AttributeError. */
  function PreprocessAsImported(s: string, decode: string -> Result<Image3>,
                                resize: Image<int> -> Image<int>): (r: Result<Tensor>)
    requires DigitrePreprocessing.DecodesToArrays(decode)
    ensures r.Err?
  {
    var digit :- DigitrePreprocessing.B64StrToNp(s, decode);
    var cropped :- PrepDigitImage.CropImg(digit);
    var resized := resize(cropped);
    Err(MissingAttribute)
  }

  /** No input at all gets through the chain as imported; one with ink reaches the missing
      scaler. */
  lemma AsImportedNeverSucceeds(s: string, decode: string -> Result<Image3>,
                                resize: Image<int> -> Image<int>)
    requires DigitrePreprocessing.DecodesToArrays(decode)
    requires DigitrePreprocessing.B64StrToNp(s, decode).Ok?
    requires HasInk(DigitrePreprocessing.B64StrToNp(s, decode).value)
    ensures PreprocessAsImported(s, decode, resize) == Err(MissingAttribute)
  {
  }

  // ---------------------------------------------------------------------------
  // get_digit: the most probable class
  // ---------------------------------------------------------------------------

  /** `np.argmax`: the first index holding the largest entry. */
  function ArgMax(p: seq<real>): (k: nat)
    requires |p| > 0
    ensures k < |p|
    ensures forall m :: 0 <= m < |p| ==> p[m] <= p[k]
    ensures forall m :: 0 <= m < k ==> p[m] < p[k]
  {
    if |p| == 1 then 0
    else
      var k' := ArgMax(p[..|p| - 1]);
      if p[k'] < p[|p| - 1] then |p| - 1 else k'
  }

  /** The first maximum is unique: an index that holds the largest entry and beats every
      entry before it is the one argmax returns. */
  lemma ArgMaxUnique(p: seq<real>, k: nat)
    requires k < |p|
    requires forall m :: 0 <= m < |p| ==> p[m] <= p[k]
    requires forall m :: 0 <= m < k ==> p[m] < p[k]
    ensures ArgMax(p) == k
  {
  }

  /** `max_idx` and `max_val` of `get_digit`; argmax of an empty prediction raises. */
  function GetDigit(prediction: seq<real>): (r: Result<(nat, real)>)
    ensures r.Err? <==> |prediction| == 0
    ensures r.Err? ==> r.error == EmptyReduction
    ensures r.Ok? ==> var (k, v) := r.value;
      && k < |prediction| && v == prediction[k]
      && (forall m :: 0 <= m < |prediction| ==> prediction[m] <= v)
      && (forall m :: 0 <= m < k ==> prediction[m] < v)
  {
    if |prediction| == 0 then Err(EmptyReduction)
    else
      var k := ArgMax(prediction);
      Ok((k, prediction[k]))
  }
}
