# Digitre: cropping and normalising a hand-drawn digit

Digitre is a small web application. A user draws a digit on an HTML canvas, and a
convolutional network classifies it. Before classification, the canvas image goes through
a fixed preprocessing chain:

1. strip the data-URL header from the canvas's base64 string;
2. decode the PNG and keep its alpha plane;
3. crop the ink out of the empty canvas;
4. resize the crop to 28 × 28;
5. rescale pixel values from [0, 255] to [0, 1];
6. reshape the result into the network's `(1, 28, 28, 1)` input tensor.

After the classifier runs, the most probable class and its probability are picked out.

This project models that chain in Dafny, as integer index arithmetic over rectangular grids. It proves:

- which pixels each crop keeps;
- how large each crop is;
- where its zero frame lies;
- what the rescaling and the reshape do to pixel values;
- how the chain fails.

The repository holds four drafts of the crop, and all four are modelled:

- `crop_img` in `digitre/digitre_preprocessing.py` is the canonical one.
- `crop_img` in `digitre/classifier.py` is written out again there. It is proved equal to the canonical one for every image.
- `crop_img` in `digitre/prep_digit_image.py` is an earlier draft. It adds a 10-pixel margin and has no zero frame.
- `crop_and_resize` in `digitre/helpers.py` is the earliest draft. It cuts one index range out of both axes.

## Files

| file | module | models |
|---|---|---|
| `python.dfy` | `Python` | the exceptions the modelled code raises, a result type carrying them, and the built-in `max` and `min` |
| `numpy.dfy` | `Numpy` | 2-D arrays with an explicit shape; `np.nonzero`; `.min()` / `.max()` of index arrays, including their error on an empty array; Python's slice bounds (a negative bound counts from the end, then the bound is clamped); `np.lib.pad` with zeros; the C-order `flatten` |
| `pystr.dfy` | `PyStr` | `t in s`, `s.count(c)` and `s.split(c)` on strings |
| `digitre_preprocessing.dfy` | `DigitrePreprocessing` | header strip, alpha-plane selection, `crop_img`, and the corrected crop; `min_max_scaler` |
| `classifier.dfy` | `Classifier` | the classifier class's `crop_img` and `min_max_scaler` methods, and their equality with the module-level functions |
| `prep_digit_image.dfy` | `PrepDigitImage` | the margin crop |
| `helpers.dfy` | `Helpers` | `lowest_non_zero` and the crop part of `crop_and_resize` |
| `digitre.dfy` | `Digitre` | `preprocess_digit_image`, the reshape, and the arg-max selection of `get_digit` |

Some expressions are identical across the source files, so each is defined once and shared:

- The header strip and the alpha-plane selection in every `b64_str_to_np` are `DigitrePreprocessing.StripHeader` and `DigitrePreprocessing.SelectAlpha`.
- Both `flatten_img` functions are `Numpy.Flatten`.

Some parts of the system are parameters of the model rather than parts of it:

- the base64 and PNG decoder (`decode`);
- PIL's thumbnail resize (`resize`);
- the classifier's output, which is an input of `GetDigit`.

Where the code's own comments promise more than its code does, the model follows the code:

- `crop_img` is documented as "Crop white space around digit", and its window is commented "make sure all is kept" (digitre/digitre_preprocessing.py:71 and :91). The window can still reach past the top or left edge of the image. The code passes the negative start to numpy, which counts it from the end of the axis. The model does the same; see the findings.

## Model

| member | source | states |
|---|---|---|
| DigitrePreprocessing.StripHeader | digitre/digitre_preprocessing.py:58-59 | No "base64" in the string: it is returned unchanged. Otherwise: the result is Ok exactly when there is one comma, and is then the text after that comma. Any other comma count fails with the unpacking error. The same expression is the header strip of digitre/classifier.py:96-97, digitre/prep_digit_image.py:23-24 and digitre/helpers.py:23-24. |
| PyStr.Split | digitre/digitre_preprocessing.py:59 | `s.split(c)` gives one more part than s has separators, no part contains the separator, and joining the parts with it gives back s. |
| PyStr.Count | digitre/digitre_preprocessing.py:59 | `s.count(c)` is at most the length of s. PyStr.CountZero states that it is 0 exactly when c does not occur; PyStr.Split ties it to the number of parts. |
| PyStr.CountZero | digitre/digitre_preprocessing.py:59 | A character's count is 0 if and only if it does not occur in the string. |
| PyStr.ContainsPrefix | digitre/digitre_preprocessing.py:58 | `t in s` is kept when text is appended to s, so a header that mentions base64 still does once a payload follows it. |
| DigitrePreprocessing.StripHeaderDataUrl | digitre/digitre_preprocessing.py:58-59 | For a comma-free header that mentions base64 and a comma-free payload, `header,payload` strips to the payload. This is the round trip of building a data URL. |
| DigitrePreprocessing.SelectAlpha | digitre/digitre_preprocessing.py:67 | `img[:, :, 3]` fails exactly when there are fewer than 4 channels. Otherwise it is the H × W plane of channel 3. The same expression is the channel selection of digitre/classifier.py:105 and the other drafts. |
| DigitrePreprocessing.B64StrToNp | digitre/digitre_preprocessing.py:45-67 | Succeeds exactly when the header strip, the decoder and the channel selection all succeed. The result is then the decoded image's alpha plane. |
| Numpy.Nonzero | digitre/digitre_preprocessing.py:83-88 | `np.nonzero` of a 2-D array: every listed (row, column) pair is an in-range non-zero entry, and every non-zero entry is listed. |
| Numpy.RowsOf | digitre/digitre_preprocessing.py:83-84 | `np.nonzero(img)[0]`: one row index per non-zero entry, in the same order as the pairs. |
| Numpy.ColsOf | digitre/digitre_preprocessing.py:87-88 | `np.nonzero(img)[1]`: one column index per non-zero entry, in the same order as the pairs. |
| Numpy.ArrayMin | digitre/digitre_preprocessing.py:83-88 | `.min()` of a non-empty index array is one of its entries and at most every entry. On an empty array numpy raises; BoundingBox turns that case into the empty-reduction error. |
| Numpy.ArrayMax | digitre/digitre_preprocessing.py:83-88 | `.max()` of a non-empty index array is one of its entries and at least every entry. |
| Numpy.BoundingBox | digitre/digitre_preprocessing.py:83-88 | Fails with the empty-reduction error exactly when no pixel is inked. Otherwise the four bounds enclose every inked pixel, and each bound is attained by an inked pixel. |
| Numpy.MinMaxAreTight | digitre/digitre_preprocessing.py:83-88 | The min and max of the non-zero row and column indices form a tight box of the ink. |
| Numpy.BoundingBoxUnique | digitre/digitre_preprocessing.py:83-88 | At most one box is tight, so the bounds are determined by the ink alone. |
| Numpy.NonzeroIndices | digitre/helpers.py:38 | The indices of the non-zero entries, strictly increasing, and all of them. |
| DigitrePreprocessing.Midpoint | digitre/digitre_preprocessing.py:85 | The truncated mean of two indices lies between them, and is at most one closer to the lower. |
| DigitrePreprocessing.CropLength | digitre/digitre_preprocessing.py:92-96 | The length is at least 28 and at least each extent. It equals 28 or one of the two extents. |
| DigitrePreprocessing.HalfLength | digitre/digitre_preprocessing.py:99 | `half_length` is at least 15. The window side `2 * half_length` exceeds the length by 1 or 2. |
| DigitrePreprocessing.CropWindow | digitre/digitre_preprocessing.py:101-105 | The window is square with side `2 * half_length`, centred on the ink's midpoint on each axis (start plus stop is twice the midpoint), and starts before the first inked row and column. Its exclusive end passes the last inked index on an axis exactly when that axis is not in the odd case (extent = length, odd). In the odd case, the end equals the last inked index. |
| DigitrePreprocessing.CropImg | digitre/digitre_preprocessing.py:69-110 | Fails with the empty-reduction error exactly when nothing is inked. Otherwise the result is at least 30 × 30, and its 15-pixel frame is all zeros. |
| DigitrePreprocessing.CropAround | digitre/digitre_preprocessing.py:101-110 | The window around a box, sliced with Python's index rules and framed: a well-formed array of at least 30 × 30 whose 15-pixel frame is all zeros. |
| DigitrePreprocessing.CropImgOfBox | digitre/digitre_preprocessing.py:83-110 | Given the ink's bounding box, the crop is the framed window around it. |
| DigitrePreprocessing.CropAroundInside | digitre/digitre_preprocessing.py:102-110 | For a window inside the image, the crop is a square of side `2 * half_length + 30` (at least 60). Inside the frame, pixel (i, j) is the image's pixel at the window's corner plus (i − 15, j − 15). |
| Numpy.WindowKeepsInkIff | digitre/digitre_preprocessing.py:91-108 | A window that starts at or before the first inked row and column holds every inked pixel if and only if it ends past the last inked row and column. |
| DigitrePreprocessing.CropWindowKeepsInk | digitre/digitre_preprocessing.py:91-108 | The window holds every inked pixel if and only if neither axis is in the odd case. |
| DigitrePreprocessing.CropImgKeepsInk | digitre/digitre_preprocessing.py:83-110 | When the window lies inside the image and neither axis is in the odd case, the crop holds every inked pixel, moved by the window's corner and the 15-pixel frame. |
| DigitrePreprocessing.CropAroundKeepsInk | digitre/digitre_preprocessing.py:102-110 | When a window inside the image covers the ink, the framed slice holds each inked pixel at the window's offset plus 15. |
| DigitrePreprocessing.OddExtentDropsInk | digitre/digitre_preprocessing.py:91-108 | A 31 × 30 drawing with dots at (1, 15) and (30, 15) crops to 60 × 60. The crop keeps only the first dot: the second is cut. |
| DigitrePreprocessing.TwoDotsExample | digitre/digitre_preprocessing.py:91-108 | The two-dot drawing of the previous row exists. |
| DigitrePreprocessing.TopEdgeLosesInk | digitre/digitre_preprocessing.py:102-108 | A 30 × 1 column inked only at its top pixel gets a window starting at −15. Python counts that from the end, so the slice is empty and the crop is a 30 × 31 frame with no ink at all. |
| DigitrePreprocessing.DotAtTopExample | digitre/digitre_preprocessing.py:102-108 | The one-dot drawing of the previous row exists. |
| DigitrePreprocessing.IntendedWindow | digitre/digitre_preprocessing.py:91-105 | The corrected window rounds the half length up. It starts before the first inked index and ends after the last, on both axes. It is square, with a side longer than the length. |
| DigitrePreprocessing.IntendedWindowKeepsInk | digitre/digitre_preprocessing.py:91-105 | The corrected window holds every inked pixel, whatever the parity of the extents. |
| DigitrePreprocessing.IntendedClipKeepsInk | digitre/digitre_preprocessing.py:102-108 | Clipping the corrected window to the image, instead of wrapping it, still covers every inked pixel. |
| DigitrePreprocessing.CropImgIntended | digitre/digitre_preprocessing.py:69-110 | The corrected crop fails exactly when nothing is inked, with the same error. Its 15-pixel frame is all zeros. |
| DigitrePreprocessing.CropImgIntendedKeepsInk | digitre/digitre_preprocessing.py:91-110 | The corrected crop covers every inked pixel and holds it at one fixed offset per axis, whatever the position of the ink. |
| DigitrePreprocessing.IntendedCropShifts | digitre/digitre_preprocessing.py:108-110 | Once the clipped window covers the ink, each inked pixel sits in the crop at the window's corner offset plus the frame. |
| DigitrePreprocessing.IntendedCropSquare | digitre/digitre_preprocessing.py:102-110 | When the rounded-up window lies inside the image, the corrected crop is a square whose side is the window's side plus 30, more than 58. |
| DigitrePreprocessing.IntendedCropMaps | digitre/digitre_preprocessing.py:108-110 | The corrected crop is the clipped window plus 30 on each axis. Inside the frame, it holds the clipped window pixel for pixel. |
| Numpy.SliceBound | digitre/digitre_preprocessing.py:108 | A slice bound in [0, len] is kept. A negative bound gets len added, and is 0 if it is still negative. A bound past the end becomes len. |
| Numpy.PyRange | digitre/digitre_preprocessing.py:108 | The slice selects exactly the indices from the normalised start up to, not including, the normalised stop, so none when the normalised stop does not pass the normalised start. The range lies in [0, len], a range already inside the axis is taken literally, and the slice is never longer than `stop - start`. |
| Numpy.PySlice | digitre/digitre_preprocessing.py:108 | `im[r0:r1, c0:c1]` is a well-formed array whose size is that of the normalised ranges, and pixel (i, j) is the image's pixel at the normalised starts plus (i, j). The same slice is prep_digit_image.py:65 and helpers.py:65. |
| Numpy.ClampRange | digitre/digitre_preprocessing.py:108 | The clipped range covers exactly the indices that lie both in the axis and in [start, stop). |
| Numpy.Slice | digitre/digitre_preprocessing.py:108 | The sub-array has the range's size. Its pixel (i, j) is the image's pixel at the corner plus (i, j). |
| Numpy.SliceInside | digitre/prep_digit_image.py:65 | A window inside the image is sliced literally: it keeps the window's size, and pixel (i, j) comes from the window's corner plus (i, j). |
| Numpy.Pad | digitre/digitre_preprocessing.py:110 | Padding adds 2n to each dimension. Pixel (i, j) is the framed image's pixel (i − n, j − n) inside the frame, and 0 outside it. |
| Numpy.PadFrame | digitre/digitre_preprocessing.py:110 | Padding keeps every pixel, moved n down and n right, and the n-pixel border is all zeros. |
| Numpy.UnpadPad | digitre/digitre_preprocessing.py:110 | Slicing the frame back off a padded image gives back the image. |
| Numpy.PadSliceKeepsInk | digitre/digitre_preprocessing.py:108-110 | When the sliced ranges cover the ink, the framed slice holds every inked pixel, moved by the slice's corner and the frame. |
| Numpy.PadSliceInsideKeepsInk | digitre/digitre_preprocessing.py:108-110 | When a window inside the image covers the ink, its slice framed by n zeros holds every inked pixel at the window's offset plus n. |
| DigitrePreprocessing.ScalePixel | digitre/digitre_preprocessing.py:145-151 | The value `v / 255 * (max − min) + min` maps 0 to min and 255 to max. For v in [0, 255] and min ≤ max, it lies in [min, max]. |
| DigitrePreprocessing.MinMaxScaler | digitre/digitre_preprocessing.py:131-151 | The scaled image has the input's shape, and each pixel is the scaled input pixel. |
| DigitrePreprocessing.ScaleDefaultRange | digitre/digitre_preprocessing.py:131 | With the default range (0, 1), a pixel becomes v / 255. |
| DigitrePreprocessing.ScaleInverse | digitre/digitre_preprocessing.py:150-151 | For a range that is not a point, the inverse affine map gives back the original value. |
| DigitrePreprocessing.ScaleMonotone | digitre/digitre_preprocessing.py:150-151 | Rescaling keeps the order of pixel values. |
| DigitrePreprocessing.MinMaxScalerWithin | digitre/digitre_preprocessing.py:145-151 | An image with values in [0, 255] is scaled into [min, max]. |
| Classifier.CropWindow | digitre/classifier.py:119-133 | The method's window, with the means, extents, floor and `+ 1` spelled out inline, is square with a side of at least 30. |
| Classifier.CropWindowMatchesPreprocessing | digitre/classifier.py:119-133 | For every box, the method's window is the module-level function's window. |
| Classifier.CropImg | digitre/classifier.py:107-140 | Fails with the empty-reduction error exactly when nothing is inked. Otherwise the result is at least 30 × 30 with a 15-pixel zero frame. |
| Classifier.CropImgMatchesPreprocessing | digitre/classifier.py:107-140 | For every image, the method and the module-level `crop_img` give the same result, errors included. |
| Classifier.MinMaxScaler | digitre/classifier.py:151-157 | Each pixel is `v / 255 * (max − min) + min`, the module-level pixel map. |
| Classifier.MinMaxScalerMatchesPreprocessing | digitre/classifier.py:151-157 | For every image and range, the method equals the module-level `min_max_scaler`. |
| PrepDigitImage.MarginLength | digitre/prep_digit_image.py:47-54 | The length is at least 28 and at least the span of both axes together (largest last index minus smallest first index) plus 20, and it is one of the two; so it is at least each extent plus 20. |
| PrepDigitImage.HalfLength | digitre/prep_digit_image.py:56 | `half_length` has no `+ 1`. It is at least 14, and `2 * half_length` is the length or one less. |
| PrepDigitImage.MarginWindow | digitre/prep_digit_image.py:56-62 | The window is square with side `2 * half_length`, centred on the ink's midpoint `int(np.mean([last, first]))` on each axis (start plus stop is twice the midpoint). On each axis it starts at least 10 before the first inked index, and ends at least 9 past the last. |
| PrepDigitImage.MarginWindowKeepsInk | digitre/prep_digit_image.py:47-62 | The margin window holds every inked pixel, wherever the ink lies. |
| PrepDigitImage.CropImg | digitre/prep_digit_image.py:35-65 | Fails with the empty-reduction error exactly when nothing is inked. Otherwise the result is a well-formed array; CropImgOfBox states that it is the bare slice of the margin window. |
| PrepDigitImage.MarginCrop | digitre/prep_digit_image.py:58-65 | The slice of the margin window around a box is a well-formed array, never larger than the window's side `2 * half_length` on either axis. Python's index rules can only shrink it. |
| PrepDigitImage.CropImgOfBox | digitre/prep_digit_image.py:39-65 | Given the ink's bounding box, the crop is the slice of the margin window around it. |
| PrepDigitImage.MarginCropInside | digitre/prep_digit_image.py:58-65 | For a window inside the image, the crop is the window itself with no frame: a square of side `2 * half_length`. Pixel (i, j) comes from the window's corner plus (i, j). |
| PrepDigitImage.CropImgKeepsInk | digitre/prep_digit_image.py:47-65 | For a window inside the image, the crop holds every inked pixel at the window's offset. |
| PrepDigitImage.MarginCropKeepsInk | digitre/prep_digit_image.py:58-65 | When the margin window lies inside the image and covers the ink, its slice holds every inked pixel at the window's offset. |
| Numpy.SliceKeepsInk | digitre/prep_digit_image.py:65 | When a window inside the image covers the ink, its slice holds every inked pixel, moved by the window's corner. |
| Numpy.Flatten | digitre/prep_digit_image.py:76-78 | The flattened array has `rows * cols` elements. |
| Numpy.FlattenRowMajor | digitre/prep_digit_image.py:76-78 | Pixel (i, j) lands at position `i * cols + j`. |
| Numpy.FlattenElements | digitre/helpers.py:71-74 | Every element of the flattened array is a pixel of the image. |
| Helpers.LowestNonZero | digitre/helpers.py:36-38 | Fails with the index error exactly when every entry is zero. Otherwise the result is the index of a non-zero entry, with only zeros before it. |
| Helpers.AdjustSpan | digitre/helpers.py:57-62 | The adjusted range is at least 28 long, starts at an index of at least 0, and never shrinks. A range already 28 long is kept. A shorter one becomes exactly 28 long. Forwards, the new end stays below 200. Backwards, the end is unchanged. |
| Helpers.CropSpan | digitre/helpers.py:53-62 | The range starts at or before both first inked indices, at an index of at least 0, and is at least 28 long. |
| Helpers.CropAndResize | digitre/helpers.py:41-65 | Fails with the empty-reduction error exactly when nothing is inked. Otherwise the result is a well-formed array; CropAndResizeOfBox states that it is the slice `[first:last, first:last]`. |
| Helpers.CropAndResizeOfBox | digitre/helpers.py:45-65 | Given the ink's bounding box, the crop is the slice of its range. |
| Helpers.CropSquare | digitre/helpers.py:53-65 | When the range ends inside both dimensions, the crop is a square of side at least 28, holding the image's pixels from the range's start on. |
| Helpers.CropSpanKeepsInkIff | digitre/helpers.py:53-65 | The range holds every inked pixel if and only if the raw span is shorter than 28 and `first + 28 < 200`. In every other case, the largest inked index is the exclusive end and is cut. |
| Helpers.CropSpanIntended | digitre/helpers.py:53-62 | A range whose end is one past the largest inked index starts at or before the first inked indices, ends after the last, and is at least 28 long. |
| Helpers.CropSpanIntendedKeepsInk | digitre/helpers.py:53-65 | The corrected range holds every inked pixel. |
| Digitre.Reshape | digitre/digitre.py:53 | Succeeds exactly when the image holds 784 elements, and then has shape (1, 28, 28, 1). Entry (0, i, j, 0) is element `28 * i + j` of the C-order flattening. Any other size fails with the reshape error. |
| Digitre.ReshapeKeepsPixels | digitre/digitre.py:53 | For a 28 × 28 image, entry (0, i, j, 0) is pixel (i, j): there is no reordering. |
| Digitre.ReshapeEntriesArePixels | digitre/digitre.py:53 | For any image of 784 elements, every tensor entry is one of its pixels. |
| Digitre.PreprocessDigitImage | digitre/digitre.py:48-53 | The chain runs decode, crop, resize, scale to (0, 1), then reshape. A result is always of shape (1, 28, 28, 1). A decoding failure is passed through unchanged. |
| Digitre.PreprocessEmptyDrawing | digitre/digitre.py:48-50 | A canvas with no ink fails in the crop with the empty-reduction error. |
| Digitre.PreprocessOkWhenResizedTo28 | digitre/digitre.py:48-53 | The chain succeeds only when the payload decodes to an image with an alpha plane and some ink on it. For such an image whose rounded-up crop window fits on the canvas, the crop is square, a thumbnail that brings squares to 28 × 28 applies, and the chain succeeds. |
| Digitre.SquareCropReshapes | digitre/digitre.py:48-53 | For an inked image whose rounded-up window fits on the canvas, the corrected crop succeeds and its thumbnail is a well-formed 28 × 28 image, the 784 elements the reshape needs. |
| Digitre.PreprocessInUnitRange | digitre/digitre.py:48-53 | With a resize to values in [0, 255], every entry of a tensor the chain returns lies in [0, 1], whatever the shape of the resized crop. |
| Digitre.PreprocessAsImported | digitre/digitre.py:48-52 | The chain as imported (`prep` is `prep_digit_image`) never succeeds. |
| Digitre.AsImportedNeverSucceeds | digitre/digitre.py:48-52 | A decoded drawing with ink gets through the margin crop and, with the model's total resize, then fails on the missing `min_max_scaler`. |
| Digitre.ArgMax | digitre/digitre.py:65 | The result is a valid index holding the largest entry, and every earlier entry is strictly smaller: numpy's first maximum. |
| Digitre.ArgMaxUnique | digitre/digitre.py:65 | Any index that holds the largest entry and beats every earlier entry is the arg-max, so the arg-max is determined by those two properties. |
| Digitre.GetDigit | digitre/digitre.py:64-66 | For a non-empty prediction, the result is `max_idx` and `max_val = prediction[max_idx]`, the first maximum. An empty prediction fails with the empty-reduction error. |

## Left out

- Base64 decoding (section 4 of RFC 4648) and PNG decoding are left out. They are foreign library calls; the decoder is the parameter `decode`, assumed only to return well-formed arrays.
- `resize_img` and PIL's `thumbnail(..., ANTIALIAS)` are left out. This is floating-point resampling; the resize is the parameter `resize`, and the lemmas about the whole chain assume only that it returns values in [0, 255], and 28 × 28 images for square inputs of side at least 28.
- Helpers.CropAndResize: stops at the slice. The `.thumbnail` call after it is made on a numpy array, which has no such method; it raises AttributeError on every inked image (helpers.py:67), so `crop_and_resize` never returns a value. The model stops at the slice on line 65.
- Digitre.AsImportedNeverSucceeds: the resize parameter is total. Ink near the top or left edge makes the margin window's start negative, so the slice wraps to an empty array: ink in rows and columns 5 to 10 of a 200 × 200 canvas gives the window `[-7:21]` on each axis, which Python reads as `[193:21]`. PIL's `thumbnail` may raise on such a zero-area image before `prep.min_max_scaler` is reached. The chain still fails, but possibly with that error rather than AttributeError.
- Digitre.PreprocessOkWhenResizedTo28: success is proved only when the rounded-up window fits on the canvas. A crop clipped at an edge is not square; PIL's thumbnail keeps its aspect ratio, so the resized crop can miss 28 × 28 and the program then fails at the reshape. The resize is a parameter, so which of these crops fail is not modelled.
- Digitre.PreprocessDigitImage: uses the corrected crop `CropImgIntended`, not the crop as written. The two fail on the same inputs, so the chain's shape, range and error lemmas hold for either. The crop as written is modelled and proved separately.
- PrepDigitImage.CropImgKeepsInk: stated only when the margin window lies inside the image. A window starting above or left of the image wraps around as in DigitrePreprocessing.TopEdgeLosesInk.
- DigitrePreprocessing.CropAroundInside: stated only when the window lies inside the image; the other cases are the findings below.
- DigitrePreprocessing.ScalePixel: uses exact reals, not IEEE doubles, so rounding in `img / 255 * (max - min) + min` is not modelled.
- Digitre.ArgMax: over exact reals; NaN entries, for which numpy's `argmax` has its own rule, are not modelled.
- Integers are unbounded. Pixel values are not limited to 8 bits except where a lemma assumes it, and numpy's 64-bit index arithmetic never overflows at canvas sizes.
- `np.around(max_val, 3) * 100`, the result string and the Flask routes of `digitre/digitre.py` are left out (floating-point formatting and web I/O).
- `print_elapsed_time` and the debug `print` calls are left out (wall clock and console output).
- The model loading and `classify` of `digitre/digitre.py` are left out. The classifier is external, and its output is the input of `GetDigit`.
- The `__init__` of `digitre/classifier.py` is left out. It reads pickles and names that the file does not define.
- `digitre/digitre_classifier.py`, `digitre/digitre_model.py` and `lib/helpers.py` are not part of this model. They hold stubs, model training, and Python 2 code that cannot run.
- `digitre/static/paint.js` is not part of this model (the browser canvas).
- Centre-of-mass alignment is not part of this model: no file of the repository implements it.

## Findings

| source | as written | input that shows it | evidently intended | confidence | as-written member | corrected member |
|---|---|---|---|---|---|---|
| digitre/digitre_preprocessing.py:91-108 (and digitre/classifier.py:119-136) | `half_length = int(length / 2) + 1` with the window `[middle - half_length, middle + half_length)`. When the longer extent is odd and at least 29, the exclusive end equals the last inked index. | A 31 × 30 image inked at (1, 15) and (30, 15). The crop keeps (1, 15) and loses (30, 15). | "make sure all is kept": the window reaches past the last inked index (half length rounded up) | not executed | DigitrePreprocessing.OddExtentDropsInk | DigitrePreprocessing.CropImgIntendedKeepsInk |
| digitre/digitre_preprocessing.py:102-108 (and digitre/classifier.py:130-136) | The window start `middle - half_length` can be negative. numpy then counts it from the end of the axis. | A 30 × 1 column inked only at (0, 0). The window starts at −15 and the slice is empty. The crop is a 30 × 31 zero frame. | The window is clipped at the image's edge. | not executed | DigitrePreprocessing.TopEdgeLosesInk | DigitrePreprocessing.CropImgIntendedKeepsInk |
| digitre/digitre.py:22 and digitre/digitre.py:52 | `prep` is `prep_digit_image`, which defines no `min_max_scaler`. | Any canvas with ink: the chain reaches `prep.min_max_scaler` and raises AttributeError. | The chain of `digitre_preprocessing.py`: crop, resize, scale, reshape. The corrected member composes it with the corrected crop of the two rows above, which fails on the same inputs as `crop_img`. | not executed | Digitre.AsImportedNeverSucceeds | Digitre.PreprocessOkWhenResizedTo28 |
| digitre/helpers.py:53-65 | `last = max(last_row, last_col)` is used as the exclusive end of `[first:last]`. | Any drawing whose span is at least 28. For example, ink at (0, 0) and (40, 40) gives the range [0, 40), which cuts (40, 40). | The range ends one past the last inked index. | not executed | Helpers.CropSpanKeepsInkIff | Helpers.CropSpanIntendedKeepsInk |
