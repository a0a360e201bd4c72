/** The parts of numpy that the digit preprocessing relies on: 2-D arrays with an explicit
    shape, np.nonzero, the min/max reductions, basic slicing with Python's index rules,
    constant padding and the C-order flatten. */
module Numpy {
  import opened Python

  /** A 2-D ndarray: its shape and its rows. The width is kept even when there are no rows,
      as numpy keeps the shape (0, w). */
  datatype Image<T> = Image(height: nat, width: nat, px: seq<seq<T>>) {
    predicate Valid() {
      |px| == height && forall i :: 0 <= i < height ==> |px[i]| == width
    }
  }

  /** A 3-D ndarray of shape (height, width, channels), as a decoded PNG is. */
  datatype Image3 = Image3(height: nat, width: nat, channels: nat, px: seq<seq<seq<int>>>) {
    predicate Valid() {
      && |px| == height
      && forall i :: 0 <= i < height ==>
           |px[i]| == width && forall j :: 0 <= j < width ==> |px[i][j]| == channels
    }
  }

  /** Pixel (i, j) lies in the image and carries ink (a non-zero value). */
  predicate IsInk(im: Image<int>, i: int, j: int)
    requires im.Valid()
  {
    0 <= i < im.height && 0 <= j < im.width && im.px[i][j] != 0
  }

  ghost predicate HasInk(im: Image<int>)
    requires im.Valid()
  {
    exists i, j :: IsInk(im, i, j)
  }

  /** Every pixel value lies in [lo, hi]. */
  ghost predicate Within(im: Image<int>, lo: int, hi: int)
    requires im.Valid()
  {
    forall i, j :: 0 <= i < im.height && 0 <= j < im.width ==> lo <= im.px[i][j] <= hi
  }

  // ---------------------------------------------------------------------------
  // np.nonzero and the reductions applied to its result
  // ---------------------------------------------------------------------------

  /** np.nonzero of a 1-D array: the indices of the non-zero entries, in increasing order. */
  function NonzeroIndices(s: seq<int>): (r: seq<nat>)
    ensures forall k :: 0 <= k < |r| ==> r[k] < |s| && s[r[k]] != 0
    ensures forall j :: 0 <= j < |s| && s[j] != 0 ==> j in r
    ensures forall k, l :: 0 <= k < l < |r| ==> r[k] < r[l]
  {
    if s == [] then []
    else
      var n := |s| - 1;
      var front := NonzeroIndices(s[..n]);
      assert forall j :: 0 <= j < n ==> s[..n][j] == s[j];
      front + (if s[n] != 0 then [n] else [])
  }

  /** np.nonzero of a 2-D array, as the (row, column) pairs of the non-zero entries in
      row-major order; numpy returns the same pairs as two index arrays. */
  function Nonzero(px: seq<seq<int>>): (r: seq<(nat, nat)>)
    ensures forall k :: 0 <= k < |r| ==>
      r[k].0 < |px| && r[k].1 < |px[r[k].0]| && px[r[k].0][r[k].1] != 0
    ensures forall i, j :: 0 <= i < |px| && 0 <= j < |px[i]| && px[i][j] != 0 ==> (i, j) in r
  {
    if px == [] then []
    else
      var n := |px| - 1;
      var cols := NonzeroIndices(px[n]);
      var last := seq(|cols|, k requires 0 <= k < |cols| => (n, cols[k]));
      var front := Nonzero(px[..n]);
      assert forall i :: 0 <= i < n ==> px[..n][i] == px[i];
      assert forall j :: 0 <= j < |px[n]| && px[n][j] != 0 ==> (n, j) in last by {
        forall j | 0 <= j < |px[n]| && px[n][j] != 0 ensures (n, j) in last {
          var k :| 0 <= k < |cols| && cols[k] == j;
          assert last[k] == (n, j);
        }
      }
      front + last
  }

  /** `.min()` of a non-empty index array. */
  function ArrayMin(s: seq<int>): (m: int)
    requires |s| > 0
    ensures m in s
    ensures forall k :: 0 <= k < |s| ==> m <= s[k]
  {
    if |s| == 1 then s[0]
    else
      var m' := ArrayMin(s[..|s| - 1]);
      if s[|s| - 1] < m' then s[|s| - 1] else m'
  }

  /** `.max()` of a non-empty index array. */
  function ArrayMax(s: seq<int>): (m: int)
    requires |s| > 0
    ensures m in s
    ensures forall k :: 0 <= k < |s| ==> s[k] <= m
  {
    if |s| == 1 then s[0]
    else
      var m' := ArrayMax(s[..|s| - 1]);
      if m' < s[|s| - 1] then s[|s| - 1] else m'
  }

  // ---------------------------------------------------------------------------
  // The bounding box of the ink
  // ---------------------------------------------------------------------------

  /** Inclusive index bounds of the inked rows and columns. */
  datatype Box = Box(firstRow: nat, lastRow: nat, firstCol: nat, lastCol: nat) {
    function RowExtent(): int { lastRow - firstRow }
    function ColExtent(): int { lastCol - firstCol }
  }

  /** b is the tight box of the ink of im: it encloses every inked pixel, and each of its
      four sides passes through an inked pixel. */
  ghost predicate IsBoundingBox(im: Image<int>, b: Box)
    requires im.Valid()
  {
    && b.firstRow <= b.lastRow < im.height
    && b.firstCol <= b.lastCol < im.width
    && (forall i, j :: IsInk(im, i, j) ==>
          b.firstRow <= i <= b.lastRow && b.firstCol <= j <= b.lastCol)
    && (exists j :: IsInk(im, b.firstRow, j))
    && (exists j :: IsInk(im, b.lastRow, j))
    && (exists i :: IsInk(im, i, b.firstCol))
    && (exists i :: IsInk(im, i, b.lastCol))
  }

  /** `np.nonzero(img)[0]`: the row index of each non-zero entry, in the same order. */
  function RowsOf(nz: seq<(nat, nat)>): (rows: seq<int>)
    ensures |rows| == |nz| && forall k :: 0 <= k < |nz| ==> rows[k] == nz[k].0
  {
    seq(|nz|, k requires 0 <= k < |nz| => nz[k].0 as int)
  }

  /** `np.nonzero(img)[1]`: the column index of each non-zero entry, in the same order. */
  function ColsOf(nz: seq<(nat, nat)>): (cols: seq<int>)
    ensures |cols| == |nz| && forall k :: 0 <= k < |nz| ==> cols[k] == nz[k].1
  {
    seq(|nz|, k requires 0 <= k < |nz| => nz[k].1 as int)
  }

  /** `np.nonzero(img)[0].min()`, `[0].max()`, `[1].min()`, `[1].max()`: the four bounds,
      or the ValueError that `.min()` raises when nothing is inked. */
  function BoundingBox(im: Image<int>): (r: Result<Box>)
    requires im.Valid()
    ensures r.Err? <==> !HasInk(im)
    ensures r.Err? ==> r.error == EmptyReduction
    ensures r.Ok? ==> IsBoundingBox(im, r.value)
  {
    var nz := Nonzero(im.px);
    if |nz| == 0 then
      assert forall i, j :: IsInk(im, i, j) ==> (i, j) in nz;
      Err(EmptyReduction)
    else
      var rows, cols := RowsOf(nz), ColsOf(nz);
      MinMaxAreTight(im);
      Ok(Box(ArrayMin(rows), ArrayMax(rows), ArrayMin(cols), ArrayMax(cols)))
  }

  /** The extreme row and column indices among the non-zero entries bound the ink tightly. */
  lemma MinMaxAreTight(im: Image<int>)
    requires im.Valid() && |Nonzero(im.px)| > 0
    ensures var nz := Nonzero(im.px);
      && ArrayMin(RowsOf(nz)) >= 0 && ArrayMin(ColsOf(nz)) >= 0
      && IsBoundingBox(im, Box(ArrayMin(RowsOf(nz)), ArrayMax(RowsOf(nz)),
                               ArrayMin(ColsOf(nz)), ArrayMax(ColsOf(nz))))
  {
    var nz := Nonzero(im.px);
    var rows, cols := RowsOf(nz), ColsOf(nz);
    var fr, lr := ArrayMin(rows), ArrayMax(rows);
    var fc, lc := ArrayMin(cols), ArrayMax(cols);
    forall i, j | IsInk(im, i, j) ensures fr <= i <= lr && fc <= j <= lc {
      InkIsListed(im, i, j);
    }
    var j1 := Attained(im, fr, true);
    var j2 := Attained(im, lr, true);
    var i1 := Attained(im, fc, false);
    var i2 := Attained(im, lc, false);
  }

  /** Every inked pixel appears, by its row and its column, among the non-zero indices. */
  lemma InkIsListed(im: Image<int>, i: int, j: int)
    requires im.Valid() && IsInk(im, i, j)
    ensures var nz := Nonzero(im.px);
      |nz| > 0 && ArrayMin(RowsOf(nz)) <= i <= ArrayMax(RowsOf(nz)) &&
      ArrayMin(ColsOf(nz)) <= j <= ArrayMax(ColsOf(nz))
  {
    var nz := Nonzero(im.px);
    assert (i, j) in nz;
    var k :| 0 <= k < |nz| && nz[k] == (i, j);
    assert RowsOf(nz)[k] == i && ColsOf(nz)[k] == j;
  }

  /** A value among the row indices (or the column indices) belongs to an inked pixel. */
  lemma Attained(im: Image<int>, x: int, onRows: bool) returns (y: int)
    requires im.Valid()
    requires onRows ==> x in RowsOf(Nonzero(im.px))
    requires !onRows ==> x in ColsOf(Nonzero(im.px))
    ensures onRows ==> IsInk(im, x, y)
    ensures !onRows ==> IsInk(im, y, x)
  {
    var nz := Nonzero(im.px);
    if onRows {
      var rows := RowsOf(nz);
      var k :| 0 <= k < |rows| && rows[k] == x;
      assert nz[k].0 == x;
      y := nz[k].1;
    } else {
      var cols := ColsOf(nz);
      var k :| 0 <= k < |cols| && cols[k] == x;
      assert nz[k].1 == x;
      y := nz[k].0;
    }
  }

  /** A window that starts at or before the first inked row and column holds every inked
      pixel exactly when it ends past the last inked row and column. */
  lemma WindowKeepsInkIff(im: Image<int>, b: Box, w: Window)
    requires im.Valid() && IsBoundingBox(im, b)
    requires w.rowStart <= b.firstRow && w.colStart <= b.firstCol
    ensures KeepsAllInk(im, w) <==> b.lastRow < w.rowStop && b.lastCol < w.colStop
  {
    if w.rowStop <= b.lastRow {
      var j :| IsInk(im, b.lastRow, j);
    } else if w.colStop <= b.lastCol {
      var i :| IsInk(im, i, b.lastCol);
    }
  }

  /** The tight box is unique, so BoundingBox is determined by IsBoundingBox alone. */
  lemma BoundingBoxUnique(im: Image<int>, b: Box, b': Box)
    requires im.Valid() && IsBoundingBox(im, b) && IsBoundingBox(im, b')
    ensures b == b'
  {
    var j1 :| IsInk(im, b.firstRow, j1);
    var j2 :| IsInk(im, b.lastRow, j2);
    var i1 :| IsInk(im, i1, b.firstCol);
    var i2 :| IsInk(im, i2, b.lastCol);
    var j1' :| IsInk(im, b'.firstRow, j1');
    var j2' :| IsInk(im, b'.lastRow, j2');
    var i1' :| IsInk(im, i1', b'.firstCol);
    var i2' :| IsInk(im, i2', b'.lastCol);
  }

  // ---------------------------------------------------------------------------
  // Slicing
  // ---------------------------------------------------------------------------

  /** A half-open index range [lo, hi) of one axis. */
  datatype Range = Range(lo: nat, hi: nat)

  predicate Covers(r: Range, x: int) { r.lo <= x < r.hi }

  /** Python's normalisation of one slice bound against an axis of length len: a negative
      bound counts from the end, and the result is clamped to [0, len]. */
  function SliceBound(x: int, len: nat): (r: nat)
    ensures r <= len
    ensures 0 <= x <= len ==> r == x
    ensures x < 0 && 0 <= x + len ==> r == x + len
    ensures x + len < 0 ==> r == 0
    ensures len < x ==> r == len
  {
    if x < 0 then (if x + len < 0 then 0 else x + len)
    else if x > len then len else x
  }

  /** The indices selected by the slice `start:stop` of an axis of length len: those from
      the normalised start up to the normalised stop, none when the stop does not pass the
      start. */
  function PyRange(start: int, stop: int, len: nat): (r: Range)
    ensures r.lo <= r.hi <= len
    ensures 0 <= start <= stop <= len ==> r == Range(start, stop)
    ensures forall x :: Covers(r, x) <==> SliceBound(start, len) <= x < SliceBound(stop, len)
    ensures start <= stop ==> r.hi - r.lo <= stop - start
  {
    var lo, hi := SliceBound(start, len), SliceBound(stop, len);
    if hi < lo then Range(lo, lo) else Range(lo, hi)
  }

  /** The range [start, stop) clipped to the axis [0, len), without Python's wrap-around. */
  function ClampRange(start: int, stop: int, len: nat): (r: Range)
    ensures r.lo <= r.hi <= len
    ensures forall x :: Covers(r, x) <==> 0 <= x < len && start <= x < stop
  {
    var lo := if start < 0 then 0 else if start > len then len else start;
    var hi := if stop < lo then lo else if stop > len then len else stop;
    Range(lo, hi)
  }

  /** The sub-array of the given rows and columns. */
  function Slice<T>(im: Image<T>, rows: Range, cols: Range): (r: Image<T>)
    requires im.Valid()
    requires rows.lo <= rows.hi <= im.height && cols.lo <= cols.hi <= im.width
    ensures r.Valid()
    ensures r.height == rows.hi - rows.lo && r.width == cols.hi - cols.lo
    ensures forall i, j :: 0 <= i < r.height && 0 <= j < r.width ==>
      r.px[i][j] == im.px[rows.lo + i][cols.lo + j]
  {
    var h := rows.hi - rows.lo;
    Image(h, cols.hi - cols.lo,
          seq(h, i requires 0 <= i < h => im.px[rows.lo + i][cols.lo..cols.hi]))
  }

  /** `im[r0:r1, c0:c1]`. */
  function PySlice<T>(im: Image<T>, r0: int, r1: int, c0: int, c1: int): (r: Image<T>)
    requires im.Valid()
    ensures r.Valid()
    ensures r.height == PyRange(r0, r1, im.height).hi - SliceBound(r0, im.height)
    ensures r.width == PyRange(c0, c1, im.width).hi - SliceBound(c0, im.width)
    ensures forall i, j :: 0 <= i < r.height && 0 <= j < r.width ==>
      r.px[i][j] == im.px[SliceBound(r0, im.height) + i][SliceBound(c0, im.width) + j]
  {
    Slice(im, PyRange(r0, r1, im.height), PyRange(c0, c1, im.width))
  }

  /** The rectangle `[rowStart:rowStop, colStart:colStop]` that a crop asks for, before
      Python normalises the bounds. */
  datatype Window = Window(rowStart: int, rowStop: int, colStart: int, colStop: int)

  /** The window lies inside the image, so slicing takes it literally. */
  predicate WindowInside(w: Window, im: Image<int>) {
    0 <= w.rowStart <= w.rowStop <= im.height && 0 <= w.colStart <= w.colStop <= im.width
  }

  /** A window inside the image is sliced literally: the sub-array has the window's size and
      its pixel (i, j) is the image's pixel at the window's corner plus (i, j). */
  lemma SliceInside<T>(im: Image<T>, w: Window)
    requires im.Valid()
    requires 0 <= w.rowStart <= w.rowStop <= im.height && 0 <= w.colStart <= w.colStop <= im.width
    ensures var r := PySlice(im, w.rowStart, w.rowStop, w.colStart, w.colStop);
      && r.height == w.rowStop - w.rowStart && r.width == w.colStop - w.colStart
      && forall i, j :: 0 <= i < r.height && 0 <= j < r.width ==>
           r.px[i][j] == im.px[w.rowStart + i][w.colStart + j]
  {
    assert PyRange(w.rowStart, w.rowStop, im.height) == Range(w.rowStart, w.rowStop);
    assert PyRange(w.colStart, w.colStop, im.width) == Range(w.colStart, w.colStop);
  }

  /** Every inked pixel lies inside the window. */
  ghost predicate KeepsAllInk(im: Image<int>, w: Window)
    requires im.Valid()
  {
    forall i, j :: IsInk(im, i, j) ==>
      w.rowStart <= i < w.rowStop && w.colStart <= j < w.colStop
  }

  /** A window inside the image that covers the ink is sliced with every inked pixel, moved
      by the window's corner. */
  lemma SliceKeepsInk(im: Image<int>, w: Window)
    requires im.Valid() && WindowInside(w, im) && KeepsAllInk(im, w)
    ensures var r := PySlice(im, w.rowStart, w.rowStop, w.colStart, w.colStop);
      forall i, j :: IsInk(im, i, j) ==> IsInk(r, i - w.rowStart, j - w.colStart)
  {
    var r := PySlice(im, w.rowStart, w.rowStop, w.colStart, w.colStop);
    SliceInside(im, w);
    forall i, j | IsInk(im, i, j) ensures IsInk(r, i - w.rowStart, j - w.colStart) {
      assert r.px[i - w.rowStart][j - w.colStart] == im.px[i][j];
    }
  }

  // ---------------------------------------------------------------------------
  // Padding and flattening
  // ---------------------------------------------------------------------------

  /** Pixel (i, j) of the image framed by n zeros: the zero frame, or the pixel it surrounds. */
  function PaddedPixel(im: Image<int>, n: nat, i: int, j: int): int
    requires im.Valid()
  {
    if n <= i < n + im.height && n <= j < n + im.width then im.px[i - n][j - n] else 0
  }

  /** `np.lib.pad(im, n, 'constant', constant_values=(0))`: a frame of n zeros on every side. */
  function Pad(im: Image<int>, n: nat): (r: Image<int>)
    requires im.Valid()
    ensures r.Valid()
    ensures r.height == im.height + 2 * n && r.width == im.width + 2 * n
    ensures forall i, j :: 0 <= i < r.height && 0 <= j < r.width ==>
      r.px[i][j] == PaddedPixel(im, n, i, j)
  {
    var h, w := im.height + 2 * n, im.width + 2 * n;
    Image(h, w, seq(h, i requires 0 <= i < h => seq(w, j requires 0 <= j < w =>
      PaddedPixel(im, n, i, j))))
  }

  /** Padding keeps every pixel, moved n down and n right, and surrounds it with zeros. */
  lemma PadFrame(im: Image<int>, n: nat)
    requires im.Valid()
    ensures var r := Pad(im, n);
      && (forall i, j :: n <= i < n + im.height && n <= j < n + im.width ==>
            r.px[i][j] == im.px[i - n][j - n])
      && ZeroFrame(r, n)
  {
  }

  /** Every pixel closer than n to an edge of the image is zero. */
  ghost predicate ZeroFrame(im: Image<int>, n: nat)
    requires im.Valid()
  {
    forall i, j ::
      (0 <= i < im.height && 0 <= j < im.width &&
       (i < n || im.height - n <= i || j < n || im.width - n <= j)) ==> im.px[i][j] == 0
  }

  /** A sub-array framed by n zeros: inside the frame, pixel (i, j) is the image's pixel at
      the sub-array's corner plus (i - n, j - n). */
  lemma PadSliceAt(im: Image<int>, rows: Range, cols: Range, n: nat)
    requires im.Valid()
    requires rows.lo <= rows.hi <= im.height && cols.lo <= cols.hi <= im.width
    ensures var r := Pad(Slice(im, rows, cols), n);
      && r.height == rows.hi - rows.lo + 2 * n
      && r.width == cols.hi - cols.lo + 2 * n
      && forall i, j :: n <= i < n + rows.hi - rows.lo && n <= j < n + cols.hi - cols.lo ==>
           r.px[i][j] == im.px[rows.lo + i - n][cols.lo + j - n]
  {
  }

  /** When the selected rows and columns cover all the ink, the framed sub-array holds every
      inked pixel, moved by the sub-array's corner and the frame. */
  lemma PadSliceKeepsInk(im: Image<int>, rows: Range, cols: Range, n: nat)
    requires im.Valid()
    requires rows.lo <= rows.hi <= im.height && cols.lo <= cols.hi <= im.width
    requires forall i, j :: IsInk(im, i, j) ==> Covers(rows, i) && Covers(cols, j)
    ensures var r := Pad(Slice(im, rows, cols), n);
      forall i, j :: IsInk(im, i, j) ==> IsInk(r, i - rows.lo + n, j - cols.lo + n)
  {
    var r := Pad(Slice(im, rows, cols), n);
    PadSliceAt(im, rows, cols, n);
    forall i, j | IsInk(im, i, j) ensures IsInk(r, i - rows.lo + n, j - cols.lo + n) {
      assert r.px[i - rows.lo + n][j - cols.lo + n] == im.px[i][j];
    }
  }

  /** A window inside the image, sliced and framed by n zeros: inside the frame, pixel (i, j)
      is the image's pixel at the window's corner plus (i - n, j - n). */
  lemma PadSliceInside(im: Image<int>, w: Window, n: nat)
    requires im.Valid() && WindowInside(w, im)
    ensures var r := Pad(PySlice(im, w.rowStart, w.rowStop, w.colStart, w.colStop), n);
      && r.height == w.rowStop - w.rowStart + 2 * n
      && r.width == w.colStop - w.colStart + 2 * n
      && forall i, j :: n <= i < n + w.rowStop - w.rowStart && n <= j < n + w.colStop - w.colStart ==>
           r.px[i][j] == im.px[w.rowStart + i - n][w.colStart + j - n]
  {
    var rows := PyRange(w.rowStart, w.rowStop, im.height);
    var cols := PyRange(w.colStart, w.colStop, im.width);
    assert rows == Range(w.rowStart, w.rowStop) && cols == Range(w.colStart, w.colStop);
    PadSliceAt(im, rows, cols, n);
  }

  /** When a window inside the image covers the ink, its slice framed by n zeros holds every
      inked pixel, moved by the window's corner and the frame. */
  lemma PadSliceInsideKeepsInk(im: Image<int>, w: Window, n: nat)
    requires im.Valid() && WindowInside(w, im) && KeepsAllInk(im, w)
    ensures var r := Pad(PySlice(im, w.rowStart, w.rowStop, w.colStart, w.colStop), n);
      forall i, j :: IsInk(im, i, j) ==> IsInk(r, i - w.rowStart + n, j - w.colStart + n)
  {
    var rows := PyRange(w.rowStart, w.rowStop, im.height);
    var cols := PyRange(w.colStart, w.colStop, im.width);
    assert rows == Range(w.rowStart, w.rowStop) && cols == Range(w.colStart, w.colStop);
    PadSliceKeepsInk(im, rows, cols, n);
  }

  /** Cutting the frame off again gives back the padded image. */
  lemma UnpadPad(im: Image<int>, n: nat)
    requires im.Valid()
    ensures Slice(Pad(im, n), Range(n, n + im.height), Range(n, n + im.width)) == im
  {
    var p := Pad(im, n);
    var s := Slice(p, Range(n, n + im.height), Range(n, n + im.width));
    forall i | 0 <= i < im.height ensures s.px[i] == im.px[i] {
      forall j | 0 <= j < im.width ensures s.px[i][j] == im.px[i][j] {
        assert s.px[i][j] == p.px[n + i][n + j];
      }
    }
  }

  lemma RowOffset(i: nat, j: nat, n: nat, w: nat)
    requires i < n && j < w
    ensures i * w + j < n * w
  {
    assert (i + 1) * w <= n * w by {
      assert i + 1 <= n;
    }
  }

  /** `im.flatten()`: the rows one after another (C order). */
  function Flatten<T>(im: Image<T>): (r: seq<T>)
    requires im.Valid()
    ensures |r| == im.height * im.width
    decreases im.height
  {
    if im.height == 0 then []
    else
      var n := im.height - 1;
      assert n * im.width + im.width == im.height * im.width;
      Flatten(Image(n, im.width, im.px[..n])) + im.px[n]
  }

  /** The image without its last row. */
  function Front<T>(im: Image<T>): (r: Image<T>)
    requires im.Valid() && im.height > 0
    ensures r.Valid() && r.height == im.height - 1 && r.width == im.width
    ensures forall i :: 0 <= i < r.height ==> r.px[i] == im.px[i]
  {
    Image(im.height - 1, im.width, im.px[..im.height - 1])
  }

  /** Flattening is row-major: pixel (i, j) lands at position i * width + j. */
  lemma {:induction false} FlattenRowMajor<T>(im: Image<T>, i: nat, j: nat)
    requires im.Valid() && i < im.height && j < im.width
    ensures i * im.width + j < |Flatten(im)|
    ensures Flatten(im)[i * im.width + j] == im.px[i][j]
    decreases im.height
  {
    var n := im.height - 1;
    assert Flatten(im) == Flatten(Front(im)) + im.px[n];
    if i < n {
      RowOffset(i, j, n, im.width);
      FlattenRowMajor(Front(im), i, j);
    }
  }

  /** Every element of the flattened array is a pixel of the image. */
  lemma {:induction false} FlattenElements<T>(im: Image<T>, k: nat)
    requires im.Valid() && k < im.height * im.width
    ensures exists i, j ::
      (0 <= i < im.height && 0 <= j < im.width && Flatten(im)[k] == im.px[i][j])
    decreases im.height
  {
    var n := im.height - 1;
    var front := Front(im);
    assert Flatten(im) == Flatten(front) + im.px[n];
    if k < n * im.width {
      FlattenElements(front, k);
      var i, j :| 0 <= i < n && 0 <= j < im.width && Flatten(front)[k] == front.px[i][j];
      assert Flatten(im)[k] == im.px[i][j];
    } else {
      assert Flatten(im)[k] == im.px[n][k - n * im.width];
    }
  }
}
