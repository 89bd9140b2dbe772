/** The background test of `cropper.py`: the tolerance is clamped, every
    grayscale pixel darker than `255 - tolerance` becomes foreground (255) and
    the rest background (0), and Pillow's `getbbox` reports the smallest box
    around the foreground.

    Pillow is not modelled: the grayscale conversion is a per-pixel function
    `luma` given by the caller, and `getbbox` is modelled by its documented
    contract (the smallest half-open `(left, upper, right, lower)` rectangle
    holding every non-zero pixel, or None when there is none). */
module CropperMask {
  import opened Wrappers

  /** A `width` x `height` raster, stored row by row. */
  datatype Image<P> = Image(width: nat, height: nat, rows: seq<seq<P>>) {
    predicate WellFormed() {
      |rows| == height && forall y :: 0 <= y < |rows| ==> |rows[y]| == width
    }
  }

  /** A half-open rectangle `[left, right) x [upper, lower)`. */
  datatype Box = Box(left: nat, upper: nat, right: nat, lower: nat)

  // ---------------------------------------------------------------------
  // Tolerance and threshold

  /** `max(0, min(255, tolerance))` */
  function EffectiveTolerance(tolerance: int): (t: int)
    ensures 0 <= t <= 255
    ensures 0 <= tolerance <= 255 ==> t == tolerance
    ensures tolerance < 0 ==> t == 0
    ensures tolerance > 255 ==> t == 255
  {
    if tolerance < 0 then 0 else if tolerance > 255 then 255 else tolerance
  }

  /** `max(0, min(255, 255 - tolerance))` of the clamped tolerance: the
      outer clamp never bites. */
  function Limit(tolerance: int): (limit: int)
    ensures 0 <= limit <= 255
    ensures limit == 255 - EffectiveTolerance(tolerance)
  {
    var t := EffectiveTolerance(tolerance);
    var raw := 255 - t;
    if raw < 0 then 0 else if raw > 255 then 255 else raw
  }

  /** `_threshold`: foreground (255) below the limit, background (0) at or
      above it. */
  function Threshold(pixel: int, limit: int): (value: int)
    ensures value == 0 || value == 255
    ensures value == 255 <==> pixel < limit
  {
    if pixel < limit then 255 else 0
  }

  /** `ImageOps.grayscale`, as a per-pixel mapping. */
  function Grayscale<P>(img: Image<P>, luma: P -> int): (gray: Image<int>)
    requires img.WellFormed()
    ensures gray.WellFormed() && gray.width == img.width && gray.height == img.height
    ensures forall y, x :: 0 <= y < img.height && 0 <= x < img.width ==>
              gray.rows[y][x] == luma(img.rows[y][x])
  {
    Image(img.width, img.height,
          seq(img.height, y requires 0 <= y < img.height =>
            seq(img.width, x requires 0 <= x < img.width => luma(img.rows[y][x]))))
  }

  /** `gray.point(_threshold)` */
  function PointThreshold(gray: Image<int>, limit: int): (mask: Image<int>)
    requires gray.WellFormed()
    ensures mask.WellFormed() && mask.width == gray.width && mask.height == gray.height
    ensures forall y, x :: 0 <= y < gray.height && 0 <= x < gray.width ==>
              mask.rows[y][x] == Threshold(gray.rows[y][x], limit)
  {
    Image(gray.width, gray.height,
          seq(gray.height, y requires 0 <= y < gray.height =>
            seq(gray.width, x requires 0 <= x < gray.width => Threshold(gray.rows[y][x], limit))))
  }

  /** `_threshold_mask(img, tolerance)`: the mask and its bounding box. Every
      mask pixel is 0 or 255, and 255 exactly where the gray value is below
      `255 - clamped tolerance`. */
  function ThresholdMask<P>(img: Image<P>, luma: P -> int, tolerance: int): (result: (Image<int>, Option<Box>))
    requires img.WellFormed()
    ensures var mask := result.0;
            && mask.WellFormed() && mask.width == img.width && mask.height == img.height
            && (forall y, x :: 0 <= y < img.height && 0 <= x < img.width ==>
                  (mask.rows[y][x] == 0 || mask.rows[y][x] == 255) &&
                  (mask.rows[y][x] == 255 <==> luma(img.rows[y][x]) < Limit(tolerance)))
            && result.1 == GetBBox(mask)
  {
    var mask := PointThreshold(Grayscale(img, luma), Limit(tolerance));
    (mask, GetBBox(mask))
  }

  // ---------------------------------------------------------------------
  // Bounding box of the non-zero pixels

  predicate RowInk(row: seq<int>) {
    exists x :: 0 <= x < |row| && row[x] != 0
  }

  predicate ColInk(rows: seq<seq<int>>, x: nat) {
    exists y :: 0 <= y < |rows| && x < |rows[y]| && rows[y][x] != 0
  }

  /** Every non-zero pixel of `mask` lies inside `box`. */
  predicate Encloses(box: Box, mask: Image<int>) {
    forall y, x :: 0 <= y < |mask.rows| && 0 <= x < |mask.rows[y]| && mask.rows[y][x] != 0 ==>
      box.left <= x < box.right && box.upper <= y < box.lower
  }

  /** `inner` lies inside `outer`. */
  predicate Within(inner: Box, outer: Box) {
    outer.left <= inner.left && inner.right <= outer.right &&
    outer.upper <= inner.upper && inner.lower <= outer.lower
  }

  /** Every non-zero pixel of `inner` is non-zero in `outer`. */
  predicate InkWithin(inner: Image<int>, outer: Image<int>) {
    && inner.WellFormed() && outer.WellFormed()
    && inner.width == outer.width && inner.height == outer.height
    && forall y, x :: 0 <= y < inner.height && 0 <= x < inner.width && inner.rows[y][x] != 0 ==>
         outer.rows[y][x] != 0
  }

  /** Each edge of `box` touches a non-zero pixel of `mask`. */
  predicate Tight(box: Box, mask: Image<int>)
    requires mask.WellFormed()
  {
    && box.left < box.right <= mask.width
    && box.upper < box.lower <= mask.height
    && ColInk(mask.rows, box.left) && ColInk(mask.rows, box.right - 1)
    && RowInk(mask.rows[box.upper]) && RowInk(mask.rows[box.lower - 1])
  }

  predicate AllZero(mask: Image<int>) {
    forall y, x :: 0 <= y < |mask.rows| && 0 <= x < |mask.rows[y]| ==> mask.rows[y][x] == 0
  }

  /** The first row at or after `y` holding a non-zero pixel (`|rows|` if
      none). */
  function FirstInkRow(rows: seq<seq<int>>, y: nat): (r: nat)
    requires y <= |rows|
    ensures y <= r <= |rows|
    ensures r < |rows| ==> RowInk(rows[r])
    ensures forall k :: y <= k < r ==> !RowInk(rows[k])
    decreases |rows| - y
  {
    if y == |rows| then y
    else if RowInk(rows[y]) then y
    else FirstInkRow(rows, y + 1)
  }

  /** One past the last row below `n` holding a non-zero pixel (0 if none). */
  function InkRowsEnd(rows: seq<seq<int>>, n: nat): (r: nat)
    requires n <= |rows|
    ensures r <= n
    ensures r > 0 ==> RowInk(rows[r - 1])
    ensures forall k :: r <= k < n ==> !RowInk(rows[k])
  {
    if n == 0 then 0
    else if RowInk(rows[n - 1]) then n
    else InkRowsEnd(rows, n - 1)
  }

  /** The first column at or after `x` holding a non-zero pixel (`width` if
      none). */
  function FirstInkCol(rows: seq<seq<int>>, width: nat, x: nat): (r: nat)
    requires x <= width
    ensures x <= r <= width
    ensures r < width ==> ColInk(rows, r)
    ensures forall k :: x <= k < r ==> !ColInk(rows, k)
    decreases width - x
  {
    if x == width then x
    else if ColInk(rows, x) then x
    else FirstInkCol(rows, width, x + 1)
  }

  /** One past the last column below `n` holding a non-zero pixel (0 if
      none). */
  function InkColsEnd(rows: seq<seq<int>>, n: nat): (r: nat)
    ensures r <= n
    ensures r > 0 ==> ColInk(rows, r - 1)
    ensures forall k :: r <= k < n ==> !ColInk(rows, k)
  {
    if n == 0 then 0
    else if ColInk(rows, n - 1) then n
    else InkColsEnd(rows, n - 1)
  }

  /** `Image.getbbox()` on a single-band image: None when every pixel is
      zero; otherwise a box that holds every non-zero pixel and whose four
      edges each touch one, hence the smallest such box. */
  function GetBBox(mask: Image<int>): (box: Option<Box>)
    requires mask.WellFormed()
    ensures box.None? <==> AllZero(mask)
    ensures box.Some? ==> Encloses(box.value, mask) && Tight(box.value, mask)
  {
    var upper := FirstInkRow(mask.rows, 0);
    if upper == mask.height then
      NoRowInkMeansAllZero(mask);
      None
    else
      var box := Box(FirstInkCol(mask.rows, mask.width, 0), upper,
                     InkColsEnd(mask.rows, mask.width), InkRowsEnd(mask.rows, mask.height));
      BoxFromScansEncloses(mask, box);
      Some(box)
  }

  lemma NoRowInkMeansAllZero(mask: Image<int>)
    requires mask.WellFormed()
    requires forall k :: 0 <= k < |mask.rows| ==> !RowInk(mask.rows[k])
    ensures AllZero(mask)
  {
    forall y, x | 0 <= y < |mask.rows| && 0 <= x < |mask.rows[y]|
      ensures mask.rows[y][x] == 0
    {
      assert !RowInk(mask.rows[y]);
    }
  }

  lemma BoxFromScansEncloses(mask: Image<int>, box: Box)
    requires mask.WellFormed()
    requires box.upper == FirstInkRow(mask.rows, 0) < mask.height
    requires box.lower == InkRowsEnd(mask.rows, mask.height)
    requires box.left == FirstInkCol(mask.rows, mask.width, 0)
    requires box.right == InkColsEnd(mask.rows, mask.width)
    ensures Encloses(box, mask) && Tight(box, mask) && !AllZero(mask)
  {
    var rows := mask.rows;
    forall y, x | 0 <= y < |rows| && 0 <= x < |rows[y]| && rows[y][x] != 0
      ensures box.left <= x < box.right && box.upper <= y < box.lower
    {
      assert RowInk(rows[y]);
      assert ColInk(rows, x);
    }
    var x0 :| 0 <= x0 < |rows[box.upper]| && rows[box.upper][x0] != 0;
    assert ColInk(rows, x0);
    assert box.left <= x0 < box.right;
    assert box.upper < box.lower;
  }

  /** Any box that holds every non-zero pixel contains the reported one. */
  lemma {:induction false} BBoxIsSmallest(mask: Image<int>, other: Box)
    requires mask.WellFormed()
    requires GetBBox(mask).Some? && Encloses(other, mask)
    ensures Within(GetBBox(mask).value, other)
  {
    var box := GetBBox(mask).value;
    var rows := mask.rows;
    var y0 :| 0 <= y0 < |rows| && box.left < |rows[y0]| && rows[y0][box.left] != 0;
    var y1 :| 0 <= y1 < |rows| && box.right - 1 < |rows[y1]| && rows[y1][box.right - 1] != 0;
    var x0 :| 0 <= x0 < |rows[box.upper]| && rows[box.upper][x0] != 0;
    var x1 :| 0 <= x1 < |rows[box.lower - 1]| && rows[box.lower - 1][x1] != 0;
  }

  /** With tolerance 255 or more the limit is 0, so no (non-negative) gray
      value is foreground and there is no bounding box. */
  lemma MaxToleranceMasksNothing<P>(img: Image<P>, luma: P -> int, tolerance: int)
    requires img.WellFormed() && tolerance >= 255
    requires forall y, x :: 0 <= y < img.height && 0 <= x < img.width ==> luma(img.rows[y][x]) >= 0
    ensures Limit(tolerance) == 0
    ensures ThresholdMask(img, luma, tolerance).1 == None
  {
    var mask := ThresholdMask(img, luma, tolerance).0;
    forall y, x | 0 <= y < |mask.rows| && 0 <= x < |mask.rows[y]|
      ensures mask.rows[y][x] == 0
    {
      assert luma(img.rows[y][x]) >= 0;
    }
  }

  /** When every non-zero pixel of `inner` is non-zero in `outer`, the box
      of `inner` lies inside the box of `outer`. */
  lemma {:induction false} BBoxOfSubset(inner: Image<int>, outer: Image<int>)
    requires inner.WellFormed() && outer.WellFormed()
    requires inner.width == outer.width && inner.height == outer.height
    requires InkWithin(inner, outer)
    requires GetBBox(inner).Some?
    ensures GetBBox(outer).Some?
    ensures Within(GetBBox(inner).value, GetBBox(outer).value)
  {
    var i := GetBBox(inner).value;
    var x0 :| 0 <= x0 < |inner.rows[i.upper]| && inner.rows[i.upper][x0] != 0;
    assert outer.rows[i.upper][x0] != 0;
    var o := GetBBox(outer).value;
    assert Encloses(o, inner);
    BBoxIsSmallest(inner, o);
  }

  /** The pixel at `(x, y)` is foreground: darker than the limit. */
  predicate Foreground<P>(img: Image<P>, luma: P -> int, tolerance: int, x: nat, y: nat)
    requires img.WellFormed()
  {
    y < img.height && x < img.width && luma(img.rows[y][x]) < Limit(tolerance)
  }

  predicate RowHasForeground<P>(img: Image<P>, luma: P -> int, tolerance: int, y: nat)
    requires img.WellFormed()
  {
    exists x: nat :: x < img.width && Foreground(img, luma, tolerance, x, y)
  }

  predicate ColumnHasForeground<P>(img: Image<P>, luma: P -> int, tolerance: int, x: nat)
    requires img.WellFormed()
  {
    exists y: nat :: y < img.height && Foreground(img, luma, tolerance, x, y)
  }

  /** The foreground reaches all four edges of the image. */
  predicate TouchesAllEdges<P>(img: Image<P>, luma: P -> int, tolerance: int)
    requires img.WellFormed()
  {
    && img.width > 0 && img.height > 0
    && RowHasForeground(img, luma, tolerance, 0)
    && RowHasForeground(img, luma, tolerance, img.height - 1)
    && ColumnHasForeground(img, luma, tolerance, 0)
    && ColumnHasForeground(img, luma, tolerance, img.width - 1)
  }

  lemma MaskIsForeground<P>(img: Image<P>, luma: P -> int, tolerance: int, x: nat, y: nat)
    requires img.WellFormed() && y < img.height && x < img.width
    ensures ThresholdMask(img, luma, tolerance).0.rows[y][x] != 0 <==> Foreground(img, luma, tolerance, x, y)
  {
  }

  /** There is no bounding box exactly when no pixel is foreground. */
  lemma NoBoxIffNoForeground<P>(img: Image<P>, luma: P -> int, tolerance: int)
    requires img.WellFormed()
    ensures ThresholdMask(img, luma, tolerance).1.None? <==>
              forall y, x :: 0 <= y < img.height && 0 <= x < img.width ==> !Foreground(img, luma, tolerance, x, y)
  {
    var mask := ThresholdMask(img, luma, tolerance).0;
    if forall y, x :: 0 <= y < img.height && 0 <= x < img.width ==> !Foreground(img, luma, tolerance, x, y) {
      forall y, x | 0 <= y < |mask.rows| && 0 <= x < |mask.rows[y]| ensures mask.rows[y][x] == 0 {
        MaskIsForeground(img, luma, tolerance, x, y);
      }
    } else {
      var y, x :| 0 <= y < img.height && 0 <= x < img.width && Foreground(img, luma, tolerance, x, y);
      MaskIsForeground(img, luma, tolerance, x, y);
      assert !AllZero(mask);
    }
  }

  /** The bounding box is the whole image exactly when the foreground
      reaches all four edges. */
  lemma FullBoxIffTouchesAllEdges<P>(img: Image<P>, luma: P -> int, tolerance: int)
    requires img.WellFormed()
    ensures ThresholdMask(img, luma, tolerance).1 == Some(Box(0, 0, img.width, img.height)) <==>
              TouchesAllEdges(img, luma, tolerance)
  {
    var mask := ThresholdMask(img, luma, tolerance).0;
    var bbox := ThresholdMask(img, luma, tolerance).1;
    if bbox == Some(Box(0, 0, img.width, img.height)) {
      FullBoxTouchesAllEdges(img, luma, tolerance);
    }
    if TouchesAllEdges(img, luma, tolerance) {
      EdgesForceFullBox(img, luma, tolerance);
    }
  }

  lemma FullBoxTouchesAllEdges<P>(img: Image<P>, luma: P -> int, tolerance: int)
    requires img.WellFormed()
    requires ThresholdMask(img, luma, tolerance).1 == Some(Box(0, 0, img.width, img.height))
    ensures TouchesAllEdges(img, luma, tolerance)
  {
    var mask := ThresholdMask(img, luma, tolerance).0;
    assert Tight(Box(0, 0, img.width, img.height), mask);
    RowInkIsForeground(img, luma, tolerance, 0);
    RowInkIsForeground(img, luma, tolerance, img.height - 1);
    ColumnInkIsForeground(img, luma, tolerance, 0);
    ColumnInkIsForeground(img, luma, tolerance, img.width - 1);
  }

  lemma RowInkIsForeground<P>(img: Image<P>, luma: P -> int, tolerance: int, y: nat)
    requires img.WellFormed() && y < img.height
    requires RowInk(ThresholdMask(img, luma, tolerance).0.rows[y])
    ensures RowHasForeground(img, luma, tolerance, y)
  {
    var row := ThresholdMask(img, luma, tolerance).0.rows[y];
    var x :| 0 <= x < |row| && row[x] != 0;
    MaskIsForeground(img, luma, tolerance, x, y);
  }

  lemma ColumnInkIsForeground<P>(img: Image<P>, luma: P -> int, tolerance: int, x: nat)
    requires img.WellFormed() && x < img.width
    requires ColInk(ThresholdMask(img, luma, tolerance).0.rows, x)
    ensures ColumnHasForeground(img, luma, tolerance, x)
  {
    var rows := ThresholdMask(img, luma, tolerance).0.rows;
    var y :| 0 <= y < |rows| && x < |rows[y]| && rows[y][x] != 0;
    MaskIsForeground(img, luma, tolerance, x, y);
  }

  lemma EdgesForceFullBox<P>(img: Image<P>, luma: P -> int, tolerance: int)
    requires img.WellFormed()
    requires TouchesAllEdges(img, luma, tolerance)
    ensures ThresholdMask(img, luma, tolerance).1 == Some(Box(0, 0, img.width, img.height))
  {
    var x0: nat :| x0 < img.width && Foreground(img, luma, tolerance, x0, 0);
    var x1: nat :| x1 < img.width && Foreground(img, luma, tolerance, x1, img.height - 1);
    var y0: nat :| y0 < img.height && Foreground(img, luma, tolerance, 0, y0);
    var y1: nat :| y1 < img.height && Foreground(img, luma, tolerance, img.width - 1, y1);
    ForegroundInBox(img, luma, tolerance, x0, 0);
    ForegroundInBox(img, luma, tolerance, x1, img.height - 1);
    ForegroundInBox(img, luma, tolerance, 0, y0);
    ForegroundInBox(img, luma, tolerance, img.width - 1, y1);
    TightBoxInsideMask(ThresholdMask(img, luma, tolerance).0, ThresholdMask(img, luma, tolerance).1.value);
  }

  lemma TightBoxInsideMask(mask: Image<int>, box: Box)
    requires mask.WellFormed() && Tight(box, mask)
    ensures box.left < box.right <= mask.width && box.upper < box.lower <= mask.height
  {
  }

  /** Every foreground pixel lies in the bounding box. */
  lemma ForegroundInBox<P>(img: Image<P>, luma: P -> int, tolerance: int, x: nat, y: nat)
    requires img.WellFormed() && Foreground(img, luma, tolerance, x, y)
    ensures ThresholdMask(img, luma, tolerance).1.Some?
    ensures var box := ThresholdMask(img, luma, tolerance).1.value;
            box.left <= x < box.right && box.upper <= y < box.lower
  {
    var mask := ThresholdMask(img, luma, tolerance).0;
    MaskIsForeground(img, luma, tolerance, x, y);
    assert !AllZero(mask);
    assert Encloses(ThresholdMask(img, luma, tolerance).1.value, mask);
  }

  /** Raising the tolerance only removes foreground pixels. */
  lemma ForegroundShrinks<P>(img: Image<P>, luma: P -> int, low: int, high: int)
    requires img.WellFormed() && low <= high
    ensures InkWithin(ThresholdMask(img, luma, high).0, ThresholdMask(img, luma, low).0)
  {
    var lowMask := ThresholdMask(img, luma, low).0;
    var highMask := ThresholdMask(img, luma, high).0;
    assert Limit(high) <= Limit(low);
    forall y, x | 0 <= y < img.height && 0 <= x < img.width && highMask.rows[y][x] != 0
      ensures lowMask.rows[y][x] != 0
    {
      assert highMask.rows[y][x] == 255;
    }
  }

  /** Each edge of the bounding box touches foreground: the box removes no
      foreground and is no wider than the foreground. */
  lemma BBoxEdgesTouchForeground<P>(img: Image<P>, luma: P -> int, tolerance: int, box: Box)
    requires img.WellFormed()
    requires ThresholdMask(img, luma, tolerance).1 == Some(box)
    ensures box.left < box.right && box.upper < box.lower
    ensures RowHasForeground(img, luma, tolerance, box.upper)
    ensures RowHasForeground(img, luma, tolerance, box.lower - 1)
    ensures ColumnHasForeground(img, luma, tolerance, box.left)
    ensures ColumnHasForeground(img, luma, tolerance, box.right - 1)
  {
    BBoxRowsTouchForeground(img, luma, tolerance, box);
    BBoxColumnTouchesForeground(img, luma, tolerance, box, box.left);
    BBoxColumnTouchesForeground(img, luma, tolerance, box, box.right - 1);
  }

  /** The top and bottom edges of the bounding box touch foreground. */
  lemma BBoxRowsTouchForeground<P>(img: Image<P>, luma: P -> int, tolerance: int, box: Box)
    requires img.WellFormed()
    requires ThresholdMask(img, luma, tolerance).1 == Some(box)
    ensures RowHasForeground(img, luma, tolerance, box.upper)
    ensures RowHasForeground(img, luma, tolerance, box.lower - 1)
  {
    var mask := ThresholdMask(img, luma, tolerance).0;
    assert GetBBox(mask) == Some(box);
    var upper, lower := box.upper, box.lower - 1;
    assert RowInk(mask.rows[upper]) && RowInk(mask.rows[lower]);
    RowInkIsForeground(img, luma, tolerance, upper);
    RowInkIsForeground(img, luma, tolerance, lower);
  }

  /** The left and the right edge of the bounding box touch foreground. */
  lemma BBoxColumnTouchesForeground<P>(img: Image<P>, luma: P -> int, tolerance: int, box: Box, x: nat)
    requires img.WellFormed()
    requires ThresholdMask(img, luma, tolerance).1 == Some(box)
    requires x == box.left || x + 1 == box.right
    ensures ColumnHasForeground(img, luma, tolerance, x)
  {
    var mask := ThresholdMask(img, luma, tolerance).0;
    TightEdgeColumnHasInk(mask, box, x);
    ColumnInkIsForeground(img, luma, tolerance, x);
  }

  lemma TightEdgeColumnHasInk(mask: Image<int>, box: Box, x: nat)
    requires mask.WellFormed() && Tight(box, mask)
    requires x == box.left || x + 1 == box.right
    ensures ColInk(mask.rows, x) && x < mask.width
  {
  }

  /** Raising the tolerance can only shrink the foreground, so its bounding
      box stays inside the one of the lower tolerance: a higher tolerance
      crops at least as much and keeps no more border. */
  lemma ToleranceMonotone<P>(img: Image<P>, luma: P -> int, low: int, high: int)
    requires img.WellFormed() && low <= high
    requires ThresholdMask(img, luma, high).1.Some?
    ensures ThresholdMask(img, luma, low).1.Some?
    ensures Within(ThresholdMask(img, luma, high).1.value, ThresholdMask(img, luma, low).1.value)
  {
    var lowMask := ThresholdMask(img, luma, low).0;
    var highMask := ThresholdMask(img, luma, high).0;
    ForegroundShrinks(img, luma, low, high);
    BBoxOfSubset(highMask, lowMask);
  }
}
