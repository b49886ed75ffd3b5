/** `reduce_background`: choose the largest contour, take its extreme
    points and cut the original image to their box widened by
    `ADD_PIXELS`, with Python/numpy slice semantics. Contour detection and
    contour area are OpenCV's; here the contour list and the area function
    are inputs. An image is a sequence of rows of pixels; a contour point
    is `(x, y)` with `x` the column and `y` the row. */
module Background {
  import opened Wrappers

  datatype Point = Point(x: int, y: int)

  type Contour = seq<Point>

  type Image<T> = seq<seq<T>>

  datatype CropError =
    | NoContour     // `max` of an empty list raises ValueError
    | EmptyContour  // `argmin` of an empty array raises ValueError

  const AddPixels := 3

  /** Python's `max(cnts, key=area)` scans left to right and replaces its
      candidate only on a strictly larger key. `MaxFrom` continues that scan
      at `i` with candidate `best`. */
  function MaxFrom(cnts: seq<Contour>, area: Contour -> real, best: nat, i: nat): (k: nat)
    requires best < i <= |cnts|
    requires forall j :: 0 <= j < i ==> area(cnts[j]) <= area(cnts[best])
    requires forall j :: 0 <= j < best ==> area(cnts[j]) < area(cnts[best])
    ensures k < |cnts|
    ensures forall j :: 0 <= j < |cnts| ==> area(cnts[j]) <= area(cnts[k])
    ensures forall j :: 0 <= j < k ==> area(cnts[j]) < area(cnts[k])
    decreases |cnts| - i
  {
    if i == |cnts| then best
    else if area(cnts[i]) > area(cnts[best]) then MaxFrom(cnts, area, i, i + 1)
    else MaxFrom(cnts, area, best, i + 1)
  }

  /** Line 135: the index of the contour `max` returns; an empty list raises. */
  function LargestContour(cnts: seq<Contour>, area: Contour -> real): (r: Result<nat, CropError>)
    ensures r.Err? <==> |cnts| == 0
    ensures r.Ok? ==> r.value < |cnts|
    ensures r.Ok? ==> forall j :: 0 <= j < |cnts| ==> area(cnts[j]) <= area(cnts[r.value])
    ensures r.Ok? ==> forall j :: 0 <= j < r.value ==> area(cnts[j]) < area(cnts[r.value])
  {
    if |cnts| == 0 then Err(NoContour) else Ok(MaxFrom(cnts, area, 0, 1))
  }

  /** The two properties of `LargestContour` determine the index: it is the
      first contour of maximal area, whatever the ties. */
  lemma LargestContourUnique(cnts: seq<Contour>, area: Contour -> real, k: nat)
    requires k < |cnts|
    requires forall j :: 0 <= j < |cnts| ==> area(cnts[j]) <= area(cnts[k])
    requires forall j :: 0 <= j < k ==> area(cnts[j]) < area(cnts[k])
    ensures LargestContour(cnts, area) == Ok(k)
  {
  }

  /** numpy `argmin` continued at `i` with candidate `best`: the first
      index of the smallest value. */
  function ArgMinFrom(vals: seq<int>, best: nat, i: nat): (k: nat)
    requires best < i <= |vals|
    requires forall j :: 0 <= j < i ==> vals[best] <= vals[j]
    requires forall j :: 0 <= j < best ==> vals[best] < vals[j]
    ensures k < |vals|
    ensures forall j :: 0 <= j < |vals| ==> vals[k] <= vals[j]
    ensures forall j :: 0 <= j < k ==> vals[k] < vals[j]
    decreases |vals| - i
  {
    if i == |vals| then best
    else if vals[i] < vals[best] then ArgMinFrom(vals, i, i + 1)
    else ArgMinFrom(vals, best, i + 1)
  }

  /** numpy `argmax` continued at `i`: the first index of the largest value. */
  function ArgMaxFrom(vals: seq<int>, best: nat, i: nat): (k: nat)
    requires best < i <= |vals|
    requires forall j :: 0 <= j < i ==> vals[j] <= vals[best]
    requires forall j :: 0 <= j < best ==> vals[j] < vals[best]
    ensures k < |vals|
    ensures forall j :: 0 <= j < |vals| ==> vals[j] <= vals[k]
    ensures forall j :: 0 <= j < k ==> vals[j] < vals[k]
    decreases |vals| - i
  {
    if i == |vals| then best
    else if vals[i] > vals[best] then ArgMaxFrom(vals, i, i + 1)
    else ArgMaxFrom(vals, best, i + 1)
  }

  function Xs(c: Contour): seq<int>
  {
    seq(|c|, i requires 0 <= i < |c| => c[i].x)
  }

  function Ys(c: Contour): seq<int>
  {
    seq(|c|, i requires 0 <= i < |c| => c[i].y)
  }

  /** The indices numpy's `argmin`/`argmax` pick on the x and y columns. */
  datatype Extremes = Extremes(left: nat, right: nat, top: nat, bottom: nat)

  /** Lines 137-140: `extLeft`, `extRight`, `extTop` and `extBot` are the
      points at these indices: the first smallest x, first largest x, first
      smallest y and first largest y. Every contour point lies inside the
      box they span. */
  function ExtremePoints(c: Contour): (e: Extremes)
    requires |c| > 0
    ensures e.left < |c| && e.right < |c| && e.top < |c| && e.bottom < |c|
    ensures forall j :: 0 <= j < |c| ==>
      c[e.left].x <= c[j].x <= c[e.right].x && c[e.top].y <= c[j].y <= c[e.bottom].y
    ensures forall j :: 0 <= j < e.left ==> c[e.left].x < c[j].x
    ensures forall j :: 0 <= j < e.right ==> c[j].x < c[e.right].x
    ensures forall j :: 0 <= j < e.top ==> c[e.top].y < c[j].y
    ensures forall j :: 0 <= j < e.bottom ==> c[j].y < c[e.bottom].y
  {
    var xs, ys := Xs(c), Ys(c);
    assert forall j :: 0 <= j < |c| ==> xs[j] == c[j].x && ys[j] == c[j].y;
    var l, r := ArgMinFrom(xs, 0, 1), ArgMaxFrom(xs, 0, 1);
    var t, b := ArgMinFrom(ys, 0, 1), ArgMaxFrom(ys, 0, 1);
    Extremes(l, r, t, b)
  }

  /** Normalisation of one slice bound against a length `n`: a negative
      bound counts from the end, and the result is clamped to `[0, n]`. */
  function SliceBound(i: int, n: nat): (j: nat)
    ensures j <= n
    ensures 0 <= i <= n ==> j == i
    ensures i > n ==> j == n
    ensures -(n as int) <= i < 0 ==> j == n as int + i
    ensures i < -(n as int) ==> j == 0
  {
    if i < 0 then (if i + n < 0 then 0 else i + n)
    else if i > n then n
    else i
  }

  /** `s[start:stop]` in Python. */
  function PySlice<T>(s: seq<T>, start: int, stop: int): (r: seq<T>)
    ensures var a, b := SliceBound(start, |s|), SliceBound(stop, |s|);
      |r| == (if a < b then b - a else 0) &&
      forall k :: 0 <= k < |r| ==> r[k] == s[a + k]
  {
    var a, b := SliceBound(start, |s|), SliceBound(stop, |s|);
    if a < b then s[a..b] else []
  }

  /** `img[r0:r1, c0:c1]` on a 2-d array. */
  function Crop<T>(img: Image<T>, r0: int, r1: int, c0: int, c1: int): Image<T>
  {
    var rows := PySlice(img, r0, r1);
    seq(|rows|, i requires 0 <= i < |rows| => PySlice(rows[i], c0, c1))
  }

  predicate IsRect<T>(img: Image<T>, w: nat)
  {
    forall i :: 0 <= i < |img| ==> |img[i]| == w
  }

  /** Lines 135-150 as written. */
  function ReduceBackground<T>(img: Image<T>, cnts: seq<Contour>, area: Contour -> real): (r: Result<Image<T>, CropError>)
    ensures r.Err? <==> |cnts| == 0 || |cnts[LargestContour(cnts, area).value]| == 0
  {
    match LargestContour(cnts, area)
    case Err(e) => Err(e)
    case Ok(k) =>
      if |cnts[k]| == 0 then Err(EmptyContour)
      else
        var c := cnts[k];
        var e := ExtremePoints(c);
        Ok(Crop(img, c[e.top].y - AddPixels, c[e.bottom].y + AddPixels, c[e.left].x - AddPixels, c[e.right].x + AddPixels))
  }

  /** Away from the edges the crop is the box widened by 3 before it and
      by only 2 after it, since the slice stop is exclusive: it has
      `bot - top + 6` rows of `right - left + 6` pixels, and pixel (r, c) is
      `img[top - 3 + r][left - 3 + c]`. */
  lemma CropInterior<T>(img: Image<T>, w: nat, top: int, bot: int, left: int, right: int)
    requires IsRect(img, w)
    requires AddPixels <= top <= bot && bot + AddPixels <= |img|
    requires AddPixels <= left <= right && right + AddPixels <= w
    ensures var c := Crop(img, top - AddPixels, bot + AddPixels, left - AddPixels, right + AddPixels);
      |c| == (bot - top + 1) + AddPixels + (AddPixels - 1) &&
      forall r :: 0 <= r < |c| ==>
        |c[r]| == (right - left + 1) + AddPixels + (AddPixels - 1) &&
        forall col :: 0 <= col < |c[r]| ==> c[r][col] == img[top - AddPixels + r][left - AddPixels + col]
  {
  }

  /** The as-written crop of a content box: rows `top - 3 + r` for every
      crop row `r`, so row `bot + 3` is never included. */
  lemma CropMarginAsymmetric<T>(img: Image<T>, w: nat, top: int, bot: int, left: int, right: int)
    requires IsRect(img, w)
    requires AddPixels <= top <= bot && bot + AddPixels < |img|
    requires AddPixels <= left <= right && right + AddPixels <= w
    ensures var c := Crop(img, top - AddPixels, bot + AddPixels, left - AddPixels, right + AddPixels);
      top - AddPixels + (|c| - 1) == bot + AddPixels - 1
  {
  }

  /** When the content box starts less than 3 rows from the top, the
      negative slice start counts from the bottom instead of being clamped:
      once the image has at least `bot + 6 - top` rows the crop has no rows
      at all, though the box holds `bot - top + 1` rows of content. */
  lemma CropWrapsNearTop<T>(img: Image<T>, top: int, bot: int, left: int, right: int)
    requires 0 <= top < AddPixels && top <= bot
    requires bot + 2 * AddPixels - top <= |img|
    ensures Crop(img, top - AddPixels, bot + AddPixels, left - AddPixels, right + AddPixels) == []
  {
  }

  /** The same for columns: content starting less than 3 columns from the
      left edge leaves every row of the crop empty. */
  lemma CropWrapsNearLeft<T>(img: Image<T>, w: nat, top: int, bot: int, left: int, right: int)
    requires IsRect(img, w)
    requires 0 <= left < AddPixels && left <= right
    requires right + 2 * AddPixels - left <= w
    ensures var c := Crop(img, top - AddPixels, bot + AddPixels, left - AddPixels, right + AddPixels);
      forall r :: 0 <= r < |c| ==> c[r] == []
  {
  }

  /** A clamped slice bound, as evidently intended. */
  function Clamp(i: int, n: nat): (j: nat)
    ensures j <= n
    ensures i < 0 ==> j == 0
    ensures i > n ==> j == n
    ensures 0 <= i <= n ==> j == i
  {
    if i < 0 then 0 else if i > n then n else i
  }

  /** The crop as evidently intended: 3 pixels of margin on every side,
      clamped to the image. */
  function ClampedCrop<T>(img: Image<T>, w: nat, top: int, bot: int, left: int, right: int): (c: Image<T>)
    requires IsRect(img, w)
    ensures 0 <= top <= bot < |img| && 0 <= left <= right < w ==>
      |c| > 0 && forall i :: 0 <= i < |c| ==> |c[i]| > 0
  {
    var r0, r1 := Clamp(top - AddPixels, |img|), Clamp(bot + AddPixels + 1, |img|);
    var c0, c1 := Clamp(left - AddPixels, w), Clamp(right + AddPixels + 1, w);
    var rows := if r0 < r1 then img[r0..r1] else [];
    seq(|rows|, i requires 0 <= i < |rows| => if c0 < c1 then rows[i][c0..c1] else [])
  }

  /** Wherever the content box lies in the image, the intended crop is the
      whole window of the image from `max(0, top - 3)`, `max(0, left - 3)`
      to 3 rows and columns past the box (clamped), so it keeps every pixel
      of the box and up to 3 rows and columns beyond it on each side. */
  lemma ClampedCropKeepsBox<T>(img: Image<T>, w: nat, top: int, bot: int, left: int, right: int)
    requires IsRect(img, w)
    requires 0 <= top <= bot < |img| && 0 <= left <= right < w
    ensures var c := ClampedCrop(img, w, top, bot, left, right);
      var r0, c0 := Clamp(top - AddPixels, |img|), Clamp(left - AddPixels, w);
      var c1 := Clamp(right + AddPixels + 1, w);
      |c| == Clamp(bot + AddPixels + 1, |img|) - r0 &&
      r0 == (if top >= AddPixels then top - AddPixels else 0) &&
      c0 == (if left >= AddPixels then left - AddPixels else 0) &&
      (forall r, col :: 0 <= r < |c| && 0 <= col < c1 - c0 ==>
        |c[r]| == c1 - c0 && c[r][col] == img[r0 + r][c0 + col]) &&
      forall y, x :: top <= y <= bot && left <= x <= right ==>
        |c[y - r0]| == c1 - c0 && c[y - r0][x - c0] == img[y][x]
  {
  }

  /** Lines 135-150 with the intended clamped, symmetric margin. */
  function ReduceBackgroundClamped<T>(img: Image<T>, w: nat, cnts: seq<Contour>, area: Contour -> real): (r: Result<Image<T>, CropError>)
    requires IsRect(img, w)
    ensures r.Err? <==> |cnts| == 0 || |cnts[LargestContour(cnts, area).value]| == 0
    ensures r.Ok? ==> var c := cnts[LargestContour(cnts, area).value];
      (forall i :: 0 <= i < |c| ==> 0 <= c[i].y < |img| && 0 <= c[i].x < w) ==>
        |r.value| > 0 && forall i :: 0 <= i < |r.value| ==> |r.value[i]| > 0
  {
    match LargestContour(cnts, area)
    case Err(e) => Err(e)
    case Ok(k) =>
      if |cnts[k]| == 0 then Err(EmptyContour)
      else
        var c := cnts[k];
        var e := ExtremePoints(c);
        var top, bot, left, right := c[e.top].y, c[e.bottom].y, c[e.left].x, c[e.right].x;
        Ok(ClampedCrop(img, w, top, bot, left, right))
  }
}
