/**
 * Extrema: scale-space extremum detection over a DoG stack (`getLocalExtrema`).
 *
 * For every interior DoG level the detector restricts each level to the image
 * without its one-pixel border (the region), filters the region of the level
 * and the pixelwise maximum / minimum of the two neighbouring levels with
 * size-3 maximum / minimum filters, keeps the pixels that are at least both
 * maxima or at most both minima and whose magnitude reaches the contrast
 * threshold, and emits `(column + 1, row + 1, level)` for each, row-major
 * within a level and level by level.
 */
module Extrema {
  import opened Grids
  import opened Filters

  /** A position `(row, col)` of the region, as `np.where` reports it. */
  datatype Pixel = Pixel(row: int, col: int)

  /** A detection `(x, y, level)`: x is the image column, y the image row. */
  datatype Keypoint = Keypoint(x: int, y: int, level: int)

  // ---------------------------------------------------------------------------
  // The mask of one level, as numpy computes it.
  // ---------------------------------------------------------------------------

  /**
   * `is_extrema` of DoG level `l`: over the region, the joint extremum test
   * against the space and scale filters, and-ed with the contrast test.
   */
  function LevelMask(dog: Pyramid, h: nat, w: nat, l: nat, thContrast: real): (isExtrema: Mask)
    requires IsPyramid(dog, h, w) && 1 <= l && l + 1 < |dog|
    ensures IsGrid(isExtrema, Inner(h), Inner(w))
  {
    var ih, iw := Inner(h), Inner(w);
    var region := Interior(dog[l], h, w);
    var spaceMax := MaxFilter(region, ih, iw);
    var spaceMin := MinFilter(region, ih, iw);
    var below, above := Interior(dog[l - 1], h, w), Interior(dog[l + 1], h, w);
    var scaleMax := MaxFilter(Pointwise(below, above, ih, iw, Max), ih, iw);
    var scaleMin := MinFilter(Pointwise(below, above, ih, iw, Min), ih, iw);
    seq(ih, i requires 0 <= i < ih =>
      seq(iw, j requires 0 <= j < iw =>
        (region[i][j] >= Max(spaceMax[i][j], scaleMax[i][j]) ||
         region[i][j] <= Min(spaceMin[i][j], scaleMin[i][j]))
        && Abs(region[i][j]) >= thContrast))
  }

  // ---------------------------------------------------------------------------
  // The reference definition of a keypoint, in image coordinates.
  // ---------------------------------------------------------------------------

  /** `r2` is within one step of `r` and inside the region (never on the border). */
  predicate InRegionWindow(r2: int, r: int, n: nat) {
    1 <= r2 <= n - 2 && r - 1 <= r2 <= r + 1
  }

  /** The value at `(r, c)` of level `l` is at least every value of its region-clamped 3x3x3 window. */
  ghost predicate IsWindowMax(dog: Pyramid, h: nat, w: nat, l: nat, r: nat, c: nat)
    requires IsPyramid(dog, h, w) && 1 <= l && l + 1 < |dog| && r < h && c < w
  {
    forall l2, r2, c2 :: l - 1 <= l2 <= l + 1 && InRegionWindow(r2, r, h) && InRegionWindow(c2, c, w) ==>
      dog[l2][r2][c2] <= dog[l][r][c]
  }

  /** The value at `(r, c)` of level `l` is at most every value of its region-clamped 3x3x3 window. */
  ghost predicate IsWindowMin(dog: Pyramid, h: nat, w: nat, l: nat, r: nat, c: nat)
    requires IsPyramid(dog, h, w) && 1 <= l && l + 1 < |dog| && r < h && c < w
  {
    forall l2, r2, c2 :: l - 1 <= l2 <= l + 1 && InRegionWindow(r2, r, h) && InRegionWindow(c2, c, w) ==>
      dog[l][r][c] <= dog[l2][r2][c2]
  }

  /**
   * `kp` is a detection: an interior level, an interior pixel, enough contrast,
   * and a (non-strict) extremum of its window. Ties count.
   */
  ghost predicate IsKeypoint(dog: Pyramid, h: nat, w: nat, thContrast: real, kp: Keypoint)
    requires IsPyramid(dog, h, w)
  {
    && 1 <= kp.level && kp.level + 1 < |dog|
    && 1 <= kp.y && kp.y + 2 <= h
    && 1 <= kp.x && kp.x + 2 <= w
    && Abs(dog[kp.level][kp.y][kp.x]) >= thContrast
    && (IsWindowMax(dog, h, w, kp.level, kp.y, kp.x) || IsWindowMin(dog, h, w, kp.level, kp.y, kp.x))
  }

  /** `v` is at least every value of `img` in the clamped 3x3 window around `(i, j)`. */
  ghost predicate BoundsWindowAbove(img: Image, h: nat, w: nat, i: nat, j: nat, v: real)
    requires IsGrid(img, h, w)
  {
    forall i2, j2 :: Near(i2, i, h) && Near(j2, j, w) ==> img[i2][j2] <= v
  }

  /** `v` is at most every value of `img` in the clamped 3x3 window around `(i, j)`. */
  ghost predicate BoundsWindowBelow(img: Image, h: nat, w: nat, i: nat, j: nat, v: real)
    requires IsGrid(img, h, w)
  {
    forall i2, j2 :: Near(i2, i, h) && Near(j2, j, w) ==> v <= img[i2][j2]
  }

  /**
   * Bounding the region's window and the window of the pixelwise maximum of
   * the neighbouring levels is bounding the 3x3x3 window of the stack.
   */
  lemma WindowMaxFromFilters(dog: Pyramid, h: nat, w: nat, l: nat, i: nat, j: nat,
                             region: Image, pmax: Image)
    requires IsPyramid(dog, h, w) && 1 <= l && l + 1 < |dog| && i < Inner(h) && j < Inner(w)
    requires region == Interior(dog[l], h, w)
    requires pmax == Pointwise(Interior(dog[l - 1], h, w), Interior(dog[l + 1], h, w), Inner(h), Inner(w), Max)
    ensures BoundsWindowAbove(region, Inner(h), Inner(w), i, j, dog[l][i + 1][j + 1]) &&
            BoundsWindowAbove(pmax, Inner(h), Inner(w), i, j, dog[l][i + 1][j + 1])
            <==> IsWindowMax(dog, h, w, l, i + 1, j + 1)
  {
    var ih, iw, v := Inner(h), Inner(w), dog[l][i + 1][j + 1];
    if BoundsWindowAbove(region, ih, iw, i, j, v) && BoundsWindowAbove(pmax, ih, iw, i, j, v) {
      forall l2, r2, c2 | l - 1 <= l2 <= l + 1 && InRegionWindow(r2, i + 1, h) && InRegionWindow(c2, j + 1, w)
        ensures dog[l2][r2][c2] <= v
      {
        assert Near(r2 - 1, i, ih) && Near(c2 - 1, j, iw);
        assert region[r2 - 1][c2 - 1] <= v && pmax[r2 - 1][c2 - 1] <= v;
      }
    }
    if IsWindowMax(dog, h, w, l, i + 1, j + 1) {
      forall i2, j2 | Near(i2, i, ih) && Near(j2, j, iw)
        ensures region[i2][j2] <= v && pmax[i2][j2] <= v
      {
        assert InRegionWindow(i2 + 1, i + 1, h) && InRegionWindow(j2 + 1, j + 1, w);
        assert dog[l - 1][i2 + 1][j2 + 1] <= v && dog[l][i2 + 1][j2 + 1] <= v && dog[l + 1][i2 + 1][j2 + 1] <= v;
      }
    }
  }

  /** The mirror image of `WindowMaxFromFilters` for minima. */
  lemma WindowMinFromFilters(dog: Pyramid, h: nat, w: nat, l: nat, i: nat, j: nat,
                             region: Image, pmin: Image)
    requires IsPyramid(dog, h, w) && 1 <= l && l + 1 < |dog| && i < Inner(h) && j < Inner(w)
    requires region == Interior(dog[l], h, w)
    requires pmin == Pointwise(Interior(dog[l - 1], h, w), Interior(dog[l + 1], h, w), Inner(h), Inner(w), Min)
    ensures BoundsWindowBelow(region, Inner(h), Inner(w), i, j, dog[l][i + 1][j + 1]) &&
            BoundsWindowBelow(pmin, Inner(h), Inner(w), i, j, dog[l][i + 1][j + 1])
            <==> IsWindowMin(dog, h, w, l, i + 1, j + 1)
  {
    var ih, iw, v := Inner(h), Inner(w), dog[l][i + 1][j + 1];
    if BoundsWindowBelow(region, ih, iw, i, j, v) && BoundsWindowBelow(pmin, ih, iw, i, j, v) {
      forall l2, r2, c2 | l - 1 <= l2 <= l + 1 && InRegionWindow(r2, i + 1, h) && InRegionWindow(c2, j + 1, w)
        ensures v <= dog[l2][r2][c2]
      {
        assert Near(r2 - 1, i, ih) && Near(c2 - 1, j, iw);
        assert v <= region[r2 - 1][c2 - 1] && v <= pmin[r2 - 1][c2 - 1];
      }
    }
    if IsWindowMin(dog, h, w, l, i + 1, j + 1) {
      forall i2, j2 | Near(i2, i, ih) && Near(j2, j, iw)
        ensures v <= region[i2][j2] && v <= pmin[i2][j2]
      {
        assert InRegionWindow(i2 + 1, i + 1, h) && InRegionWindow(j2 + 1, j + 1, w);
        assert v <= dog[l - 1][i2 + 1][j2 + 1] && v <= dog[l][i2 + 1][j2 + 1] && v <= dog[l + 1][i2 + 1][j2 + 1];
      }
    }
  }

  /** A value bounds both clamped windows from above iff it reaches both filtered maxima. */
  lemma AtLeastBothMaxFilters(a: Image, b: Image, h: nat, w: nat, i: nat, j: nat, v: real)
    requires IsGrid(a, h, w) && IsGrid(b, h, w) && i < h && j < w
    ensures v >= Max(MaxFilter(a, h, w)[i][j], MaxFilter(b, h, w)[i][j]) <==>
            BoundsWindowAbove(a, h, w, i, j, v) && BoundsWindowAbove(b, h, w, i, j, v)
  {
    AtLeastMaxFilter(a, h, w, i, j, v);
    AtLeastMaxFilter(b, h, w, i, j, v);
  }

  /** A value bounds both clamped windows from below iff it is at most both filtered minima. */
  lemma AtMostBothMinFilters(a: Image, b: Image, h: nat, w: nat, i: nat, j: nat, v: real)
    requires IsGrid(a, h, w) && IsGrid(b, h, w) && i < h && j < w
    ensures v <= Min(MinFilter(a, h, w)[i][j], MinFilter(b, h, w)[i][j]) <==>
            BoundsWindowBelow(a, h, w, i, j, v) && BoundsWindowBelow(b, h, w, i, j, v)
  {
    AtMostMinFilter(a, h, w, i, j, v);
    AtMostMinFilter(b, h, w, i, j, v);
  }

  /** The maximum half of the mask test: the pixel reaches both filtered maxima iff it is a window maximum. */
  lemma FiltersDecideMax(dog: Pyramid, h: nat, w: nat, l: nat, i: nat, j: nat, region: Image, pmax: Image)
    requires IsPyramid(dog, h, w) && 1 <= l && l + 1 < |dog| && i < Inner(h) && j < Inner(w)
    requires region == Interior(dog[l], h, w)
    requires pmax == Pointwise(Interior(dog[l - 1], h, w), Interior(dog[l + 1], h, w), Inner(h), Inner(w), Max)
    ensures region[i][j] >= Max(MaxFilter(region, Inner(h), Inner(w))[i][j], MaxFilter(pmax, Inner(h), Inner(w))[i][j])
            <==> IsWindowMax(dog, h, w, l, i + 1, j + 1)
  {
    AtLeastBothMaxFilters(region, pmax, Inner(h), Inner(w), i, j, region[i][j]);
    WindowMaxFromFilters(dog, h, w, l, i, j, region, pmax);
  }

  /** The minimum half of the mask test: the pixel is at most both filtered minima iff it is a window minimum. */
  lemma FiltersDecideMin(dog: Pyramid, h: nat, w: nat, l: nat, i: nat, j: nat, region: Image, pmin: Image)
    requires IsPyramid(dog, h, w) && 1 <= l && l + 1 < |dog| && i < Inner(h) && j < Inner(w)
    requires region == Interior(dog[l], h, w)
    requires pmin == Pointwise(Interior(dog[l - 1], h, w), Interior(dog[l + 1], h, w), Inner(h), Inner(w), Min)
    ensures region[i][j] <= Min(MinFilter(region, Inner(h), Inner(w))[i][j], MinFilter(pmin, Inner(h), Inner(w))[i][j])
            <==> IsWindowMin(dog, h, w, l, i + 1, j + 1)
  {
    AtMostBothMinFilters(region, pmin, Inner(h), Inner(w), i, j, region[i][j]);
    WindowMinFromFilters(dog, h, w, l, i, j, region, pmin);
  }

  /** One cell of the mask, spelled out over the four filtered images. */
  lemma LevelMaskCell(dog: Pyramid, h: nat, w: nat, l: nat, thContrast: real, i: nat, j: nat,
                      region: Image, pmax: Image, pmin: Image)
    requires IsPyramid(dog, h, w) && 1 <= l && l + 1 < |dog| && i < Inner(h) && j < Inner(w)
    requires region == Interior(dog[l], h, w)
    requires pmax == Pointwise(Interior(dog[l - 1], h, w), Interior(dog[l + 1], h, w), Inner(h), Inner(w), Max)
    requires pmin == Pointwise(Interior(dog[l - 1], h, w), Interior(dog[l + 1], h, w), Inner(h), Inner(w), Min)
    ensures LevelMask(dog, h, w, l, thContrast)[i][j] ==
            ((region[i][j] >= Max(MaxFilter(region, Inner(h), Inner(w))[i][j], MaxFilter(pmax, Inner(h), Inner(w))[i][j]) ||
              region[i][j] <= Min(MinFilter(region, Inner(h), Inner(w))[i][j], MinFilter(pmin, Inner(h), Inner(w))[i][j]))
             && Abs(dog[l][i + 1][j + 1]) >= thContrast)
  {
  }

  /**
   * The mask is exactly the reference definition: region pixel `(i, j)` of
   * level `l` is set iff `(j + 1, i + 1, l)` is a keypoint.
   */
  lemma LevelMaskIsKeypoint(dog: Pyramid, h: nat, w: nat, l: nat, thContrast: real, i: nat, j: nat)
    requires IsPyramid(dog, h, w) && 1 <= l && l + 1 < |dog| && i < Inner(h) && j < Inner(w)
    ensures LevelMask(dog, h, w, l, thContrast)[i][j] <==> IsKeypoint(dog, h, w, thContrast, Keypoint(j + 1, i + 1, l))
  {
    var ih, iw := Inner(h), Inner(w);
    var region := Interior(dog[l], h, w);
    var below, above := Interior(dog[l - 1], h, w), Interior(dog[l + 1], h, w);
    var pmax := Pointwise(below, above, ih, iw, Max);
    var pmin := Pointwise(below, above, ih, iw, Min);
    LevelMaskCell(dog, h, w, l, thContrast, i, j, region, pmax, pmin);
    FiltersDecideMax(dog, h, w, l, i, j, region, pmax);
    FiltersDecideMin(dog, h, w, l, i, j, region, pmin);
  }

  // ---------------------------------------------------------------------------
  // np.where: the set positions of a mask, row-major.
  // ---------------------------------------------------------------------------

  /** The set positions of row `i` of a mask from column `j` on, left to right. */
  function RowHits(row: seq<bool>, i: int, j: nat): (hits: seq<Pixel>)
    requires j <= |row|
    ensures forall p :: p in hits <==> p.row == i && j <= p.col < |row| && row[p.col]
    decreases |row| - j
  {
    if j == |row| then []
    else (if row[j] then [Pixel(i, j)] else []) + RowHits(row, i, j + 1)
  }

  /** The set positions of a mask from row `i` on, row-major. */
  function Hits(mask: Mask, i: nat): (hits: seq<Pixel>)
    requires i <= |mask|
    ensures forall p :: p in hits <==> i <= p.row < |mask| && 0 <= p.col < |mask[p.row]| && mask[p.row][p.col]
    decreases |mask| - i
  {
    if i == |mask| then [] else RowHits(mask[i], i, 0) + Hits(mask, i + 1)
  }

  /** `np.where(mask)`, as a list of positions. */
  function Where(mask: Mask): (hits: seq<Pixel>)
    ensures forall p :: p in hits <==> 0 <= p.row < |mask| && 0 <= p.col < |mask[p.row]| && mask[p.row][p.col]
  {
    Hits(mask, 0)
  }

  /** Row-major order of positions. */
  predicate PixelBefore(p: Pixel, q: Pixel) {
    p.row < q.row || (p.row == q.row && p.col < q.col)
  }

  /** Level, then row, then column order of detections. */
  predicate KeypointBefore(a: Keypoint, b: Keypoint) {
    a.level < b.level || (a.level == b.level && (a.y < b.y || (a.y == b.y && a.x < b.x)))
  }

  /** Each element precedes every later one. */
  ghost predicate Increasing<T>(s: seq<T>, before: (T, T) -> bool) {
    forall a, b :: 0 <= a < b < |s| ==> before(s[a], s[b])
  }

  lemma IncreasingAppend<T>(x: seq<T>, y: seq<T>, before: (T, T) -> bool)
    requires Increasing(x, before) && Increasing(y, before)
    requires forall a, b :: 0 <= a < |x| && 0 <= b < |y| ==> before(x[a], y[b])
    ensures Increasing(x + y, before)
  {
    forall a, b | 0 <= a < b < |x + y|
      ensures before((x + y)[a], (x + y)[b])
    {
      if b < |x| {
        assert (x + y)[a] == x[a] && (x + y)[b] == x[b];
      } else if a < |x| {
        assert (x + y)[a] == x[a] && (x + y)[b] == y[b - |x|];
      } else {
        assert (x + y)[a] == y[a - |x|] && (x + y)[b] == y[b - |x|];
      }
    }
  }

  lemma {:induction false} RowHitsIncreasing(row: seq<bool>, i: int, j: nat)
    requires j <= |row|
    ensures Increasing(RowHits(row, i, j), PixelBefore)
    decreases |row| - j
  {
    if j < |row| {
      var rest := RowHits(row, i, j + 1);
      RowHitsIncreasing(row, i, j + 1);
      var first: seq<Pixel> := if row[j] then [Pixel(i, j)] else [];
      forall a, b | 0 <= a < |first| && 0 <= b < |rest|
        ensures PixelBefore(first[a], rest[b])
      {
        assert rest[b] in rest;
      }
      IncreasingAppend(first, rest, PixelBefore);
    }
  }

  lemma {:induction false} HitsIncreasing(mask: Mask, i: nat)
    requires i <= |mask|
    ensures Increasing(Hits(mask, i), PixelBefore)
    decreases |mask| - i
  {
    if i < |mask| {
      var first, rest := RowHits(mask[i], i, 0), Hits(mask, i + 1);
      RowHitsIncreasing(mask[i], i, 0);
      HitsIncreasing(mask, i + 1);
      forall a, b | 0 <= a < |first| && 0 <= b < |rest|
        ensures PixelBefore(first[a], rest[b])
      {
        assert first[a] in first && rest[b] in rest;
      }
      IncreasingAppend(first, rest, PixelBefore);
    }
  }

  /** `np.where` reports positions in strictly increasing row-major order. */
  lemma WhereIncreasing(mask: Mask)
    ensures Increasing(Where(mask), PixelBefore)
  {
    HitsIncreasing(mask, 0);
  }

  // ---------------------------------------------------------------------------
  // Emission of one level.
  // ---------------------------------------------------------------------------

  /** The detections of one level: each position shifted back to the image frame, as (x, y, level). */
  function ToKeypoints(hits: seq<Pixel>, l: int): (batch: seq<Keypoint>)
  {
    seq(|hits|, k requires 0 <= k < |hits| => Keypoint(hits[k].col + 1, hits[k].row + 1, l))
  }

  /** `coordinates[:, [1,0]] = coordinates[:, [0,1]]`: swap the two columns in place. */
  method SwapColumns(coordinates: array2<int>)
    requires coordinates.Length1 == 2
    modifies coordinates
    ensures forall k :: 0 <= k < coordinates.Length0 ==>
              coordinates[k, 0] == old(coordinates[k, 1]) && coordinates[k, 1] == old(coordinates[k, 0])
  {
    for k := 0 to coordinates.Length0
      invariant forall k' :: 0 <= k' < k ==>
                  coordinates[k', 0] == old(coordinates[k', 1]) && coordinates[k', 1] == old(coordinates[k', 0])
      invariant forall k' :: k <= k' < coordinates.Length0 ==>
                  coordinates[k', 0] == old(coordinates[k', 0]) && coordinates[k', 1] == old(coordinates[k', 1])
    {
      coordinates[k, 0], coordinates[k, 1] := coordinates[k, 1], coordinates[k, 0];
    }
  }

  /**
   * Lines 132-136 of one level: the positions plus one, transposed into an
   * N x 2 array of (row, col), columns swapped into (x, y), and a level column
   * appended.
   */
  method EmitLevel(hits: seq<Pixel>, l: int) returns (batch: seq<Keypoint>)
    ensures batch == ToKeypoints(hits, l)
  {
    var n := |hits|;
    var coordinates := new int[n, 2];
    for k := 0 to n
      invariant forall k' :: 0 <= k' < k ==>
                  coordinates[k', 0] == hits[k'].row + 1 && coordinates[k', 1] == hits[k'].col + 1
    {
      coordinates[k, 0], coordinates[k, 1] := hits[k].row + 1, hits[k].col + 1;
    }
    SwapColumns(coordinates);
    batch := [];
    for k := 0 to n
      invariant |batch| == k
      invariant forall k' :: 0 <= k' < k ==> batch[k'] == Keypoint(hits[k'].col + 1, hits[k'].row + 1, l)
    {
      batch := batch + [Keypoint(coordinates[k, 0], coordinates[k, 1], l)];
    }
  }

  // ---------------------------------------------------------------------------
  // All levels.
  // ---------------------------------------------------------------------------

  /** The detections of DoG level `l`. */
  function LevelKeypoints(dog: Pyramid, h: nat, w: nat, l: nat, thContrast: real): seq<Keypoint>
    requires IsPyramid(dog, h, w) && 1 <= l && l + 1 < |dog|
  {
    ToKeypoints(Where(LevelMask(dog, h, w, l, thContrast)), l)
  }

  /** The list `res` once the level loop has appended the batches of levels `1 .. n - 1`. */
  function Batches(dog: Pyramid, h: nat, w: nat, thContrast: real, n: nat): (res: seq<seq<Keypoint>>)
    requires IsPyramid(dog, h, w) && 1 <= n < |dog|
    ensures |res| == n - 1
  {
    if n == 1 then [] else Batches(dog, h, w, thContrast, n - 1) + [LevelKeypoints(dog, h, w, n - 1, thContrast)]
  }

  /** `np.concatenate(res)`. */
  function Concat(batches: seq<seq<Keypoint>>): (all: seq<Keypoint>)
    ensures forall kp :: kp in all <==> exists k :: 0 <= k < |batches| && kp in batches[k]
  {
    if batches == [] then []
    else
      assert forall k :: 1 <= k < |batches| ==> batches[k] == batches[1..][k - 1];
      batches[0] + Concat(batches[1..])
  }

  /** What `getLocalExtrema` returns for a stack of at least three levels. */
  function Detect(dog: Pyramid, h: nat, w: nat, thContrast: real): seq<Keypoint>
    requires IsPyramid(dog, h, w) && |dog| >= 3
  {
    Concat(Batches(dog, h, w, thContrast, |dog| - 1))
  }

  /** A mask of the region's shape whose cells are exactly the keypoints of level `l`. */
  ghost predicate MarksKeypoints(dog: Pyramid, h: nat, w: nat, l: nat, thContrast: real, mask: Mask)
    requires IsPyramid(dog, h, w)
  {
    && IsGrid(mask, Inner(h), Inner(w))
    && forall i, j :: 0 <= i < Inner(h) && 0 <= j < Inner(w) ==>
         (mask[i][j] <==> IsKeypoint(dog, h, w, thContrast, Keypoint(j + 1, i + 1, l)))
  }

  /** `is_extrema` marks exactly the keypoints of its level. */
  lemma LevelMaskMarksKeypoints(dog: Pyramid, h: nat, w: nat, l: nat, thContrast: real)
    requires IsPyramid(dog, h, w) && 1 <= l && l + 1 < |dog|
    ensures MarksKeypoints(dog, h, w, l, thContrast, LevelMask(dog, h, w, l, thContrast))
  {
    forall i, j | 0 <= i < Inner(h) && 0 <= j < Inner(w)
      ensures LevelMask(dog, h, w, l, thContrast)[i][j] <==> IsKeypoint(dog, h, w, thContrast, Keypoint(j + 1, i + 1, l))
    {
      LevelMaskIsKeypoint(dog, h, w, l, thContrast, i, j);
    }
  }

  /** A position is listed iff, shifted back to the image frame, it is a keypoint of the mask's level. */
  lemma WhereMarksKeypoints(dog: Pyramid, h: nat, w: nat, l: nat, thContrast: real, mask: Mask, p: Pixel)
    requires IsPyramid(dog, h, w) && MarksKeypoints(dog, h, w, l, thContrast, mask)
    ensures p in Where(mask) <==> IsKeypoint(dog, h, w, thContrast, Keypoint(p.col + 1, p.row + 1, l))
  {
  }

  /** Membership in one level's batch. */
  lemma LevelKeypointsMembership(dog: Pyramid, h: nat, w: nat, l: nat, thContrast: real, kp: Keypoint)
    requires IsPyramid(dog, h, w) && 1 <= l && l + 1 < |dog|
    ensures kp in LevelKeypoints(dog, h, w, l, thContrast) <==>
            kp.level == l && IsKeypoint(dog, h, w, thContrast, kp)
  {
    var mask := LevelMask(dog, h, w, l, thContrast);
    var p := Pixel(kp.y - 1, kp.x - 1);
    LevelMaskMarksKeypoints(dog, h, w, l, thContrast);
    ToKeypointsMembership(Where(mask), l, kp);
    WhereMarksKeypoints(dog, h, w, l, thContrast, mask, p);
    assert kp.level == l ==> Keypoint(p.col + 1, p.row + 1, l) == kp;
  }

  /** A detection of a batch is a reported position shifted by one, on the batch's level. */
  lemma ToKeypointsMembership(hits: seq<Pixel>, l: int, kp: Keypoint)
    ensures kp in ToKeypoints(hits, l) <==> kp.level == l && Pixel(kp.y - 1, kp.x - 1) in hits
  {
    var batch := ToKeypoints(hits, l);
    if kp in batch {
      var m :| 0 <= m < |batch| && batch[m] == kp;
      assert hits[m] == Pixel(kp.y - 1, kp.x - 1);
    }
    if kp.level == l && Pixel(kp.y - 1, kp.x - 1) in hits {
      var m :| 0 <= m < |hits| && hits[m] == Pixel(kp.y - 1, kp.x - 1);
      assert batch[m] == kp;
    }
  }

  /** `batch` holds exactly the keypoints of level `l`. */
  ghost predicate MarksLevel(dog: Pyramid, h: nat, w: nat, thContrast: real, l: int, batch: seq<Keypoint>)
    requires IsPyramid(dog, h, w)
  {
    forall kp :: kp in batch <==> kp.level == l && IsKeypoint(dog, h, w, thContrast, kp)
  }

  /** Batch `k` holds exactly the keypoints of level `k + 1`. */
  ghost predicate MarksLevels(dog: Pyramid, h: nat, w: nat, thContrast: real, batches: seq<seq<Keypoint>>)
    requires IsPyramid(dog, h, w)
  {
    forall k :: 0 <= k < |batches| ==> MarksLevel(dog, h, w, thContrast, k + 1, batches[k])
  }

  /** One level's batch marks the keypoints of that level. */
  lemma LevelKeypointsMarkLevel(dog: Pyramid, h: nat, w: nat, l: nat, thContrast: real)
    requires IsPyramid(dog, h, w) && 1 <= l && l + 1 < |dog|
    ensures MarksLevel(dog, h, w, thContrast, l, LevelKeypoints(dog, h, w, l, thContrast))
  {
    forall kp {
      LevelKeypointsMembership(dog, h, w, l, thContrast, kp);
    }
  }

  /** The per-level batches mark the keypoints of their levels. */
  lemma {:induction false} BatchesMarkLevels(dog: Pyramid, h: nat, w: nat, thContrast: real, n: nat)
    requires IsPyramid(dog, h, w) && 1 <= n < |dog|
    ensures MarksLevels(dog, h, w, thContrast, Batches(dog, h, w, thContrast, n))
  {
    if n > 1 {
      BatchesMarkLevels(dog, h, w, thContrast, n - 1);
      LevelKeypointsMarkLevel(dog, h, w, n - 1, thContrast);
      var prev, batches := Batches(dog, h, w, thContrast, n - 1), Batches(dog, h, w, thContrast, n);
      assert forall k :: 0 <= k < n - 2 ==> batches[k] == prev[k];
      assert batches[n - 2] == LevelKeypoints(dog, h, w, n - 1, thContrast);
    }
  }

  /** Concatenating one batch per interior level gives exactly the keypoints. */
  lemma ConcatMarksKeypoints(dog: Pyramid, h: nat, w: nat, thContrast: real, batches: seq<seq<Keypoint>>)
    requires IsPyramid(dog, h, w) && |batches| + 2 == |dog|
    requires MarksLevels(dog, h, w, thContrast, batches)
    ensures forall kp :: kp in Concat(batches) <==> IsKeypoint(dog, h, w, thContrast, kp)
  {
    forall kp
      ensures kp in Concat(batches) <==> IsKeypoint(dog, h, w, thContrast, kp)
    {
      if kp in Concat(batches) {
        var k :| 0 <= k < |batches| && kp in batches[k];
        assert MarksLevel(dog, h, w, thContrast, k + 1, batches[k]);
      }
      if IsKeypoint(dog, h, w, thContrast, kp) {
        assert MarksLevel(dog, h, w, thContrast, kp.level, batches[kp.level - 1]);
      }
    }
  }

  /**
   * The detector reports exactly the keypoints of the reference definition:
   * `kp` is reported iff it is on an interior level and an interior pixel,
   * reaches the contrast threshold and bounds its 3x3x3 window from above or
   * from below.
   */
  lemma DetectMembership(dog: Pyramid, h: nat, w: nat, thContrast: real)
    requires IsPyramid(dog, h, w) && |dog| >= 3
    ensures forall kp :: kp in Detect(dog, h, w, thContrast) <==> IsKeypoint(dog, h, w, thContrast, kp)
  {
    BatchesMarkLevels(dog, h, w, thContrast, |dog| - 1);
    ConcatMarksKeypoints(dog, h, w, thContrast, Batches(dog, h, w, thContrast, |dog| - 1));
  }

  /**
   * Every report lies inside the image's one-pixel border, on an interior
   * level, and reaches the contrast threshold.
   */
  lemma DetectBoundsAndContrast(dog: Pyramid, h: nat, w: nat, thContrast: real)
    requires IsPyramid(dog, h, w) && |dog| >= 3
    ensures forall kp :: kp in Detect(dog, h, w, thContrast) ==>
              1 <= kp.x <= w - 2 && 1 <= kp.y <= h - 2 && 1 <= kp.level <= |dog| - 2 &&
              Abs(dog[kp.level][kp.y][kp.x]) >= thContrast
  {
    DetectMembership(dog, h, w, thContrast);
  }

  lemma {:induction false} ConcatIncreasing(batches: seq<seq<Keypoint>>, base: int)
    requires forall k :: 0 <= k < |batches| ==> Increasing(batches[k], KeypointBefore)
    requires forall k, kp :: 0 <= k < |batches| && kp in batches[k] ==> kp.level == base + k
    ensures Increasing(Concat(batches), KeypointBefore)
  {
    if batches != [] {
      var rest := batches[1..];
      assert forall k :: 0 <= k < |rest| ==> rest[k] == batches[k + 1];
      ConcatIncreasing(rest, base + 1);
      var first, tail := batches[0], Concat(rest);
      forall a, b | 0 <= a < |first| && 0 <= b < |tail|
        ensures KeypointBefore(first[a], tail[b])
      {
        assert first[a] in batches[0];
        assert tail[b] in tail;
        var k :| 0 <= k < |rest| && tail[b] in rest[k];
      }
      IncreasingAppend(first, tail, KeypointBefore);
    }
  }

  /** One level's batch is in row-major order and carries its level. */
  lemma LevelKeypointsIncreasing(dog: Pyramid, h: nat, w: nat, l: nat, thContrast: real)
    requires IsPyramid(dog, h, w) && 1 <= l && l + 1 < |dog|
    ensures Increasing(LevelKeypoints(dog, h, w, l, thContrast), KeypointBefore)
    ensures forall kp :: kp in LevelKeypoints(dog, h, w, l, thContrast) ==> kp.level == l
  {
    var hits := Where(LevelMask(dog, h, w, l, thContrast));
    WhereIncreasing(LevelMask(dog, h, w, l, thContrast));
    var batch := LevelKeypoints(dog, h, w, l, thContrast);
    forall a, b | 0 <= a < b < |batch|
      ensures KeypointBefore(batch[a], batch[b])
    {
      assert PixelBefore(hits[a], hits[b]);
    }
  }

  /** Every per-level batch is in row-major order. */
  lemma {:induction false} BatchesIncreasing(dog: Pyramid, h: nat, w: nat, thContrast: real, n: nat)
    requires IsPyramid(dog, h, w) && 1 <= n < |dog|
    ensures forall k :: 0 <= k < n - 1 ==> Increasing(Batches(dog, h, w, thContrast, n)[k], KeypointBefore)
  {
    if n > 1 {
      BatchesIncreasing(dog, h, w, thContrast, n - 1);
      LevelKeypointsIncreasing(dog, h, w, n - 1, thContrast);
      var prev, batches := Batches(dog, h, w, thContrast, n - 1), Batches(dog, h, w, thContrast, n);
      assert forall k :: 0 <= k < n - 2 ==> batches[k] == prev[k];
      assert batches[n - 2] == LevelKeypoints(dog, h, w, n - 1, thContrast);
    }
  }

  /**
   * Reports come level by level in ascending order and row-major within a
   * level, so they are strictly increasing in (level, y, x); in particular no
   * keypoint is reported twice.
   */
  lemma DetectIncreasing(dog: Pyramid, h: nat, w: nat, thContrast: real)
    requires IsPyramid(dog, h, w) && |dog| >= 3
    ensures Increasing(Detect(dog, h, w, thContrast), KeypointBefore)
  {
    var batches := Batches(dog, h, w, thContrast, |dog| - 1);
    BatchesIncreasing(dog, h, w, thContrast, |dog| - 1);
    BatchesMarkLevels(dog, h, w, thContrast, |dog| - 1);
    ConcatIncreasing(batches, 1);
  }

  // ---------------------------------------------------------------------------
  // The contrast threshold.
  // ---------------------------------------------------------------------------

  /** Raising the contrast threshold keeps a subset of the reports. */
  lemma ContrastMonotone(dog: Pyramid, h: nat, w: nat, th1: real, th2: real)
    requires IsPyramid(dog, h, w) && |dog| >= 3 && th1 <= th2
    ensures forall kp :: kp in Detect(dog, h, w, th2) ==> kp in Detect(dog, h, w, th1)
  {
    DetectMembership(dog, h, w, th1);
    DetectMembership(dog, h, w, th2);
  }

  lemma {:induction false} RowHitsShorter(row1: seq<bool>, row2: seq<bool>, i: int, j: nat)
    requires |row1| == |row2| && j <= |row1|
    requires forall k :: 0 <= k < |row1| && row2[k] ==> row1[k]
    ensures |RowHits(row2, i, j)| <= |RowHits(row1, i, j)|
    decreases |row1| - j
  {
    if j < |row1| {
      RowHitsShorter(row1, row2, i, j + 1);
    }
  }

  lemma {:induction false} HitsShorter(m1: Mask, m2: Mask, i: nat)
    requires |m1| == |m2| && i <= |m1|
    requires forall r :: 0 <= r < |m1| ==> |m1[r]| == |m2[r]|
    requires forall r, c :: 0 <= r < |m1| && 0 <= c < |m1[r]| && m2[r][c] ==> m1[r][c]
    ensures |Hits(m2, i)| <= |Hits(m1, i)|
    decreases |m1| - i
  {
    if i < |m1| {
      RowHitsShorter(m1[i], m2[i], i, 0);
      HitsShorter(m1, m2, i + 1);
    }
  }

  lemma {:induction false} ConcatShorter(b1: seq<seq<Keypoint>>, b2: seq<seq<Keypoint>>)
    requires |b1| == |b2|
    requires forall k :: 0 <= k < |b1| ==> |b2[k]| <= |b1[k]|
    ensures |Concat(b2)| <= |Concat(b1)|
  {
    if b1 != [] {
      ConcatShorter(b1[1..], b2[1..]);
    }
  }

  /** Raising the contrast threshold lengthens no level's batch. */
  lemma LevelKeypointsShorter(dog: Pyramid, h: nat, w: nat, l: nat, th1: real, th2: real)
    requires IsPyramid(dog, h, w) && 1 <= l && l + 1 < |dog| && th1 <= th2
    ensures |LevelKeypoints(dog, h, w, l, th2)| <= |LevelKeypoints(dog, h, w, l, th1)|
  {
    HitsShorter(LevelMask(dog, h, w, l, th1), LevelMask(dog, h, w, l, th2), 0);
  }

  /** Raising the contrast threshold lengthens no batch of the list. */
  lemma {:induction false} BatchesShorter(dog: Pyramid, h: nat, w: nat, th1: real, th2: real, n: nat)
    requires IsPyramid(dog, h, w) && 1 <= n < |dog| && th1 <= th2
    ensures forall k :: 0 <= k < n - 1 ==>
              |Batches(dog, h, w, th2, n)[k]| <= |Batches(dog, h, w, th1, n)[k]|
  {
    if n > 1 {
      BatchesShorter(dog, h, w, th1, th2, n - 1);
      var l := n - 1;
      LevelKeypointsShorter(dog, h, w, l, th1, th2);
      var prev1, prev2 := Batches(dog, h, w, th1, l), Batches(dog, h, w, th2, l);
      var b1, b2 := Batches(dog, h, w, th1, n), Batches(dog, h, w, th2, n);
      assert forall k :: 0 <= k < n - 2 ==> b1[k] == prev1[k] && b2[k] == prev2[k];
      assert b1[n - 2] == LevelKeypoints(dog, h, w, l, th1) && b2[n - 2] == LevelKeypoints(dog, h, w, l, th2);
    }
  }

  /** Raising the contrast threshold never increases the number of reports. */
  lemma ContrastCountMonotone(dog: Pyramid, h: nat, w: nat, th1: real, th2: real)
    requires IsPyramid(dog, h, w) && |dog| >= 3 && th1 <= th2
    ensures |Detect(dog, h, w, th2)| <= |Detect(dog, h, w, th1)|
  {
    BatchesShorter(dog, h, w, th1, th2, |dog| - 1);
    ConcatShorter(Batches(dog, h, w, th1, |dog| - 1), Batches(dog, h, w, th2, |dog| - 1));
  }

  /**
   * A stack whose values on the interior levels, off the one-pixel border, all
   * stay below the threshold in magnitude yields no report.
   */
  lemma NoContrastNoKeypoints(dog: Pyramid, h: nat, w: nat, thContrast: real)
    requires IsPyramid(dog, h, w) && |dog| >= 3
    requires forall l, r, c :: 1 <= l < |dog| - 1 && 1 <= r < h - 1 && 1 <= c < w - 1 ==>
               Abs(dog[l][r][c]) < thContrast
    ensures Detect(dog, h, w, thContrast) == []
  {
    DetectMembership(dog, h, w, thContrast);
    var all := Detect(dog, h, w, thContrast);
    if all != [] {
      FirstIsMember(all);
      assert false;
    }
  }

  lemma FirstIsMember<T>(s: seq<T>)
    requires |s| > 0
    ensures s[0] in s
  {
  }

  /**
   * Ties count: on a stack that is constant with enough contrast, every
   * interior pixel of every interior level is reported.
   */
  lemma PlateauAllReported(dog: Pyramid, h: nat, w: nat, thContrast: real, v: real)
    requires IsPyramid(dog, h, w) && |dog| >= 3 && Abs(v) >= thContrast
    requires forall l, r, c :: 0 <= l < |dog| && 0 <= r < h && 0 <= c < w ==> dog[l][r][c] == v
    ensures forall x, y, l :: 1 <= x <= w - 2 && 1 <= y <= h - 2 && 1 <= l <= |dog| - 2 ==>
              Keypoint(x, y, l) in Detect(dog, h, w, thContrast)
  {
    DetectMembership(dog, h, w, thContrast);
    forall x, y, l | 1 <= x <= w - 2 && 1 <= y <= h - 2 && 1 <= l <= |dog| - 2
      ensures IsKeypoint(dog, h, w, thContrast, Keypoint(x, y, l))
    {
      assert IsWindowMax(dog, h, w, l, y, x);
    }
  }

  // ---------------------------------------------------------------------------
  // getLocalExtrema.
  // ---------------------------------------------------------------------------

  /**
   * `getLocalExtrema(DoG_pyramid, DoG_levels, principal_curvature, th_contrast, th_r)`.
   * With fewer than three DoG levels the list `res` stays empty and
   * `np.concatenate` raises, so three levels are required. The level list,
   * the curvature array and `th_r` are accepted and not read: the curvature
   * filter of the source is commented out.
   */
  method GetLocalExtrema(dogPyramid: Pyramid, h: nat, w: nat, dogLevels: seq<int>,
                         principalCurvature: array3<real>, thContrast: real, thR: real)
      returns (locsDoG: seq<Keypoint>)
    requires IsPyramid(dogPyramid, h, w) && |dogPyramid| >= 3
    ensures locsDoG == Detect(dogPyramid, h, w, thContrast)
    ensures forall kp :: kp in locsDoG <==> IsKeypoint(dogPyramid, h, w, thContrast, kp)
    ensures Increasing(locsDoG, KeypointBefore)
  {
    var levels := |dogPyramid|;
    var res: seq<seq<Keypoint>> := [];
    for l := 1 to levels - 1
      invariant res == Batches(dogPyramid, h, w, thContrast, l)
    {
      var isExtrema := LevelMask(dogPyramid, h, w, l, thContrast);
      var coordinates := Where(isExtrema);
      var batch := EmitLevel(coordinates, l);
      res := res + [batch];
    }
    locsDoG := Concat(res);
    DetectMembership(dogPyramid, h, w, thContrast);
    DetectIncreasing(dogPyramid, h, w, thContrast);
  }
}
