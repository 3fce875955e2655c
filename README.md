# Difference-of-Gaussians keypoint detector, modelled in Dafny

This project models the discrete core of the DoG keypoint detector in
`cmu_cv/panorama/src/keypointDetect.py`. It covers four pieces:

- **DoG stack.** `createDoGPyramid` subtracts adjacent levels of a Gaussian pyramid.
- **Curvature ratio.** `computePrincipalCurvature` computes the Hessian
  curvature ratio `(dxx + dyy)^2 / det` of every DoG level. The
  determinant is patched to `1e-10` where it is exactly zero. The Sobel
  operator is a parameter.
- **Extrema.** `getLocalExtrema` keeps the pixels of every interior DoG
  level that are at least (or at most) every value of their 3x3x3
  neighbourhood and reach the contrast threshold. It reports them as
  `(x, y, level)`.
- **Pipeline.** `DoGdetector` chains the three, from the Gaussian pyramid on.

A numpy array of shape (H, W, L) is held level-major as a sequence of L
images, so `a[r, c, l]` is `p[l][r][c]`. The exception is the curvature
array: the source preallocates it and fills it slice by slice, so it is a
Dafny `array3<real>` in the (H, W, L) layout. Pixel values are `real`.

The model follows the code step by step:

- The DoG loop and the level loop are `for` loops that append to a sequence.
- The swap of columns 0 and 1 runs in place on an N x 2 `array2<int>`.
- The determinant patch runs in place on an `array2<real>`.
- scipy's size-3 `maximum_filter` / `minimum_filter` is written with its
  default `'reflect'` boundary index map.

The central results:

- **The filters.** They are proved equal to the maximum and minimum over the
  3x3 window clamped to the region (`Filters.MaxFilterIsWindowMax`).
- **Membership.** A point is reported iff it satisfies an independent
  reference definition, `Extrema.IsKeypoint`
  (`Extrema.DetectMembership`). That definition asks for four things: an
  interior level, a pixel off the one-pixel border, enough contrast, and a
  non-strict extremum over levels `l-1..l+1` and the region-clamped 3x3
  window. Ties count.
- **Order.** The output is strictly increasing in (level, row, column), so
  it has no duplicates (`Extrema.DetectIncreasing`).
- **Threshold.** A higher contrast threshold yields a subset of the points
  and never more of them.

The doc comment of `createDoGPyramid` says it returns `levels[1:]`. The code
returns `range(len(levels) - 1)`. The model follows the code, and
`DoGPyramid.DoGLevelsVersusTail` proves that the two agree exactly when
`levels[1:]` is `0, 1, ..., len(levels) - 2`, whatever `levels[0]` is.

## Model

| member | source | states |
|---|---|---|
| Grids.Interior | cmu_cv/panorama/src/keypointDetect.py:115 | the region `[1:h-1, 1:w-1]` has `h-2` by `w-2` cells, and cell (i, j) is image pixel (i+1, j+1) |
| Filters.Reflect | cmu_cv/panorama/src/keypointDetect.py:117-118 | the reflect-mode index of a position at most one step outside the axis lies inside it; the position itself when inside, the edge index when one step outside |
| Filters.Footprint | cmu_cv/panorama/src/keypointDetect.py:117-118 | the nine values a size-3 reflect filter reads around a pixel, row by row; `FootprintInWindow` and `WindowInFootprint` prove they are exactly the neighbours of the window clamped to the image |
| Filters.MaxOfIsMax | cmu_cv/panorama/src/keypointDetect.py:117 | the maximum of a non-empty list of values is at least every element and is one of them |
| Filters.MinOfIsMin | cmu_cv/panorama/src/keypointDetect.py:118 | the minimum of a non-empty list of values is at most every element and is one of them |
| Filters.MaxFilter | cmu_cv/panorama/src/keypointDetect.py:117 | `maximum_filter(size=3)` keeps the image's shape |
| Filters.MinFilter | cmu_cv/panorama/src/keypointDetect.py:118 | `minimum_filter(size=3)` keeps the image's shape |
| Filters.FootprintInWindow | cmu_cv/panorama/src/keypointDetect.py:117-118 | every value the size-3 reflect filter reads is a neighbour within one step, inside the image |
| Filters.WindowInFootprint | cmu_cv/panorama/src/keypointDetect.py:117-118 | every neighbour within one step inside the image is read by the filter |
| Filters.MaxFilterIsWindowMax | cmu_cv/panorama/src/keypointDetect.py:117-124 | the maximum filter is the maximum over the window clamped to the image: it bounds every clamped neighbour and equals one of them |
| Filters.MinFilterIsWindowMin | cmu_cv/panorama/src/keypointDetect.py:118-125 | the minimum filter is the minimum over the clamped window: below every clamped neighbour and equal to one |
| Filters.AtLeastMaxFilter | cmu_cv/panorama/src/keypointDetect.py:127 | a value is >= the filtered maximum iff it is >= every clamped neighbour |
| Filters.AtMostMinFilter | cmu_cv/panorama/src/keypointDetect.py:128 | a value is <= the filtered minimum iff it is <= every clamped neighbour |
| DoGPyramid.DoGOf | cmu_cv/panorama/src/keypointDetect.py:56-58 | the stack of pointwise differences of adjacent Gaussian levels; `CreateDoGPyramid` returns it, and `AccumulateInvertsDoG` proves it loses only the base level |
| DoGPyramid.CreateDoGPyramid | cmu_cv/panorama/src/keypointDetect.py:53-60 | from a pyramid with at least `len(levels) >= 2` levels, `len(levels) - 1` DoG levels of the input's shape, level j equal to Gaussian level j+1 minus level j pixel by pixel; the index list is `0 .. len(levels) - 2` |
| DoGPyramid.Accumulate | cmu_cv/panorama/src/keypointDetect.py:58 | summing DoG levels onto an image keeps the image's shape |
| DoGPyramid.AccumulateInvertsDoG | cmu_cv/panorama/src/keypointDetect.py:56-58 | the DoG stack loses only the base level: Gaussian level 0 plus the first j DoG levels is Gaussian level j |
| DoGPyramid.DoGLevelsVersusTail | cmu_cv/panorama/src/keypointDetect.py:51-53 | the returned index list equals the documented `levels[1:]` iff `levels[1:]` is `0, 1, ..., len(levels) - 2`; `levels[0]` may be anything |
| Curvature.Dxx | cmu_cv/panorama/src/keypointDetect.py:78-82 | `dxx`: two passes of the Sobel operator in x |
| Curvature.Dxy | cmu_cv/panorama/src/keypointDetect.py:78-83 | `dxy`: a pass in x followed by a pass in y |
| Curvature.Dyy | cmu_cv/panorama/src/keypointDetect.py:79-84 | `dyy`: two passes in y |
| Curvature.Det | cmu_cv/panorama/src/keypointDetect.py:87 | the Hessian determinant `dxx*dyy - dxy**2` of one pixel |
| Curvature.PatchedDet | cmu_cv/panorama/src/keypointDetect.py:88 | the patched determinant is never zero; it is the determinant when that is non-zero and `1e-10` when it is zero |
| Curvature.Ratio | cmu_cv/panorama/src/keypointDetect.py:90 | the quotient `trace**2 / det` for a non-zero `det` is the value whose product with `det` is `trace**2` |
| Curvature.CurvatureRatio | cmu_cv/panorama/src/keypointDetect.py:86-90 | the ratio R satisfies `R * det == (dxx + dyy)^2` for a non-zero `det = dxx*dyy - dxy^2`, and `R * 1e-10 == (dxx + dyy)^2` when `det` is zero |
| Curvature.RatioAt | cmu_cv/panorama/src/keypointDetect.py:78-90 | the value line 90 stores at one pixel of one level; `CurvatureRatio` gives its meaning, and `ComputePrincipalCurvature` proves every entry of its output equal to it |
| Curvature.DetGrid | cmu_cv/panorama/src/keypointDetect.py:87 | a fresh h by w array holding `dxx*dyy - dxy^2` at each pixel |
| Curvature.PatchZeros | cmu_cv/panorama/src/keypointDetect.py:88 | in place, every zero entry becomes `1e-10` and every other entry is kept |
| Curvature.RatioGrid | cmu_cv/panorama/src/keypointDetect.py:90 | a fresh array of the determinant's shape holding `(dxx + dyy)^2 / det` at each pixel, for a determinant array with no zero entry |
| Curvature.StoreSlice | cmu_cv/panorama/src/keypointDetect.py:90 | in place, slice l of the output receives the ratio array pixel by pixel; every other slice is unchanged |
| Curvature.ComputePrincipalCurvature | cmu_cv/panorama/src/keypointDetect.py:62-91 | the output has the DoG stack's (H, W, L) shape, and entry [r, c, l] is the curvature ratio of level l's Hessian at (r, c), built from the abstract Sobel operator as the source composes it |
| Extrema.LevelMask | cmu_cv/panorama/src/keypointDetect.py:115-129 | `is_extrema` of one level has the region's shape |
| Extrema.WindowMaxFromFilters | cmu_cv/panorama/src/keypointDetect.py:117-127 | bounding the region's clamped window and the clamped window of `max(level l-1, level l+1)` from above is bounding the 3x3x3 window of the stack, both directions |
| Extrema.WindowMinFromFilters | cmu_cv/panorama/src/keypointDetect.py:118-128 | the same for minima, bounding from below |
| Extrema.AtLeastBothMaxFilters | cmu_cv/panorama/src/keypointDetect.py:117-127 | a value is >= the larger of two filtered maxima iff it is >= every clamped neighbour in both images |
| Extrema.AtMostBothMinFilters | cmu_cv/panorama/src/keypointDetect.py:118-128 | a value is <= the smaller of two filtered minima iff it is <= every clamped neighbour in both images |
| Extrema.FiltersDecideMax | cmu_cv/panorama/src/keypointDetect.py:115-127 | `region >= np.maximum(space_max, scale_max)` at a pixel iff the pixel is >= every value of its 3x3x3 window clamped to the region |
| Extrema.FiltersDecideMin | cmu_cv/panorama/src/keypointDetect.py:115-128 | `region <= np.minimum(space_min, scale_min)` at a pixel iff the pixel is <= every value of its clamped 3x3x3 window |
| Extrema.LevelMaskIsKeypoint | cmu_cv/panorama/src/keypointDetect.py:115-129 | region pixel (i, j) of level l is set in `is_extrema` iff `(j+1, i+1, l)` satisfies the reference definition of a keypoint |
| Extrema.RowHits | cmu_cv/panorama/src/keypointDetect.py:132 | the listed positions are exactly the set cells of the row from the start column on |
| Extrema.Hits | cmu_cv/panorama/src/keypointDetect.py:132 | the listed positions are exactly the set cells of the rows from the start row on |
| Extrema.Where | cmu_cv/panorama/src/keypointDetect.py:132 | `np.where` lists exactly the set cells of the mask |
| Extrema.RowHitsIncreasing | cmu_cv/panorama/src/keypointDetect.py:132 | one row's positions come left to right |
| Extrema.HitsIncreasing | cmu_cv/panorama/src/keypointDetect.py:132 | positions come in strictly increasing row-major order |
| Extrema.WhereIncreasing | cmu_cv/panorama/src/keypointDetect.py:132 | `np.where` lists positions in strictly increasing row-major order |
| Extrema.ToKeypoints | cmu_cv/panorama/src/keypointDetect.py:132-136 | one level's positions shifted by one into the image frame as `(x, y, level)`; `ToKeypointsMembership` characterises it and `EmitLevel` proves the array steps compute it |
| Extrema.SwapColumns | cmu_cv/panorama/src/keypointDetect.py:134 | in place, column 0 of every row receives the old column 1 and column 1 the old column 0 |
| Extrema.EmitLevel | cmu_cv/panorama/src/keypointDetect.py:132-136 | the batch of one level lists, for every reported position in order, `(col + 1, row + 1, l)` |
| Extrema.LevelMaskMarksKeypoints | cmu_cv/panorama/src/keypointDetect.py:115-129 | `is_extrema` has the region's shape and marks exactly the keypoints of its level |
| Extrema.LevelKeypoints | cmu_cv/panorama/src/keypointDetect.py:115-136 | the batch one pass of the level loop appends; `LevelKeypointsMembership` proves it holds exactly the keypoints of its level |
| Extrema.Batches | cmu_cv/panorama/src/keypointDetect.py:112-136 | after the loop has run up to level n - 1, `res` holds n - 1 batches |
| Extrema.Concat | cmu_cv/panorama/src/keypointDetect.py:137 | a point is in the concatenation iff it is in one of the batches |
| Extrema.Detect | cmu_cv/panorama/src/keypointDetect.py:111-137 | what `getLocalExtrema` returns; `DetectMembership` proves it holds exactly the reference keypoints and `DetectIncreasing` that it is strictly increasing |
| Extrema.LevelKeypointsMembership | cmu_cv/panorama/src/keypointDetect.py:113-136 | a point is in level l's batch iff its level is l and it is a keypoint by the reference definition |
| Extrema.ToKeypointsMembership | cmu_cv/panorama/src/keypointDetect.py:132-135 | a point is in a batch iff it carries the batch's level and `(y - 1, x - 1)` is a reported position |
| Extrema.LevelKeypointsMarkLevel | cmu_cv/panorama/src/keypointDetect.py:113-136 | one level's batch holds exactly the keypoints of that level |
| Extrema.BatchesMarkLevels | cmu_cv/panorama/src/keypointDetect.py:112-136 | batch k of `res` holds exactly the keypoints of level k + 1 |
| Extrema.ConcatMarksKeypoints | cmu_cv/panorama/src/keypointDetect.py:137 | concatenating batches that each hold exactly their level's keypoints gives exactly the keypoints |
| Extrema.DetectMembership | cmu_cv/panorama/src/keypointDetect.py:93-137 | a point is reported iff it is on a level in `1..L'-2`, at a pixel off the one-pixel border, has `abs(value) >= th_contrast`, and is >= every value or <= every value of its 3x3x3 window clamped to the region (ties count) |
| Extrema.DetectBoundsAndContrast | cmu_cv/panorama/src/keypointDetect.py:111-135 | every report has `1 <= x <= W-2`, `1 <= y <= H-2`, `1 <= level <= L'-2` and `abs(DoG value) >= th_contrast` |
| Extrema.ConcatIncreasing | cmu_cv/panorama/src/keypointDetect.py:137 | concatenating increasing batches of consecutive levels gives an increasing list |
| Extrema.LevelKeypointsIncreasing | cmu_cv/panorama/src/keypointDetect.py:132-136 | one level's batch is in row-major order, and every point in it carries that level |
| Extrema.BatchesIncreasing | cmu_cv/panorama/src/keypointDetect.py:113-136 | every batch of `res` is in row-major order |
| Extrema.DetectIncreasing | cmu_cv/panorama/src/keypointDetect.py:113-137 | reports are strictly increasing in (level, y, x): level by level ascending, row-major within a level, no point twice |
| Extrema.ContrastMonotone | cmu_cv/panorama/src/keypointDetect.py:129 | raising `th_contrast` keeps a subset of the reports |
| Extrema.RowHitsShorter | cmu_cv/panorama/src/keypointDetect.py:132 | a mask row with fewer set cells yields no more positions |
| Extrema.HitsShorter | cmu_cv/panorama/src/keypointDetect.py:132 | a mask with fewer set cells yields no more positions |
| Extrema.ConcatShorter | cmu_cv/panorama/src/keypointDetect.py:137 | shorter batches concatenate to a list no longer |
| Extrema.LevelKeypointsShorter | cmu_cv/panorama/src/keypointDetect.py:129-132 | raising `th_contrast` lengthens no level's batch |
| Extrema.BatchesShorter | cmu_cv/panorama/src/keypointDetect.py:113-136 | raising `th_contrast` lengthens no batch of `res` |
| Extrema.ContrastCountMonotone | cmu_cv/panorama/src/keypointDetect.py:129 | raising `th_contrast` never increases the number of reports |
| Extrema.NoContrastNoKeypoints | cmu_cv/panorama/src/keypointDetect.py:129 | a stack whose values on the interior levels, off the one-pixel border, are all below the threshold in magnitude yields no report |
| Extrema.PlateauAllReported | cmu_cv/panorama/src/keypointDetect.py:127-129 | ties count: on a constant stack with enough contrast, every interior pixel of every interior level is reported |
| Extrema.GetLocalExtrema | cmu_cv/panorama/src/keypointDetect.py:93-137 | on at least three DoG levels, the reports are exactly the reference keypoints, in strictly increasing (level, y, x) order; the result does not depend on `th_r`, the level list or `principal_curvature` |
| Detector.DoGDetector | cmu_cv/panorama/src/keypointDetect.py:140-166 | from a Gaussian pyramid of `len(levels) >= 4` levels: the keypoints of its DoG stack, all inside the border and on DoG levels `1..len(levels)-3`, and the Gaussian pyramid unchanged |
| Detector.FlatImageNoKeypoints | cmu_cv/panorama/src/keypointDetect.py:160-164 | identical Gaussian levels give a zero DoG stack, and with a positive threshold no keypoint |

## Left out

- `createGaussianPyramid` (lines 5-31) is not modelled. It calls OpenCV's colour conversion and Gaussian blur and computes floating-point kernel sizes. `Detector.DoGDetector` therefore takes the Gaussian pyramid as input instead of the image, and `sigma0` and `k` are not parameters.
- The default arguments `levels=[-1,0,1,2,3,4]` (lines 41, 140), `th_contrast=0.03` and `th_r=12` (lines 94, 141) are not modelled: every parameter is passed explicitly.
- An 8-bit image whose maximum is at most 10 is not rescaled (lines 20-21), so its Gaussian pyramid stays `uint8` and the subtraction at line 58 wraps modulo 256. The model's real-valued pyramid cannot represent that wrap-around.
- `cv2.Sobel` is a foreign call. The model takes it as an abstract function parameter that keeps the image's shape.
- `displayPyramid` and the `__main__` block are not modelled: they only show windows and read and write files.
- Arithmetic is exact real arithmetic. IEEE rounding of the subtraction, product and division is not modelled.
- dtype details are not modelled: the `uint8` level column, its overflow beyond 255 levels, and the integer promotion of `np.hstack`. Reports are `Keypoint(x, y, level)` values, not rows of an N x 3 array.
- `Extrema.GetLocalExtrema`: with fewer than three DoG levels `res` stays empty and `np.concatenate` raises, so three levels are a precondition; the error path is not modelled.
- `DoGPyramid.CreateDoGPyramid`: with fewer than two levels `np.stack` of an empty list raises, and with more entries in `levels` than the pyramid has, the slice `gaussian_pyramid[:, :, i+1]` raises. Both are excluded by its precondition.
- `Filters.Reflect` covers only positions at most one step outside an axis, which is all a size-3 filter reads. Other scipy filter modes and sizes are not modelled.
- The commented-out curvature threshold (line 130) is not modelled, because it is not executed. `principal_curvature` and `th_r` are accepted and not read.
- `Curvature.CurvatureRatio` does not state the sign of the ratio, as a bound for the commented-out threshold would need.
