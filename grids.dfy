/**
 * Grids: the images and image stacks the detector works on.
 *
 * A numpy array of shape (H, W, L) indexed `a[r, c, l]` is stored here
 * level-major, as a sequence of L images, so that the same value is `p[l][r][c]`
 * and numpy's slice `a[:, :, l]` is simply `p[l]`. Pixel values are reals;
 * the model uses subtraction, comparison and (for the curvature ratio)
 * multiplication and division of reals, not IEEE floating point.
 */
module Grids {

  /** A rectangular grid: `h` rows of `w` cells each. */
  predicate IsGrid<T>(g: seq<seq<T>>, h: nat, w: nat) {
    |g| == h && forall r :: 0 <= r < h ==> |g[r]| == w
  }

  /** A single-channel image. */
  type Image = seq<seq<real>>

  /** A boolean mask over an image, as numpy's comparisons produce. */
  type Mask = seq<seq<bool>>

  /** A stack of images; numpy's (H, W, L) array. */
  type Pyramid = seq<Image>

  /** Every level of `p` is an `h` by `w` image. */
  predicate IsPyramid(p: Pyramid, h: nat, w: nat) {
    forall l :: 0 <= l < |p| ==> IsGrid(p[l], h, w)
  }

  function Max(x: real, y: real): (m: real)
    ensures x <= m && y <= m && (m == x || m == y)
  {
    if x >= y then x else y
  }

  function Min(x: real, y: real): (m: real)
    ensures m <= x && m <= y && (m == x || m == y)
  {
    if x <= y then x else y
  }

  function Abs(x: real): (a: real)
    ensures 0.0 <= a && (a == x || a == -x)
  {
    if x < 0.0 then -x else x
  }

  /** Length of the numpy slice `1:n-1` of an axis of length `n`. */
  function Inner(n: nat): (k: nat)
    ensures n >= 2 ==> k + 2 == n
    ensures n < 2 ==> k == 0
  {
    if n >= 2 then n - 2 else 0
  }

  /** numpy's elementwise combination of two same-shape images. */
  function Pointwise(a: Image, b: Image, h: nat, w: nat, f: (real, real) -> real): (p: Image)
    requires IsGrid(a, h, w) && IsGrid(b, h, w)
    ensures IsGrid(p, h, w)
    ensures forall r, c :: 0 <= r < h && 0 <= c < w ==> p[r][c] == f(a[r][c], b[r][c])
  {
    seq(h, r requires 0 <= r < h => seq(w, c requires 0 <= c < w => f(a[r][c], b[r][c])))
  }

  /** numpy's slice `img[1:h-1, 1:w-1]`: the image without its one-pixel border. */
  function Interior(img: Image, h: nat, w: nat): (region: Image)
    requires IsGrid(img, h, w)
    ensures IsGrid(region, Inner(h), Inner(w))
    ensures forall i, j :: 0 <= i < Inner(h) && 0 <= j < Inner(w) ==> region[i][j] == img[i + 1][j + 1]
  {
    seq(Inner(h), i requires 0 <= i < Inner(h) =>
      seq(Inner(w), j requires 0 <= j < Inner(w) => img[i + 1][j + 1]))
  }

  /** Two grids of one shape that agree cell by cell are equal. */
  lemma GridsEqual<T>(a: seq<seq<T>>, b: seq<seq<T>>, h: nat, w: nat)
    requires IsGrid(a, h, w) && IsGrid(b, h, w)
    requires forall r, c :: 0 <= r < h && 0 <= c < w ==> a[r][c] == b[r][c]
    ensures a == b
  {
    forall r | 0 <= r < h
      ensures a[r] == b[r]
    {
      assert forall c :: 0 <= c < w ==> a[r][c] == b[r][c];
    }
  }
}
