/**
 * DoGPyramid: the difference-of-Gaussians stack, built by subtracting adjacent
 * levels of a Gaussian pyramid (`createDoGPyramid`).
 */
module DoGPyramid {
  import opened Grids

  function Minus(x: real, y: real): real { x - y }

  function Plus(x: real, y: real): real { x + y }

  /** The first `n - 1` DoG levels of `g`: level `j` is `g[j + 1] - g[j]`. */
  function DoGOf(g: Pyramid, h: nat, w: nat, n: nat): (dog: Pyramid)
    requires IsPyramid(g, h, w) && 1 <= n <= |g|
  {
    seq(n - 1, j requires 0 <= j < n - 1 => Pointwise(g[j + 1], g[j], h, w, Minus))
  }

  /**
   * `createDoGPyramid(gaussian_pyramid, levels)`: one difference per adjacent
   * pair of the first `len(levels)` Gaussian levels, plus the index list
   * `range(len(levels) - 1)`. With fewer than two levels numpy's `stack` of an
   * empty list raises, and with more levels than the pyramid has the slice
   * `gaussian_pyramid[:, :, i+1]` is out of range; both are excluded.
   */
  method CreateDoGPyramid(gaussianPyramid: Pyramid, h: nat, w: nat, levels: seq<int>)
      returns (dogPyramid: Pyramid, dogLevels: seq<int>)
    requires IsPyramid(gaussianPyramid, h, w)
    requires 2 <= |levels| <= |gaussianPyramid|
    ensures IsPyramid(dogPyramid, h, w) && |dogPyramid| == |levels| - 1
    ensures forall j, r, c :: 0 <= j < |dogPyramid| && 0 <= r < h && 0 <= c < w ==>
              dogPyramid[j][r][c] == gaussianPyramid[j + 1][r][c] - gaussianPyramid[j][r][c]
    ensures dogPyramid == DoGOf(gaussianPyramid, h, w, |levels|)
    ensures |dogLevels| == |levels| - 1 && forall i :: 0 <= i < |dogLevels| ==> dogLevels[i] == i
  {
    dogLevels := seq(|levels| - 1, i => i);
    dogPyramid := [];
    for i := 0 to |levels| - 1
      invariant |dogPyramid| == i && IsPyramid(dogPyramid, h, w)
      invariant forall j :: 0 <= j < i ==>
                  dogPyramid[j] == Pointwise(gaussianPyramid[j + 1], gaussianPyramid[j], h, w, Minus)
    {
      dogPyramid := dogPyramid + [Pointwise(gaussianPyramid[i + 1], gaussianPyramid[i], h, w, Minus)];
    }
  }

  /** Level 0 plus the first `j` DoG levels, added pixel by pixel. */
  function Accumulate(base: Image, dog: Pyramid, h: nat, w: nat, j: nat): (img: Image)
    requires IsGrid(base, h, w) && IsPyramid(dog, h, w) && j <= |dog|
    ensures IsGrid(img, h, w)
  {
    if j == 0 then base else Pointwise(Accumulate(base, dog, h, w, j - 1), dog[j - 1], h, w, Plus)
  }

  /**
   * The DoG stack loses nothing but the base level: adding its first `j`
   * levels back onto Gaussian level 0 gives Gaussian level `j` exactly.
   */
  lemma {:induction false} AccumulateInvertsDoG(g: Pyramid, h: nat, w: nat, n: nat, j: nat)
    requires IsPyramid(g, h, w) && 1 <= n <= |g| && j < n
    ensures IsPyramid(DoGOf(g, h, w, n), h, w)
    ensures Accumulate(g[0], DoGOf(g, h, w, n), h, w, j) == g[j]
  {
    var dog := DoGOf(g, h, w, n);
    assert IsPyramid(dog, h, w);
    if j > 0 {
      AccumulateInvertsDoG(g, h, w, n, j - 1);
      var prev := Accumulate(g[0], dog, h, w, j - 1);
      var img := Accumulate(g[0], dog, h, w, j);
      assert img == Pointwise(prev, dog[j - 1], h, w, Plus);
      forall r, c | 0 <= r < h && 0 <= c < w
        ensures img[r][c] == g[j][r][c]
      {
        assert dog[j - 1][r][c] == g[j][r][c] - g[j - 1][r][c];
      }
      GridsEqual(img, g[j], h, w);
    }
  }

  /**
   * The index list `range(len(levels) - 1)` that `createDoGPyramid` returns is
   * `levels[1:]`, as its doc comment says, exactly when `levels[1:]` is
   * `0, 1, ..., len(levels) - 2`; `levels[0]` is unconstrained.
   */
  lemma DoGLevelsVersusTail(levels: seq<int>, dogLevels: seq<int>)
    requires |levels| >= 1
    requires |dogLevels| == |levels| - 1 && forall i :: 0 <= i < |dogLevels| ==> dogLevels[i] == i
    ensures dogLevels == levels[1..] <==> forall i :: 1 <= i < |levels| ==> levels[i] == i - 1
  {
    if forall i :: 1 <= i < |levels| ==> levels[i] == i - 1 {
      assert forall i :: 0 <= i < |dogLevels| ==> dogLevels[i] == levels[1..][i];
    } else {
      var i :| 1 <= i < |levels| && levels[i] != i - 1;
      assert dogLevels[i - 1] != levels[1..][i - 1];
    }
  }
}
