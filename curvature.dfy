/**
 * Curvature: the principal-curvature ratio `R = (dxx + dyy)^2 / det` of the
 * 2x2 Hessian at every pixel of every DoG level (`computePrincipalCurvature`).
 * The Sobel derivative operator of OpenCV is a parameter of the model.
 */
module Curvature {
  import opened Grids

  /** `10**(-10)`, the value that replaces a determinant that is exactly zero. */
  const Epsilon: real := 0.0000000001

  /**
   * An abstract `cv2.Sobel(img, -1, dx, dy)`: the derivative of order `dx` in
   * x and `dy` in y, with the output depth of the input.
   */
  type Sobel = (Image, nat, nat) -> Image

  /** The operator returns an image of its input's shape, as `cv2.Sobel` does. */
  ghost predicate PreservesShape(sobel: Sobel, h: nat, w: nat) {
    forall img: Image, dx: nat, dy: nat :: IsGrid(img, h, w) ==> IsGrid(sobel(img, dx, dy), h, w)
  }

  /** The Hessian components of one level, each from two first-order passes. */
  function Dxx(sobel: Sobel, img: Image): Image { sobel(sobel(img, 1, 0), 1, 0) }
  function Dxy(sobel: Sobel, img: Image): Image { sobel(sobel(img, 1, 0), 0, 1) }
  function Dyy(sobel: Sobel, img: Image): Image { sobel(sobel(img, 0, 1), 0, 1) }

  /** The Hessian determinant. */
  function Det(dxx: real, dxy: real, dyy: real): real { dxx * dyy - dxy * dxy }

  /** The determinant with an exact zero replaced by `Epsilon`. */
  function PatchedDet(det: real): (p: real)
    ensures p != 0.0
    ensures det != 0.0 ==> p == det
    ensures det == 0.0 ==> p == Epsilon
  {
    if det == 0.0 then Epsilon else det
  }

  /** `trace**2 / det` for a non-zero determinant. */
  function Ratio(trace: real, det: real): (q: real)
    requires det != 0.0
    ensures q * det == trace * trace
  {
    trace * trace / det
  }

  /** The curvature ratio at one pixel. */
  function CurvatureRatio(dxx: real, dxy: real, dyy: real): (r: real)
    ensures r * PatchedDet(Det(dxx, dxy, dyy)) == (dxx + dyy) * (dxx + dyy)
    ensures Det(dxx, dxy, dyy) != 0.0 ==> r * Det(dxx, dxy, dyy) == (dxx + dyy) * (dxx + dyy)
    ensures Det(dxx, dxy, dyy) == 0.0 ==> r * Epsilon == (dxx + dyy) * (dxx + dyy)
  {
    Ratio(dxx + dyy, PatchedDet(Det(dxx, dxy, dyy)))
  }

  /** The ratio image of level `img`, pixel `(r, c)`. */
  function RatioAt(sobel: Sobel, img: Image, h: nat, w: nat, r: nat, c: nat): real
    requires PreservesShape(sobel, h, w) && IsGrid(img, h, w) && r < h && c < w
  {
    assert IsGrid(sobel(img, 1, 0), h, w) && IsGrid(sobel(img, 0, 1), h, w);
    CurvatureRatio(Dxx(sobel, img)[r][c], Dxy(sobel, img)[r][c], Dyy(sobel, img)[r][c])
  }

  /** `det = dxx*dyy - dxy**2`, a fresh `h` by `w` array. */
  method DetGrid(dxx: Image, dxy: Image, dyy: Image, h: nat, w: nat) returns (det: array2<real>)
    requires IsGrid(dxx, h, w) && IsGrid(dxy, h, w) && IsGrid(dyy, h, w)
    ensures fresh(det) && det.Length0 == h && det.Length1 == w
    ensures forall r, c :: 0 <= r < h && 0 <= c < w ==> det[r, c] == Det(dxx[r][c], dxy[r][c], dyy[r][c])
  {
    det := new real[h, w];
    for r := 0 to h
      invariant forall r', c :: 0 <= r' < r && 0 <= c < w ==> det[r', c] == Det(dxx[r'][c], dxy[r'][c], dyy[r'][c])
    {
      for c := 0 to w
        invariant forall r', c' :: 0 <= r' < r && 0 <= c' < w ==> det[r', c'] == Det(dxx[r'][c'], dxy[r'][c'], dyy[r'][c'])
        invariant forall c' :: 0 <= c' < c ==> det[r, c'] == Det(dxx[r][c'], dxy[r][c'], dyy[r][c'])
      {
        det[r, c] := Det(dxx[r][c], dxy[r][c], dyy[r][c]);
      }
    }
  }

  /** `det[det == 0.] = 10**(-10)`, in place. */
  method PatchZeros(det: array2<real>)
    modifies det
    ensures forall r, c :: 0 <= r < det.Length0 && 0 <= c < det.Length1 ==> det[r, c] == PatchedDet(old(det[r, c]))
  {
    for r := 0 to det.Length0
      invariant forall r', c :: 0 <= r' < r && 0 <= c < det.Length1 ==> det[r', c] == PatchedDet(old(det[r', c]))
      invariant forall r', c :: r <= r' < det.Length0 && 0 <= c < det.Length1 ==> det[r', c] == old(det[r', c])
    {
      for c := 0 to det.Length1
        invariant forall r', c' :: 0 <= r' < r && 0 <= c' < det.Length1 ==> det[r', c'] == PatchedDet(old(det[r', c']))
        invariant forall r', c' :: r < r' < det.Length0 && 0 <= c' < det.Length1 ==> det[r', c'] == old(det[r', c'])
        invariant forall c' :: 0 <= c' < c ==> det[r, c'] == PatchedDet(old(det[r, c']))
        invariant forall c' :: c <= c' < det.Length1 ==> det[r, c'] == old(det[r, c'])
      {
        if det[r, c] == 0.0 {
          det[r, c] := Epsilon;
        }
      }
    }
  }

  /** `(dxx + dyy)**2 / det`, a fresh array of `det`'s shape. */
  method RatioGrid(dxx: Image, dyy: Image, det: array2<real>) returns (ratio: array2<real>)
    requires IsGrid(dxx, det.Length0, det.Length1) && IsGrid(dyy, det.Length0, det.Length1)
    requires forall r, c :: 0 <= r < det.Length0 && 0 <= c < det.Length1 ==> det[r, c] != 0.0
    ensures fresh(ratio) && ratio.Length0 == det.Length0 && ratio.Length1 == det.Length1
    ensures forall r, c :: 0 <= r < det.Length0 && 0 <= c < det.Length1 ==>
              ratio[r, c] == Ratio(dxx[r][c] + dyy[r][c], det[r, c])
  {
    ratio := new real[det.Length0, det.Length1];
    for r := 0 to det.Length0
      invariant forall r', c :: 0 <= r' < r && 0 <= c < det.Length1 ==>
                  ratio[r', c] == Ratio(dxx[r'][c] + dyy[r'][c], det[r', c])
    {
      for c := 0 to det.Length1
        invariant forall r', c' :: 0 <= r' < r && 0 <= c' < det.Length1 ==>
                    ratio[r', c'] == Ratio(dxx[r'][c'] + dyy[r'][c'], det[r', c'])
        invariant forall c' :: 0 <= c' < c ==>
                    ratio[r, c'] == Ratio(dxx[r][c'] + dyy[r][c'], det[r, c'])
      {
        ratio[r, c] := Ratio(dxx[r][c] + dyy[r][c], det[r, c]);
      }
    }
  }

  /** `principal_curvature[:, :, l] = ratio`: slice `l` is overwritten in place, the others are kept. */
  method StoreSlice(pc: array3<real>, l: nat, ratio: array2<real>)
    requires l < pc.Length2 && ratio.Length0 == pc.Length0 && ratio.Length1 == pc.Length1
    modifies pc
    ensures forall r, c :: 0 <= r < pc.Length0 && 0 <= c < pc.Length1 ==> pc[r, c, l] == ratio[r, c]
    ensures forall r, c, k :: 0 <= r < pc.Length0 && 0 <= c < pc.Length1 && 0 <= k < pc.Length2 && k != l ==>
              pc[r, c, k] == old(pc[r, c, k])
  {
    for r := 0 to pc.Length0
      invariant forall r', c :: 0 <= r' < r && 0 <= c < pc.Length1 ==> pc[r', c, l] == ratio[r', c]
      invariant forall r', c, k :: 0 <= r' < pc.Length0 && 0 <= c < pc.Length1 && 0 <= k < pc.Length2 && k != l ==>
                  pc[r', c, k] == old(pc[r', c, k])
    {
      for c := 0 to pc.Length1
        invariant forall r', c' :: 0 <= r' < r && 0 <= c' < pc.Length1 ==> pc[r', c', l] == ratio[r', c']
        invariant forall c' :: 0 <= c' < c ==> pc[r, c', l] == ratio[r, c']
        invariant forall r', c', k :: 0 <= r' < pc.Length0 && 0 <= c' < pc.Length1 && 0 <= k < pc.Length2 && k != l ==>
                    pc[r', c', k] == old(pc[r', c', k])
      {
        pc[r, c, l] := ratio[r, c];
      }
    }
  }

  /**
   * `computePrincipalCurvature(DoG_pyramid)`: a zero array of the DoG stack's
   * (H, W, L) shape, filled level by level with the curvature ratio of that
   * level's Hessian.
   */
  method ComputePrincipalCurvature(dogPyramid: Pyramid, h: nat, w: nat, sobel: Sobel)
      returns (principalCurvature: array3<real>)
    requires IsPyramid(dogPyramid, h, w) && PreservesShape(sobel, h, w)
    ensures fresh(principalCurvature)
    ensures principalCurvature.Length0 == h && principalCurvature.Length1 == w
    ensures principalCurvature.Length2 == |dogPyramid|
    ensures forall r, c, l :: 0 <= r < h && 0 <= c < w && 0 <= l < |dogPyramid| ==>
              principalCurvature[r, c, l] == RatioAt(sobel, dogPyramid[l], h, w, r, c)
  {
    principalCurvature := new real[h, w, |dogPyramid|]((r, c, l) => 0.0);
    for l := 0 to |dogPyramid|
      invariant forall r, c, l' :: 0 <= r < h && 0 <= c < w && 0 <= l' < l ==>
                  principalCurvature[r, c, l'] == RatioAt(sobel, dogPyramid[l'], h, w, r, c)
    {
      var img := dogPyramid[l];
      var dx := sobel(img, 1, 0);
      var dy := sobel(img, 0, 1);
      var dxx := sobel(dx, 1, 0);
      var dxy := sobel(dx, 0, 1);
      var dyy := sobel(dy, 0, 1);
      var det := DetGrid(dxx, dxy, dyy, h, w);
      PatchZeros(det);
      var ratio := RatioGrid(dxx, dyy, det);
      StoreSlice(principalCurvature, l, ratio);
      assert forall r, c :: 0 <= r < h && 0 <= c < w ==>
               principalCurvature[r, c, l] == RatioAt(sobel, img, h, w, r, c);
    }
  }
}
