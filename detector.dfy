/**
 * Detector: the pipeline `DoGdetector` without its first stage. It takes the
 * Gaussian pyramid (whose construction by OpenCV blurring is not part of this
 * model), builds the DoG stack, computes the curvature ratios and detects the
 * scale-space extrema, and returns the keypoints with the Gaussian pyramid.
 */
module Detector {
  import opened Grids
  import opened DoGPyramid
  import opened Curvature
  import opened Extrema

  /**
   * `DoGdetector`, from the Gaussian pyramid on. The pyramid has one level per
   * entry of `levels`; at least four are needed for the three DoG levels that
   * `getLocalExtrema` requires.
   */
  method DoGDetector(gaussPyramid: Pyramid, h: nat, w: nat, levels: seq<int>, sobel: Sobel,
                     thContrast: real, thR: real)
      returns (locsDoG: seq<Keypoint>, gaussOut: Pyramid)
    requires IsPyramid(gaussPyramid, h, w) && |gaussPyramid| == |levels| && |levels| >= 4
    requires PreservesShape(sobel, h, w)
    ensures gaussOut == gaussPyramid
    ensures locsDoG == Detect(DoGOf(gaussPyramid, h, w, |levels|), h, w, thContrast)
    ensures forall kp :: kp in locsDoG ==>
              1 <= kp.x <= w - 2 && 1 <= kp.y <= h - 2 && 1 <= kp.level <= |levels| - 3
  {
    var dogPyramid, dogLevels := CreateDoGPyramid(gaussPyramid, h, w, levels);
    var principalCurvature := ComputePrincipalCurvature(dogPyramid, h, w, sobel);
    locsDoG := GetLocalExtrema(dogPyramid, h, w, dogLevels, principalCurvature, thContrast, thR);
    gaussOut := gaussPyramid;
  }

  /**
   * A flat image blurs to the same image at every scale; its DoG stack is zero
   * and, with a positive contrast threshold, nothing is detected.
   */
  lemma FlatImageNoKeypoints(gaussPyramid: Pyramid, h: nat, w: nat, n: nat, thContrast: real)
    requires IsPyramid(gaussPyramid, h, w) && 4 <= n <= |gaussPyramid| && thContrast > 0.0
    requires forall l :: 0 <= l < |gaussPyramid| ==> gaussPyramid[l] == gaussPyramid[0]
    ensures Detect(DoGOf(gaussPyramid, h, w, n), h, w, thContrast) == []
  {
    var dog := DoGOf(gaussPyramid, h, w, n);
    forall l, r, c | 0 <= l < |dog| && 0 <= r < h && 0 <= c < w
      ensures Abs(dog[l][r][c]) < thContrast
    {
      assert dog[l][r][c] == gaussPyramid[l + 1][r][c] - gaussPyramid[l][r][c];
    }
    NoContrastNoKeypoints(dog, h, w, thContrast);
  }
}
