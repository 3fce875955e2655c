/**
 * Filters: the size-3 `maximum_filter` and `minimum_filter` of scipy.ndimage in
 * their default boundary mode, 'reflect', and the proof that on a 3x3 window
 * they compute the maximum (minimum) over the neighbours that lie inside the
 * image, i.e. over the window clamped to the image.
 */
module Filters {
  import opened Grids

  /**
   * The index that 'reflect' mode reads for position `k` of an axis of length
   * `n`, for positions at most one step outside `0..n-1` (all that a size-3
   * window needs): 'reflect' mirrors about the edge, so -1 reads 0 and n reads n-1.
   */
  function Reflect(k: int, n: nat): (m: nat)
    requires 0 < n && -1 <= k <= n
    ensures m < n
    ensures m == k || (k == -1 && m == 0) || (k == n && m == n - 1)
  {
    if k < 0 then -k - 1 else if k >= n then 2 * n - k - 1 else k
  }

  /** The nine values a size-3 filter reads around `(i, j)`, in row-major order. */
  function Footprint(img: Image, h: nat, w: nat, i: nat, j: nat): (s: seq<real>)
    requires IsGrid(img, h, w) && i < h && j < w
    ensures |s| == 9
  {
    seq(9, k requires 0 <= k < 9 => img[Reflect(i + k / 3 - 1, h)][Reflect(j + k % 3 - 1, w)])
  }

  /** The largest element of a non-empty sequence. */
  function MaxOf(s: seq<real>): (m: real)
    requires |s| > 0
  {
    if |s| == 1 then s[0]
    else
      var rest := MaxOf(s[1..]);
      if s[0] >= rest then s[0] else rest
  }

  /** The smallest element of a non-empty sequence. */
  function MinOf(s: seq<real>): (m: real)
    requires |s| > 0
  {
    if |s| == 1 then s[0]
    else
      var rest := MinOf(s[1..]);
      if s[0] <= rest then s[0] else rest
  }

  /** `MaxOf` bounds every element and is one of them. */
  lemma {:induction false} MaxOfIsMax(s: seq<real>)
    requires |s| > 0
    ensures forall k :: 0 <= k < |s| ==> s[k] <= MaxOf(s)
    ensures exists k :: 0 <= k < |s| && s[k] == MaxOf(s)
  {
    if |s| > 1 {
      var rest := s[1..];
      MaxOfIsMax(rest);
      assert forall k :: 1 <= k < |s| ==> s[k] == rest[k - 1];
      if s[0] >= MaxOf(rest) {
        assert s[0] == MaxOf(s);
      } else {
        var k :| 0 <= k < |rest| && rest[k] == MaxOf(rest);
        assert s[k + 1] == MaxOf(s);
      }
    } else {
      assert s[0] == MaxOf(s);
    }
  }

  /** `MinOf` is below every element and is one of them. */
  lemma {:induction false} MinOfIsMin(s: seq<real>)
    requires |s| > 0
    ensures forall k :: 0 <= k < |s| ==> MinOf(s) <= s[k]
    ensures exists k :: 0 <= k < |s| && s[k] == MinOf(s)
  {
    if |s| > 1 {
      var rest := s[1..];
      MinOfIsMin(rest);
      assert forall k :: 1 <= k < |s| ==> s[k] == rest[k - 1];
      if s[0] <= MinOf(rest) {
        assert s[0] == MinOf(s);
      } else {
        var k :| 0 <= k < |rest| && rest[k] == MinOf(rest);
        assert s[k + 1] == MinOf(s);
      }
    } else {
      assert s[0] == MinOf(s);
    }
  }

  /** `maximum_filter(img, size=3)` with the default mode 'reflect'. */
  function MaxFilter(img: Image, h: nat, w: nat): (f: Image)
    requires IsGrid(img, h, w)
    ensures IsGrid(f, h, w)
  {
    seq(h, i requires 0 <= i < h => seq(w, j requires 0 <= j < w => MaxOf(Footprint(img, h, w, i, j))))
  }

  /** `minimum_filter(img, size=3)` with the default mode 'reflect'. */
  function MinFilter(img: Image, h: nat, w: nat): (f: Image)
    requires IsGrid(img, h, w)
    ensures IsGrid(f, h, w)
  {
    seq(h, i requires 0 <= i < h => seq(w, j requires 0 <= j < w => MinOf(Footprint(img, h, w, i, j))))
  }

  /** `i2` is in the 3-wide window around `i`, clamped to `0..n-1`. */
  predicate Near(i2: int, i: int, n: nat) {
    0 <= i2 < n && i - 1 <= i2 <= i + 1
  }

  /** Every entry of the footprint is a clamped neighbour. */
  lemma FootprintInWindow(img: Image, h: nat, w: nat, i: nat, j: nat, k: nat)
    requires IsGrid(img, h, w) && i < h && j < w && k < 9
    ensures exists i2, j2 :: Near(i2, i, h) && Near(j2, j, w) && Footprint(img, h, w, i, j)[k] == img[i2][j2]
  {
    var i2 := Reflect(i + k / 3 - 1, h);
    var j2 := Reflect(j + k % 3 - 1, w);
    assert Near(i2, i, h) && Near(j2, j, w);
  }

  /** Every clamped neighbour is an entry of the footprint. */
  lemma WindowInFootprint(img: Image, h: nat, w: nat, i: nat, j: nat, i2: int, j2: int)
    requires IsGrid(img, h, w) && i < h && j < w
    requires Near(i2, i, h) && Near(j2, j, w)
    ensures exists k :: 0 <= k < 9 && Footprint(img, h, w, i, j)[k] == img[i2][j2]
  {
    var k := (i2 - i + 1) * 3 + (j2 - j + 1);
    assert k / 3 == i2 - i + 1 && k % 3 == j2 - j + 1;
    assert Footprint(img, h, w, i, j)[k] == img[i2][j2];
  }

  /**
   * The size-3 maximum filter is the maximum over the window clamped to the
   * image: it bounds every clamped neighbour and is one of them.
   */
  lemma MaxFilterIsWindowMax(img: Image, h: nat, w: nat, i: nat, j: nat)
    requires IsGrid(img, h, w) && i < h && j < w
    ensures forall i2, j2 :: Near(i2, i, h) && Near(j2, j, w) ==> img[i2][j2] <= MaxFilter(img, h, w)[i][j]
    ensures exists i2, j2 :: Near(i2, i, h) && Near(j2, j, w) && img[i2][j2] == MaxFilter(img, h, w)[i][j]
  {
    var s := Footprint(img, h, w, i, j);
    assert MaxFilter(img, h, w)[i][j] == MaxOf(s);
    MaxOfIsMax(s);
    forall i2, j2 | Near(i2, i, h) && Near(j2, j, w)
      ensures img[i2][j2] <= MaxOf(s)
    {
      WindowInFootprint(img, h, w, i, j, i2, j2);
    }
    var k :| 0 <= k < 9 && s[k] == MaxOf(s);
    FootprintInWindow(img, h, w, i, j, k);
  }

  /**
   * The size-3 minimum filter is the minimum over the window clamped to the
   * image: it is below every clamped neighbour and is one of them.
   */
  lemma MinFilterIsWindowMin(img: Image, h: nat, w: nat, i: nat, j: nat)
    requires IsGrid(img, h, w) && i < h && j < w
    ensures forall i2, j2 :: Near(i2, i, h) && Near(j2, j, w) ==> MinFilter(img, h, w)[i][j] <= img[i2][j2]
    ensures exists i2, j2 :: Near(i2, i, h) && Near(j2, j, w) && img[i2][j2] == MinFilter(img, h, w)[i][j]
  {
    var s := Footprint(img, h, w, i, j);
    assert MinFilter(img, h, w)[i][j] == MinOf(s);
    MinOfIsMin(s);
    forall i2, j2 | Near(i2, i, h) && Near(j2, j, w)
      ensures MinOf(s) <= img[i2][j2]
    {
      WindowInFootprint(img, h, w, i, j, i2, j2);
    }
    var k :| 0 <= k < 9 && s[k] == MinOf(s);
    FootprintInWindow(img, h, w, i, j, k);
  }

  /** A value is at least the filtered maximum iff it is at least every clamped neighbour. */
  lemma AtLeastMaxFilter(img: Image, h: nat, w: nat, i: nat, j: nat, v: real)
    requires IsGrid(img, h, w) && i < h && j < w
    ensures v >= MaxFilter(img, h, w)[i][j] <==>
            forall i2, j2 :: Near(i2, i, h) && Near(j2, j, w) ==> img[i2][j2] <= v
  {
    MaxFilterIsWindowMax(img, h, w, i, j);
  }

  /** A value is at most the filtered minimum iff it is at most every clamped neighbour. */
  lemma AtMostMinFilter(img: Image, h: nat, w: nat, i: nat, j: nat, v: real)
    requires IsGrid(img, h, w) && i < h && j < w
    ensures v <= MinFilter(img, h, w)[i][j] <==>
            forall i2, j2 :: Near(i2, i, h) && Near(j2, j, w) ==> v <= img[i2][j2]
  {
    MinFilterIsWindowMin(img, h, w, i, j);
  }
}
