/** The unsharp compositor: original plus a scaled high-frequency residual. */
module Unsharp {
  import opened Planes
  import opened BoxBlur

  /** One output sample: the residual orig - blurred is scaled by 1 + k, so k = 0 leaves
      the sample alone and so does a pixel where the blur did not move it. */
  function UnsharpAt(orig: real, blurred: real, k: real): (r: real)
    ensures r - blurred == (1.0 + k) * (orig - blurred)
    ensures k == 0.0 ==> r == orig
    ensures blurred == orig ==> r == orig
  {
    orig + (k * (orig - blurred))
  }

  function Abs(v: real): real
  {
    if v < 0.0 then -v else v
  }

  /** With a non-negative strength the output lies at least as far from the blurred value
      as the original did: sharpening raises local contrast. */
  lemma SharpeningWidensResidual(orig: real, blurred: real, k: real)
    requires k >= 0.0
    ensures Abs(UnsharpAt(orig, blurred, k) - blurred) >= Abs(orig - blurred)
    ensures k > 0.0 && orig != blurred ==> Abs(UnsharpAt(orig, blurred, k) - blurred) > Abs(orig - blurred)
  {
    var d := orig - blurred;
    assert UnsharpAt(orig, blurred, k) - blurred == d + k * d;
    if d < 0.0 {
      assert k * d <= 0.0;
      assert k > 0.0 ==> k * d < 0.0;
    } else {
      assert k * d >= 0.0;
      assert k > 0.0 && d > 0.0 ==> k * d > 0.0;
    }
  }

  /** A sharpened plane: the unsharp composition of every sample with its box blur. */
  function UnsharpPlane(p: Plane, h: nat, w: nat, radius: nat, k: real): (q: Plane)
    requires IsPlane(p, h, w) && RadiusFits(radius, h, w)
  {
    seq(h, y requires 0 <= y < h =>
      seq(w, x requires 0 <= x < w => UnsharpAt(p[y][x], BlurAt(p, h, w, y, x, radius), k)))
  }

  /** Strength 0 reproduces the original plane exactly. */
  lemma UnsharpZeroIsIdentity(p: Plane, h: nat, w: nat, radius: nat)
    requires IsPlane(p, h, w) && RadiusFits(radius, h, w)
    ensures UnsharpPlane(p, h, w, radius, 0.0) == p
  {
    var q := UnsharpPlane(p, h, w, radius, 0.0);
    assert IsPlane(q, h, w);
    PlaneExt(q, p, h, w);
  }

  /** A constant plane stays constant whatever the strength. */
  lemma UnsharpKeepsConstant(p: Plane, h: nat, w: nat, radius: nat, k: real, v: real)
    requires IsPlane(p, h, w) && RadiusFits(radius, h, w)
    requires Bounded(p, h, w, v, v)
    ensures IsPlane(UnsharpPlane(p, h, w, radius, k), h, w)
    ensures Bounded(UnsharpPlane(p, h, w, radius, k), h, w, v, v)
  {
    var q := UnsharpPlane(p, h, w, radius, k);
    forall y, x | 0 <= y < h && 0 <= x < w
      ensures q[y][x] == v
    {
      BlurKeepsConstant(p, h, w, y, x, radius, v);
    }
  }

  /** A pixel whose whole window equals its own sample (away from any edge) is unchanged. */
  lemma UnsharpKeepsUniformWindow(p: Plane, h: nat, w: nat, i: int, j: int, radius: nat, k: real)
    requires WindowFits(p, h, w, i, j, radius)
    requires forall t :: 0 <= t < |Window(p, h, w, i, j, radius)| ==> Window(p, h, w, i, j, radius)[t] == p[i][j]
    ensures UnsharpPlane(p, h, w, radius, k)[i][j] == p[i][j]
  {
    BlurOfUniformWindow(p, h, w, i, j, radius, p[i][j]);
  }

  /** The unsharp kernel for thread (i, j): threads outside the plane write nothing. */
  method UnsharpThread(inImg: array2<real>, blurImg: array2<real>, outImg: array2<real>,
                       width: int, height: int, k: real, i: nat, j: nat)
    requires outImg != inImg && outImg != blurImg
    requires inImg.Length0 == blurImg.Length0 == outImg.Length0 == height
    requires inImg.Length1 == blurImg.Length1 == outImg.Length1 == width
    modifies outImg
    ensures i >= height || j >= width ==> unchanged(outImg)
    ensures i < height && j < width ==> outImg[i, j] == UnsharpAt(inImg[i, j], blurImg[i, j], k)
    ensures forall y, x :: 0 <= y < height && 0 <= x < width && (y, x) != (i, j) ==> outImg[y, x] == old(outImg[y, x])
  {
    if i >= height || j >= width {
      return;
    }

    // inImg + k * (inImg - blurImg): the original plus the scaled residual
    outImg[i, j] := inImg[i, j] + (k * (inImg[i, j] - blurImg[i, j]));
  }

  /** The launch over the (height, width) grid as a sequential loop. */
  method LaunchUnsharp(inImg: array2<real>, blurImg: array2<real>, outImg: array2<real>,
                       width: int, height: int, k: real)
    requires outImg != inImg && outImg != blurImg
    requires inImg.Length0 == blurImg.Length0 == outImg.Length0 == height
    requires inImg.Length1 == blurImg.Length1 == outImg.Length1 == width
    modifies outImg
    ensures forall y, x :: 0 <= y < height && 0 <= x < width ==>
      outImg[y, x] == UnsharpAt(inImg[y, x], blurImg[y, x], k)
  {
    for i := 0 to height
      invariant forall y, x :: 0 <= y < i && 0 <= x < width ==> outImg[y, x] == UnsharpAt(inImg[y, x], blurImg[y, x], k)
    {
      for j := 0 to width
        invariant forall y, x :: 0 <= y < i && 0 <= x < width ==> outImg[y, x] == UnsharpAt(inImg[y, x], blurImg[y, x], k)
        invariant forall x :: 0 <= x < j ==> outImg[i, x] == UnsharpAt(inImg[i, x], blurImg[i, x], k)
      {
        UnsharpThread(inImg, blurImg, outImg, width, height, k, i, j);
      }
    }
  }
}
