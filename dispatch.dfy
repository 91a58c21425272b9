/** The channel dispatcher: runs a filter pipeline on each channel plane of an image and
    writes each result into that channel's slice of a result of the same shape. An image is
    a height x width x channels array; a grey ("L") image is the one-channel case. */
module Dispatch {
  import opened Planes
  import opened BoxBlur
  import opened Unsharp
  import opened Median

  /** The command line's kernel size check: odd and at least 1, so that the window of
      radius kernSize / 2 is exactly kernSize wide. */
  function ValidKernelSize(kernSize: int): (ok: bool)
    ensures ok <==> kernSize >= 1 && kernSize == 2 * (kernSize / 2) + 1
  {
    !((kernSize % 2 == 0) || (kernSize < 1))
  }

  /** The plane of channel c of an image. */
  function ChannelOf(img: array3<real>, c: int): (p: Plane)
    reads img
    requires 0 <= c < img.Length2
    ensures IsPlane(p, img.Length0, img.Length1)
    ensures forall y, x :: 0 <= y < img.Length0 && 0 <= x < img.Length1 ==> p[y][x] == img[y, x, c]
  {
    seq(img.Length0, y requires 0 <= y < img.Length0 reads img =>
      seq(img.Length1, x requires 0 <= x < img.Length1 reads img => img[y, x, c]))
  }

  /** Copies channel ch of an image into a fresh two-dimensional array. */
  method CopyChannel(img: array3<real>, ch: int) returns (a: array2<real>)
    requires 0 <= ch < img.Length2
    ensures fresh(a)
    ensures a.Length0 == img.Length0 && a.Length1 == img.Length1
    ensures PlaneOf(a) == ChannelOf(img, ch)
  {
    a := new real[img.Length0, img.Length1]((y, x) reads img =>
      if 0 <= y < img.Length0 && 0 <= x < img.Length1 then img[y, x, ch] else 0.0);
    PlaneExt(PlaneOf(a), ChannelOf(img, ch), img.Length0, img.Length1);
  }

  /** Writes a plane into channel ch of the result, leaving the other channels alone. */
  method StoreChannel(result: array3<real>, ch: int, a: array2<real>)
    requires 0 <= ch < result.Length2
    requires a.Length0 == result.Length0 && a.Length1 == result.Length1
    modifies result
    ensures forall y, x, c :: 0 <= y < result.Length0 && 0 <= x < result.Length1 && 0 <= c < result.Length2 ==>
      result[y, x, c] == if c == ch then a[y, x] else old(result[y, x, c])
  {
    for y := 0 to result.Length0
      invariant forall y', x, c :: 0 <= y' < result.Length0 && 0 <= x < result.Length1 && 0 <= c < result.Length2 ==>
        result[y', x, c] == if c == ch && y' < y then a[y', x] else old(result[y', x, c])
    {
      for x := 0 to result.Length1
        invariant forall y', x', c :: 0 <= y' < result.Length0 && 0 <= x' < result.Length1 && 0 <= c < result.Length2 ==>
          result[y', x', c] == if c == ch && (y' < y || (y' == y && x' < x)) then a[y', x'] else old(result[y', x', c])
      {
        result[y, x, ch] := a[y, x];
      }
    }
  }

  /** The sharpening pipeline on one channel: copy the plane, launch the blur kernel, then
      the unsharp kernel. */
  method SharpenChannel(img: array3<real>, ch: int, radius: nat, kParam: real) returns (warpEdge: array2<real>)
    requires 0 <= ch < img.Length2
    requires RadiusFits(radius, img.Length0, img.Length1)
    ensures fresh(warpEdge)
    ensures warpEdge.Length0 == img.Length0 && warpEdge.Length1 == img.Length1
    ensures forall y, x :: 0 <= y < img.Length0 && 0 <= x < img.Length1 ==>
      warpEdge[y, x] == UnsharpPlane(ChannelOf(img, ch), img.Length0, img.Length1, radius, kParam)[y][x]
  {
    var h, w := img.Length0, img.Length1;
    var warpChannel := CopyChannel(img, ch);
    var warpBlur := new real[h, w]((y, x) => 0.0);
    LaunchBlur(warpChannel, warpBlur, w, h, radius);

    warpEdge := new real[h, w]((y, x) => 0.0);
    LaunchUnsharp(warpChannel, warpBlur, warpEdge, w, h, kParam);
  }

  /** The noise-removal pipeline on one channel: copy the plane and launch the median
      kernel with a buffer of bufLen = neighSize slots. */
  method DenoiseChannel(img: array3<real>, ch: int, radius: nat, bufLen: int, neighSize: int)
    returns (warpOut: array2<real>)
    requires 0 <= ch < img.Length2
    requires RadiusFits(radius, img.Length0, img.Length1)
    requires bufLen == neighSize == (2 * radius + 1) * (2 * radius + 1)
    ensures fresh(warpOut)
    ensures warpOut.Length0 == img.Length0 && warpOut.Length1 == img.Length1
    ensures forall y, x :: 0 <= y < img.Length0 && 0 <= x < img.Length1 ==>
      warpOut[y, x] == MedianPlane(ChannelOf(img, ch), img.Length0, img.Length1, radius)[y][x]
  {
    var h, w := img.Length0, img.Length1;
    var warpChannel := CopyChannel(img, ch);
    warpOut := new real[h, w]((y, x) => 0.0);
    LaunchMedian(warpChannel, warpOut, w, h, radius, bufLen, neighSize);
  }

  /** Sharpening: every channel is box-blurred with radius kernSize / 2 and recombined with
      strength kParam. Channel c of the result is the sharpened plane of channel c of the
      input and of nothing else. */
  method UnsharpMask(img: array3<real>, kernSize: int, kParam: real) returns (result: array3<real>)
    requires ValidKernelSize(kernSize)
    requires RadiusFits(kernSize / 2, img.Length0, img.Length1)
    ensures fresh(result)
    ensures result.Length0 == img.Length0 && result.Length1 == img.Length1 && result.Length2 == img.Length2
    ensures forall y, x, c :: 0 <= y < img.Length0 && 0 <= x < img.Length1 && 0 <= c < img.Length2 ==>
      result[y, x, c] == UnsharpPlane(ChannelOf(img, c), img.Length0, img.Length1, kernSize / 2, kParam)[y][x]
  {
    var h, w, channels := img.Length0, img.Length1, img.Length2;
    result := new real[h, w, channels]((y, x, c) => 0.0);

    for ch := 0 to channels
      invariant forall y, x, c :: 0 <= y < h && 0 <= x < w && 0 <= c < ch ==>
        result[y, x, c] == UnsharpPlane(ChannelOf(img, c), h, w, kernSize / 2, kParam)[y][x]
    {
      var radius := kernSize / 2;
      var warpEdge := SharpenChannel(img, ch, radius, kParam);
      StoreChannel(result, ch, warpEdge);
    }
  }

  /** Noise removal: every channel is median-filtered with a kernSize x kernSize window.
      Channel c of the result is the median-filtered plane of channel c of the input and of
      nothing else. */
  method MedianFilter(img: array3<real>, kernSize: int) returns (result: array3<real>)
    requires ValidKernelSize(kernSize)
    requires RadiusFits(kernSize / 2, img.Length0, img.Length1)
    ensures fresh(result)
    ensures result.Length0 == img.Length0 && result.Length1 == img.Length1 && result.Length2 == img.Length2
    ensures forall y, x, c :: 0 <= y < img.Length0 && 0 <= x < img.Length1 && 0 <= c < img.Length2 ==>
      result[y, x, c] == MedianPlane(ChannelOf(img, c), img.Length0, img.Length1, kernSize / 2)[y][x]
  {
    var h, w, channels := img.Length0, img.Length1, img.Length2;
    result := new real[h, w, channels]((y, x, c) => 0.0);

    // the kernel's buffer length N = kernSize^2
    var bufLen := kernSize * kernSize;

    for ch := 0 to channels
      invariant forall y, x, c :: 0 <= y < h && 0 <= x < w && 0 <= c < ch ==>
        result[y, x, c] == MedianPlane(ChannelOf(img, c), h, w, kernSize / 2)[y][x]
    {
      var radius := kernSize / 2;
      var neighSize := kernSize * kernSize;
      var warpOut := DenoiseChannel(img, ch, radius, bufLen, neighSize);
      StoreChannel(result, ch, warpOut);
    }
  }
}
