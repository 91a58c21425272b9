/** The box-blur kernel: each output sample is the mean of the reflected
    (2 radius + 1)-square window around it. */
module BoxBlur {
  import opened Reflection
  import opened Planes

  function Sum(s: seq<real>): real
  {
    if s == [] then 0.0 else Sum(s[..|s| - 1]) + s[|s| - 1]
  }

  lemma SumSnoc(s: seq<real>, v: real)
    ensures Sum(s + [v]) == Sum(s) + v
  {
    assert (s + [v])[..|s|] == s;
  }

  /** Sums distribute over concatenation. */
  lemma {:induction false} SumConcat(a: seq<real>, b: seq<real>)
    ensures Sum(a + b) == Sum(a) + Sum(b)
  {
    if b == [] {
      assert a + b == a;
    } else {
      var b' := b[..|b| - 1];
      SumConcat(a, b');
      assert (a + b)[..|a + b| - 1] == a + b';
    }
  }

  /** Adding the sum and population of window row n to those of the first n rows gives
      the sum and population of the first n + 1 rows. */
  lemma SumRowsStep(p: Plane, h: nat, w: nat, i: int, j: int, radius: nat, n: nat,
                    sum0: real, ctr0: real, sum: real, ctr: real)
    requires WindowFits(p, h, w, i, j, radius) && n < 2 * radius + 1
    requires sum0 == Sum(WindowRows(p, h, w, i, j, radius, n))
    requires ctr0 == |WindowRows(p, h, w, i, j, radius, n)| as real
    requires sum == sum0 + Sum(WindowRow(p, h, w, i, j, radius, n - radius))
    requires ctr == ctr0 + (2 * radius + 1) as real
    ensures sum == Sum(WindowRows(p, h, w, i, j, radius, n + 1))
    ensures ctr == |WindowRows(p, h, w, i, j, radius, n + 1)| as real
  {
    SumConcat(WindowRows(p, h, w, i, j, radius, n), WindowRow(p, h, w, i, j, radius, n - radius));
  }

  /** A sum of samples each in [lo, hi] lies between |s| lo and |s| hi. */
  lemma {:induction false} SumBounds(s: seq<real>, lo: real, hi: real)
    requires forall t :: 0 <= t < |s| ==> lo <= s[t] <= hi
    ensures (|s| as real) * lo <= Sum(s) <= (|s| as real) * hi
  {
    if s != [] {
      var init := s[..|s| - 1];
      SumBounds(init, lo, hi);
      assert |s| as real == |init| as real + 1.0;
    }
  }

  /** The mean of a non-empty sequence lies within the bounds of its elements. */
  lemma MeanWithin(s: seq<real>, lo: real, hi: real)
    requires |s| > 0
    requires forall t :: 0 <= t < |s| ==> lo <= s[t] <= hi
    ensures lo <= Sum(s) / (|s| as real) <= hi
  {
    SumBounds(s, lo, hi);
    QuotientBounds(Sum(s), |s| as real, lo, hi);
  }

  lemma QuotientBounds(a: real, n: real, lo: real, hi: real)
    requires n > 0.0 && n * lo <= a <= n * hi
    ensures lo <= a / n <= hi
  {
    assert a / n - lo == (a - n * lo) / n;
    assert hi - a / n == (n * hi - a) / n;
  }

  /** The blurred sample at (i, j): the mean of its window, whose population is always the
      full (2 radius + 1)^2 because reflection supplies every slot. */
  function BlurAt(p: Plane, h: nat, w: nat, i: int, j: int, radius: nat): real
    requires WindowFits(p, h, w, i, j, radius)
  {
    Sum(Window(p, h, w, i, j, radius)) / (((2 * radius + 1) * (2 * radius + 1)) as real)
  }

  /** A window whose samples all equal v blurs to v. */
  lemma BlurOfUniformWindow(p: Plane, h: nat, w: nat, i: int, j: int, radius: nat, v: real)
    requires WindowFits(p, h, w, i, j, radius)
    requires forall t :: 0 <= t < |Window(p, h, w, i, j, radius)| ==> Window(p, h, w, i, j, radius)[t] == v
    ensures BlurAt(p, h, w, i, j, radius) == v
  {
    MeanWithin(Window(p, h, w, i, j, radius), v, v);
  }

  /** Blurring never leaves the range of the plane's samples. */
  lemma BlurWithin(p: Plane, h: nat, w: nat, i: int, j: int, radius: nat, lo: real, hi: real)
    requires WindowFits(p, h, w, i, j, radius)
    requires Bounded(p, h, w, lo, hi)
    ensures lo <= BlurAt(p, h, w, i, j, radius) <= hi
  {
    WindowWithin(p, h, w, i, j, radius, lo, hi);
    MeanWithin(Window(p, h, w, i, j, radius), lo, hi);
  }

  /** A plane whose samples all equal v blurs to v at every pixel. */
  lemma BlurKeepsConstant(p: Plane, h: nat, w: nat, i: int, j: int, radius: nat, v: real)
    requires WindowFits(p, h, w, i, j, radius)
    requires Bounded(p, h, w, v, v)
    ensures BlurAt(p, h, w, i, j, radius) == v
  {
    BlurWithin(p, h, w, i, j, radius, v, v);
  }

  /** Extending a prefix of window row dy by the sample at offset (dy, dx) adds that
      sample to its sum. */
  lemma RowSumStep(p: Plane, h: nat, w: nat, i: int, j: int, radius: nat, dy: int, dx: int, v: real)
    requires WindowFits(p, h, w, i, j, radius)
    requires -(radius as int) <= dy <= radius && -(radius as int) <= dx <= radius
    requires v == p[Reflect(i + dy, h)][Reflect(j + dx, w)]
    ensures Sum(WindowRow(p, h, w, i, j, radius, dy)[..dx + radius + 1])
         == Sum(WindowRow(p, h, w, i, j, radius, dy)[..dx + radius]) + v
  {
    RowPrefixStep(p, h, w, i, j, radius, dy, dx);
    SumSnoc(WindowRow(p, h, w, i, j, radius, dy)[..dx + radius], v);
  }

  /** The inner loop of the blur kernel: adds the samples of window row y (offsets
      x = -radius .. radius) to the running sum and count. */
  method AccumulateRow(inImg: array2<real>, width: int, height: int, radius: nat, i: nat, j: nat,
                       y: int, sum0: real, ctr0: real, ghost p: Plane) returns (sum: real, ctr: real)
    requires inImg.Length0 == height && inImg.Length1 == width
    requires i < height && j < width && radius <= height && radius <= width
    requires -(radius as int) <= y <= radius
    requires p == PlaneOf(inImg)
    ensures sum == sum0 + Sum(WindowRow(p, height, width, i, j, radius, y))
    ensures ctr == ctr0 + (2 * radius + 1) as real
  {
    ghost var row := WindowRow(p, height, width, i, j, radius, y);
    sum, ctr := sum0, ctr0;
    for x := -(radius as int) to radius + 1
      invariant sum == sum0 + Sum(row[..x + radius])
      invariant ctr == ctr0 + (x + radius) as real
    {
      var neighbour := ReadReflected(inImg, width, height, i + y, j + x);
      RowSumStep(p, height, width, i, j, radius, y, x, neighbour);
      sum := sum + neighbour;
      ctr := ctr + 1.0;
    }
    assert row[..2 * radius + 1] == row;
  }

  /** The outer loop of the blur kernel: sums the reflected window around (i, j) row by
      row and counts its samples. */
  method AccumulateWindow(inImg: array2<real>, width: int, height: int, radius: nat, i: nat, j: nat)
    returns (sum: real, ctr: real)
    requires inImg.Length0 == height && inImg.Length1 == width
    requires i < height && j < width && radius <= height && radius <= width
    ensures sum == Sum(Window(PlaneOf(inImg), height, width, i, j, radius))
    ensures ctr == |Window(PlaneOf(inImg), height, width, i, j, radius)| as real
    ensures ctr == ((2 * radius + 1) * (2 * radius + 1)) as real
  {
    ghost var p := PlaneOf(inImg);
    sum := 0.0;
    ctr := 0.0;
    for y := -(radius as int) to radius + 1
      invariant sum == Sum(WindowRows(p, height, width, i, j, radius, y + radius))
      invariant ctr == |WindowRows(p, height, width, i, j, radius, y + radius)| as real
    {
      var sum1, ctr1 := AccumulateRow(inImg, width, height, radius, i, j, y, sum, ctr, p);
      SumRowsStep(p, height, width, i, j, radius, y + radius, sum, ctr, sum1, ctr1);
      sum, ctr := sum1, ctr1;
    }
  }

  /** One kernel thread's mean: the window sum divided by the sample count, which is the
      full (2 radius + 1)^2 at every pixel. */
  method WindowMean(inImg: array2<real>, width: int, height: int, radius: nat, i: nat, j: nat)
    returns (mean: real)
    requires inImg.Length0 == height && inImg.Length1 == width
    requires i < height && j < width && radius <= height && radius <= width
    ensures mean == BlurAt(PlaneOf(inImg), height, width, i, j, radius)
  {
    var sum, ctr := AccumulateWindow(inImg, width, height, radius, i, j);
    mean := sum / ctr;
  }

  /** The blur kernel for thread (i, j): threads outside the plane write nothing, the others
      write their window mean into their own output cell and nothing else. */
  method BlurThread(inImg: array2<real>, outImg: array2<real>, width: int, height: int, radius: nat, i: nat, j: nat)
    requires inImg != outImg
    requires inImg.Length0 == outImg.Length0 == height && inImg.Length1 == outImg.Length1 == width
    requires i < height && j < width ==> radius <= height && radius <= width
    modifies outImg
    ensures i >= height || j >= width ==> unchanged(outImg)
    ensures i < height && j < width ==> outImg[i, j] == BlurAt(PlaneOf(inImg), height, width, i, j, radius)
    ensures forall y, x :: 0 <= y < height && 0 <= x < width && (y, x) != (i, j) ==> outImg[y, x] == old(outImg[y, x])
  {
    if i >= height || j >= width {
      return;
    }
    var mean := WindowMean(inImg, width, height, radius, i, j);
    outImg[i, j] := mean;
  }

  /** The launch over the (height, width) grid, run as a sequential loop: each thread writes
      only its own cell, so the order is immaterial. */
  method LaunchBlur(inImg: array2<real>, outImg: array2<real>, width: int, height: int, radius: nat)
    requires inImg != outImg
    requires inImg.Length0 == outImg.Length0 == height && inImg.Length1 == outImg.Length1 == width
    requires RadiusFits(radius, height, width)
    modifies outImg
    ensures forall y, x :: 0 <= y < height && 0 <= x < width ==>
      outImg[y, x] == BlurAt(PlaneOf(inImg), height, width, y, x, radius)
  {
    ghost var p := PlaneOf(inImg);
    for i := 0 to height
      invariant forall y, x :: 0 <= y < i && 0 <= x < width ==> outImg[y, x] == BlurAt(p, height, width, y, x, radius)
    {
      for j := 0 to width
        invariant PlaneOf(inImg) == p
        invariant forall y, x :: 0 <= y < i && 0 <= x < width ==> outImg[y, x] == BlurAt(p, height, width, y, x, radius)
        invariant forall x :: 0 <= x < j ==> outImg[i, x] == BlurAt(p, height, width, i, x, radius)
      {
        BlurThread(inImg, outImg, width, height, radius, i, j);
      }
    }
  }
}
