/** Sample planes and the reflected square window around a pixel, shared by the blur and
    median kernels. */
module Planes {
  import opened Reflection

  /** One channel's samples, row-major: p[y][x] is row y, column x. */
  type Plane = seq<seq<real>>

  predicate IsPlane(p: Plane, h: nat, w: nat)
  {
    |p| == h && forall y :: 0 <= y < h ==> |p[y]| == w
  }

  /** A window of this radius around a pixel of an h-by-w plane needs only one
      reflection per axis (trivially true for a plane without pixels). */
  predicate RadiusFits(radius: nat, h: nat, w: nat)
  {
    h == 0 || w == 0 || (radius <= h && radius <= w)
  }

  /** (i, j) is a pixel of p and the window of this radius around it stays in reach. */
  predicate WindowFits(p: Plane, h: nat, w: nat, i: int, j: int, radius: nat)
  {
    IsPlane(p, h, w) && 0 <= i < h && 0 <= j < w && radius <= h && radius <= w
  }

  /** Every sample of p lies in [lo, hi]. */
  predicate Bounded(p: Plane, h: nat, w: nat, lo: real, hi: real)
    requires IsPlane(p, h, w)
  {
    forall y, x :: 0 <= y < h && 0 <= x < w ==> lo <= p[y][x] <= hi
  }

  /** The value a two-dimensional array holds. */
  function PlaneOf(a: array2<real>): (p: Plane)
    reads a
    ensures IsPlane(p, a.Length0, a.Length1)
    ensures forall y, x :: 0 <= y < a.Length0 && 0 <= x < a.Length1 ==> p[y][x] == a[y, x]
  {
    seq(a.Length0, y requires 0 <= y < a.Length0 reads a =>
      seq(a.Length1, x requires 0 <= x < a.Length1 reads a => a[y, x]))
  }

  /** Two planes of the same shape with the same samples are equal. */
  lemma PlaneExt(p: Plane, q: Plane, h: nat, w: nat)
    requires IsPlane(p, h, w) && IsPlane(q, h, w)
    requires forall y, x :: 0 <= y < h && 0 <= x < w ==> p[y][x] == q[y][x]
    ensures p == q
  {
    forall y | 0 <= y < h
      ensures p[y] == q[y]
    {
      assert |p[y]| == |q[y]| == w;
    }
  }

  /** The sample at neighbour coordinate (y, x), reflected back into the plane. */
  function Sample(p: Plane, h: nat, w: nat, y: int, x: int): real
    requires IsPlane(p, h, w) && -(h as int) <= y < 2 * h && -(w as int) <= x < 2 * w
  {
    p[Reflect(y, h)][Reflect(x, w)]
  }

  /** Row dy of the window around (i, j): offsets dx = -radius .. radius in order. */
  function WindowRow(p: Plane, h: nat, w: nat, i: int, j: int, radius: nat, dy: int): (row: seq<real>)
    requires WindowFits(p, h, w, i, j, radius) && -(radius as int) <= dy <= radius
    ensures |row| == 2 * radius + 1
  {
    seq(2 * radius + 1, t requires 0 <= t < 2 * radius + 1 => Sample(p, h, w, i + dy, j + t - radius))
  }

  /** The first n rows of the window around (i, j), concatenated in row-major order. */
  function WindowRows(p: Plane, h: nat, w: nat, i: int, j: int, radius: nat, n: nat): seq<real>
    requires WindowFits(p, h, w, i, j, radius) && n <= 2 * radius + 1
  {
    if n == 0 then []
    else WindowRows(p, h, w, i, j, radius, n - 1) + WindowRow(p, h, w, i, j, radius, n - 1 - radius)
  }

  /** The first n rows hold n full rows of 2 radius + 1 samples. */
  lemma {:induction false} RowsLength(p: Plane, h: nat, w: nat, i: int, j: int, radius: nat, n: nat)
    requires WindowFits(p, h, w, i, j, radius) && n <= 2 * radius + 1
    ensures |WindowRows(p, h, w, i, j, radius, n)| == n * (2 * radius + 1)
  {
    if n > 0 {
      RowsLength(p, h, w, i, j, radius, n - 1);
    }
  }

  /** The whole reflected (2 radius + 1)-square window around (i, j), row-major. */
  function Window(p: Plane, h: nat, w: nat, i: int, j: int, radius: nat): (s: seq<real>)
    requires WindowFits(p, h, w, i, j, radius)
    ensures |s| == (2 * radius + 1) * (2 * radius + 1)
  {
    RowsLength(p, h, w, i, j, radius, 2 * radius + 1);
    WindowRows(p, h, w, i, j, radius, 2 * radius + 1)
  }

  /** Extending a prefix of window row dy by one slot appends the reflected sample at
      offset (dy, dx). */
  lemma RowPrefixStep(p: Plane, h: nat, w: nat, i: int, j: int, radius: nat, dy: int, dx: int)
    requires WindowFits(p, h, w, i, j, radius)
    requires -(radius as int) <= dy <= radius && -(radius as int) <= dx <= radius
    ensures WindowRow(p, h, w, i, j, radius, dy)[..dx + radius + 1]
         == WindowRow(p, h, w, i, j, radius, dy)[..dx + radius] + [p[Reflect(i + dy, h)][Reflect(j + dx, w)]]
  {
    var row := WindowRow(p, h, w, i, j, radius, dy);
    assert row[dx + radius] == Sample(p, h, w, i + dy, j + dx);
  }

  lemma {:induction false} RowsRowMajor(p: Plane, h: nat, w: nat, i: int, j: int, radius: nat, n: nat, a: nat, b: nat)
    requires WindowFits(p, h, w, i, j, radius) && n <= 2 * radius + 1
    requires a < n && b < 2 * radius + 1
    ensures |WindowRows(p, h, w, i, j, radius, a)| + b < |WindowRows(p, h, w, i, j, radius, n)|
    ensures WindowRows(p, h, w, i, j, radius, n)[|WindowRows(p, h, w, i, j, radius, a)| + b]
         == Sample(p, h, w, i + a - radius, j + b - radius)
  {
    var prev, row := WindowRows(p, h, w, i, j, radius, n - 1), WindowRow(p, h, w, i, j, radius, n - 1 - radius);
    assert WindowRows(p, h, w, i, j, radius, n) == prev + row;
    if a < n - 1 {
      RowsRowMajor(p, h, w, i, j, radius, n - 1, a, b);
    } else {
      assert row[b] == Sample(p, h, w, i + (n - 1 - radius), j + b - radius);
    }
  }

  /** Slot t = a * (2 radius + 1) + b of the window holds the reflected sample at offset
      (a - radius, b - radius): the window is gathered in row-major order. */
  lemma WindowRowMajor(p: Plane, h: nat, w: nat, i: int, j: int, radius: nat, a: nat, b: nat, t: int)
    requires WindowFits(p, h, w, i, j, radius)
    requires a < 2 * radius + 1 && b < 2 * radius + 1 && t == a * (2 * radius + 1) + b
    ensures 0 <= t < |Window(p, h, w, i, j, radius)|
    ensures Window(p, h, w, i, j, radius)[t] == p[Reflect(i + a - radius, h)][Reflect(j + b - radius, w)]
  {
    RowsRowMajor(p, h, w, i, j, radius, 2 * radius + 1, a, b);
    RowsLength(p, h, w, i, j, radius, a);
  }

  lemma {:induction false} RowsWithin(p: Plane, h: nat, w: nat, i: int, j: int, radius: nat, n: nat, lo: real, hi: real)
    requires WindowFits(p, h, w, i, j, radius) && n <= 2 * radius + 1
    requires Bounded(p, h, w, lo, hi)
    ensures forall t :: 0 <= t < |WindowRows(p, h, w, i, j, radius, n)| ==>
      lo <= WindowRows(p, h, w, i, j, radius, n)[t] <= hi
  {
    if n > 0 {
      RowsWithin(p, h, w, i, j, radius, n - 1, lo, hi);
      var row := WindowRow(p, h, w, i, j, radius, n - 1 - radius);
      forall t | 0 <= t < |row|
        ensures lo <= row[t] <= hi
      {
        assert row[t] == Sample(p, h, w, i + (n - 1 - radius), j + t - radius);
      }
    }
  }

  /** Reflection never brings in a value from outside the plane: every window sample is
      bounded by the plane's bounds. */
  lemma WindowWithin(p: Plane, h: nat, w: nat, i: int, j: int, radius: nat, lo: real, hi: real)
    requires WindowFits(p, h, w, i, j, radius)
    requires Bounded(p, h, w, lo, hi)
    ensures forall t :: 0 <= t < |Window(p, h, w, i, j, radius)| ==>
      lo <= Window(p, h, w, i, j, radius)[t] <= hi
  {
    RowsWithin(p, h, w, i, j, radius, 2 * radius + 1, lo, hi);
  }

  /** Reads the sample at neighbour coordinate (neighbourY, neighbourX), reflecting each
      coordinate once as the kernels do inline before indexing the input. */
  method ReadReflected(inImg: array2<real>, width: int, height: int, neighbourY: int, neighbourX: int)
    returns (v: real)
    requires inImg.Length0 == height && inImg.Length1 == width
    requires -height <= neighbourY < 2 * height && -width <= neighbourX < 2 * width
    ensures v == inImg[Reflect(neighbourY, height), Reflect(neighbourX, width)]
  {
    var y, x := neighbourY, neighbourX;

    // reflect row
    if y < 0 {
      y := -y - 1;
    } else if y >= height {
      y := 2 * height - y - 1;
    }

    // reflect column
    if x < 0 {
      x := -x - 1;
    } else if x >= width {
      x := 2 * width - x - 1;
    }

    v := inImg[y, x];
  }
}
