/** The median kernel: gather the reflected window into a buffer of kernSize^2 slots, sort
    the buffer in place and pick its middle slot. */
module Median {
  import opened Reflection
  import opened Planes
  import opened Sorting

  /** The median sample at (i, j): the middle element of the sorted window. */
  function MedianAt(p: Plane, h: nat, w: nat, i: int, j: int, radius: nat): real
    requires WindowFits(p, h, w, i, j, radius)
  {
    var s := SortSeq(Window(p, h, w, i, j, radius));
    s[|s| / 2]
  }

  /** A median-filtered plane. */
  function MedianPlane(p: Plane, h: nat, w: nat, radius: nat): (q: Plane)
    requires IsPlane(p, h, w) && RadiusFits(radius, h, w)
  {
    seq(h, y requires 0 <= y < h =>
      seq(w, x requires 0 <= x < w => MedianAt(p, h, w, y, x, radius)))
  }

  /** If more than half of a window equals v, its median is v. */
  lemma MedianOfMajority(s: seq<real>, v: real)
    requires multiset(s)[v] > |s| / 2
    ensures |SortSeq(s)| > 0 && SortSeq(s)[|SortSeq(s)| / 2] == v
  {
    MiddleOfSortedIsMajority(SortSeq(s), v);
  }

  /** The median is one of the window's samples, so it never leaves the plane's range. */
  lemma MedianWithin(p: Plane, h: nat, w: nat, i: int, j: int, radius: nat, lo: real, hi: real)
    requires WindowFits(p, h, w, i, j, radius)
    requires Bounded(p, h, w, lo, hi)
    ensures MedianAt(p, h, w, i, j, radius) in Window(p, h, w, i, j, radius)
    ensures lo <= MedianAt(p, h, w, i, j, radius) <= hi
  {
    var win := Window(p, h, w, i, j, radius);
    var s := SortSeq(win);
    WindowWithin(p, h, w, i, j, radius, lo, hi);
    assert s[|s| / 2] in multiset(win);
    assert s[|s| / 2] in win;
  }

  /** Median filtering a constant plane reproduces it. */
  lemma MedianKeepsConstant(p: Plane, h: nat, w: nat, radius: nat, v: real)
    requires IsPlane(p, h, w) && RadiusFits(radius, h, w)
    requires Bounded(p, h, w, v, v)
    ensures MedianPlane(p, h, w, radius) == p
  {
    var q := MedianPlane(p, h, w, radius);
    forall y, x | 0 <= y < h && 0 <= x < w
      ensures q[y][x] == p[y][x]
    {
      MedianWithin(p, h, w, y, x, radius, v, v);
    }
    PlaneExt(q, p, h, w);
  }

  /** Counts the copies of v in a sequence all of whose slots but slot c hold v. */
  lemma {:induction false} CountAllButOne(s: seq<real>, v: real, c: int)
    requires forall t :: 0 <= t < |s| && t != c ==> s[t] == v
    ensures multiset(s)[v] >= |s| - (if 0 <= c < |s| then 1 else 0)
  {
    if s != [] {
      var init := s[..|s| - 1];
      CountAllButOne(init, v, c);
      assert s == init + [s[|s| - 1]];
    }
  }

  /** (i, j) is far enough from every edge that its window needs no reflection. */
  predicate Interior(h: nat, w: nat, i: int, j: int, radius: nat)
  {
    radius <= i < h - radius && radius <= j < w - radius
  }

  /** Row dy of the window around an interior outlier at (i, j) holds v everywhere except
      at its centre slot, and there only when dy = 0. */
  lemma SaltRowCount(p: Plane, h: nat, w: nat, i: int, j: int, radius: nat, dy: int, v: real)
    requires WindowFits(p, h, w, i, j, radius) && Interior(h, w, i, j, radius)
    requires -(radius as int) <= dy <= radius
    requires forall y, x :: i - radius <= y <= i + radius && j - radius <= x <= j + radius && (y, x) != (i, j) ==> p[y][x] == v
    ensures multiset(WindowRow(p, h, w, i, j, radius, dy))[v] >= 2 * radius + 1 - (if dy == 0 then 1 else 0)
  {
    var row := WindowRow(p, h, w, i, j, radius, dy);
    var c := if dy == 0 then radius as int else -1;
    forall t | 0 <= t < |row| && t != c
      ensures row[t] == v
    {
      assert row[t] == p[i + dy][j + t - radius];
    }
    CountAllButOne(row, v, c);
  }

  lemma {:induction false} SaltCount(p: Plane, h: nat, w: nat, i: int, j: int, radius: nat, n: nat, v: real)
    requires WindowFits(p, h, w, i, j, radius) && Interior(h, w, i, j, radius) && n <= 2 * radius + 1
    requires forall y, x :: i - radius <= y <= i + radius && j - radius <= x <= j + radius && (y, x) != (i, j) ==> p[y][x] == v
    ensures multiset(WindowRows(p, h, w, i, j, radius, n))[v]
         >= |WindowRows(p, h, w, i, j, radius, n)| - (if n > radius then 1 else 0)
  {
    if n > 0 {
      var all := WindowRows(p, h, w, i, j, radius, n);
      var prev, row := WindowRows(p, h, w, i, j, radius, n - 1), WindowRow(p, h, w, i, j, radius, n - 1 - radius);
      SaltCount(p, h, w, i, j, radius, n - 1, v);
      SaltRowCount(p, h, w, i, j, radius, n - 1 - radius, v);
      var a, b := multiset(prev)[v], multiset(row)[v];
      assert a >= |prev| - (if n - 1 > radius then 1 else 0);
      assert b >= |row| - (if n - 1 - radius == 0 then 1 else 0);
      assert all == prev + row;
      assert multiset(all)[v] == a + b;
      assert |all| == |prev| + |row|;
    }
  }

  lemma SquareAtLeastNine(k: int)
    requires k >= 3
    ensures k * k >= 9
  {
    assert k * k >= 3 * k;
  }

  /** Salt noise: an outlier at an interior pixel whose neighbours within the window all
      equal v is replaced by v, for any window wider than one sample; pixels outside the
      window do not matter. */
  lemma MedianRemovesSalt(p: Plane, h: nat, w: nat, i: int, j: int, radius: nat, v: real)
    requires WindowFits(p, h, w, i, j, radius) && Interior(h, w, i, j, radius) && radius >= 1
    requires forall y, x :: i - radius <= y <= i + radius && j - radius <= x <= j + radius && (y, x) != (i, j) ==> p[y][x] == v
    ensures MedianAt(p, h, w, i, j, radius) == v
  {
    var win := Window(p, h, w, i, j, radius);
    SaltCount(p, h, w, i, j, radius, 2 * radius + 1, v);
    SquareAtLeastNine(2 * radius + 1);
    assert multiset(win)[v] >= |win| - 1 > |win| / 2;
    MedianOfMajority(win, v);
  }

  /** A uniform 5x5 plane of 10 with its centre set to 250: a 3x3 median restores 10. */
  lemma SaltExample()
    ensures var p := seq(5, y => seq(5, x => if y == 2 && x == 2 then 250.0 else 10.0));
      IsPlane(p, 5, 5) && MedianPlane(p, 5, 5, 1)[2][2] == 10.0
  {
    var p := seq(5, y => seq(5, x => if y == 2 && x == 2 then 250.0 else 10.0));
    MedianRemovesSalt(p, 5, 5, 2, 2, 1, 10.0);
  }

  /** The inner loop of the gather: writes the samples of window row y into the
      2 radius + 1 slots from slot `start` on, advancing the counter once per sample. */
  method GatherRow(inImg: array2<real>, buf: array<real>, width: int, height: int, radius: nat,
                   i: nat, j: nat, y: int, ctr0: real, ghost start: nat) returns (ctr: real)
    requires inImg.Length0 == height && inImg.Length1 == width
    requires i < height && j < width && radius <= height && radius <= width
    requires -(radius as int) <= y <= radius
    requires ctr0 == start as real && start + 2 * radius + 1 <= buf.Length
    modifies buf
    ensures ctr == (start + 2 * radius + 1) as real
    ensures buf[..start] == old(buf[..start])
    ensures buf[start..start + 2 * radius + 1] == WindowRow(PlaneOf(inImg), height, width, i, j, radius, y)
    ensures buf[start + 2 * radius + 1..] == old(buf[start + 2 * radius + 1..])
  {
    ghost var p := PlaneOf(inImg);
    ghost var row := WindowRow(p, height, width, i, j, radius, y);
    ctr := ctr0;
    for x := -(radius as int) to radius + 1
      invariant ctr == (start + x + radius) as real
      invariant buf[..start] == old(buf[..start])
      invariant buf[start..start + x + radius] == row[..x + radius]
      invariant forall q :: start + x + radius <= q < buf.Length ==> buf[q] == old(buf[q])
    {
      var neighbour := ReadReflected(inImg, width, height, i + y, j + x);
      assert neighbour == p[Reflect(i + y, height)][Reflect(j + x, width)];
      RowPrefixStep(p, height, width, i, j, radius, y, x);
      var slot := ctr.Floor;
      assert slot == start + x + radius;
      buf[slot] := neighbour;
      assert buf[start..slot + 1] == buf[start..slot] + [neighbour];
      ctr := ctr + 1.0;
    }
    assert row[..2 * radius + 1] == row;
  }

  /** Row n of a k-slot-wide window of k rows still fits the k * k buffer. */
  lemma RowFitsBuffer(n: nat, k: nat)
    requires n < k
    ensures n * k + k <= k * k
  {
    assert n * k + k == (n + 1) * k;
  }

  /** Fills buf slot by slot with the reflected window around (i, j) in row-major order,
      so that every slot is written exactly once. */
  method GatherWindow(inImg: array2<real>, buf: array<real>, width: int, height: int, radius: nat, i: nat, j: nat)
    requires inImg.Length0 == height && inImg.Length1 == width
    requires i < height && j < width && radius <= height && radius <= width
    requires buf.Length == (2 * radius + 1) * (2 * radius + 1)
    modifies buf
    ensures buf[..] == Window(PlaneOf(inImg), height, width, i, j, radius)
  {
    ghost var p := PlaneOf(inImg);
    ghost var k := 2 * radius + 1;
    var ctr := 0.0;
    for y := -(radius as int) to radius + 1
      invariant ctr == ((y + radius) * k) as real
      invariant buf[..(y + radius) * k] == WindowRows(p, height, width, i, j, radius, y + radius)
    {
      ghost var start: nat := (y + radius) * k;
      ghost var done := WindowRows(p, height, width, i, j, radius, y + radius);
      ghost var row := WindowRow(p, height, width, i, j, radius, y);
      RowFitsBuffer(y + radius, k);
      ctr := GatherRow(inImg, buf, width, height, radius, i, j, y, ctr, start);
      assert (y + radius + 1) * k == start + k;
      assert buf[..start + k] == buf[..start] + buf[start..start + k];
      assert WindowRows(p, height, width, i, j, radius, y + radius + 1) == done + row;
    }
    assert buf[..] == buf[..k * k];
  }

  /** One thread's local order statistic: gather into a fresh buffer of bufLen slots, sort
      neighSize of them, pick slot neighSize / 2. */
  method WindowMedian(inImg: array2<real>, width: int, height: int, radius: nat,
                      bufLen: int, neighSize: int, i: nat, j: nat) returns (m: real)
    requires inImg.Length0 == height && inImg.Length1 == width
    requires i < height && j < width && radius <= height && radius <= width
    requires bufLen == neighSize == (2 * radius + 1) * (2 * radius + 1)
    ensures m == MedianAt(PlaneOf(inImg), height, width, i, j, radius)
  {
    var neighbourhood := new real[bufLen];
    GatherWindow(inImg, neighbourhood, width, height, radius, i, j);
    ExchangeSort(neighbourhood, neighSize);
    m := neighbourhood[neighSize / 2];
  }

  /** The median kernel for thread (i, j); the launch grid never exceeds the plane. */
  method MedianThread(inImg: array2<real>, outImg: array2<real>, width: int, height: int, radius: nat,
                      bufLen: int, neighSize: int, i: nat, j: nat)
    requires inImg != outImg
    requires inImg.Length0 == outImg.Length0 == height && inImg.Length1 == outImg.Length1 == width
    requires i < height && j < width && radius <= height && radius <= width
    requires bufLen == neighSize == (2 * radius + 1) * (2 * radius + 1)
    modifies outImg
    ensures outImg[i, j] == MedianAt(PlaneOf(inImg), height, width, i, j, radius)
    ensures forall y, x :: 0 <= y < height && 0 <= x < width && (y, x) != (i, j) ==> outImg[y, x] == old(outImg[y, x])
  {
    var m := WindowMedian(inImg, width, height, radius, bufLen, neighSize, i, j);
    outImg[i, j] := m;
  }

  /** Row i of the launch grid: threads (i, 0) .. (i, width - 1) in turn, each writing its
      cell of the median-filtered plane q. */
  method LaunchMedianRow(inImg: array2<real>, outImg: array2<real>, width: int, height: int, radius: nat,
                         bufLen: int, neighSize: int, i: nat, ghost q: Plane)
    requires inImg != outImg
    requires inImg.Length0 == outImg.Length0 == height && inImg.Length1 == outImg.Length1 == width
    requires i < height && RadiusFits(radius, height, width)
    requires bufLen == neighSize == (2 * radius + 1) * (2 * radius + 1)
    requires q == MedianPlane(PlaneOf(inImg), height, width, radius)
    modifies outImg
    ensures forall x :: 0 <= x < width ==> outImg[i, x] == q[i][x]
    ensures forall y, x :: 0 <= y < height && 0 <= x < width && y != i ==> outImg[y, x] == old(outImg[y, x])
  {
    ghost var p := PlaneOf(inImg);
    for j := 0 to width
      invariant PlaneOf(inImg) == p
      invariant forall x :: 0 <= x < j ==> outImg[i, x] == q[i][x]
      invariant forall y, x :: 0 <= y < height && 0 <= x < width && y != i ==> outImg[y, x] == old(outImg[y, x])
    {
      MedianThread(inImg, outImg, width, height, radius, bufLen, neighSize, i, j);
      assert q[i][j] == MedianAt(p, height, width, i, j, radius);
    }
  }

  /** The launch over the (height, width) grid as a sequential loop: each thread writes only
      its own cell, so the output is the median-filtered plane whatever the order. */
  method LaunchMedian(inImg: array2<real>, outImg: array2<real>, width: int, height: int, radius: nat,
                      bufLen: int, neighSize: int)
    requires inImg != outImg
    requires inImg.Length0 == outImg.Length0 == height && inImg.Length1 == outImg.Length1 == width
    requires RadiusFits(radius, height, width)
    requires bufLen == neighSize == (2 * radius + 1) * (2 * radius + 1)
    modifies outImg
    ensures forall y, x :: 0 <= y < height && 0 <= x < width ==>
      outImg[y, x] == MedianPlane(PlaneOf(inImg), height, width, radius)[y][x]
  {
    ghost var q := MedianPlane(PlaneOf(inImg), height, width, radius);
    for i := 0 to height
      invariant q == MedianPlane(PlaneOf(inImg), height, width, radius)
      invariant forall y, x :: 0 <= y < i && 0 <= x < width ==> outImg[y, x] == q[y][x]
    {
      LaunchMedianRow(inImg, outImg, width, height, radius, bufLen, neighSize, i, q);
    }
  }
}
