/** The order statistic used by the median kernel: a reference sort on values and the
    in-place exchange sort the kernel runs on its buffer. */
module Sorting {

  predicate Sorted(s: seq<real>)
  {
    forall a, b :: 0 <= a < b < |s| ==> s[a] <= s[b]
  }

  function Insert(v: real, s: seq<real>): (r: seq<real>)
    requires Sorted(s)
    ensures Sorted(r)
    ensures multiset(r) == multiset(s) + multiset{v}
    ensures |r| == |s| + 1
  {
    if s == [] then [v]
    else if v <= s[0] then [v] + s
    else
      var rest := Insert(v, s[1..]);
      HeadBelowRest(s, v, rest);
      [s[0]] + rest
  }

  /** When v goes after the head of s, the head stays below everything inserted after it. */
  lemma HeadBelowRest(s: seq<real>, v: real, rest: seq<real>)
    requires Sorted(s) && |s| > 0 && s[0] < v
    requires multiset(rest) == multiset(s[1..]) + multiset{v}
    requires Sorted(rest)
    ensures Sorted([s[0]] + rest)
    ensures multiset([s[0]] + rest) == multiset(s) + multiset{v}
  {
    assert s == [s[0]] + s[1..];
    forall t | 0 <= t < |rest|
      ensures s[0] <= rest[t]
    {
      assert rest[t] in multiset(rest);
      if rest[t] != v {
        assert rest[t] in multiset(s[1..]);
        assert rest[t] in s[1..];
      }
    }
  }

  /** The reference sort: a sorted permutation of its input. */
  function SortSeq(s: seq<real>): (r: seq<real>)
    ensures Sorted(r)
    ensures multiset(r) == multiset(s)
    ensures |r| == |s|
  {
    if s == [] then []
    else
      assert s == s[..|s| - 1] + [s[|s| - 1]];
      Insert(s[|s| - 1], SortSeq(s[..|s| - 1]))
  }

  /** The head of a sorted sequence is below every element it holds. */
  lemma HeadIsLeast(s: seq<real>, e: real)
    requires Sorted(s) && e in multiset(s)
    ensures |s| > 0 && s[0] <= e
  {
    assert e in s;
  }

  /** A sorted sequence is determined by its multiset of elements. */
  lemma {:induction false} SortedUnique(a: seq<real>, b: seq<real>)
    requires Sorted(a) && Sorted(b)
    requires multiset(a) == multiset(b)
    ensures a == b
  {
    if a == [] {
      assert |b| == |multiset(b)| == 0;
    } else {
      HeadIsLeast(b, a[0]);
      HeadIsLeast(a, b[0]);
      assert a == [a[0]] + a[1..];
      assert b == [b[0]] + b[1..];
      assert multiset(a[1..]) == multiset(b[1..]) by {
        assert a[0] == b[0];
        assert multiset(a) == multiset{a[0]} + multiset(a[1..]);
        assert multiset(b) == multiset{a[0]} + multiset(b[1..]);
        assert multiset(a[1..]) == multiset(a) - multiset{a[0]};
        assert multiset(b[1..]) == multiset(b) - multiset{a[0]};
      }
      SortedUnique(a[1..], b[1..]);
    }
  }

  /** Exchanging two slots permutes a sequence. */
  lemma SwapPermutes(s: seq<real>, a: nat, b: nat)
    requires a < |s| && b < |s|
    ensures multiset(s[a := s[b]][b := s[a]]) == multiset(s)
  {
  }

  /** One step of pass a: compares slot a with slot b and exchanges them when slot b is
      smaller, so that slot a stays the least of slots a..b. */
  method CompareExchange(buf: array<real>, a: int, b: int)
    requires 0 <= a < b < buf.Length
    requires forall p, q :: 0 <= p < a && p < q < buf.Length ==> buf[p] <= buf[q]
    requires forall q :: a < q < b ==> buf[a] <= buf[q]
    modifies buf
    ensures forall p, q :: 0 <= p < a && p < q < buf.Length ==> buf[p] <= buf[q]
    ensures forall q :: a < q <= b ==> buf[a] <= buf[q]
    ensures multiset(buf[..]) == old(multiset(buf[..]))
    ensures buf[a] <= buf[b]
    ensures old(buf[b]) < old(buf[a]) ==> buf[a] == old(buf[b]) && buf[b] == old(buf[a])
    ensures !(old(buf[b]) < old(buf[a])) ==> buf[a] == old(buf[a]) && buf[b] == old(buf[b])
    ensures forall q :: 0 <= q < buf.Length && q != a && q != b ==> buf[q] == old(buf[q])
  {
    if buf[b] < buf[a] {
      ghost var before := buf[..];
      var tmp := buf[a];
      buf[a] := buf[b];
      buf[b] := tmp;
      SwapPermutes(before, a, b);
      assert buf[..] == before[a := before[b]][b := before[a]];
    }
  }

  /** Pass a of the exchange sort: compares slot a with every later slot b and swaps them
      whenever slot b is smaller, which leaves the least of slots a.. in slot a. */
  method ExchangePass(buf: array<real>, neighSize: int, a: int)
    requires neighSize == buf.Length && 0 <= a < neighSize
    requires forall p, q :: 0 <= p < a && p < q < buf.Length ==> buf[p] <= buf[q]
    modifies buf
    ensures forall p, q :: 0 <= p <= a && p < q < buf.Length ==> buf[p] <= buf[q]
    ensures multiset(buf[..]) == old(multiset(buf[..]))
    ensures buf[..a] == old(buf[..a])
  {
    for b := a + 1 to neighSize
      invariant forall p, q :: 0 <= p < a && p < q < buf.Length ==> buf[p] <= buf[q]
      invariant forall q :: a < q < b ==> buf[a] <= buf[q]
      invariant multiset(buf[..]) == old(multiset(buf[..]))
      invariant forall q :: 0 <= q < a ==> buf[q] == old(buf[q])
    {
      CompareExchange(buf, a, b);
    }
  }

  /** The median kernel's in-place sort. After pass a, slots 0..a are sorted and each is
      below every later slot; at the end the buffer is the sorted permutation of its
      original contents. */
  method ExchangeSort(buf: array<real>, neighSize: int)
    requires neighSize == buf.Length
    modifies buf
    ensures Sorted(buf[..])
    ensures multiset(buf[..]) == old(multiset(buf[..]))
    ensures buf[..] == SortSeq(old(buf[..]))
  {
    for a := 0 to neighSize
      invariant forall p, q :: 0 <= p < a && p < q < buf.Length ==> buf[p] <= buf[q]
      invariant multiset(buf[..]) == old(multiset(buf[..]))
    {
      ExchangePass(buf, neighSize, a);
    }
    SortedUnique(buf[..], SortSeq(old(buf[..])));
  }

  /** No sequence holds more copies of a value than it has elements. */
  lemma {:induction false} CountAtMost(s: seq<real>, v: real)
    ensures multiset(s)[v] <= |s|
  {
    if s != [] {
      CountAtMost(s[..|s| - 1], v);
      assert s == s[..|s| - 1] + [s[|s| - 1]];
    }
  }

  /** If slot k of a sorted sequence is below v, v can only occur after slot k. */
  lemma CountAboveSlot(s: seq<real>, k: nat, v: real)
    requires Sorted(s) && k < |s| && s[k] < v
    ensures multiset(s)[v] <= |s| - k - 1
  {
    var lower, upper := s[..k + 1], s[k + 1..];
    assert s == lower + upper;
    assert forall t :: 0 <= t < |lower| ==> lower[t] != v;
    assert v !in multiset(lower);
    CountAtMost(upper, v);
  }

  /** If slot k of a sorted sequence is above v, v can only occur before slot k. */
  lemma CountBelowSlot(s: seq<real>, k: nat, v: real)
    requires Sorted(s) && k < |s| && s[k] > v
    ensures multiset(s)[v] <= k
  {
    var lower, upper := s[..k], s[k..];
    assert s == lower + upper;
    assert forall t :: 0 <= t < |upper| ==> upper[t] != v;
    assert v !in multiset(upper);
    CountAtMost(lower, v);
  }

  /** The middle element of a sorted sequence is v whenever more than half the elements
      equal v. */
  lemma MiddleOfSortedIsMajority(s: seq<real>, v: real)
    requires Sorted(s)
    requires multiset(s)[v] > |s| / 2
    ensures |s| > 0 && s[|s| / 2] == v
  {
    CountAtMost(s, v);
    var k := |s| / 2;
    if s[k] < v {
      CountAboveSlot(s, k, v);
      assert false;
    } else if s[k] > v {
      CountBelowSlot(s, k, v);
      assert false;
    }
  }
}
