/**
 * The statistics computed for one region: arithmetic mean, nearest-rank
 * 95th percentile over the ascending-sorted values, and the number of
 * values strictly above a threshold. Values are exact reals; the decimal
 * rounding of the service's output is not modelled.
 */
module Statistics {

  // ---------------------------------------------------------------------
  // Sum, extremes and mean
  // ---------------------------------------------------------------------

  function Sum(s: seq<real>): real
  {
    if s == [] then 0.0 else s[0] + Sum(s[1..])
  }

  /** The smallest value of a non-empty sequence. */
  function Min(s: seq<real>): (m: real)
    requires s != []
    ensures m in s
    ensures forall i :: 0 <= i < |s| ==> m <= s[i]
  {
    if |s| == 1 then s[0]
    else
      var rest := Min(s[1..]);
      if s[0] <= rest then s[0] else rest
  }

  /** The largest value of a non-empty sequence. */
  function Max(s: seq<real>): (m: real)
    requires s != []
    ensures m in s
    ensures forall i :: 0 <= i < |s| ==> s[i] <= m
  {
    if |s| == 1 then s[0]
    else
      var rest := Max(s[1..]);
      if s[0] >= rest then s[0] else rest
  }

  /** A sum of values that all lie in [lo, hi] lies in [n * lo, n * hi]. */
  lemma {:induction false} SumBounds(s: seq<real>, lo: real, hi: real)
    requires forall i :: 0 <= i < |s| ==> lo <= s[i] <= hi
    ensures (|s| as real) * lo <= Sum(s) <= (|s| as real) * hi
  {
    if s != [] {
      SumBounds(s[1..], lo, hi);
      assert (|s| as real) * lo == (|s[1..]| as real) * lo + lo;
      assert (|s| as real) * hi == (|s[1..]| as real) * hi + hi;
    }
  }

  /** Dividing both ends of `n * lo <= x <= n * hi` by a positive n. */
  lemma DivideBounds(x: real, n: real, lo: real, hi: real)
    requires n > 0.0
    requires n * lo <= x <= n * hi
    ensures lo <= x / n <= hi
  {
    var m := x / n;
    assert m * n == x;
    if m < lo {
      ScaleStrict(m, lo, n);
    }
    if m > hi {
      ScaleStrict(hi, m, n);
    }
  }

  lemma ScaleStrict(a: real, b: real, n: real)
    requires a < b && n > 0.0
    ensures a * n < b * n
  {
  }

  /** The average of values that all lie in [lo, hi] lies in [lo, hi]. */
  lemma AverageBounds(s: seq<real>, lo: real, hi: real)
    requires s != []
    requires forall i :: 0 <= i < |s| ==> lo <= s[i] <= hi
    ensures lo <= Sum(s) / (|s| as real) <= hi
  {
    SumBounds(s, lo, hi);
    DivideBounds(Sum(s), |s| as real, lo, hi);
  }

  /** The arithmetic mean (`sum(s) / len(s)`); it lies between the extremes. */
  function Mean(s: seq<real>): (m: real)
    requires s != []
    ensures Min(s) <= m <= Max(s)
  {
    var lo, hi := Min(s), Max(s);
    forall i | 0 <= i < |s| ensures lo <= s[i] <= hi {}
    AverageBounds(s, lo, hi);
    Sum(s) / (|s| as real)
  }

  // ---------------------------------------------------------------------
  // Counting values above and below a bound
  // ---------------------------------------------------------------------

  /** The number of values strictly greater than `v`; a value equal to `v` is not counted. */
  function CountAbove(s: seq<real>, v: real): (c: nat)
    ensures c <= |s|
  {
    if s == [] then 0
    else (if s[0] > v then 1 else 0) + CountAbove(s[1..], v)
  }

  /** The number of values strictly smaller than `v`. */
  function CountBelow(s: seq<real>, v: real): (c: nat)
    ensures c <= |s|
  {
    if s == [] then 0
    else (if s[0] < v then 1 else 0) + CountBelow(s[1..], v)
  }

  /** No value is counted above `v` exactly when every value is at most `v`. */
  lemma {:induction false} CountAboveZeroIff(s: seq<real>, v: real)
    ensures CountAbove(s, v) == 0 <==> forall i :: 0 <= i < |s| ==> s[i] <= v
  {
    if s != [] {
      CountAboveZeroIff(s[1..], v);
      assert forall i :: 1 <= i < |s| ==> s[i] == s[1..][i - 1];
    }
  }

  /** Every value is counted above `v` exactly when every value exceeds `v`. */
  lemma {:induction false} CountAboveAllIff(s: seq<real>, v: real)
    ensures CountAbove(s, v) == |s| <==> forall i :: 0 <= i < |s| ==> s[i] > v
  {
    if s != [] {
      CountAboveAllIff(s[1..], v);
      assert forall i :: 1 <= i < |s| ==> s[i] == s[1..][i - 1];
    }
  }

  /** No value is counted below `v` exactly when every value is at least `v`. */
  lemma {:induction false} CountBelowZeroIff(s: seq<real>, v: real)
    ensures CountBelow(s, v) == 0 <==> forall i :: 0 <= i < |s| ==> s[i] >= v
  {
    if s != [] {
      CountBelowZeroIff(s[1..], v);
      assert forall i :: 1 <= i < |s| ==> s[i] == s[1..][i - 1];
    }
  }

  /** Both counts distribute over concatenation. */
  lemma {:induction false} CountsAppend(a: seq<real>, b: seq<real>, v: real)
    ensures CountAbove(a + b, v) == CountAbove(a, v) + CountAbove(b, v)
    ensures CountBelow(a + b, v) == CountBelow(a, v) + CountBelow(b, v)
  {
    if a != [] {
      assert (a + b)[0] == a[0];
      assert (a + b)[1..] == a[1..] + b;
      CountsAppend(a[1..], b, v);
    } else {
      assert a + b == b;
    }
  }

  /** Removing the element at index k takes it out of the multiset of values. */
  lemma MultisetRemoveAt(b: seq<real>, k: nat)
    requires k < |b|
    ensures multiset(b[..k] + b[k + 1..]) == multiset(b) - multiset{b[k]}
  {
    assert b == b[..k] + [b[k]] + b[k + 1..];
  }

  /** Dropping the head takes it out of the multiset of values. */
  lemma MultisetTail(s: seq<real>)
    requires s != []
    ensures multiset(s[1..]) == multiset(s) - multiset{s[0]}
  {
    assert s == [s[0]] + s[1..];
  }

  /** Removing the element at index k lowers each count by that element's own contribution. */
  lemma CountsRemoveAt(b: seq<real>, k: nat, v: real)
    requires k < |b|
    ensures CountAbove(b, v) == (if b[k] > v then 1 else 0) + CountAbove(b[..k] + b[k + 1..], v)
    ensures CountBelow(b, v) == (if b[k] < v then 1 else 0) + CountBelow(b[..k] + b[k + 1..], v)
  {
    var tail := [b[k]] + b[k + 1..];
    assert b == b[..k] + tail;
    assert tail[1..] == b[k + 1..];
    CountsAppend(b[..k], tail, v);
    CountsAppend(b[..k], b[k + 1..], v);
  }

  /** Both counts depend only on the multiset of values, not on their order. */
  lemma {:induction false} CountsOfPermutation(a: seq<real>, b: seq<real>, v: real)
    requires multiset(a) == multiset(b)
    ensures CountAbove(a, v) == CountAbove(b, v)
    ensures CountBelow(a, v) == CountBelow(b, v)
    decreases |a|
  {
    if a == [] {
      assert |b| == |multiset(b)| == 0;
    } else {
      var x := a[0];
      assert x in multiset(a);
      assert x in b;
      var k :| 0 <= k < |b| && b[k] == x;
      var rest := b[..k] + b[k + 1..];
      MultisetTail(a);
      MultisetRemoveAt(b, k);
      CountsOfPermutation(a[1..], rest, v);
      CountsRemoveAt(a, 0, v);
      CountsRemoveAt(b, k, v);
    }
  }

  /** Raising the threshold never increases the number of values above it. */
  lemma {:induction false} CountAboveAntitone(s: seq<real>, t1: real, t2: real)
    requires t1 <= t2
    ensures CountAbove(s, t2) <= CountAbove(s, t1)
  {
    if s != [] {
      CountAboveAntitone(s[1..], t1, t2);
    }
  }

  // ---------------------------------------------------------------------
  // Sorting (Python's `sorted`, ascending)
  // ---------------------------------------------------------------------

  /** Ascending order, stated on neighbours; SortedPairwise gives the all-pairs form. */
  predicate Sorted(s: seq<real>)
  {
    |s| <= 1 || (s[0] <= s[1] && Sorted(s[1..]))
  }

  /** In a sorted sequence every earlier value is at most every later one. */
  lemma {:induction false} SortedPairwise(s: seq<real>, i: nat, j: nat)
    requires Sorted(s) && i <= j < |s|
    ensures s[i] <= s[j]
    decreases j
  {
    if i < j {
      var t := s[1..];
      if i == 0 {
        SortedPairwise(t, 0, j - 1);
        assert s[1] == t[0];
      } else {
        SortedPairwise(t, i - 1, j - 1);
      }
      assert s[j] == t[j - 1];
    }
  }

  /** Inserts `x` into a sorted sequence, keeping it sorted; the new head is the smaller of `x` and the old head. */
  function Insert(x: real, s: seq<real>): (r: seq<real>)
    requires Sorted(s)
    ensures Sorted(r)
    ensures multiset(r) == multiset(s) + multiset{x}
    ensures r[0] == if s == [] || x <= s[0] then x else s[0]
  {
    if s == [] || x <= s[0] then
      assert ([x] + s)[1..] == s;
      [x] + s
    else
      var tail := Insert(x, s[1..]);
      assert s == [s[0]] + s[1..];
      assert ([s[0]] + tail)[1..] == tail;
      [s[0]] + tail
  }

  /** The values of `s` in ascending order: a sorted permutation of `s`. */
  function SortAscending(s: seq<real>): (r: seq<real>)
    ensures Sorted(r)
    ensures multiset(r) == multiset(s)
    ensures |r| == |s|
  {
    if s == [] then []
    else
      assert s == [s[0]] + s[1..];
      var r := Insert(s[0], SortAscending(s[1..]));
      assert |r| == |multiset(r)|;
      r
  }

  /** The head of a sorted sequence is at most any of its values. */
  lemma SortedHeadIsLeast(s: seq<real>, x: real)
    requires Sorted(s) && x in s
    ensures s[0] <= x
  {
    var j :| 0 <= j < |s| && s[j] == x;
    SortedPairwise(s, 0, j);
  }

  /** Two sorted sequences with the same values start with the same value. */
  lemma SortedSameHead(a: seq<real>, b: seq<real>)
    requires Sorted(a) && Sorted(b) && a != []
    requires multiset(a) == multiset(b)
    ensures b != [] && a[0] == b[0]
  {
    assert |b| == |multiset(b)| == |a|;
    var x, y := a[0], b[0];
    assert x in multiset(b) && y in multiset(a);
    SortedHeadIsLeast(b, x);
    SortedHeadIsLeast(a, y);
  }

  /** A sorted permutation is unique, so any correct sort yields the same list. */
  lemma {:induction false} SortedUnique(a: seq<real>, b: seq<real>)
    requires Sorted(a) && Sorted(b)
    requires multiset(a) == multiset(b)
    ensures a == b
    decreases |a|
  {
    if a == [] {
      assert |b| == |multiset(b)| == 0;
    } else {
      SortedSameHead(a, b);
      MultisetTail(a);
      MultisetTail(b);
      SortedUnique(a[1..], b[1..]);
      forall i | 0 <= i < |a| ensures a[i] == b[i] {
        if i > 0 {
          assert a[i] == a[1..][i - 1] && b[i] == b[1..][i - 1];
        }
      }
    }
  }

  /** In a sorted sequence, at most |s| - 1 - i values lie above s[i]. */
  lemma SortedRankAbove(s: seq<real>, i: nat)
    requires Sorted(s) && i < |s|
    ensures CountAbove(s, s[i]) <= |s| - 1 - i
  {
    var v := s[i];
    var low, high := s[..i + 1], s[i + 1..];
    assert s == low + high;
    CountsAppend(low, high, v);
    forall j | 0 <= j < |low| ensures low[j] <= v {
      assert low[j] == s[j];
      SortedPairwise(s, j, i);
    }
    CountAboveZeroIff(low, v);
  }

  /** In a sorted sequence, at most i values lie below s[i]. */
  lemma SortedRankBelow(s: seq<real>, i: nat)
    requires Sorted(s) && i < |s|
    ensures CountBelow(s, s[i]) <= i
  {
    var v := s[i];
    var front, back := s[..i], s[i..];
    assert s == front + back;
    CountsAppend(front, back, v);
    forall j | 0 <= j < |back| ensures back[j] >= v {
      assert back[j] == s[i + j];
      SortedPairwise(s, i, i + j);
    }
    CountBelowZeroIff(back, v);
  }

  // ---------------------------------------------------------------------
  // The 95th percentile
  // ---------------------------------------------------------------------

  /** The nearest-rank index `int(0.95 * n)`, taken as (95 * n) / 100; in range whenever n >= 1. */
  function P95Index(n: nat): (i: nat)
    ensures i <= n
    ensures n > 0 ==> i < n
    ensures n >= 2 ==> i > 0
  {
    (95 * n) / 100
  }

  /**
   * The value at index P95Index(n) of the ascending-sorted values. It is one
   * of the values; at most n - 1 - i values lie above it and at most i below it.
   */
  function P95(s: seq<real>): (p: real)
    requires s != []
    ensures p in s
    ensures Min(s) <= p <= Max(s)
    ensures CountAbove(s, p) <= |s| - 1 - P95Index(|s|)
    ensures CountBelow(s, p) <= P95Index(|s|)
  {
    var sorted := SortAscending(s);
    var i := P95Index(|s|);
    assert sorted[i] in multiset(s);
    SortedRankAbove(sorted, i);
    SortedRankBelow(sorted, i);
    CountsOfPermutation(sorted, s, sorted[i]);
    sorted[i]
  }

  /** On values that are already ascending, the percentile is read off directly. */
  lemma P95OfSorted(s: seq<real>)
    requires s != [] && Sorted(s)
    ensures P95(s) == s[P95Index(|s|)]
  {
    SortedUnique(SortAscending(s), s);
  }

  /** Values that never decrease from one index to the next are Sorted. */
  lemma {:induction false} NondecreasingIsSorted(s: seq<real>)
    requires forall i :: 0 <= i < |s| - 1 ==> s[i] <= s[i + 1]
    ensures Sorted(s)
  {
    if |s| > 1 {
      forall i | 0 <= i < |s[1..]| - 1 ensures s[1..][i] <= s[1..][i + 1] {
        assert s[1..][i] == s[i + 1] && s[1..][i + 1] == s[i + 2];
      }
      NondecreasingIsSorted(s[1..]);
    }
  }

  /** Twenty latencies 1, 2, ..., 20: index 19 is taken, so p95 is the largest, 20. */
  lemma P95OfOneToTwenty()
    ensures P95(seq(20, i => (i + 1) as real)) == 20.0
  {
    var s := seq(20, i => (i + 1) as real);
    NondecreasingIsSorted(s);
    P95OfSorted(s);
    assert P95Index(20) == 19;
  }
}
