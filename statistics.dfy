/** The descriptive statistics at the end of `distance_distribution` in
    seperation.rs: mean, median, maximum and variance of an ascending
    sequence of distances. Arithmetic is exact: the source's `f64` rounding
    and its final square root are not modelled. */
module Statistics {
  import opened Wrappers
  import opened Sorting

  /** The source returns the square root of `variance`. */
  datatype Stats = Stats(mean: real, median: nat, max: nat, variance: real)

  /** The integer sum of the distances, as the source adds them up in `usize`. */
  function Sum(s: seq<nat>): nat {
    if s == [] then 0 else Sum(s[..|s| - 1]) + s[|s| - 1]
  }

  /** The sum of `f` over the elements of `s`. */
  function Total(s: seq<nat>, f: nat -> real): real {
    if s == [] then 0.0 else Total(s[..|s| - 1], f) + f(s[|s| - 1])
  }

  function AsReal(x: nat): real {
    x as real
  }

  /** The sum of squared deviations from `mean`. */
  function SquaredDeviations(s: seq<nat>, mean: real): real {
    Total(s, x => (x as real - mean) * (x as real - mean))
  }

  /** The median rule of `distance_distribution`: the lower of the two middle
      elements when the length is even, the middle one when it is odd. */
  function Median(sorted: seq<nat>): nat
    requires sorted != []
  {
    var len := |sorted|;
    if len % 2 == 0 then sorted[len / 2 - 1] else sorted[len / 2]
  }

  /** The statistics of an ascending sequence, `None` when it is empty (the
      source panics on `last().unwrap()` there). */
  function Summarize(sorted: seq<nat>): (r: Option<Stats>)
    ensures r.None? <==> sorted == []
  {
    if sorted == [] then None
    else
      var len := |sorted| as real;
      var mean := Sum(sorted) as real / len;
      Some(Stats(mean, Median(sorted), sorted[|sorted| - 1], SquaredDeviations(sorted, mean) / len))
  }

  /** The integer sum, taken as a real, is the total of the values. */
  lemma {:induction false} SumAsTotal(s: seq<nat>)
    ensures Sum(s) as real == Total(s, AsReal)
  {
    if s != [] {
      SumAsTotal(s[..|s| - 1]);
    }
  }

  lemma {:induction false} TotalAppend(a: seq<nat>, b: seq<nat>, f: nat -> real)
    ensures Total(a + b, f) == Total(a, f) + Total(b, f)
    decreases |b|
  {
    if b == [] {
      assert a + b == a;
    } else {
      var init := b[..|b| - 1];
      assert (a + b)[..|a + b| - 1] == a + init;
      assert (a + b)[|a + b| - 1] == b[|b| - 1];
      TotalAppend(a, init, f);
    }
  }

  lemma TotalSingle(x: nat, f: nat -> real)
    ensures Total([x], f) == f(x)
  {
    assert [x][..0] == [];
  }

  /** Taking one element out of a sequence takes its value out of the total. */
  lemma TotalRemoveAt(s: seq<nat>, j: nat, f: nat -> real)
    requires j < |s|
    ensures Total(s, f) == Total(s[..j] + s[j + 1..], f) + f(s[j])
  {
    var pre, x, post := s[..j], s[j], s[j + 1..];
    var mid := [x] + post;
    assert s == pre + mid;
    TotalAppend(pre, mid, f);
    TotalAppend([x], post, f);
    TotalSingle(x, f);
    TotalAppend(pre, post, f);
  }

  /** The total depends only on the multiset of the values, not on their order. */
  lemma {:induction false} TotalPermutation(a: seq<nat>, b: seq<nat>, f: nat -> real)
    requires multiset(a) == multiset(b)
    ensures Total(a, f) == Total(b, f)
    decreases |a|
  {
    if a == [] {
      assert |b| == |multiset(b)| == 0;
    } else {
      var last := a[|a| - 1];
      assert last in multiset(b);
      var j :| 0 <= j < |b| && b[j] == last;
      var init := a[..|a| - 1];
      var rest := b[..j] + b[j + 1..];
      RemoveLast(a);
      RemoveAt(b, j);
      TotalPermutation(init, rest, f);
      TotalRemoveAt(b, j, f);
    }
  }

  lemma RemoveLast(a: seq<nat>)
    requires a != []
    ensures multiset(a[..|a| - 1]) == multiset(a) - multiset{a[|a| - 1]}
  {
    assert a == a[..|a| - 1] + [a[|a| - 1]];
  }

  lemma RemoveAt(b: seq<nat>, j: nat)
    requires j < |b|
    ensures multiset(b[..j] + b[j + 1..]) == multiset(b) - multiset{b[j]}
  {
    assert b == b[..j] + [b[j]] + b[j + 1..];
  }

  /** Values between `lo` and `hi` give a total between `|s| * lo` and `|s| * hi`. */
  lemma {:induction false} TotalBounds(s: seq<nat>, f: nat -> real, lo: real, hi: real)
    requires forall k :: 0 <= k < |s| ==> lo <= f(s[k]) <= hi
    ensures |s| as real * lo <= Total(s, f) <= |s| as real * hi
  {
    if s != [] {
      var init := s[..|s| - 1];
      assert forall k :: 0 <= k < |init| ==> init[k] == s[k];
      TotalBounds(init, f, lo, hi);
    }
  }

  /** The sum of the distances does not depend on their order. */
  lemma SumPermutation(a: seq<nat>, b: seq<nat>)
    requires multiset(a) == multiset(b)
    ensures Sum(a) == Sum(b)
  {
    SumAsTotal(a);
    SumAsTotal(b);
    TotalPermutation(a, b, AsReal);
  }

  /** The sum of squared deviations does not depend on the order of the values. */
  lemma SquaredDeviationsPermutation(a: seq<nat>, b: seq<nat>, mean: real)
    requires multiset(a) == multiset(b)
    ensures SquaredDeviations(a, mean) == SquaredDeviations(b, mean)
  {
    TotalPermutation(a, b, x => (x as real - mean) * (x as real - mean));
  }

  /** The maximum reported is the largest distance, and it is one of them. */
  lemma MaxIsLargest(sorted: seq<nat>)
    requires Sorted(sorted) && sorted != []
    ensures Summarize(sorted).value.max in sorted
    ensures forall x :: x in sorted ==> x <= Summarize(sorted).value.max
  {
  }

  /** The median is the element at index `(len - 1) / 2`: every element
      before it is no larger and every element after it is no smaller. */
  lemma MedianIsMiddle(sorted: seq<nat>)
    requires Sorted(sorted) && sorted != []
    ensures Summarize(sorted).value.median == sorted[(|sorted| - 1) / 2]
    ensures forall k :: 0 <= k <= (|sorted| - 1) / 2 ==> sorted[k] <= Summarize(sorted).value.median
    ensures forall k :: (|sorted| - 1) / 2 <= k < |sorted| ==> Summarize(sorted).value.median <= sorted[k]
  {
  }

  /** The mean lies between the smallest and the largest distance. */
  lemma MeanBounds(sorted: seq<nat>)
    requires Sorted(sorted) && sorted != []
    ensures sorted[0] as real <= Summarize(sorted).value.mean <= sorted[|sorted| - 1] as real
  {
    var len := |sorted| as real;
    var lo := sorted[0] as real;
    var hi := sorted[|sorted| - 1] as real;
    TotalBounds(sorted, AsReal, lo, hi);
    SumAsTotal(sorted);
    DivideBounds(Sum(sorted) as real, len, lo, hi);
  }

  /** Dividing by a positive count keeps bounds that hold per element. */
  lemma DivideBounds(sum: real, len: real, lo: real, hi: real)
    requires len > 0.0 && len * lo <= sum <= len * hi
    ensures lo <= sum / len <= hi
  {
    assert sum == len * (sum / len);
  }

  /** A total of squares is never negative. */
  lemma {:induction false} SquaredDeviationsNonNegative(s: seq<nat>, mean: real)
    ensures SquaredDeviations(s, mean) >= 0.0
  {
    if s != [] {
      var init := s[..|s| - 1];
      SquaredDeviationsNonNegative(init, mean);
      var diff := s[|s| - 1] as real - mean;
      assert diff * diff >= 0.0;
    }
  }

  /** The variance is never negative, so its square root exists. */
  lemma VarianceNonNegative(sorted: seq<nat>)
    requires sorted != []
    ensures Summarize(sorted).value.variance >= 0.0
  {
    var mean := Sum(sorted) as real / |sorted| as real;
    SquaredDeviationsNonNegative(sorted, mean);
  }

  /** Summarizing the sorted distances gives the statistics of the distances
      in any order: their mean, a maximum that is the largest of them, and
      the mean squared deviation from that mean. */
  lemma SummarizeSort(d: seq<nat>)
    requires d != []
    ensures var r := Summarize(Sort(d)).value;
            && r.mean == Sum(d) as real / |d| as real
            && r.max in d && (forall x :: x in d ==> x <= r.max)
            && r.variance == SquaredDeviations(d, r.mean) / |d| as real
  {
    var sorted := Sort(d);
    var r := Summarize(sorted).value;
    SumPermutation(sorted, d);
    SquaredDeviationsPermutation(sorted, d, r.mean);
    MaxIsLargest(sorted);
    SameMembers(sorted, d);
  }

  /** Sequences with the same multiset have the same members. */
  lemma SameMembers(a: seq<nat>, b: seq<nat>)
    requires multiset(a) == multiset(b)
    ensures forall x :: x in a <==> x in b
  {
    forall x
      ensures x in a <==> x in b
    {
      assert x in a <==> x in multiset(a);
      assert x in b <==> x in multiset(b);
    }
  }
}
