/** The quantile a pandas Series reports by default: linear interpolation
    between the two order statistics around position `(n - 1) * p` (type 7 in
    the Hyndman–Fan classification). Missing values are dropped by the caller. */
module Quantiles {
  import opened Wrappers
  import Seqs
  import Sorting
  import RealArith

  predicate Ascending(a: seq<real>)
  {
    forall i, j :: 0 <= i < j < |a| ==> a[i] <= a[j]
  }

  /** The values in ascending order. */
  function SortAscending(xs: seq<real>): (a: seq<real>)
    ensures Ascending(a)
    ensures multiset(a) == multiset(xs)
    ensures |a| == |xs|
  {
    var a := Sorting.SortDesc(xs, x => -x);
    assert |multiset(a)| == |multiset(xs)|;
    a
  }

  /** Two ascending sequences holding the same values are equal. */
  lemma AscendingUnique(u: seq<real>, v: seq<real>)
    requires Ascending(u) && Ascending(v)
    requires multiset(u) == multiset(v)
    ensures u == v
  {
    var neg := (x: real) => -x;
    Sorting.PermutationKeys(u, v, neg);
    Sorting.SortedPermutationsEqual(Seqs.Map(u, neg), Seqs.Map(v, neg));
    assert |u| == |multiset(u)| == |v|;
    forall i | 0 <= i < |u|
      ensures u[i] == v[i]
    {
      assert Seqs.Map(u, neg)[i] == Seqs.Map(v, neg)[i];
    }
  }

  /** The order statistic just below position `(n - 1) * p`. */
  function LowerRank(n: nat, p: real): (lo: nat)
    requires n > 0 && 0.0 <= p <= 1.0
    ensures lo < n
    ensures lo as real <= ((n - 1) as real) * p < (lo + 1) as real
  {
    RealArith.FractionOf(p, (n - 1) as real);
    (((n - 1) as real) * p).Floor
  }

  /** The point a fraction `f` of the way from `lo` to `hi`. */
  function Interpolate(lo: real, hi: real, f: real): real
  {
    lo + f * (hi - lo)
  }

  lemma InterpolateBetween(lo: real, hi: real, f: real)
    requires lo <= hi && 0.0 <= f <= 1.0
    ensures lo <= Interpolate(lo, hi, f) <= hi
  {
    RealArith.PartWay(lo, hi - lo, f);
  }

  /** The `p` quantile of an ascending sequence. */
  function SortedQuantile(a: seq<real>, p: real): real
    requires |a| > 0 && 0.0 <= p <= 1.0
  {
    var lo := LowerRank(|a|, p);
    if lo + 1 < |a| then Interpolate(a[lo], a[lo + 1], ((|a| - 1) as real) * p - lo as real)
    else a[lo]
  }

  /** The `p` quantile of `xs`, undefined for no values. */
  function Quantile(xs: seq<real>, p: real): (q: Option<real>)
    requires 0.0 <= p <= 1.0
    ensures q.Some? <==> |xs| > 0
  {
    if |xs| == 0 then None else Some(SortedQuantile(SortAscending(xs), p))
  }

  /** The quantile of an ascending sequence lies between the order statistic
      at the lower rank and the next one, and so between the smallest and the
      largest value. */
  lemma SortedQuantileBracketed(a: seq<real>, p: real)
    requires |a| > 0 && 0.0 <= p <= 1.0 && Ascending(a)
    ensures var lo, q := LowerRank(|a|, p), SortedQuantile(a, p);
      && a[lo] <= q
      && (lo + 1 < |a| ==> q <= a[lo + 1])
      && a[0] <= q <= a[|a| - 1]
  {
    var lo := LowerRank(|a|, p);
    if lo + 1 < |a| {
      InterpolateBetween(a[lo], a[lo + 1], ((|a| - 1) as real) * p - lo as real);
      assert a[lo + 1] <= a[|a| - 1];
    }
    assert a[0] <= a[lo];
  }

  /** The quantile lies between the smallest and the largest value. */
  lemma QuantileWithinRange(xs: seq<real>, p: real)
    requires 0.0 <= p <= 1.0 && |xs| > 0
    ensures exists i :: 0 <= i < |xs| && xs[i] <= Quantile(xs, p).value
    ensures exists j :: 0 <= j < |xs| && Quantile(xs, p).value <= xs[j]
  {
    var a := SortAscending(xs);
    SortedQuantileBracketed(a, p);
    assert a[0] in multiset(xs) && a[|a| - 1] in multiset(xs);
    var i :| 0 <= i < |xs| && xs[i] == a[0];
    var j :| 0 <= j < |xs| && xs[j] == a[|a| - 1];
  }

  /** The quantile does not depend on the order of the values. */
  lemma QuantilePermutation(xs: seq<real>, ys: seq<real>, p: real)
    requires 0.0 <= p <= 1.0
    requires multiset(xs) == multiset(ys)
    ensures Quantile(xs, p) == Quantile(ys, p)
  {
    assert |xs| == |multiset(xs)| == |ys|;
    AscendingUnique(SortAscending(xs), SortAscending(ys));
  }

  /** The test "strictly above `q`". */
  function Above(q: real): real -> bool
  {
    x => x > q
  }

  /** In ascending order, only the values after a rank whose value is at most
      `q` can lie above `q`. */
  lemma {:induction false} AboveCountSorted(a: seq<real>, lo: nat, q: real)
    requires Ascending(a) && lo < |a| && a[lo] <= q
    ensures |Seqs.Filter(a, Above(q))| <= |a| - 1 - lo
  {
    assert a == a[..lo + 1] + a[lo + 1..];
    Seqs.FilterAppend(a[..lo + 1], a[lo + 1..], Above(q));
    assert forall i :: 0 <= i <= lo ==> a[i] <= a[lo];
    Seqs.FilterNone(a[..lo + 1], Above(q));
  }

  /** At most `n - 1 - lo` values lie strictly above the quantile: all of them
      sit after the lower rank in ascending order. */
  lemma AboveQuantileCount(xs: seq<real>, p: real)
    requires 0.0 <= p <= 1.0 && |xs| > 0
    ensures |Seqs.Filter(xs, Above(Quantile(xs, p).value))| <= |xs| - 1 - LowerRank(|xs|, p)
  {
    var a, q := SortAscending(xs), Quantile(xs, p).value;
    SortedQuantileBracketed(a, p);
    Seqs.FilterCountPermutation(xs, a, Above(q));
    AboveCountSorted(a, LowerRank(|xs|, p), q);
  }

  /** Five initial levels 10, 20, 30, 90 and 95: position 3.2 lies between 90
      and 95, so the 0.8 quantile is 91. */
  lemma QuantileOfFiveLevels(xs: seq<real>)
    requires |xs| == 5
    requires xs[0] == 10.0 && xs[1] == 20.0 && xs[2] == 30.0 && xs[3] == 90.0 && xs[4] == 95.0
    ensures Quantile(xs, 0.8) == Some(91.0)
  {
    assert Ascending(xs);
    AscendingUnique(SortAscending(xs), xs);
    FiveLevelsRank();
    assert SortedQuantile(xs, 0.8) == Interpolate(90.0, 95.0, 0.2);
  }

  lemma FiveLevelsRank()
    ensures LowerRank(5, 0.8) == 3
  {
    assert 4.0 * 0.8 == 3.2;
  }
}
