/** Sorting a table descending by a real-valued column and keeping its head:
    `sort_values(col, ascending=False).head(n)`. The library's sort is not stable,
    so nothing here depends on how ties are ordered. */
module Sorting {
  import Seqs

  /** `s` is in descending order of `key`. */
  predicate SortedDesc<T>(s: seq<T>, key: T -> real)
  {
    forall i, j :: 0 <= i < j < |s| ==> key(s[i]) >= key(s[j])
  }

  /** Every row of `s` has a key of at most `b`. */
  predicate AllAtMost<T>(s: seq<T>, key: T -> real, b: real)
  {
    forall k :: 0 <= k < |s| ==> key(s[k]) <= b
  }

  /** A bound on the keys survives adding one row within the bound and
      reordering. */
  lemma AllAtMostPermutation<T>(t: seq<T>, u: seq<T>, x: T, key: T -> real, b: real)
    requires multiset(t) == multiset(u) + multiset{x}
    requires AllAtMost(u, key, b) && key(x) <= b
    ensures AllAtMost(t, key, b)
  {
    forall k | 0 <= k < |t|
      ensures key(t[k]) <= b
    {
      assert t[k] in multiset(t);
      if t[k] != x {
        assert t[k] in multiset(u);
        var j :| 0 <= j < |u| && u[j] == t[k];
      }
    }
  }

  /** Inserts `x` into a descending sequence. */
  function Insert<T>(x: T, s: seq<T>, key: T -> real): (r: seq<T>)
    requires SortedDesc(s, key)
    ensures SortedDesc(r, key)
    ensures multiset(r) == multiset(s) + multiset{x}
    decreases |s|
  {
    if |s| == 0 then [x]
    else if key(x) >= key(s[0]) then [x] + s
    else
      var t := Insert(x, s[1..], key);
      assert s == [s[0]] + s[1..];
      AllAtMostPermutation(t, s[1..], x, key, key(s[0]));
      [s[0]] + t
  }

  /** A descending permutation of `s`. */
  function SortDesc<T>(s: seq<T>, key: T -> real): (r: seq<T>)
    ensures SortedDesc(r, key)
    ensures multiset(r) == multiset(s)
    decreases |s|
  {
    if |s| == 0 then []
    else
      assert s == [s[0]] + s[1..];
      Insert(s[0], SortDesc(s[1..], key), key)
  }

  /** Cutting a descending sequence at `m`: the head is descending, and no row
      of the tail has a larger key than a row of the head. */
  lemma HeadAndTail<T>(s: seq<T>, m: nat, key: T -> real)
    requires SortedDesc(s, key) && m <= |s|
    ensures SortedDesc(s[..m], key)
    ensures multiset(s) == multiset(s[..m]) + multiset(s[m..])
    ensures forall x, y :: x in multiset(s[m..]) && y in s[..m] ==> key(x) <= key(y)
  {
    assert s == s[..m] + s[m..];
    forall x, y | x in multiset(s[m..]) && y in s[..m]
      ensures key(x) <= key(y)
    {
      assert x in s[m..];
      var i :| 0 <= i < |s[m..]| && s[m..][i] == x;
      var j :| 0 <= j < m && s[..m][j] == y;
      assert s[j] == y && s[m + i] == x;
    }
  }

  /** The `n` rows with the largest `key`, largest first. */
  function TopN<T>(s: seq<T>, n: nat, key: T -> real): (r: seq<T>)
    ensures |r| == if |s| < n then |s| else n
    ensures SortedDesc(r, key)
    ensures multiset(r) <= multiset(s)
    ensures forall x, y :: x in multiset(s) - multiset(r) && y in r ==> key(x) <= key(y)
  {
    var sorted := SortDesc(s, key);
    var m := if |s| < n then |s| else n;
    HeadAndTail(sorted, m, key);
    assert multiset(s) - multiset(sorted[..m]) == multiset(sorted[m..]);
    sorted[..m]
  }

  /** Descending order of real values. */
  predicate Descending(u: seq<real>)
  {
    forall i, j :: 0 <= i < j < |u| ==> u[i] >= u[j]
  }

  /** Two descending real sequences holding the same values start alike: the
      largest value. */
  lemma SameMaximum(u: seq<real>, v: seq<real>)
    requires |u| > 0 && |v| > 0
    requires Descending(u) && Descending(v) && multiset(u) == multiset(v)
    ensures u[0] == v[0]
  {
    assert u[0] in multiset(v);
    var j :| 0 <= j < |v| && v[j] == u[0];
    assert v[0] in multiset(u);
    var i :| 0 <= i < |u| && u[i] == v[0];
  }

  /** Two descending real sequences holding the same values are equal. */
  lemma {:induction false} SortedPermutationsEqual(u: seq<real>, v: seq<real>)
    requires Descending(u) && Descending(v)
    requires multiset(u) == multiset(v)
    ensures u == v
    decreases |u|
  {
    if |u| == 0 {
      assert |v| == |multiset(v)| == 0;
    } else {
      assert |v| == |multiset(v)| == |u|;
      SameMaximum(u, v);
      assert u == [u[0]] + u[1..];
      assert v == [v[0]] + v[1..];
      assert multiset(u[1..]) == multiset(u) - multiset{u[0]};
      assert multiset(v[1..]) == multiset(v) - multiset{v[0]};
      SortedPermutationsEqual(u[1..], v[1..]);
    }
  }

  /** The key column of a table sorted by that key is descending. */
  lemma KeysDescending<T>(s: seq<T>, key: T -> real)
    requires SortedDesc(s, key)
    ensures Descending(Seqs.Map(s, key))
  {
  }

  /** A permutation of a table permutes its key column. */
  lemma {:induction false} PermutationKeys<T>(a: seq<T>, b: seq<T>, key: T -> real)
    requires multiset(a) == multiset(b)
    ensures multiset(Seqs.Map(a, key)) == multiset(Seqs.Map(b, key))
    decreases |a|
  {
    if |a| == 0 {
      assert |b| == |multiset(b)| == 0;
    } else {
      var j := Seqs.PositionOf(b, a[0]);
      Seqs.RemoveMatching(a, b, j);
      PermutationKeys(a[1..], b[..j] + b[j + 1..], key);
      MapHead(a, key);
      MapAround(b, j, key);
    }
  }

  /** The key column of a table: the first key and the keys of the rest. */
  lemma MapHead<T>(a: seq<T>, key: T -> real)
    requires |a| > 0
    ensures multiset(Seqs.Map(a, key)) == multiset(Seqs.Map(a[1..], key)) + multiset{key(a[0])}
  {
    assert a == [a[0]] + a[1..];
    Seqs.MapAppend([a[0]], a[1..], key);
    assert Seqs.Map([a[0]], key) == [key(a[0])];
  }

  /** The key column around one row: the keys before it, its key, the keys after. */
  lemma MapAround<T>(b: seq<T>, j: int, key: T -> real)
    requires 0 <= j < |b|
    ensures multiset(Seqs.Map(b, key))
      == multiset(Seqs.Map(b[..j] + b[j + 1..], key)) + multiset{key(b[j])}
  {
    Seqs.RemoveAt(b, j);
    Seqs.MapAppend(b[..j], [b[j]], key);
    Seqs.MapAppend(b[..j] + [b[j]], b[j + 1..], key);
    Seqs.MapAppend(b[..j], b[j + 1..], key);
    assert Seqs.Map([b[j]], key) == [key(b[j])];
  }

  /** Two descending orders of the same rows have the same key column. */
  lemma SameKeyColumn<T>(a: seq<T>, b: seq<T>, key: T -> real)
    requires multiset(a) == multiset(b)
    requires SortedDesc(a, key) && SortedDesc(b, key)
    ensures Seqs.Map(a, key) == Seqs.Map(b, key)
  {
    PermutationKeys(a, b, key);
    KeysDescending(a, key);
    KeysDescending(b, key);
    SortedPermutationsEqual(Seqs.Map(a, key), Seqs.Map(b, key));
  }

  /** Equal key columns have equal prefixes. */
  lemma KeyPrefix<T>(a: seq<T>, b: seq<T>, m: nat, key: T -> real)
    requires Seqs.Map(a, key) == Seqs.Map(b, key) && m <= |a|
    ensures Seqs.Map(a[..m], key) == Seqs.Map(b[..m], key)
  {
    assert Seqs.Map(a[..m], key) == Seqs.Map(a, key)[..m];
    assert Seqs.Map(b[..m], key) == Seqs.Map(b, key)[..m];
  }

  /** However an unstable sort orders ties, every descending permutation of `s` has
      the same key column; so the head of any of them reports the same key values
      as `TopN`. */
  lemma TieOrderIrrelevant<T>(s: seq<T>, other: seq<T>, n: nat, key: T -> real)
    requires multiset(other) == multiset(s)
    requires SortedDesc(other, key)
    ensures |TopN(s, n, key)| <= |other|
    ensures Seqs.Map(other[..|TopN(s, n, key)|], key) == Seqs.Map(TopN(s, n, key), key)
  {
    var sorted := SortDesc(s, key);
    var m := |TopN(s, n, key)|;
    assert TopN(s, n, key) == sorted[..m];
    assert |other| == |s| by {
      assert |other| == |multiset(other)|;
    }
    SameKeyColumn(other, sorted, key);
    KeyPrefix(other, sorted, m, key);
  }
}
