/** Generic sequence operations used by the table model: boolean-mask filtering,
    column projection and the subsequence relation. */
module Seqs {

  /** Applies `f` to every element: projecting one column out of a table. */
  function Map<T, U>(s: seq<T>, f: T -> U): (r: seq<U>)
  {
    seq(|s|, i requires 0 <= i < |s| => f(s[i]))
  }

  /** The elements of `s` that satisfy `p`, in their original order: what indexing
      a frame with a boolean mask does. */
  function Filter<T>(s: seq<T>, p: T -> bool): (r: seq<T>)
    ensures |r| <= |s|
    ensures forall i :: 0 <= i < |r| ==> r[i] in s && p(r[i])
    ensures forall i :: 0 <= i < |s| && p(s[i]) ==> s[i] in r
    decreases |s|
  {
    if |s| == 0 then []
    else
      assert s == s[..|s| - 1] + [s[|s| - 1]];
      Filter(s[..|s| - 1], p) + (if p(s[|s| - 1]) then [s[|s| - 1]] else [])
  }

  /** `idx` lists, strictly increasing, the positions of `b` that `a` is made of. */
  ghost predicate EmbeddedBy<T>(a: seq<T>, b: seq<T>, idx: seq<int>)
  {
    && |idx| == |a|
    && (forall k :: 0 <= k < |idx| ==> 0 <= idx[k] < |b| && a[k] == b[idx[k]])
    && (forall k, l :: 0 <= k < l < |idx| ==> idx[k] < idx[l])
  }

  /** `a` is obtained from `b` by deleting elements, keeping the order of the rest. */
  ghost predicate IsSubsequence<T>(a: seq<T>, b: seq<T>)
  {
    exists idx :: EmbeddedBy(a, b, idx)
  }

  /** An embedding into all but the last element of `b` is an embedding into
      `b`, and extends by that last element. */
  lemma EmbeddedExtend<T>(a: seq<T>, b: seq<T>, idx: seq<int>)
    requires |b| > 0 && EmbeddedBy(a, b[..|b| - 1], idx)
    ensures forall k :: 0 <= k < |idx| ==> idx[k] < |b| - 1
    ensures EmbeddedBy(a, b, idx)
    ensures EmbeddedBy(a + [b[|b| - 1]], b, idx + [|b| - 1])
  {
    var n := |b| - 1;
    assert forall k :: 0 <= k < |idx| ==> b[..n][idx[k]] == b[idx[k]];
  }

  /** The positions `Filter` keeps are exactly the positions whose element satisfies `p`. */
  lemma {:induction false} FilterPositions<T>(s: seq<T>, p: T -> bool) returns (idx: seq<int>)
    ensures EmbeddedBy(Filter(s, p), s, idx)
    ensures forall i :: 0 <= i < |s| ==> (p(s[i]) <==> i in idx)
    decreases |s|
  {
    if |s| == 0 {
      idx := [];
    } else {
      var n := |s| - 1;
      var pre := FilterPositions(s[..n], p);
      EmbeddedExtend(Filter(s[..n], p), s, pre);
      if p(s[n]) {
        idx := pre + [n];
      } else {
        idx := pre;
      }
      forall i | 0 <= i < |s|
        ensures p(s[i]) <==> i in idx
      {
        if i < n {
          assert s[..n][i] == s[i];
          assert i in pre <==> i in idx;
        }
      }
    }
  }

  /** Projection distributes over concatenation. */
  lemma MapAppend<T, U>(a: seq<T>, b: seq<T>, f: T -> U)
    ensures Map(a + b, f) == Map(a, f) + Map(b, f)
  {
  }

  /** Filtering then projecting, one element at a time from the end. */
  lemma MapFilterLast<T, U>(s: seq<T>, p: T -> bool, f: T -> U)
    requires |s| > 0
    ensures Map(Filter(s, p), f)
      == Map(Filter(s[..|s| - 1], p), f) + (if p(s[|s| - 1]) then [f(s[|s| - 1])] else [])
  {
    var last := s[|s| - 1];
    var tail := if p(last) then [last] else [];
    MapAppend(Filter(s[..|s| - 1], p), tail, f);
    assert Map(tail, f) == if p(last) then [f(last)] else [];
  }

  /** Removing one occurrence of `b[j]` from `b` removes one copy from its multiset. */
  lemma RemoveAt<T>(b: seq<T>, j: int)
    requires 0 <= j < |b|
    ensures b == b[..j] + [b[j]] + b[j + 1..]
    ensures multiset(b[..j] + b[j + 1..]) == multiset(b) - multiset{b[j]}
  {
    assert b == b[..j] + [b[j]] + b[j + 1..];
  }

  /** A value in the multiset of `b` occurs at some position of `b`. */
  lemma PositionOf<T>(b: seq<T>, x: T) returns (j: int)
    requires x in multiset(b)
    ensures 0 <= j < |b| && b[j] == x
  {
    assert x in b;
    j :| 0 <= j < |b| && b[j] == x;
  }

  /** Taking the first element off `a` and a matching element out of a
      permutation `b` of it leaves permutations of each other. */
  lemma RemoveMatching<T>(a: seq<T>, b: seq<T>, j: int)
    requires |a| > 0 && 0 <= j < |b| && b[j] == a[0]
    requires multiset(a) == multiset(b)
    ensures multiset(a[1..]) == multiset(b[..j] + b[j + 1..])
  {
    RemoveAt(b, j);
    RemoveAt(a, 0);
    assert a[..0] + a[1..] == a[1..];
  }

  /** Boolean-mask filtering returns a subsequence of its input. */
  lemma FilterIsSubsequence<T>(s: seq<T>, p: T -> bool)
    ensures IsSubsequence(Filter(s, p), s)
  {
    var idx := FilterPositions(s, p);
  }

  /** Deleting elements twice is deleting elements once. */
  lemma SubsequenceTransitive<T>(a: seq<T>, b: seq<T>, c: seq<T>)
    requires IsSubsequence(a, b) && IsSubsequence(b, c)
    ensures IsSubsequence(a, c)
  {
    var ab :| EmbeddedBy(a, b, ab);
    var bc :| EmbeddedBy(b, c, bc);
    var ac := seq(|ab|, k requires 0 <= k < |ab| => bc[ab[k]]);
    assert EmbeddedBy(a, c, ac);
  }

  /** Filtering distributes over concatenation. */
  lemma {:induction false} FilterAppend<T>(a: seq<T>, b: seq<T>, p: T -> bool)
    ensures Filter(a + b, p) == Filter(a, p) + Filter(b, p)
    decreases |b|
  {
    if |b| == 0 {
      assert a + b == a;
    } else {
      var n := |b| - 1;
      assert (a + b)[..|a + b| - 1] == a + b[..n];
      assert (a + b)[|a + b| - 1] == b[n];
      FilterAppend(a, b[..n], p);
    }
  }

  /** Counting the survivors of a filter one element at a time. */
  lemma FilterCountAt<T>(b: seq<T>, j: int, p: T -> bool)
    requires 0 <= j < |b|
    ensures |Filter(b, p)| == |Filter(b[..j] + b[j + 1..], p)| + (if p(b[j]) then 1 else 0)
  {
    assert b == b[..j] + ([b[j]] + b[j + 1..]);
    FilterAppend(b[..j], [b[j]] + b[j + 1..], p);
    FilterAppend([b[j]], b[j + 1..], p);
    FilterAppend(b[..j], b[j + 1..], p);
    assert Filter([b[j]], p) == (if p(b[j]) then [b[j]] else []) by {
      assert [b[j]][..0] == [];
    }
  }

  lemma FilterCountHead<T>(a: seq<T>, p: T -> bool)
    requires |a| > 0
    ensures |Filter(a, p)| == |Filter(a[1..], p)| + (if p(a[0]) then 1 else 0)
  {
    assert a == [a[0]] + a[1..];
    FilterAppend([a[0]], a[1..], p);
    assert Filter([a[0]], p) == (if p(a[0]) then [a[0]] else []) by {
      assert [a[0]][..0] == [];
    }
  }

  /** How many elements pass a filter depends only on the multiset of the input. */
  lemma {:induction false} FilterCountPermutation<T>(a: seq<T>, b: seq<T>, p: T -> bool)
    requires multiset(a) == multiset(b)
    ensures |Filter(a, p)| == |Filter(b, p)|
    decreases |a|
  {
    if |a| == 0 {
      assert |b| == |multiset(b)| == 0;
    } else {
      var j := PositionOf(b, a[0]);
      RemoveMatching(a, b, j);
      FilterCountPermutation(a[1..], b[..j] + b[j + 1..], p);
      FilterCountHead(a, p);
      FilterCountAt(b, j, p);
    }
  }

  /** Filtering a table by a condition on one column selects as many rows as
      filtering that column by the same condition. */
  lemma {:induction false} FilterMapCount<T, U>(s: seq<T>, f: T -> U, p: U -> bool, q: T -> bool)
    requires forall x :: q(x) == p(f(x))
    ensures |Filter(s, q)| == |Filter(Map(s, f), p)|
    decreases |s|
  {
    if |s| > 0 {
      var n := |s| - 1;
      assert Map(s, f)[..n] == Map(s[..n], f);
      FilterMapCount(s[..n], f, p, q);
    }
  }

  /** Nothing passes a filter that no element satisfies. */
  lemma {:induction false} FilterNone<T>(s: seq<T>, p: T -> bool)
    requires forall i :: 0 <= i < |s| ==> !p(s[i])
    ensures Filter(s, p) == []
    decreases |s|
  {
    if |s| > 0 {
      FilterNone(s[..|s| - 1], p);
    }
  }
}
