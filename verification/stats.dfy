/** Descriptive statistics over exact reals: sum, mean, maximum and the sample
    (n - 1) variance that pandas' `std` is the square root of. */
module Stats {
  import Seqs
  import RealArith

  function Sum(xs: seq<real>): real
    decreases |xs|
  {
    if |xs| == 0 then 0.0 else xs[0] + Sum(xs[1..])
  }

  /** Sum of squares. */
  function SumSq(ys: seq<real>): real
    decreases |ys|
  {
    if |ys| == 0 then 0.0 else RealArith.Square(ys[0]) + SumSq(ys[1..])
  }

  function Mean(xs: seq<real>): real
    requires |xs| > 0
  {
    Sum(xs) / (|xs| as real)
  }

  /** The deviations of `xs` from the centre `c`. */
  function Dev(xs: seq<real>, c: real): seq<real>
  {
    Seqs.Map(xs, x => x - c)
  }

  /** Sample variance (delta degrees of freedom 1); undefined below two values. */
  function Variance(xs: seq<real>): (v: real)
    requires |xs| >= 2
    ensures v >= 0.0
  {
    SumSqNonnegative(Dev(xs, Mean(xs)));
    RealArith.DivNonnegative(SumSq(Dev(xs, Mean(xs))), (|xs| - 1) as real);
    SumSq(Dev(xs, Mean(xs))) / ((|xs| - 1) as real)
  }

  /** The largest value. */
  function Max(xs: seq<real>): (m: real)
    requires |xs| > 0
    ensures exists i :: 0 <= i < |xs| && xs[i] == m
    ensures forall i :: 0 <= i < |xs| ==> xs[i] <= m
    decreases |xs|
  {
    if |xs| == 1 then xs[0]
    else
      var t := Max(xs[1..]);
      assert forall i :: 1 <= i < |xs| ==> xs[i] == xs[1..][i - 1];
      if xs[0] >= t then xs[0] else t
  }

  /** All values are equal. */
  predicate Constant(xs: seq<real>)
  {
    forall i :: 0 <= i < |xs| ==> xs[i] == xs[0]
  }

  lemma {:induction false} SumSqNonnegative(ys: seq<real>)
    ensures SumSq(ys) >= 0.0
    decreases |ys|
  {
    if |ys| > 0 {
      SumSqNonnegative(ys[1..]);
      RealArith.SquareNonnegative(ys[0]);
    }
  }

  /** One non-zero entry makes a sum of squares positive. */
  lemma {:induction false} SumSqPositive(ys: seq<real>, k: int)
    requires 0 <= k < |ys| && ys[k] != 0.0
    ensures SumSq(ys) > 0.0
    decreases |ys|
  {
    SumSqNonnegative(ys[1..]);
    if k == 0 {
      RealArith.SquarePositive(ys[0]);
    } else {
      assert ys[1..][k - 1] == ys[k];
      SumSqPositive(ys[1..], k - 1);
      RealArith.SquareNonnegative(ys[0]);
    }
  }

  /** All-zero entries have a zero sum of squares. */
  lemma {:induction false} SumSqZero(ys: seq<real>)
    requires forall i :: 0 <= i < |ys| ==> ys[i] == 0.0
    ensures SumSq(ys) == 0.0
    decreases |ys|
  {
    if |ys| > 0 {
      SumSqZero(ys[1..]);
    }
  }

  lemma {:induction false} SumAppend(a: seq<real>, b: seq<real>)
    ensures Sum(a + b) == Sum(a) + Sum(b)
    decreases |a|
  {
    if |a| > 0 {
      assert (a + b)[0] == a[0];
      assert (a + b)[1..] == a[1..] + b;
      SumAppend(a[1..], b);
    } else {
      assert a + b == b;
    }
  }

  lemma {:induction false} SumSqAppend(a: seq<real>, b: seq<real>)
    ensures SumSq(a + b) == SumSq(a) + SumSq(b)
    decreases |a|
  {
    if |a| > 0 {
      assert (a + b)[0] == a[0];
      assert (a + b)[1..] == a[1..] + b;
      SumSqAppend(a[1..], b);
    } else {
      assert a + b == b;
    }
  }

  /** A sum of values bounded by `b` is at most `|xs| * b`. */
  lemma {:induction false} SumAtMost(xs: seq<real>, b: real)
    requires forall i :: 0 <= i < |xs| ==> xs[i] <= b
    ensures Sum(xs) <= (|xs| as real) * b
    decreases |xs|
  {
    if |xs| > 0 {
      assert forall i :: 0 <= i < |xs| - 1 ==> xs[1..][i] == xs[i + 1];
      SumAtMost(xs[1..], b);
      RealArith.MulSuccessor((|xs| - 1) as real, b);
    }
  }

  /** The sum of `n` copies of `c` is `n * c`. */
  lemma {:induction false} SumOfConstant(xs: seq<real>, c: real)
    requires forall i :: 0 <= i < |xs| ==> xs[i] == c
    ensures Sum(xs) == (|xs| as real) * c
    decreases |xs|
  {
    if |xs| > 0 {
      SumOfConstant(xs[1..], c);
      RealArith.MulSuccessor((|xs| - 1) as real, c);
    }
  }

  /** Deviations from `c` sum to the sum less `|xs|` copies of `c`. */
  lemma {:induction false} SumDev(xs: seq<real>, c: real)
    ensures Sum(Dev(xs, c)) == Sum(xs) - (|xs| as real) * c
    decreases |xs|
  {
    if |xs| > 0 {
      assert Dev(xs, c)[1..] == Dev(xs[1..], c);
      SumDev(xs[1..], c);
      RealArith.MulSuccessor((|xs| - 1) as real, c);
    }
  }

  /** The maximum is never below the mean. */
  lemma MaxAtLeastMean(xs: seq<real>)
    requires |xs| > 0
    ensures Mean(xs) <= Max(xs)
  {
    MeanAtMost(xs, Max(xs));
  }

  /** Values bounded by `b` average to at most `b`. */
  lemma MeanAtMost(xs: seq<real>, b: real)
    requires |xs| > 0
    requires forall i :: 0 <= i < |xs| ==> xs[i] <= b
    ensures Mean(xs) <= b
  {
    SumAtMost(xs, b);
    RealArith.DivAtMost(Sum(xs), b, |xs| as real);
  }

  /** The mean times the count gives back the sum. */
  lemma MeanTimesCount(xs: seq<real>)
    requires |xs| > 0
    ensures (|xs| as real) * Mean(xs) == Sum(xs)
  {
    RealArith.MulDivCancel(Sum(xs), |xs| as real);
  }

  /** Deviations from the mean sum to zero. */
  lemma SumDevFromMean(xs: seq<real>)
    requires |xs| > 0
    ensures Sum(Dev(xs, Mean(xs))) == 0.0
  {
    SumDev(xs, Mean(xs));
    MeanTimesCount(xs);
  }

  /** In a constant sequence every value is the mean. */
  lemma ConstantIsMean(xs: seq<real>)
    requires |xs| > 0 && Constant(xs)
    ensures forall i :: 0 <= i < |xs| ==> xs[i] == Mean(xs)
  {
    SumOfConstant(xs, xs[0]);
    RealArith.MulDivCancel(xs[0], |xs| as real);
  }

  /** The sample variance is zero exactly for a constant sequence: a group whose
      values are all equal has standard deviation zero, and only such a group. */
  lemma VarianceZeroIffConstant(xs: seq<real>)
    requires |xs| >= 2
    ensures Variance(xs) == 0.0 <==> Constant(xs)
  {
    var m := Mean(xs);
    var d := Dev(xs, m);
    if Constant(xs) {
      ConstantIsMean(xs);
      SumSqZero(d);
    } else {
      var i :| 0 <= i < |xs| && xs[i] != xs[0];
      var k := if xs[0] != m then 0 else i;
      SumSqPositive(d, k);
      RealArith.DivPositive(SumSq(d), (|xs| - 1) as real);
    }
  }

  /** Sum of squared deviations from `c`, expanded around the plain sums. */
  lemma {:induction false} SumSqDev(ys: seq<real>, c: real)
    ensures SumSq(Dev(ys, c)) == SumSq(ys) - 2.0 * c * Sum(ys) + (|ys| as real) * RealArith.Square(c)
    decreases |ys|
  {
    if |ys| > 0 {
      var y, rest := ys[0], ys[1..];
      SumSqDevUnfold(ys, c);
      SumSqDev(rest, c);
      RealArith.DevStep(y, c, SumSq(rest), Sum(rest), |rest| as real, SumSq(Dev(rest, c)),
        SumSq(Dev(ys, c)), SumSq(ys), Sum(ys), |ys| as real);
    }
  }

  /** The first deviation splits off the sum of squared deviations. */
  lemma SumSqDevUnfold(ys: seq<real>, c: real)
    requires |ys| > 0
    ensures SumSq(Dev(ys, c)) == RealArith.Square(ys[0] - c) + SumSq(Dev(ys[1..], c))
  {
    assert Dev(ys, c)[1..] == Dev(ys[1..], c);
  }

  /** Cauchy–Schwarz against the all-ones vector: the square of a sum is at most
      the count times the sum of squares. */
  lemma CauchySchwarz(ys: seq<real>)
    ensures RealArith.Square(Sum(ys)) <= (|ys| as real) * SumSq(ys)
  {
    if |ys| > 0 {
      MeanTimesCount(ys);
      CauchySchwarzAbout(ys, Mean(ys));
    }
  }

  /** Cauchy–Schwarz from the squared deviations about the average `c`. */
  lemma CauchySchwarzAbout(ys: seq<real>, c: real)
    requires |ys| > 0 && (|ys| as real) * c == Sum(ys)
    ensures RealArith.Square(Sum(ys)) <= (|ys| as real) * SumSq(ys)
  {
    SumSqAboutAverage(ys, c);
    RealArith.CentredBound(Sum(ys), SumSq(ys), |ys| as real, c);
  }

  /** About the average `c`, the squared deviations sum to `SumSq - c * Sum`,
      which is therefore non-negative. */
  lemma SumSqAboutAverage(ys: seq<real>, c: real)
    requires (|ys| as real) * c == Sum(ys)
    ensures SumSq(ys) - c * Sum(ys) >= 0.0
  {
    SumSqDevNonnegative(ys, c);
    RealArith.ScaleSquare(|ys| as real, c, Sum(ys));
  }

  /** The sum of squared deviations from any centre is non-negative, in its
      expanded form. */
  lemma SumSqDevNonnegative(ys: seq<real>, c: real)
    ensures SumSq(ys) - 2.0 * c * Sum(ys) + (|ys| as real) * RealArith.Square(c) >= 0.0
  {
    SumSqDev(ys, c);
    SumSqNonnegative(Dev(ys, c));
  }

  /** Splitting a sequence around position `i`. */
  lemma SplitAt(ys: seq<real>, i: int)
    requires 0 <= i < |ys|
    ensures Sum(ys) == Sum(ys[..i] + ys[i + 1..]) + ys[i]
    ensures SumSq(ys) == SumSq(ys[..i] + ys[i + 1..]) + RealArith.Square(ys[i])
  {
    SumAround(ys, i);
    SumSqAround(ys, i);
  }

  lemma SumAround(ys: seq<real>, i: int)
    requires 0 <= i < |ys|
    ensures Sum(ys) == Sum(ys[..i] + ys[i + 1..]) + ys[i]
  {
    Reassemble(ys, i);
    SumWithout(ys, ys[..i], ys[i], ys[i + 1..]);
  }

  lemma SumSqAround(ys: seq<real>, i: int)
    requires 0 <= i < |ys|
    ensures SumSq(ys) == SumSq(ys[..i] + ys[i + 1..]) + RealArith.Square(ys[i])
  {
    Reassemble(ys, i);
    SumSqWithout(ys, ys[..i], ys[i], ys[i + 1..]);
  }

  lemma Reassemble(ys: seq<real>, i: int)
    requires 0 <= i < |ys|
    ensures ys == ys[..i] + ([ys[i]] + ys[i + 1..])
  {
  }

  /** Taking `y` out from between `front` and `back`. */
  lemma SumWithout(ys: seq<real>, front: seq<real>, y: real, back: seq<real>)
    requires ys == front + ([y] + back)
    ensures Sum(ys) == Sum(front + back) + y
  {
    SumAppend(front, [y] + back);
    SumAppend(front, back);
    SumCons(y, back);
  }

  lemma SumSqWithout(ys: seq<real>, front: seq<real>, y: real, back: seq<real>)
    requires ys == front + ([y] + back)
    ensures SumSq(ys) == SumSq(front + back) + RealArith.Square(y)
  {
    SumSqAppend(front, [y] + back);
    SumSqAppend(front, back);
    SumSqCons(y, back);
  }

  lemma SumCons(y: real, back: seq<real>)
    ensures Sum([y] + back) == y + Sum(back)
  {
    assert ([y] + back)[1..] == back;
  }

  lemma SumSqCons(y: real, back: seq<real>)
    ensures SumSq([y] + back) == RealArith.Square(y) + SumSq(back)
  {
    assert ([y] + back)[1..] == back;
  }

  /** Samuelson's inequality: no value lies further from the mean than the
      sum of squared deviations allows, `n * (x - mean)^2 <= (n - 1) * SS`. */
  lemma Samuelson(xs: seq<real>, i: int)
    requires 0 <= i < |xs|
    ensures (|xs| as real) * RealArith.Square(xs[i] - Mean(xs))
         <= ((|xs| - 1) as real) * SumSq(Dev(xs, Mean(xs)))
  {
    var d := Dev(xs, Mean(xs));
    var rest := d[..i] + d[i + 1..];
    SumDevFromMean(xs);
    SplitAt(d, i);
    CauchySchwarz(rest);
    RealArith.SquareOfNegation(d[i]);
    assert Sum(rest) == -d[i];
    RealArith.SamuelsonStep(RealArith.Square(d[i]), SumSq(d), |xs| as real);
  }

  /** Each value's squared deviation from the mean is at most `(n - 1)^2 / n`
      sample variances. */
  lemma DeviationBound(xs: seq<real>, i: int)
    requires |xs| >= 2 && 0 <= i < |xs|
    ensures (|xs| as real) * RealArith.Square(xs[i] - Mean(xs))
         <= ((|xs| - 1) as real) * ((|xs| - 1) as real) * Variance(xs)
  {
    var n1 := (|xs| - 1) as real;
    var ss := SumSq(Dev(xs, Mean(xs)));
    Samuelson(xs, i);
    RealArith.MulDivCancel(ss, n1);
    assert ss == n1 * Variance(xs);
  }

  /** `sqrt` returns the non-negative square root of every non-negative real. */
  ghost predicate IsSquareRoot(sqrt: real -> real)
  {
    forall v :: v >= 0.0 ==> sqrt(v) >= 0.0 && RealArith.Square(sqrt(v)) == v
  }

  /** The sample standard deviation, given the square root to take. */
  function StdDev(xs: seq<real>, sqrt: real -> real): (s: real)
    requires |xs| >= 2
    ensures IsSquareRoot(sqrt) ==> s >= 0.0 && RealArith.Square(s) == Variance(xs)
  {
    sqrt(Variance(xs))
  }

  /** The standard deviation is zero exactly for a constant sequence. */
  lemma StdDevZeroIffConstant(xs: seq<real>, sqrt: real -> real)
    requires |xs| >= 2 && IsSquareRoot(sqrt)
    ensures StdDev(xs, sqrt) == 0.0 <==> Constant(xs)
  {
    var s := StdDev(xs, sqrt);
    VarianceZeroIffConstant(xs);
    if s != 0.0 {
      RealArith.SquarePositive(s);
    }
  }
}
