/** The selection of reportable changes (`filtered_sparkline`): the change
    detector's candidates for one measure are kept when they start high, when
    their entity's rate series has no spike, and when they are the first row of
    their entity; the ten largest proportional changes are reported with the
    calendar month of the detected change. */
module Selection {
  import opened Wrappers
  import Seqs
  import Sorting
  import Stats
  import Quantiles
  import Months
  import RealArith

  /** Candidates must start above this quantile of the batch's initial levels. */
  const LevelQuantile: real := 0.8
  /** A series maximum at or above `mean + SpikeZ * std` is a spike. */
  const SpikeZ: real := 1.96
  /** At most this many changes are reported. */
  const TopCount: nat := 10

  /** One row of the change detector's output for an entity and a measure:
      the initial level, the proportional level change and the 1-based index
      of the month in which the change was detected. */
  datatype Candidate = Candidate(measure: string, code: string, initLevel: real, levdProp: real, tFirst: int)

  /** One row of the rate data: an entity's rate in a month, `None` when the
      rate is undefined. */
  datatype Observation = Observation(code: string, month: Months.YearMonth, rate: Option<real>)

  /** One reported change. */
  datatype Reported = Reported(code: string, changeMonth: Months.YearMonth, levdProp: real)

  datatype Error =
    | MissingMeasure   // the candidate table has no rows for the measure
    | UnalignableMask  // a candidate's entity has no rate data, so the spike mask cannot be aligned

  // ---- Stage 0: the candidates of one measure ----

  function OfMeasure(measure: string): Candidate -> bool
  {
    (c: Candidate) => c.measure == measure
  }

  function ForMeasure(cands: seq<Candidate>, measure: string): (r: seq<Candidate>)
    ensures forall i :: 0 <= i < |r| ==> r[i] in cands && r[i].measure == measure
    ensures forall i :: 0 <= i < |cands| && cands[i].measure == measure ==> cands[i] in r
  {
    Seqs.Filter(cands, OfMeasure(measure))
  }

  /** The measure's rows are, in their original order, exactly the candidate
      rows of that measure: the kept positions `idx` fix them row by row, so a
      repeated row is kept as often as it occurs. */
  lemma ForMeasureExactly(cands: seq<Candidate>, measure: string) returns (idx: seq<int>)
    ensures Seqs.EmbeddedBy(ForMeasure(cands, measure), cands, idx)
    ensures forall i :: 0 <= i < |cands| ==> (i in idx <==> cands[i].measure == measure)
  {
    idx := Seqs.FilterPositions(cands, OfMeasure(measure));
  }

  // ---- Stage 1: starts high ----

  function InitLevel(c: Candidate): real
  {
    c.initLevel
  }

  function LevelThreshold(cands: seq<Candidate>): (q: Option<real>)
    ensures q.Some? <==> |cands| > 0
  {
    Quantiles.Quantile(Seqs.Map(cands, InitLevel), LevelQuantile)
  }

  function StartsAbove(q: real): Candidate -> bool
  {
    (c: Candidate) => c.initLevel > q
  }

  /** The candidates whose initial level is strictly above the threshold. */
  function StartsHigh(cands: seq<Candidate>): (r: seq<Candidate>)
    ensures |r| <= |cands|
  {
    match LevelThreshold(cands)
    case None => []
    case Some(q) => Seqs.Filter(cands, StartsAbove(q))
  }

  // ---- Stage 2: no spike ----

  /** The observation belongs to entity `code` and has a defined rate. */
  function RatedFor(code: string): Observation -> bool
  {
    (o: Observation) => o.code == code && o.rate.Some?
  }

  /** The rate of an observation whose rate is defined. */
  function RateOf(o: Observation): real
  {
    if o.rate.Some? then o.rate.value else 0.0
  }

  /** The defined rates of an entity, in row order: the rate column of the
      entity's rows that have a rate. */
  function Rates(obs: seq<Observation>, code: string): (xs: seq<real>)
    ensures xs == Seqs.Map(Seqs.Filter(obs, RatedFor(code)), RateOf)
    ensures |xs| <= |obs|
    ensures forall i :: 0 <= i < |obs| && obs[i].code == code && obs[i].rate.Some?
              ==> obs[i].rate.value in xs
    decreases |obs|
  {
    if |obs| == 0 then []
    else
      var last := obs[|obs| - 1];
      Seqs.MapFilterLast(obs, RatedFor(code), RateOf);
      Rates(obs[..|obs| - 1], code)
        + (if last.code == code && last.rate.Some? then [last.rate.value] else [])
  }

  /** Every rate in an entity's series is the defined rate of one of its rows. */
  lemma RatesOnlyEntity(obs: seq<Observation>, code: string)
    ensures var xs := Rates(obs, code);
      forall k :: 0 <= k < |xs| ==>
        exists i :: 0 <= i < |obs| && obs[i].code == code && obs[i].rate == Some(xs[k])
  {
    var kept := Seqs.Filter(obs, RatedFor(code));
    forall k | 0 <= k < |kept|
      ensures exists i :: 0 <= i < |obs| && obs[i].code == code && obs[i].rate == Some(RateOf(kept[k]))
    {
      assert kept[k] in obs && RatedFor(code)(kept[k]);
      var i :| 0 <= i < |obs| && obs[i] == kept[k];
    }
  }

  /** The entity has at least one row in the rate data. */
  predicate Present(obs: seq<Observation>, code: string)
  {
    exists i :: 0 <= i < |obs| && obs[i].code == code
  }

  /** The spike test: the series maximum lies strictly below the mean plus
      `SpikeZ` standard deviations. With fewer than two values the standard
      deviation is NaN and the comparison is false. */
  predicate SpikeFree(xs: seq<real>, sqrt: real -> real)
  {
    |xs| >= 2 && Stats.Max(xs) < Stats.Mean(xs) + SpikeZ * Stats.StdDev(xs, sqrt)
  }

  function Stable(obs: seq<Observation>, sqrt: real -> real): Candidate -> bool
  {
    (c: Candidate) => SpikeFree(Rates(obs, c.code), sqrt)
  }

  predicate AllPresent(cands: seq<Candidate>, obs: seq<Observation>)
  {
    forall i :: 0 <= i < |cands| ==> Present(obs, cands[i].code)
  }

  /** The candidates whose entity's series has no spike. Masking by a
      per-entity table fails when a candidate's entity is not in it. */
  function DropSpikes(cands: seq<Candidate>, obs: seq<Observation>, sqrt: real -> real)
    : (r: Result<seq<Candidate>, Error>)
    ensures r.Failure? <==> !AllPresent(cands, obs)
    ensures r.Failure? ==> r.error == UnalignableMask
  {
    if AllPresent(cands, obs) then Success(Seqs.Filter(cands, Stable(obs, sqrt)))
    else Failure(UnalignableMask)
  }

  // ---- Stage 3: first row per entity ----

  /** Some row of `s` belongs to entity `code`. */
  predicate HasCode(s: seq<Candidate>, code: string)
  {
    exists j :: 0 <= j < |s| && s[j].code == code
  }

  /** No two rows share an entity. */
  predicate DistinctCodes(s: seq<Candidate>)
  {
    forall i, j :: 0 <= i < j < |s| ==> s[i].code != s[j].code
  }

  /** Keeps the first row of every entity, in order. */
  function Dedup(s: seq<Candidate>): (r: seq<Candidate>)
    ensures |r| <= |s|
    decreases |s|
  {
    if |s| == 0 then []
    else
      var init, last := s[..|s| - 1], s[|s| - 1];
      var front := Dedup(init);
      if HasCode(init, last.code) then front else front + [last]
  }

  // ---- Stage 4: the largest proportional changes ----

  function LevdProp(c: Candidate): real
  {
    c.levdProp
  }

  function Top(s: seq<Candidate>): (r: seq<Candidate>)
    ensures |r| <= TopCount
  {
    Sorting.TopN(s, TopCount, LevdProp)
  }

  // ---- The month of the change ----

  /** The earliest month of the rate data. */
  function EarliestMonth(obs: seq<Observation>): (m: Option<Months.YearMonth>)
    ensures m.Some? <==> |obs| > 0
    ensures m.Some? ==> exists i :: 0 <= i < |obs| && obs[i].month == m.value
    ensures m.Some? ==> forall i :: 0 <= i < |obs| ==> Months.Ordinal(m.value) <= Months.Ordinal(obs[i].month)
    decreases |obs|
  {
    if |obs| == 0 then None
    else
      var last := obs[|obs| - 1];
      match EarliestMonth(obs[..|obs| - 1])
      case None => Some(last.month)
      case Some(e) =>
        assert forall i :: 0 <= i < |obs| - 1 ==> obs[..|obs| - 1][i] == obs[i];
        if Months.Ordinal(last.month) < Months.Ordinal(e) then Some(last.month) else Some(e)
  }

  function ReportOf(earliest: Months.YearMonth): Candidate -> Reported
  {
    (c: Candidate) => Reported(c.code, Months.ChangeMonth(earliest, c.tFirst), c.levdProp)
  }

  // ---- The whole selection ----

  /** Stages 0 to 4: the candidates that are reported, best first. */
  function Selected(cands: seq<Candidate>, obs: seq<Observation>, measure: string, sqrt: real -> real)
    : (r: Result<seq<Candidate>, Error>)
    ensures r.Success? ==> |r.value| <= TopCount
    ensures r == Failure(MissingMeasure) <==> |ForMeasure(cands, measure)| == 0
    ensures r == Failure(UnalignableMask) <==>
      |ForMeasure(cands, measure)| > 0 && !AllPresent(StartsHigh(ForMeasure(cands, measure)), obs)
  {
    var own := ForMeasure(cands, measure);
    if |own| == 0 then Failure(MissingMeasure)
    else
      match DropSpikes(StartsHigh(own), obs, sqrt)
      case Failure(e) => Failure(e)
      case Success(stable) => Success(Top(Dedup(stable)))
  }

  /** The reported changes with the calendar month of each change. */
  function FilteredSparkline(cands: seq<Candidate>, obs: seq<Observation>, measure: string, sqrt: real -> real)
    : (r: Result<seq<Reported>, Error>)
    ensures r.Success? ==> |r.value| <= TopCount
    ensures r == Failure(MissingMeasure) <==> |ForMeasure(cands, measure)| == 0
    ensures r == Failure(UnalignableMask) <==>
      |ForMeasure(cands, measure)| > 0 && !AllPresent(StartsHigh(ForMeasure(cands, measure)), obs)
  {
    match Selected(cands, obs, measure, sqrt)
    case Failure(e) => Failure(e)
    case Success(top) =>
      match EarliestMonth(obs)
      case None => Success([])
      case Some(e) => Success(Seqs.Map(top, ReportOf(e)))
  }

  // ---- Stage 1 properties ----

  /** The survivors of stage 1 are, in their original order, exactly the
      candidates strictly above the threshold; one exactly at it is dropped.
      The kept positions `idx` fix the survivors row by row, so a repeated
      row is kept as often as it occurs. */
  lemma StartsHighExactly(cands: seq<Candidate>) returns (idx: seq<int>)
    requires |cands| > 0
    ensures var q, r := LevelThreshold(cands).value, StartsHigh(cands);
      && (forall k :: 0 <= k < |r| ==> r[k].initLevel > q)
      && (forall i :: 0 <= i < |cands| ==> (cands[i] in r <==> cands[i].initLevel > q))
      && Seqs.IsSubsequence(r, cands)
    ensures Seqs.EmbeddedBy(StartsHigh(cands), cands, idx)
    ensures forall i :: 0 <= i < |cands| ==> (i in idx <==> cands[i].initLevel > LevelThreshold(cands).value)
  {
    var q := LevelThreshold(cands).value;
    Seqs.FilterIsSubsequence(cands, StartsAbove(q));
    idx := Seqs.FilterPositions(cands, StartsAbove(q));
  }

  /** Stage 1 keeps at most `n - 1 - floor(0.8 (n - 1))` of `n` candidates. */
  lemma StartsHighCount(cands: seq<Candidate>)
    requires |cands| > 0
    ensures |StartsHigh(cands)| <= |cands| - 1 - Quantiles.LowerRank(|cands|, LevelQuantile)
  {
    var levels := Seqs.Map(cands, InitLevel);
    var q := LevelThreshold(cands).value;
    Quantiles.AboveQuantileCount(levels, LevelQuantile);
    Seqs.FilterMapCount(cands, InitLevel, Quantiles.Above(q), StartsAbove(q));
  }

  /** Initial levels 10, 20, 30, 90 and 95 give the threshold 91, so only the
      candidate at 95 starts high. */
  lemma StartsHighFiveLevels(cands: seq<Candidate>)
    requires |cands| == 5
    requires cands[0].initLevel == 10.0 && cands[1].initLevel == 20.0 && cands[2].initLevel == 30.0
    requires cands[3].initLevel == 90.0 && cands[4].initLevel == 95.0
    ensures LevelThreshold(cands) == Some(91.0)
    ensures StartsHigh(cands) == [cands[4]]
  {
    Quantiles.QuantileOfFiveLevels(Seqs.Map(cands, InitLevel));
    Seqs.FilterNone(cands[..4], StartsAbove(91.0));
  }

  // ---- Stage 2 properties ----

  /** The spike test without square roots: the maximum's squared distance from
      the mean is below `SpikeZ^2` sample variances. */
  lemma SpikeFreeSquared(xs: seq<real>, sqrt: real -> real)
    requires Stats.IsSquareRoot(sqrt)
    ensures SpikeFree(xs, sqrt) <==>
      |xs| >= 2 && RealArith.Square(Stats.Max(xs) - Stats.Mean(xs))
                   < RealArith.Square(SpikeZ) * Stats.Variance(xs)
  {
    if |xs| >= 2 {
      Stats.MaxAtLeastMean(xs);
      WithinZ(Stats.Max(xs) - Stats.Mean(xs), Stats.StdDev(xs, sqrt), Stats.Variance(xs));
    }
  }

  /** A non-negative distance lies within `SpikeZ` times a root exactly when
      its square lies within `SpikeZ^2` times the radicand. */
  lemma WithinZ(d: real, s: real, v: real)
    requires d >= 0.0 && s >= 0.0 && RealArith.Square(s) == v
    ensures d < SpikeZ * s <==> RealArith.Square(d) < RealArith.Square(SpikeZ) * v
  {
    RealArith.SquareMonotone(d, SpikeZ * s);
    RealArith.SquareOfProduct(SpikeZ, s);
  }

  /** A successful stage 2 keeps, in their original order, exactly the
      candidates whose entity's series passes the spike test; an entity with
      fewer than two defined rates never passes. The kept positions `idx`
      fix the survivors row by row. */
  lemma DropSpikesExactly(cands: seq<Candidate>, obs: seq<Observation>, sqrt: real -> real)
    returns (idx: seq<int>)
    requires AllPresent(cands, obs)
    ensures DropSpikes(cands, obs, sqrt).Success?
    ensures var r := DropSpikes(cands, obs, sqrt).value;
      && (forall k :: 0 <= k < |r| ==> |Rates(obs, r[k].code)| >= 2 && SpikeFree(Rates(obs, r[k].code), sqrt))
      && (forall i :: 0 <= i < |cands| ==> (cands[i] in r <==> SpikeFree(Rates(obs, cands[i].code), sqrt)))
      && Seqs.IsSubsequence(r, cands)
    ensures Seqs.EmbeddedBy(DropSpikes(cands, obs, sqrt).value, cands, idx)
    ensures forall i :: 0 <= i < |cands| ==> (i in idx <==> SpikeFree(Rates(obs, cands[i].code), sqrt))
  {
    Seqs.FilterIsSubsequence(cands, Stable(obs, sqrt));
    idx := Seqs.FilterPositions(cands, Stable(obs, sqrt));
  }

  /** A constant series has standard deviation zero and its maximum is its
      mean, so it fails the strict test. */
  lemma ConstantSeriesFails(xs: seq<real>, sqrt: real -> real)
    requires Stats.IsSquareRoot(sqrt) && |xs| >= 2 && Stats.Constant(xs)
    ensures !SpikeFree(xs, sqrt)
  {
    Stats.StdDevZeroIffConstant(xs, sqrt);
    Stats.ConstantIsMean(xs);
  }

  /** A series of two to five values that are not all equal always passes:
      by Samuelson's inequality no value of `n` lies more than
      `(n - 1) / sqrt(n) <= 1.79` standard deviations from the mean. */
  lemma ShortSeriesPasses(xs: seq<real>, sqrt: real -> real)
    requires Stats.IsSquareRoot(sqrt)
    requires 2 <= |xs| <= 5 && !Stats.Constant(xs)
    ensures SpikeFree(xs, sqrt)
  {
    var i :| 0 <= i < |xs| && xs[i] == Stats.Max(xs);
    var d := RealArith.Square(Stats.Max(xs) - Stats.Mean(xs));
    var v := Stats.Variance(xs);
    Stats.DeviationBound(xs, i);
    Stats.VarianceZeroIffConstant(xs);
    assert v > 0.0;
    assert RealArith.Square(SpikeZ) == 3.8416;
    if |xs| == 2 {
      assert 2.0 * d <= v;
    } else if |xs| == 3 {
      assert 3.0 * d <= 4.0 * v;
    } else if |xs| == 4 {
      assert 4.0 * d <= 9.0 * v;
    } else {
      assert 5.0 * d <= 16.0 * v;
    }
    SpikeFreeSquared(xs, sqrt);
  }

  /** The two five-month series 1, 1, 1, 1, 50 and 1, 2, 3, 8, 9 both pass the
      spike test. */
  lemma FiveMonthSeriesPass(spiky: seq<real>, rising: seq<real>, sqrt: real -> real)
    requires Stats.IsSquareRoot(sqrt)
    requires |spiky| == 5 && spiky[0] == 1.0 && spiky[1] == 1.0 && spiky[2] == 1.0
    requires spiky[3] == 1.0 && spiky[4] == 50.0
    requires |rising| == 5 && rising[0] == 1.0 && rising[1] == 2.0 && rising[2] == 3.0
    requires rising[3] == 8.0 && rising[4] == 9.0
    ensures SpikeFree(spiky, sqrt) && SpikeFree(rising, sqrt)
  {
    ShortSeriesPasses(spiky, sqrt);
    ShortSeriesPasses(rising, sqrt);
  }

  /** Six months at 0, 0, 0, 0, 0 and 1: the mean is 1/6 and the sample
      variance 1/6, so the last month lies `5 / sqrt(6) > 1.96` standard
      deviations above the mean and the entity is dropped as a spike. */
  lemma SixMonthSpikeFails(xs: seq<real>, sqrt: real -> real)
    requires Stats.IsSquareRoot(sqrt)
    requires |xs| == 6 && xs[5] == 1.0
    requires forall i :: 0 <= i < 5 ==> xs[i] == 0.0
    ensures !SpikeFree(xs, sqrt)
  {
    var zeros := xs[..5];
    assert xs == zeros + [1.0];
    Stats.SumAppend(zeros, [1.0]);
    Stats.SumOfConstant(zeros, 0.0);
    Stats.SumSqAppend(zeros, [1.0]);
    Stats.SumSqZero(zeros);
    assert Stats.Sum(xs) == 1.0;
    assert Stats.SumSq(xs) == 1.0;
    var m := Stats.Mean(xs);
    assert m == 1.0 / 6.0;
    Stats.SumSqDev(xs, m);
    assert Stats.Variance(xs) == 1.0 / 6.0;
    var i :| 0 <= i < 6 && xs[i] == Stats.Max(xs);
    assert Stats.Max(xs) == 1.0;
    SpikeFreeSquared(xs, sqrt);
  }

  // ---- Stage 3 properties ----

  /** The positions `Dedup` keeps are exactly those whose entity has not
      occurred earlier: each kept row is the first row of its entity. */
  lemma {:induction false} DedupPositions(s: seq<Candidate>) returns (idx: seq<int>)
    ensures Seqs.EmbeddedBy(Dedup(s), s, idx)
    ensures forall i :: 0 <= i < |s| ==> (i in idx <==> !HasCode(s[..i], s[i].code))
    decreases |s|
  {
    if |s| == 0 {
      idx := [];
    } else {
      var n := |s| - 1;
      var pre := DedupPositions(s[..n]);
      Seqs.EmbeddedExtend(Dedup(s[..n]), s, pre);
      if HasCode(s[..n], s[n].code) {
        idx := pre;
      } else {
        idx := pre + [n];
      }
      EarlierPositions(s, pre, idx);
    }
  }

  /** The positions before the last are kept by `Dedup(s)` exactly when they
      are kept by `Dedup` of all but the last row. */
  lemma EarlierPositions(s: seq<Candidate>, pre: seq<int>, idx: seq<int>)
    requires |s| > 0
    requires forall i :: 0 <= i < |s| - 1 ==>
      (i in pre <==> !HasCode(s[..|s| - 1][..i], s[..|s| - 1][i].code))
    requires idx == pre || idx == pre + [|s| - 1]
    ensures forall i :: 0 <= i < |s| - 1 ==> (i in idx <==> !HasCode(s[..i], s[i].code))
  {
    var n := |s| - 1;
    forall i | 0 <= i < n
      ensures i in idx <==> !HasCode(s[..i], s[i].code)
    {
      assert s[..n][i] == s[i];
      assert s[..n][..i] == s[..i];
      assert i in pre <==> i in idx;
    }
  }

  /** `Dedup` deletes rows and keeps the order of the rest. */
  lemma DedupIsSubsequence(s: seq<Candidate>)
    ensures Seqs.IsSubsequence(Dedup(s), s)
  {
    var idx := DedupPositions(s);
  }

  /** No two rows left by `Dedup` share an entity. */
  lemma DedupDistinct(s: seq<Candidate>)
    ensures DistinctCodes(Dedup(s))
  {
    var r := Dedup(s);
    var idx := DedupPositions(s);
    forall i, j | 0 <= i < j < |r|
      ensures r[i].code != r[j].code
    {
      assert idx[j] in idx;
      assert !HasCode(s[..idx[j]], s[idx[j]].code);
      assert s[..idx[j]][idx[i]] == s[idx[i]];
    }
  }

  /** `Dedup` only keeps rows of its input. */
  lemma DedupMember(s: seq<Candidate>, c: Candidate)
    requires c in Dedup(s)
    ensures c in s
  {
    var idx := DedupPositions(s);
    var k :| 0 <= k < |Dedup(s)| && Dedup(s)[k] == c;
    assert s[idx[k]] == c;
  }

  /** Every entity of the input keeps a row. */
  lemma {:induction false} DedupCovers(s: seq<Candidate>, code: string)
    ensures HasCode(Dedup(s), code) <==> HasCode(s, code)
    decreases |s|
  {
    if |s| > 0 {
      var n := |s| - 1;
      DedupCovers(s[..n], code);
      var front := Dedup(s[..n]);
      assert Dedup(s) == front || Dedup(s) == front + [s[n]];
      if HasCode(s[..n], code) {
        var j :| 0 <= j < n && s[..n][j].code == code;
        assert s[j].code == code;
        var k :| 0 <= k < |front| && front[k].code == code;
        assert Dedup(s)[k] == front[k];
      }
      if HasCode(Dedup(s), code) {
        var k :| 0 <= k < |Dedup(s)| && Dedup(s)[k].code == code;
        if k < |front| {
          assert front[k].code == code;
        } else {
          assert s[n].code == code;
        }
      }
      if HasCode(s, code) && !HasCode(s[..n], code) {
        assert s[n].code == code;
        assert Dedup(s)[|Dedup(s)| - 1] == s[n];
      }
    }
  }

  /** A row occurs at most once in a table with distinct entities. */
  lemma AtMostOnce(b: seq<Candidate>, x: Candidate)
    requires DistinctCodes(b)
    ensures multiset(b)[x] <= 1
  {
    if x in b {
      var p :| 0 <= p < |b| && b[p] == x;
      assert b == b[..p] + [x] + b[p + 1..];
      assert forall k :: 0 <= k < |b| && k != p ==> b[k] != x;
      assert x !in b[..p];
      assert x !in b[p + 1..];
    }
  }

  /** Two positions holding the same row give it multiplicity two. */
  lemma Twice(a: seq<Candidate>, i: int, j: int)
    requires 0 <= i < j < |a|
    ensures a[i] == a[j] ==> multiset(a)[a[i]] >= 2
  {
    assert a == a[..j] + a[j..];
    assert a[..j][i] == a[i];
    assert a[j..][0] == a[j];
  }

  /** In a table with distinct entities a row is determined by its entity. */
  lemma SameCodeSameRow(b: seq<Candidate>, x: Candidate, y: Candidate)
    requires DistinctCodes(b) && x in b && y in b
    ensures x.code == y.code ==> x == y
  {
  }

  /** Selecting rows of a table with distinct entities keeps them distinct. */
  lemma DistinctSubMultiset(a: seq<Candidate>, b: seq<Candidate>)
    requires DistinctCodes(b) && multiset(a) <= multiset(b)
    ensures DistinctCodes(a)
  {
    forall i, j | 0 <= i < j < |a|
      ensures a[i].code != a[j].code
    {
      assert a[i] in multiset(b) && a[j] in multiset(b);
      SameCodeSameRow(b, a[i], a[j]);
      Twice(a, i, j);
      AtMostOnce(b, a[i]);
    }
  }

  // ---- The whole selection ----

  /** The candidates that reach stage 3. */
  function Stage2(cands: seq<Candidate>, obs: seq<Observation>, measure: string, sqrt: real -> real)
    : seq<Candidate>
  {
    Seqs.Filter(StartsHigh(ForMeasure(cands, measure)), Stable(obs, sqrt))
  }

  /** The rows reaching stage 4 are a subsequence of the candidate table:
      stages 0 to 3 only delete rows and never reorder them. */
  lemma StagesKeepOrder(cands: seq<Candidate>, obs: seq<Observation>, measure: string, sqrt: real -> real)
    requires |ForMeasure(cands, measure)| > 0 && AllPresent(StartsHigh(ForMeasure(cands, measure)), obs)
    ensures Seqs.IsSubsequence(Dedup(Stage2(cands, obs, measure, sqrt)), cands)
  {
    var own := ForMeasure(cands, measure);
    var high := StartsHigh(own);
    var stable := Stage2(cands, obs, measure, sqrt);
    Seqs.FilterIsSubsequence(cands, OfMeasure(measure));
    var _ := StartsHighExactly(own);
    Seqs.FilterIsSubsequence(high, Stable(obs, sqrt));
    DedupIsSubsequence(stable);
    Seqs.SubsequenceTransitive(high, own, cands);
    Seqs.SubsequenceTransitive(stable, high, cands);
    Seqs.SubsequenceTransitive(Dedup(stable), stable, cands);
  }

  /** A row of stage 3 is a candidate of the measure that starts high and
      whose series has no spike. */
  lemma UniqueMember(cands: seq<Candidate>, obs: seq<Observation>, measure: string, sqrt: real -> real,
                     c: Candidate)
    requires |ForMeasure(cands, measure)| > 0
    requires c in Dedup(Stage2(cands, obs, measure, sqrt))
    ensures var own := ForMeasure(cands, measure);
      && c in own
      && c in StartsHigh(own)
      && c.initLevel > LevelThreshold(own).value
      && SpikeFree(Rates(obs, c.code), sqrt)
  {
    var own := ForMeasure(cands, measure);
    var high := StartsHigh(own);
    var _ := StartsHighExactly(own);
    DedupMember(Stage2(cands, obs, measure, sqrt), c);
    assert c in high;
  }

  /** A successful selection reports at most ten distinct entities, largest
      proportional change first. Each was a candidate of the measure that
      starts high, whose series has no spike and that is its entity's first
      such row, and no unreported row of stage 3 has a larger change than a
      reported one. */
  lemma SelectedProperties(cands: seq<Candidate>, obs: seq<Observation>, measure: string, sqrt: real -> real)
    requires |ForMeasure(cands, measure)| > 0 && AllPresent(StartsHigh(ForMeasure(cands, measure)), obs)
    ensures var own, top := ForMeasure(cands, measure), Selected(cands, obs, measure, sqrt).value;
      var unique := Dedup(Stage2(cands, obs, measure, sqrt));
      && |top| == (if |unique| < TopCount then |unique| else TopCount)
      && Sorting.SortedDesc(top, LevdProp)
      && DistinctCodes(top)
      && (forall k :: 0 <= k < |top| ==>
            && top[k] in unique
            && top[k] in own
            && top[k].initLevel > LevelThreshold(own).value
            && SpikeFree(Rates(obs, top[k].code), sqrt))
      && (forall x, y :: x in multiset(unique) - multiset(top) && y in top ==> x.levdProp <= y.levdProp)
  {
    var unique := Dedup(Stage2(cands, obs, measure, sqrt));
    SelectedIsTop(cands, obs, measure, sqrt);
    DedupDistinct(Stage2(cands, obs, measure, sqrt));
    TopProperties(unique);
    SelectedMembers(cands, obs, measure, sqrt);
  }

  /** When stages 0 and 2 cannot fail, the selection is the head of the
      deduplicated survivors of stage 2. */
  lemma SelectedIsTop(cands: seq<Candidate>, obs: seq<Observation>, measure: string, sqrt: real -> real)
    requires |ForMeasure(cands, measure)| > 0 && AllPresent(StartsHigh(ForMeasure(cands, measure)), obs)
    ensures Selected(cands, obs, measure, sqrt) == Success(Top(Dedup(Stage2(cands, obs, measure, sqrt))))
  {
  }

  /** Stage 4 of rows with distinct entities: `min(10, rows)` rows with distinct
      entities, largest change first, none smaller than a left-out row. */
  lemma TopProperties(unique: seq<Candidate>)
    requires DistinctCodes(unique)
    ensures var top := Top(unique);
      && |top| == (if |unique| < TopCount then |unique| else TopCount)
      && Sorting.SortedDesc(top, LevdProp)
      && DistinctCodes(top)
      && (forall x, y :: x in multiset(unique) - multiset(top) && y in top ==> x.levdProp <= y.levdProp)
  {
    DistinctSubMultiset(Top(unique), unique);
  }

  /** Every reported row passed stages 1 to 3. */
  lemma SelectedMembers(cands: seq<Candidate>, obs: seq<Observation>, measure: string, sqrt: real -> real)
    requires |ForMeasure(cands, measure)| > 0 && AllPresent(StartsHigh(ForMeasure(cands, measure)), obs)
    ensures var own, top := ForMeasure(cands, measure), Selected(cands, obs, measure, sqrt).value;
      var unique := Dedup(Stage2(cands, obs, measure, sqrt));
      forall k :: 0 <= k < |top| ==>
        && top[k] in unique
        && top[k] in own
        && top[k].initLevel > LevelThreshold(own).value
        && SpikeFree(Rates(obs, top[k].code), sqrt)
  {
    var unique := Dedup(Stage2(cands, obs, measure, sqrt));
    SelectedIsTop(cands, obs, measure, sqrt);
    var top := Top(unique);
    forall k | 0 <= k < |top|
      ensures var own := ForMeasure(cands, measure);
        && top[k] in unique
        && top[k] in own
        && top[k].initLevel > LevelThreshold(own).value
        && SpikeFree(Rates(obs, top[k].code), sqrt)
    {
      assert top[k] in multiset(top);
      UniqueMember(cands, obs, measure, sqrt, top[k]);
    }
  }

  /** When the selection succeeds, the report lists the selected entities in
      the same order with their proportional change and the calendar month of
      the change: the earliest month of the rate data advanced by the 1-based
      change index less one. It is ordered by change, largest first, and
      names every entity at most once. */
  lemma FilteredSparklineReports(cands: seq<Candidate>, obs: seq<Observation>, measure: string,
                                 sqrt: real -> real)
    requires |ForMeasure(cands, measure)| > 0 && AllPresent(StartsHigh(ForMeasure(cands, measure)), obs)
    ensures FilteredSparkline(cands, obs, measure, sqrt).Success?
    ensures var top, out := Selected(cands, obs, measure, sqrt).value, FilteredSparkline(cands, obs, measure, sqrt).value;
      && |out| == |top|
      && (|top| > 0 ==> |obs| > 0)
      && (forall k :: 0 <= k < |out| ==>
            && out[k].code == top[k].code
            && out[k].levdProp == top[k].levdProp
            && Months.Ordinal(out[k].changeMonth)
               == Months.Ordinal(EarliestMonth(obs).value) + top[k].tFirst - 1)
      && (forall i, j :: 0 <= i < j < |out| ==> out[i].levdProp >= out[j].levdProp)
      && (forall i, j :: 0 <= i < j < |out| ==> out[i].code != out[j].code)
  {
    SelectedIsTop(cands, obs, measure, sqrt);
    var top := Selected(cands, obs, measure, sqrt).value;
    assert Sorting.SortedDesc(top, LevdProp) && DistinctCodes(top) by {
      SelectedProperties(cands, obs, measure, sqrt);
    }
    SelectedNeedsData(cands, obs, measure, sqrt);
    if |obs| > 0 {
      var e := EarliestMonth(obs).value;
      assert FilteredSparkline(cands, obs, measure, sqrt) == Success(Seqs.Map(top, ReportOf(e)));
      ReportsOf(top, e);
    }
  }

  /** Selected entities all have rate data. */
  lemma SelectedNeedsData(cands: seq<Candidate>, obs: seq<Observation>, measure: string, sqrt: real -> real)
    requires |ForMeasure(cands, measure)| > 0 && AllPresent(StartsHigh(ForMeasure(cands, measure)), obs)
    ensures |Selected(cands, obs, measure, sqrt).value| > 0 ==> |obs| > 0
  {
    SelectedIsTop(cands, obs, measure, sqrt);
    var top := Selected(cands, obs, measure, sqrt).value;
    if |top| > 0 {
      var own := ForMeasure(cands, measure);
      var high := StartsHigh(own);
      var unique := Dedup(Stage2(cands, obs, measure, sqrt));
      assert AllPresent(high, obs);
      assert top[0] in multiset(unique);
      UniqueMember(cands, obs, measure, sqrt, top[0]);
      PresentHasData(high, obs, top[0]);
    }
  }

  /** An entity in the rate data means there is rate data. */
  lemma PresentHasData(cs: seq<Candidate>, obs: seq<Observation>, c: Candidate)
    requires AllPresent(cs, obs) && c in cs
    ensures |obs| > 0
  {
    var k :| 0 <= k < |cs| && cs[k] == c;
    assert Present(obs, cs[k].code);
  }

  /** Reporting keeps the order, the entities and the changes of the
      selected candidates. */
  lemma ReportsOf(top: seq<Candidate>, earliest: Months.YearMonth)
    requires Sorting.SortedDesc(top, LevdProp) && DistinctCodes(top)
    ensures var out := Seqs.Map(top, ReportOf(earliest));
      && |out| == |top|
      && (forall k :: 0 <= k < |out| ==>
            && out[k].code == top[k].code
            && out[k].levdProp == top[k].levdProp
            && Months.Ordinal(out[k].changeMonth) == Months.Ordinal(earliest) + top[k].tFirst - 1)
      && (forall i, j :: 0 <= i < j < |out| ==> out[i].levdProp >= out[j].levdProp)
      && (forall i, j :: 0 <= i < j < |out| ==> out[i].code != out[j].code)
  {
  }
}
