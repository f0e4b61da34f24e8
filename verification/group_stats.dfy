/** Group z-scoring (`get_stats`): every row of a table is joined with the
    mean, sample standard deviation, skewness and kurtosis of its group's
    measure values, given the z-score `(value - mean) / std`, and dropped when
    any of its fields is undefined. */
module GroupStats {
  import opened Wrappers
  import Seqs
  import Stats
  import RealArith

  /** A row of the input table: its group key, its measure value and the
      table's other numeric columns, each possibly undefined. */
  datatype Row<K> = Row(group: K, value: Option<real>, others: seq<Option<real>>)

  /** The estimators the library supplies and the model takes as given. */
  datatype Estimators = Estimators(
    sqrt: real -> real,
    skew: seq<real> -> Option<real>,
    kurt: seq<real> -> Option<real>)

  /** What the model relies on about the estimators: `sqrt` is the square root,
      skewness is defined from three values on and kurtosis from four. */
  ghost predicate Faithful(est: Estimators)
  {
    && Stats.IsSquareRoot(est.sqrt)
    && (forall xs :: est.skew(xs).Some? <==> |xs| >= 3)
    && (forall xs :: est.kurt(xs).Some? <==> |xs| >= 4)
  }

  /** The four moments of one group; `None` is NaN. */
  datatype Moments = Moments(mean: Option<real>, std: Option<real>, skew: Option<real>, kurt: Option<real>)

  /** A kept row with its group's moments and its z-score. */
  datatype Scored<K> = Scored(row: Row<K>, mean: real, std: real, skew: real, kurt: real, z: real)

  /** The row belongs to group `g` and has a defined measure value. */
  function DefinedIn<K(==)>(g: K): Row<K> -> bool
  {
    (row: Row<K>) => row.group == g && row.value.Some?
  }

  /** The measure value of a row whose value is defined. */
  function ValueOf<K>(row: Row<K>): real
  {
    if row.value.Some? then row.value.value else 0.0
  }

  /** The defined measure values of group `g`, in row order: the measure column
      of the rows that belong to `g` and have a value. */
  function GroupValues<K(==)>(rows: seq<Row<K>>, g: K): (vs: seq<real>)
    ensures |vs| <= |rows|
    ensures forall i :: 0 <= i < |rows| && rows[i].group == g && rows[i].value.Some?
              ==> rows[i].value.value in vs
    decreases |rows|
  {
    if |rows| == 0 then []
    else
      var last := rows[|rows| - 1];
      GroupValues(rows[..|rows| - 1], g)
        + (if last.group == g && last.value.Some? then [last.value.value] else [])
  }

  /** The grouped values are exactly the measure column of the rows of `g`
      with a defined value, in row order and with repeats. */
  lemma {:induction false} GroupValuesExactly<K>(rows: seq<Row<K>>, g: K)
    ensures GroupValues(rows, g) == Seqs.Map(Seqs.Filter(rows, DefinedIn(g)), ValueOf)
    decreases |rows|
  {
    if |rows| > 0 {
      GroupValuesExactly(rows[..|rows| - 1], g);
      Seqs.MapFilterLast(rows, DefinedIn(g), ValueOf);
    }
  }

  /** Every value grouped for `g` is the defined value of some row of `g`. */
  lemma GroupValuesOnlyGroup<K>(rows: seq<Row<K>>, g: K)
    ensures var vs := GroupValues(rows, g);
      forall k :: 0 <= k < |vs| ==>
        exists i :: 0 <= i < |rows| && rows[i].group == g && rows[i].value == Some(vs[k])
  {
    GroupValuesExactly(rows, g);
    var kept := Seqs.Filter(rows, DefinedIn(g));
    forall k | 0 <= k < |kept|
      ensures exists i :: 0 <= i < |rows| && rows[i].group == g && rows[i].value == Some(ValueOf(kept[k]))
    {
      assert kept[k] in rows && DefinedIn(g)(kept[k]);
      var i :| 0 <= i < |rows| && rows[i] == kept[k];
    }
  }

  /** The moments the library computes over a group's defined values: a mean
      needs one value, the sample standard deviation two. */
  function MomentsOf(vals: seq<real>, est: Estimators): (m: Moments)
    ensures m.mean.Some? <==> |vals| >= 1
    ensures m.std.Some? <==> |vals| >= 2
  {
    Moments(
      if |vals| >= 1 then Some(Stats.Mean(vals)) else None,
      if |vals| >= 2 then Some(Stats.StdDev(vals, est.sqrt)) else None,
      est.skew(vals),
      est.kurt(vals))
  }

  /** The z-score, NaN when an operand is. A zero standard deviation makes the
      quotient NaN: the numerator is then zero as well (`ZeroStdAtMean`), and
      0/0 is NaN. */
  function ZScore(value: Option<real>, m: Moments): (z: Option<real>)
    ensures z.Some? <==> value.Some? && m.mean.Some? && m.std.Some? && m.std.value != 0.0
  {
    if value.Some? && m.mean.Some? && m.std.Some? && m.std.value != 0.0
    then Some((value.value - m.mean.value) / m.std.value)
    else None
  }

  predicate AllDefined(xs: seq<Option<real>>)
  {
    forall i :: 0 <= i < |xs| ==> xs[i].Some?
  }

  /** The row joined with its group's moments, or `None` when `dropna` removes it. */
  function Score<K(==)>(all: seq<Row<K>>, row: Row<K>, est: Estimators): (s: Option<Scored<K>>)
    ensures s.Some? ==> s.value.row == row
  {
    var m := MomentsOf(GroupValues(all, row.group), est);
    var z := ZScore(row.value, m);
    if z.Some? && m.skew.Some? && m.kurt.Some? && AllDefined(row.others)
    then Some(Scored(row, m.mean.value, m.std.value, m.skew.value, m.kurt.value, z.value))
    else None
  }

  /** The test `dropna` applies: the row survives with every field defined. */
  function Kept<K(==)>(all: seq<Row<K>>, est: Estimators): Row<K> -> bool
  {
    row => Score(all, row, est).Some?
  }

  /** Scores the rows of `todo` against the groups of `all`, keeping order. */
  function ScoreRows<K(==)>(all: seq<Row<K>>, todo: seq<Row<K>>, est: Estimators): (r: seq<Scored<K>>)
    ensures |r| <= |todo|
    ensures forall k :: 0 <= k < |r| ==> r[k].row in todo && Score(all, r[k].row, est) == Some(r[k])
    decreases |todo|
  {
    if |todo| == 0 then []
    else
      var last := todo[|todo| - 1];
      var front := ScoreRows(all, todo[..|todo| - 1], est);
      assert forall k :: 0 <= k < |front| ==> front[k].row in todo;
      match Score(all, last, est)
      case Some(s) => front + [s]
      case None => front
  }

  function GetStats<K(==)>(rows: seq<Row<K>>, est: Estimators): (r: seq<Scored<K>>)
    ensures |r| <= |rows|
    ensures forall k :: 0 <= k < |r| ==> r[k].row in rows && Score(rows, r[k].row, est) == Some(r[k])
  {
    ScoreRows(rows, rows, est)
  }

  function RowOf<K>(s: Scored<K>): Row<K>
  {
    s.row
  }

  /** The rows that survive are exactly the kept ones, in their original
      order and unaltered: `get_stats` only removes rows. */
  lemma {:induction false} ScoreRowsKeepsOrder<K>(all: seq<Row<K>>, todo: seq<Row<K>>, est: Estimators)
    ensures Seqs.Map(ScoreRows(all, todo, est), RowOf) == Seqs.Filter(todo, Kept(all, est))
    decreases |todo|
  {
    if |todo| > 0 {
      var last, init := todo[|todo| - 1], todo[..|todo| - 1];
      var front := ScoreRows(all, init, est);
      ScoreRowsKeepsOrder(all, init, est);
      if Kept(all, est)(last) {
        var s := Score(all, last, est).value;
        assert ScoreRows(all, todo, est) == front + [s];
        assert Seqs.Filter(todo, Kept(all, est)) == Seqs.Filter(init, Kept(all, est)) + [last];
        Seqs.MapAppend(front, [s], RowOf);
        assert s.row == last;
        assert Seqs.Map([s], RowOf) == [last];
      } else {
        assert ScoreRows(all, todo, est) == front;
        assert Seqs.Filter(todo, Kept(all, est)) == Seqs.Filter(init, Kept(all, est));
      }
    }
  }

  lemma GetStatsKeepsOrder<K>(rows: seq<Row<K>>, est: Estimators)
    ensures Seqs.Map(GetStats(rows, est), RowOf) == Seqs.Filter(rows, Kept(rows, est))
    ensures Seqs.IsSubsequence(Seqs.Map(GetStats(rows, est), RowOf), rows)
  {
    ScoreRowsKeepsOrder(rows, rows, est);
    Seqs.FilterIsSubsequence(rows, Kept(rows, est));
  }

  /** A row survives exactly when its measure value and its other columns are
      defined and its group holds at least four defined values that are not all
      equal: fewer than two leave the standard deviation undefined, fewer than
      three the skewness, fewer than four the kurtosis, and equal values make
      the z-score 0/0. */
  lemma KeptExactly<K>(all: seq<Row<K>>, est: Estimators, row: Row<K>)
    requires Faithful(est)
    ensures Kept(all, est)(row) <==>
      && row.value.Some?
      && AllDefined(row.others)
      && |GroupValues(all, row.group)| >= 4
      && !Stats.Constant(GroupValues(all, row.group))
  {
    var vals := GroupValues(all, row.group);
    if |vals| >= 2 {
      Stats.StdDevZeroIffConstant(vals, est.sqrt);
    }
  }

  /** The moments of four or more values that are not all equal are all
      defined, with a positive standard deviation. */
  lemma DefinedMoments(vals: seq<real>, est: Estimators)
    requires Faithful(est) && |vals| >= 4 && !Stats.Constant(vals)
    ensures var m := MomentsOf(vals, est);
      && m.mean == Some(Stats.Mean(vals))
      && m.std.Some? && m.std.value > 0.0
      && RealArith.Square(m.std.value) == Stats.Variance(vals)
      && m.skew.Some? && m.kurt.Some?
  {
    Stats.StdDevZeroIffConstant(vals, est.sqrt);
  }

  /** A kept row carries its own group's mean and standard deviation, and its
      z-score times that deviation gives back the row's distance from the mean. */
  lemma ScoredFields<K>(all: seq<Row<K>>, est: Estimators, row: Row<K>)
    requires Faithful(est) && Kept(all, est)(row)
    ensures var vals, s := GroupValues(all, row.group), Score(all, row, est).value;
      && |vals| >= 4
      && s.mean == Stats.Mean(vals)
      && s.std > 0.0
      && RealArith.Square(s.std) == Stats.Variance(vals)
      && s.z * s.std == row.value.value - s.mean
  {
    var vals := GroupValues(all, row.group);
    var m := MomentsOf(vals, est);
    KeptExactly(all, est, row);
    DefinedMoments(vals, est);
    var s := Score(all, row, est).value;
    assert s == Scored(row, m.mean.value, m.std.value, m.skew.value, m.kurt.value, (row.value.value - m.mean.value) / m.std.value);
    RealArith.MulDivCancel(row.value.value - s.mean, s.std);
  }

  /** Within a group whose standard deviation is zero every defined value is
      the mean, so the z-score is 0/0 (NaN) and never an infinity. */
  lemma ZeroStdAtMean<K>(all: seq<Row<K>>, est: Estimators, i: int)
    requires Stats.IsSquareRoot(est.sqrt)
    requires 0 <= i < |all| && all[i].value.Some?
    requires |GroupValues(all, all[i].group)| >= 2
    requires Stats.StdDev(GroupValues(all, all[i].group), est.sqrt) == 0.0
    ensures all[i].value.value == Stats.Mean(GroupValues(all, all[i].group))
  {
    var vals := GroupValues(all, all[i].group);
    Stats.StdDevZeroIffConstant(vals, est.sqrt);
    Stats.ConstantIsMean(vals);
  }

  /** A group with a single defined value has that value as its mean and no
      standard deviation, skewness or kurtosis; its rows are all dropped. */
  lemma SingleObservationGroup<K>(all: seq<Row<K>>, est: Estimators, row: Row<K>)
    requires Faithful(est)
    requires |GroupValues(all, row.group)| == 1
    ensures var vals, m := GroupValues(all, row.group), MomentsOf(GroupValues(all, row.group), est);
      && m.mean == Some(vals[0])
      && m.std.None? && m.skew.None? && m.kurt.None?
    ensures !Kept(all, est)(row)
  {
    var vals := GroupValues(all, row.group);
    assert Stats.Sum(vals) == vals[0] + Stats.Sum(vals[1..]);
    assert Stats.Mean(vals) == vals[0];
    assert est.kurt(vals).None?;
  }
}
