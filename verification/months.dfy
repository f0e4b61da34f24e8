/** Calendar months and whole-month offsets. The observation months of the rate
    series are first-of-month dates, so a month offset never has to clip a day
    and month granularity loses nothing. */
module Months {

  type CalendarMonth = m: int | 1 <= m <= 12 witness 1

  datatype YearMonth = YearMonth(year: int, month: CalendarMonth)

  /** The number of months since January of year 0. */
  function Ordinal(m: YearMonth): int
  {
    m.year * 12 + (m.month - 1)
  }

  /** The month with the given ordinal. Dafny's `/` and `%` are Euclidean,
      which for the positive divisor 12 is floor division, so months before
      year 0 are handled too. */
  function FromOrdinal(k: int): (r: YearMonth)
    ensures Ordinal(r) == k
  {
    YearMonth(k / 12, k % 12 + 1)
  }

  /** The year and month are recovered from the ordinal by floor division. */
  lemma OrdinalFields(m: YearMonth)
    ensures Ordinal(m) / 12 == m.year
    ensures Ordinal(m) % 12 == m.month - 1
  {
  }

  /** Two months are equal exactly when their ordinals are. */
  lemma OrdinalInjective(a: YearMonth, b: YearMonth)
    ensures Ordinal(a) == Ordinal(b) <==> a == b
  {
    OrdinalFields(a);
    OrdinalFields(b);
  }

  lemma FromOrdinalOrdinal(m: YearMonth)
    ensures FromOrdinal(Ordinal(m)) == m
  {
    OrdinalInjective(FromOrdinal(Ordinal(m)), m);
  }

  /** `k` whole months after `m` (before it when `k` is negative), carrying
      into the year as needed. */
  function AddMonths(m: YearMonth, k: int): (r: YearMonth)
    ensures Ordinal(r) - Ordinal(m) == k
  {
    FromOrdinal(Ordinal(m) + k)
  }

  /** The calendar fields of an offset month: the month index wraps modulo 12
      and every wrap carries one year. */
  lemma AddMonthsFields(m: YearMonth, k: int)
    ensures AddMonths(m, k).year == m.year + (m.month - 1 + k) / 12
    ensures AddMonths(m, k).month == (m.month - 1 + k) % 12 + 1
  {
    var t := m.month - 1 + k;
    assert Ordinal(m) + k == m.year * 12 + t;
    assert (m.year * 12 + t) / 12 == m.year + t / 12;
    assert (m.year * 12 + t) % 12 == t % 12;
  }

  /** An offset that stays inside the year only changes the month. */
  lemma AddMonthsWithinYear(m: YearMonth, k: int)
    requires 1 <= m.month + k <= 12
    ensures AddMonths(m, k) == YearMonth(m.year, m.month + k)
  {
    OrdinalInjective(AddMonths(m, k), YearMonth(m.year, m.month + k));
  }

  lemma AddMonthsZero(m: YearMonth)
    ensures AddMonths(m, 0) == m
  {
    OrdinalInjective(AddMonths(m, 0), m);
  }

  /** Offsets compose by adding their month counts. */
  lemma AddMonthsCompose(m: YearMonth, j: int, k: int)
    ensures AddMonths(AddMonths(m, j), k) == AddMonths(m, j + k)
  {
    OrdinalInjective(AddMonths(AddMonths(m, j), k), AddMonths(m, j + k));
  }

  /** Offsets are undone by the opposite offset. */
  lemma AddMonthsInverse(m: YearMonth, k: int)
    ensures AddMonths(AddMonths(m, k), -k) == m
  {
    AddMonthsCompose(m, k, -k);
    AddMonthsZero(m);
  }

  /** Offsets preserve the order of months. */
  lemma AddMonthsMonotone(m: YearMonth, j: int, k: int)
    ensures j < k <==> Ordinal(AddMonths(m, j)) < Ordinal(AddMonths(m, k))
  {
  }

  /** The calendar month of a 1-based series index: index 1 is the earliest
      month of the data and each further index is one month later. */
  function ChangeMonth(earliest: YearMonth, tFirst: int): (r: YearMonth)
    ensures Ordinal(r) - Ordinal(earliest) == tFirst - 1
  {
    AddMonths(earliest, tFirst - 1)
  }

  lemma ChangeMonthFirstIndex(earliest: YearMonth)
    ensures ChangeMonth(earliest, 1) == earliest
  {
    AddMonthsZero(earliest);
  }

  /** Consecutive indices give consecutive months. */
  lemma ChangeMonthStep(earliest: YearMonth, tFirst: int)
    ensures ChangeMonth(earliest, tFirst + 1) == AddMonths(ChangeMonth(earliest, tFirst), 1)
  {
    AddMonthsCompose(earliest, tFirst - 1, 1);
  }

  lemma ChangeMonthMarch2020()
    ensures ChangeMonth(YearMonth(2020, 1), 3) == YearMonth(2020, 3)
  {
    AddMonthsWithinYear(YearMonth(2020, 1), 2);
  }

  lemma ChangeMonthYearCarry()
    ensures ChangeMonth(YearMonth(2019, 11), 3) == YearMonth(2020, 1)
  {
    AddMonthsFields(YearMonth(2019, 11), 2);
  }
}
