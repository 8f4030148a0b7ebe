/** Dates of the Gregorian calendar and the step from a month to the next. */
module Calendar {
  import opened Options
  import opened Numbers

  datatype Date = Date(year: int, month: int, day: int)

  const MINYEAR := 1
  const MAXYEAR := 9999

  predicate IsLeap(year: int) {
    year % 4 == 0 && (year % 100 != 0 || year % 400 == 0)
  }

  function DaysIn(year: int, month: int): (n: int)
    ensures 28 <= n <= 31
  {
    if month == 2 then (if IsLeap(year) then 29 else 28)
    else if month in {4, 6, 9, 11} then 30
    else 31
  }

  predicate Valid(d: Date) {
    MINYEAR <= d.year <= MAXYEAR && 1 <= d.month <= 12 && 1 <= d.day <= DaysIn(d.year, d.month)
  }

  /** Constructing a date fails outside the calendar. */
  function MakeDate(year: int, month: int, day: int): Option<Date> {
    if Valid(Date(year, month, day)) then Some(Date(year, month, day)) else None
  }

  /** A part that is zero is taken from today's date. */
  function NewDate(year: int, month: int, day: int, today: Date): Option<Date> {
    MakeDate(
      if year == 0 then today.year else year,
      if month == 0 then today.month else month,
      if day == 0 then today.day else day)
  }

  function NextMonth(d: Date, today: Date): Option<Date> {
    var (year, month) := if d.month < 12 then (d.year, d.month + 1) else (d.year + 1, 1);
    NewDate(year, month, Min(DaysIn(year, month), d.day), today)
  }

  /** The Gregorian months. */
  lemma MonthLengths(year: int, month: int)
    ensures month in {1, 3, 5, 7, 8, 10, 12} ==> DaysIn(year, month) == 31
    ensures month in {4, 6, 9, 11} ==> DaysIn(year, month) == 30
    ensures month == 2 ==>
              DaysIn(year, month) == if (year % 4 == 0 && year % 100 != 0) || year % 400 == 0 then 29 else 28
  {
    FourCenturies(year);
  }

  lemma FourCenturies(year: int)
    ensures year % 400 == 0 ==> year % 4 == 0
  {
    assert year == 4 * (100 * (year / 400)) + year % 400;
  }

  /** The dates that exist: those of the years 1 to 9999, with a day that the month has. */
  lemma DatesThatExist(d: Date)
    ensures Valid(d) <==>
            && 1 <= d.year <= 9999 && d.day >= 1
            && ((d.month in {1, 3, 5, 7, 8, 10, 12} && d.day <= 31)
                || (d.month in {4, 6, 9, 11} && d.day <= 30)
                || (d.month == 2 && d.day <= 28)
                || (d.month == 2 && d.day == 29 && d.year % 4 == 0 && (d.year % 100 != 0 || d.year % 400 == 0)))
  {
    MonthLengths(d.year, d.month);
  }

  /** The parts that are given, and today's where none is. */
  predicate Completes(e: Date, year: int, month: int, day: int, today: Date) {
    && (year != 0 ==> e.year == year) && (year == 0 ==> e.year == today.year)
    && (month != 0 ==> e.month == month) && (month == 0 ==> e.month == today.month)
    && (day != 0 ==> e.day == day) && (day == 0 ==> e.day == today.day)
  }

  /** The date made of some parts is the one date that has them, if it exists. */
  lemma NewDateMeans(year: int, month: int, day: int, today: Date, e: Date)
    ensures NewDate(year, month, day, today) == Some(e) <==> Valid(e) && Completes(e, year, month, day, today)
  {
  }

  // ----- counting months and days -----

  function Index(d: Date): int {
    12 * d.year + d.month
  }

  /** Length of the month with the given index. */
  function LengthAt(index: int): (n: int)
    ensures 28 <= n <= 31
  {
    DaysIn((index - 1) / 12, (index - 1) % 12 + 1)
  }

  function DaysBeforeYear(year: int): int {
    var y := year - 1;
    365 * y + y / 4 - y / 100 + y / 400
  }

  function DaysBeforeMonth(year: int, month: nat): nat {
    if month <= 1 then 0 else DaysBeforeMonth(year, month - 1) + DaysIn(year, month - 1)
  }

  /** The proleptic Gregorian day number: 1 January of year 1 is day 1. */
  function Ordinal(d: Date): int
    requires Valid(d)
  {
    DaysBeforeYear(d.year) + DaysBeforeMonth(d.year, d.month) + d.day
  }

  lemma MonthOfIndex(d: Date)
    requires Valid(d)
    ensures (Index(d) - 1) / 12 == d.year && (Index(d) - 1) % 12 + 1 == d.month
    ensures LengthAt(Index(d)) == DaysIn(d.year, d.month)
  {
  }

  /** The months of a year add up to the step of the closed formula. */
  lemma YearLength(year: int)
    requires year >= 1
    ensures DaysBeforeYear(year + 1) == DaysBeforeYear(year) + DaysBeforeMonth(year, 12) + DaysIn(year, 12)
  {
    LeapStep(year);
    assert DaysBeforeMonth(year, 2) == 31;
    assert DaysBeforeMonth(year, 3) == 31 + DaysIn(year, 2);
    assert DaysBeforeMonth(year, 5) == DaysBeforeMonth(year, 3) + 61;
    assert DaysBeforeMonth(year, 7) == DaysBeforeMonth(year, 5) + 61;
    assert DaysBeforeMonth(year, 9) == DaysBeforeMonth(year, 7) + 62;
    assert DaysBeforeMonth(year, 11) == DaysBeforeMonth(year, 9) + 61;
  }

  lemma LeapStep(year: int)
    requires year >= 1
    ensures year / 4 - (year - 1) / 4 == if year % 4 == 0 then 1 else 0
    ensures year / 100 - (year - 1) / 100 == if year % 100 == 0 then 1 else 0
    ensures year / 400 - (year - 1) / 400 == if year % 400 == 0 then 1 else 0
    ensures year % 400 == 0 ==> year % 100 == 0
    ensures year % 100 == 0 ==> year % 4 == 0
  {
  }

  // ----- one step -----

  predicate LastMonth(d: Date) {
    d.year == MAXYEAR && d.month == 12
  }

  /**
   A valid date has a next month unless it lies in the last one.  The step moves
   the month index by one, keeps the day where the new month has it and clamps it
   to that month's end otherwise; today's date plays no part.
   */
  lemma NextMonthMeans(d: Date, today: Date)
    requires Valid(d)
    ensures NextMonth(d, today).None? <==> LastMonth(d)
    ensures NextMonth(d, today).Some? ==>
              var e := NextMonth(d, today).value;
              && Valid(e) && Index(e) == Index(d) + 1
              && e.day == Min(d.day, DaysIn(e.year, e.month))
  {
  }

  /** The step in days: the old month's length, less what clamping took off. */
  lemma NextMonthDays(d: Date, today: Date)
    requires Valid(d) && !LastMonth(d)
    ensures var e := NextMonth(d, today).value;
            && Ordinal(e) - Ordinal(d) == DaysIn(d.year, d.month) - (d.day - e.day)
            && Min(DaysIn(e.year, e.month), DaysIn(d.year, d.month)) <= Ordinal(e) - Ordinal(d)
            && Ordinal(e) - Ordinal(d) <= DaysIn(d.year, d.month)
  {
    NextMonthMeans(d, today);
    if d.month == 12 {
      YearLength(d.year);
    }
  }

  lemma FirstOfNext(d: Date) returns (first: Date)
    requires Valid(d) && !LastMonth(d)
    ensures Valid(first) && first.day == 1 && Index(first) == Index(d) + 1
    ensures Ordinal(d) < Ordinal(first)
  {
    first := if d.month < 12 then Date(d.year, d.month + 1, 1) else Date(d.year + 1, 1, 1);
    if d.month == 12 {
      YearLength(d.year);
    }
  }

  /** An earlier month means an earlier day number. */
  lemma {:induction false} EarlierMonth(a: Date, b: Date)
    requires Valid(a) && Valid(b) && Index(a) < Index(b)
    ensures Ordinal(a) < Ordinal(b)
    decreases Index(b) - Index(a)
  {
    var first := FirstOfNext(a);
    if Index(first) < Index(b) {
      EarlierMonth(first, b);
    } else {
      MonthOfIndex(first);
      MonthOfIndex(b);
    }
  }

  /** The step is monotone: it never puts two dates in the opposite order. */
  lemma NextMonthMonotone(a: Date, b: Date, today: Date)
    requires Valid(a) && Valid(b) && !LastMonth(a) && !LastMonth(b)
    requires Ordinal(a) <= Ordinal(b)
    ensures Ordinal(NextMonth(a, today).value) <= Ordinal(NextMonth(b, today).value)
  {
    NextMonthMeans(a, today);
    NextMonthMeans(b, today);
    if Index(b) < Index(a) {
      EarlierMonth(b, a);
    } else if Index(a) < Index(b) {
      EarlierMonth(NextMonth(a, today).value, NextMonth(b, today).value);
    } else {
      SameMonth(a, b);
      SameMonth(NextMonth(a, today).value, NextMonth(b, today).value);
    }
  }

  lemma SameMonth(a: Date, b: Date)
    requires Valid(a) && Valid(b) && Index(a) == Index(b)
    ensures a.year == b.year && a.month == b.month && Ordinal(a) - Ordinal(b) == a.day - b.day
  {
    MonthOfIndex(a);
    MonthOfIndex(b);
  }

  // ----- many steps -----

  function Steps(d: Date, k: nat, today: Date): Option<Date> {
    if k == 0 then Some(d)
    else match Steps(d, k - 1, today)
      case None => None
      case Some(e) => NextMonth(e, today)
  }

  /** The smallest of `day` and the lengths of the `k` months after `index`. */
  function Clamped(day: int, index: int, k: nat): int {
    if k == 0 then day else Min(Clamped(day, index, k - 1), LengthAt(index + k))
  }

  /**
   After k steps the month index has moved by k and the day is the smallest of the
   original day and the lengths of the k months entered; the steps fail exactly
   when they would leave the last year.
   */
  lemma {:induction false} StepsMean(d: Date, k: nat, today: Date)
    requires Valid(d)
    ensures Steps(d, k, today).Some? <==> Index(d) + k <= 12 * MAXYEAR + 12
    ensures Steps(d, k, today).Some? ==>
              var e := Steps(d, k, today).value;
              Valid(e) && Index(e) == Index(d) + k && e.day == Clamped(d.day, Index(d), k)
  {
    if k > 0 {
      StepsMean(d, k - 1, today);
      if Steps(d, k - 1, today).Some? {
        var e := Steps(d, k - 1, today).value;
        NextMonthMeans(e, today);
        if NextMonth(e, today).Some? {
          MonthOfIndex(NextMonth(e, today).value);
        }
      }
    }
  }
}
