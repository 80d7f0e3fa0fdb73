/** The closed form of a day number against the calendar counted one day at a time. */
module Calendar {
  datatype Date = Date(year: int, month: int, day: int)

  predicate Leap(year: int) {
    year % 4 == 0 && (year % 100 != 0 || year % 400 == 0)
  }

  function DaysIn(year: int, month: int): int {
    if month == 2 then (if Leap(year) then 29 else 28)
    else if month in {4, 6, 9, 11} then 30
    else 31
  }

  /** A date of the Gregorian calendar, from year 0 on. */
  predicate ValidDate(d: Date) {
    d.year >= 0 && 1 <= d.month <= 12 && 1 <= d.day <= DaysIn(d.year, d.month)
  }

  const ORIGIN := Date(0, 1, 1)
  const EPOCH := Date(1970, 1, 1)

  function PrevDay(d: Date): (p: Date)
    requires ValidDate(d) && d != ORIGIN
    ensures ValidDate(p)
  {
    if d.day > 1 then d.(day := d.day - 1)
    else if d.month > 1 then Date(d.year, d.month - 1, DaysIn(d.year, d.month - 1))
    else Date(d.year - 1, 12, 31)
  }

  /** The days from the first of year 0, counted one calendar day at a time. */
  function DayCount(d: Date): nat
    requires ValidDate(d)
    decreases d.year, d.month, d.day
  {
    if d == ORIGIN then 0 else 1 + DayCount(PrevDay(d))
  }

  function DaysSinceEpoch(d: Date): int
    requires ValidDate(d)
  {
    DayCount(d) - DayCount(EPOCH)
  }

  /** Division that truncates toward zero. */
  function TruncDiv(a: int, b: int): int
    requires b > 0
  {
    if a >= 0 then a / b else -((-a) / b)
  }

  function ClosedForm(year: int, month: int, day: int): int {
    var y := if month <= 2 then year - 1 else year;
    var m := if month <= 2 then month + 12 else month;
    365 * y + TruncDiv(y, 4) - TruncDiv(y, 100) + TruncDiv(y, 400) + TruncDiv(153 * (m - 3) + 2, 5) + day - 1 - 719468
  }

  function ClosedFormOf(d: Date): int {
    ClosedForm(d.year, d.month, d.day)
  }

  /** The dates for which truncation rounds the wrong way. */
  predicate BeforeFirstMarch(d: Date) {
    d.year == 0 && d.month <= 2
  }

  lemma QuotientSteps(y: int)
    requires y >= 1
    ensures y / 4 - (y - 1) / 4 == if y % 4 == 0 then 1 else 0
    ensures y / 100 - (y - 1) / 100 == if y % 100 == 0 then 1 else 0
    ensures y / 400 - (y - 1) / 400 == if y % 400 == 0 then 1 else 0
  {
  }

  /** The closed form counts a year from March to February as 365 days, 366 when February has 29. */
  lemma YearStep(year: int)
    requires year >= 1
    ensures ClosedForm(year, 3, 1) - ClosedForm(year - 1, 3, 1) == if Leap(year) then 366 else 365
  {
    QuotientSteps(year);
  }

  lemma MonthStep(d: Date)
    requires ValidDate(d) && d.day == 1 && d.month != 3 && d != ORIGIN
    ensures ClosedFormOf(d) == ClosedFormOf(PrevDay(d)) + 1
  {
    var y := d.year;
    if d.month == 1 {
      assert ClosedForm(y, 1, 1) == ClosedForm(y - 1, 12, 31) + 1;
    } else if d.month == 2 {
      assert ClosedForm(y, 2, 1) == ClosedForm(y, 1, 31) + 1;
    } else {
      var month := d.month;
      var days := (153 * (month - 3) + 2) / 5 - (153 * (month - 4) + 2) / 5;
      assert days == DaysIn(y, month - 1);
    }
  }

  lemma MarchStep(year: int)
    requires year >= 0
    ensures ClosedForm(year, 3, 1) - ClosedForm(year, 2, DaysIn(year, 2)) == if year == 0 then 0 else 1
  {
    if year >= 1 {
      YearStep(year);
      assert ClosedForm(year, 2, 28) == ClosedForm(year - 1, 3, 1) + 364;
    }
  }

  /** For every date from year 0 on, the closed form is the counted day number, one too many exactly
    * before the first of March of year 0. */
  lemma {:induction false} ClosedFormCounts(d: Date)
    requires ValidDate(d)
    ensures ClosedFormOf(d) == DayCount(d) - 719528 + if BeforeFirstMarch(d) then 1 else 0
    decreases d.year, d.month, d.day
  {
    if d != ORIGIN {
      ClosedFormCounts(PrevDay(d));
      if d.day > 1 {
        assert ClosedFormOf(d) == ClosedFormOf(PrevDay(d)) + 1;
      } else if d.month == 3 {
        MarchStep(d.year);
      } else {
        MonthStep(d);
      }
    }
  }

  /** The closed form is the number of days since the first of January 1970 exactly from the first of
    * March of year 0 on. */
  lemma ClosedFormExactly(d: Date)
    requires ValidDate(d)
    ensures ClosedFormOf(d) == DaysSinceEpoch(d) <==> !BeforeFirstMarch(d)
  {
    ClosedFormCounts(d);
    ClosedFormCounts(EPOCH);
  }

  /** In year 0 the last of February and the first of March get the same number. */
  lemma YearZeroCollides()
    ensures ValidDate(Date(0, 2, 29)) && ValidDate(Date(0, 3, 1))
    ensures ClosedForm(0, 2, 29) == ClosedForm(0, 3, 1)
  {
  }

  predicate Earlier(d: Date, e: Date) {
    || d.year < e.year
    || (d.year == e.year && (d.month < e.month || (d.month == e.month && d.day < e.day)))
  }

  lemma {:induction false} DayCountIncreases(d: Date, e: Date)
    requires ValidDate(d) && ValidDate(e) && Earlier(d, e)
    ensures DayCount(d) < DayCount(e)
    decreases e.year, e.month, e.day
  {
    var p := PrevDay(e);
    if d != p {
      DayCountIncreases(d, p);
    }
  }
}
