/** The part of JavaScript's `Date` that the calendar components use, on
    calendar dates only: a date is a (year, month, day) triple with the month
    counted from 0 as `getMonth()` does and the day from 1 as `getDate()`
    does. The calendar is the proleptic Gregorian one that `Date` uses. */
module Dates {
  import opened Seqs

  datatype Date = Date(year: int, month: int, day: int)

  /** Gregorian leap years: every fourth year, except centuries not
      divisible by 400. */
  predicate IsLeapYear(y: int)
  {
    y % 4 == 0 && (y % 100 != 0 || y % 400 == 0)
  }

  /** `new Date(year, month + 1, 0).getDate()`: the last day of the month. */
  function DaysInMonth(year: int, month: int): (n: int)
    requires 0 <= month <= 11
    ensures 28 <= n <= 31
    ensures n == 31 <==> month in {0, 2, 4, 6, 7, 9, 11}
    ensures n == 30 <==> month in {3, 5, 8, 10}
    ensures month == 1 ==> (n == 29 <==> IsLeapYear(year))
  {
    if month == 1 then (if IsLeapYear(year) then 29 else 28)
    else if month in {3, 5, 8, 10} then 30
    else 31
  }

  /** A date that names an existing day. */
  predicate IsValid(d: Date)
  {
    0 <= d.month <= 11 && 1 <= d.day <= DaysInMonth(d.year, d.month)
  }

  /** The month offsets of Sakamoto's day-of-week method, January first. */
  function MonthOffset(month: int): int
    requires 0 <= month <= 11
  {
    [0, 3, 2, 5, 0, 3, 5, 1, 4, 6, 2, 4][month]
  }

  /** The number of leap days up to and including year `y`, shifted by `y`
      itself: the year term of Sakamoto's method. */
  function YearTerm(y: int): int
  {
    y + y / 4 - y / 100 + y / 400
  }

  /** `getDay()` of a date: 0 for Sunday through 6 for Saturday. January and
      February count as months of the previous year. */
  function Weekday(year: int, month: int, day: int): (w: int)
    requires 0 <= month <= 11
    ensures 0 <= w <= 6
  {
    var y := if month < 2 then year - 1 else year;
    (YearTerm(y) + MonthOffset(month) + day) % 7
  }

  /** The weekday function agrees with the calendar at known dates:
      1 January 1970 was a Thursday, 1 January 2000 a Saturday,
      29 February 2024 a Thursday and 1 January 2024 a Monday. */
  lemma WeekdayAnchors()
    ensures Weekday(1970, 0, 1) == 4
    ensures Weekday(2000, 0, 1) == 6
    ensures Weekday(2024, 1, 29) == 4
    ensures Weekday(2024, 0, 1) == 1
  {
  }

  /** `new Date(year, month, 1).getDay()`. */
  function FirstDayOfMonth(year: int, month: int): (w: int)
    requires 0 <= month <= 11
    ensures 0 <= w <= 6
  {
    Weekday(year, month, 1)
  }

  /** The month before (year, month), crossing into December of the
      previous year from January. */
  function PrevMonth(year: int, month: int): (r: (int, int))
    requires 0 <= month <= 11
    ensures 0 <= r.1 <= 11
    ensures month == 0 ==> r == (year - 1, 11)
    ensures month != 0 ==> r == (year, month - 1)
  {
    if month == 0 then (year - 1, 11) else (year, month - 1)
  }

  /** The month after (year, month), crossing into January of the next year
      from December. */
  function NextMonth(year: int, month: int): (r: (int, int))
    requires 0 <= month <= 11
    ensures 0 <= r.1 <= 11
    ensures month == 11 ==> r == (year + 1, 0)
    ensures month != 11 ==> r == (year, month + 1)
  {
    if month == 11 then (year + 1, 0) else (year, month + 1)
  }

  /** Going back a month and forward again, or the other way, is the
      identity. */
  lemma PrevNextInverse(year: int, month: int)
    requires 0 <= month <= 11
    ensures NextMonth(PrevMonth(year, month).0, PrevMonth(year, month).1) == (year, month)
    ensures PrevMonth(NextMonth(year, month).0, NextMonth(year, month).1) == (year, month)
  {
  }

  /** The `Date` constructor's treatment of a month outside 0..11: it is
      carried into the year (`new Date(y, -1, 1)` is December of `y - 1`). */
  function NormalizeMonth(year: int, month: int): (r: (int, int))
    ensures 0 <= r.1 <= 11
    ensures r.0 * 12 + r.1 == year * 12 + month
  {
    (year + month / 12, month % 12)
  }

  /** One month either side of a valid month, the `Date` constructor's
      carry agrees with the explicit wrap-around. */
  lemma NormalizeAdjacent(year: int, month: int)
    requires 0 <= month <= 11
    ensures NormalizeMonth(year, month - 1) == PrevMonth(year, month)
    ensures NormalizeMonth(year, month + 1) == NextMonth(year, month)
  {
    var p := NormalizeMonth(year, month - 1);
    var n := NormalizeMonth(year, month + 1);
    assert p.0 * 12 + p.1 == year * 12 + month - 1;
    assert n.0 * 12 + n.1 == year * 12 + month + 1;
  }

  /** Dates compared the way `getTime()` compares them: by year, then month,
      then day. */
  predicate Before(a: Date, b: Date)
  {
    a.year < b.year
    || (a.year == b.year && a.month < b.month)
    || (a.year == b.year && a.month == b.month && a.day < b.day)
  }

  predicate AtMost(a: Date, b: Date)
  {
    Before(a, b) || a == b
  }

  /** `Before` is a strict total order. */
  lemma BeforeTotal(a: Date, b: Date, c: Date)
    ensures !Before(a, a)
    ensures Before(a, b) && Before(b, c) ==> Before(a, c)
    ensures a == b || Before(a, b) || Before(b, a)
  {
  }

  /** `_isSameDay` of the date picker and `_isSameDate` of the calendar:
      both dates present, with equal year, month and day. */
  predicate SameDay(a: Option<Date>, b: Option<Date>)
  {
    a.Some? && b.Some?
    && a.value.year == b.value.year && a.value.month == b.value.month && a.value.day == b.value.day
  }

  /** Same-day is equality of present dates; an absent date matches
      nothing, itself included. */
  lemma SameDayMeaning(a: Option<Date>, b: Option<Date>)
    ensures SameDay(a, b) <==> a.Some? && a == b
    ensures !SameDay(None, b) && !SameDay(a, None)
  {
  }

  // ------------------------------------------------- weekday consistency

  /** Going from year `y - 1` to `y` the year term grows by one, and by one
      more when `y` is a leap year. */
  lemma YearTermStep(y: int)
    ensures YearTerm(y) - YearTerm(y - 1) == if IsLeapYear(y) then 2 else 1
  {
    Step4(y);
    Step100(y);
    Step400(y);
    MultipleChain(y);
  }

  /** A multiple of 400 is a multiple of 100, and one of 100 is one of 4. */
  lemma MultipleChain(y: int)
    ensures y % 400 == 0 ==> y % 100 == 0
    ensures y % 100 == 0 ==> y % 4 == 0
  {
    if y % 400 == 0 {
      var q := y / 400;
      assert y == 400 * q;
      Times100(4 * q);
    }
    if y % 100 == 0 {
      var q := y / 100;
      assert y == 100 * q;
      Times4(25 * q);
    }
  }

  lemma Times100(k: int)
    ensures (100 * k) % 100 == 0
  {
  }

  lemma Times4(k: int)
    ensures (4 * k) % 4 == 0
  {
  }

  /** Each quotient of the year term moves by one exactly at a multiple. */
  lemma Step4(y: int)
    ensures y / 4 - (y - 1) / 4 == if y % 4 == 0 then 1 else 0
  {
  }

  lemma Step100(y: int)
    ensures y / 100 - (y - 1) / 100 == if y % 100 == 0 then 1 else 0
  {
  }

  lemma Step400(y: int)
    ensures y / 400 - (y - 1) / 400 == if y % 400 == 0 then 1 else 0
  {
  }

  /** Four or five whole weeks do not change a weekday. */
  lemma WeekShift(base: int, next: int, d: int)
    requires base + d - next == 28 || base + d - next == 35
    ensures next % 7 == (base % 7 + d) % 7
  {
  }

  /** The first day of the next month falls `DaysInMonth` weekdays after the
      first day of this one: the weekday function and the month lengths
      describe the same calendar. */
  lemma {:induction false} FirstDayOfNextMonth(year: int, month: int)
    requires 0 <= month <= 11
    ensures var (ny, nm) := NextMonth(year, month);
      FirstDayOfMonth(ny, nm) == (FirstDayOfMonth(year, month) + DaysInMonth(year, month)) % 7
  {
    var (ny, nm) := NextMonth(year, month);
    var y := if month < 2 then year - 1 else year;
    var y' := if nm < 2 then ny - 1 else ny;
    var base := YearTerm(y) + MonthOffset(month) + 1;
    var next := YearTerm(y') + MonthOffset(nm) + 1;
    var d := DaysInMonth(year, month);
    assert FirstDayOfMonth(year, month) == base % 7;
    assert FirstDayOfMonth(ny, nm) == next % 7;
    if month == 1 {
      FebruaryStep(year);
    } else {
      assert y == y';
      OffsetStep(year, month);
    }
    WeekShift(base, next, d);
  }

  /** February counts in the previous year and March in this one, and the
      year term's step absorbs the leap day. */
  lemma FebruaryStep(year: int)
    ensures YearTerm(year - 1) + MonthOffset(1) + DaysInMonth(year, 1) - (YearTerm(year) + MonthOffset(2)) == 28
  {
    YearTermStep(year);
  }

  /** Outside February, a month's length and the offsets of it and of the
      month after it differ by four or five whole weeks. */
  lemma OffsetStep(year: int, month: int)
    requires 0 <= month <= 11 && month != 1
    ensures var nm := if month == 11 then 0 else month + 1;
      MonthOffset(month) + DaysInMonth(year, month) - MonthOffset(nm) in {28, 35}
  {
  }

  /** Day `d` of a month falls `d - 1` weekdays after its first day. */
  lemma WeekdayFromFirst(year: int, month: int, d: int)
    requires 0 <= month <= 11
    ensures Weekday(year, month, d) == (FirstDayOfMonth(year, month) + d - 1) % 7
  {
    var y := if month < 2 then year - 1 else year;
    var t := YearTerm(y) + MonthOffset(month);
    assert Weekday(year, month, d) == (t + d) % 7;
    assert FirstDayOfMonth(year, month) == (t + 1) % 7;
    var q := (t + 1) / 7;
    assert t + 1 == 7 * q + (t + 1) % 7;
    ModMultiple(q, (t + 1) % 7 + d - 1);
  }

  /** The months counted from year 0: a month-granular clock. */
  function MonthIndex(year: int, month: int): int
  {
    year * 12 + month
  }

  /** On first days of months, the date order is the order of the months. */
  lemma FirstDaysOrder(y1: int, m1: int, y2: int, m2: int)
    requires 0 <= m1 <= 11 && 0 <= m2 <= 11
    ensures AtMost(Date(y1, m1, 1), Date(y2, m2, 1)) <==> MonthIndex(y1, m1) <= MonthIndex(y2, m2)
  {
  }

  /** When day 1 of a month stands in column `anchor` (counted modulo 7),
      day `d` stands in column `anchor + d - 1`. */
  lemma WeekdayAt(y: int, m: int, d: int, anchor: int)
    requires 0 <= m <= 11
    requires FirstDayOfMonth(y, m) == anchor % 7
    ensures Weekday(y, m, d) == (anchor + d - 1) % 7
  {
    WeekdayFromFirst(y, m, d);
    var q := anchor / 7;
    assert anchor == 7 * q + anchor % 7;
    ModMultiple(q, anchor % 7 + d - 1);
  }

  /** Whole weeks do not change a weekday. */
  lemma ModMultiple(q: int, x: int)
    ensures (7 * q + x) % 7 == x % 7
  {
  }

  /** A weekday `w` reached by adding `n` days to weekday `v` lets `v` be
      recovered from `w`. */
  lemma WeekdayBack(v: int, n: int, w: int)
    requires 0 <= v <= 6
    requires w == (v + n) % 7
    ensures v == (w - n) % 7
  {
    var q := (v + n) / 7;
    assert v + n == 7 * q + w;
    assert w - n == 7 * -q + v;
    ModMultiple(-q, v);
  }
}
