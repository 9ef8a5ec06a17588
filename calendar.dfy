/** `app-calendar`: an always-visible month view with optional `min` and
    `max` bounds. Days outside the bounds are disabled and cannot be
    selected; the month arrows are disabled when the adjacent month lies
    wholly outside them. */
module MonthCalendar {
  import opened Seqs
  import opened Dates

  /** `_isDateDisabled`: a date is disabled when it lies before a set `min`
      or after a set `max`; an absent date is never disabled. */
  predicate IsDateDisabled(date: Option<Date>, min: Option<Date>, max: Option<Date>)
  {
    date.Some? && ((min.Some? && Before(date.value, min.value)) || (max.Some? && Before(max.value, date.value)))
  }

  /** The enabled dates are exactly the closed interval between the bounds
      that are set. */
  lemma EnabledIsClosedInterval(d: Date, min: Option<Date>, max: Option<Date>)
    ensures !IsDateDisabled(Some(d), min, max) <==>
      (min.None? || AtMost(min.value, d)) && (max.None? || AtMost(d, max.value))
    ensures min.Some? && (max.None? || AtMost(min.value, max.value)) ==> !IsDateDisabled(min, min, max)
    ensures max.Some? && (min.None? || AtMost(min.value, max.value)) ==> !IsDateDisabled(max, min, max)
    ensures !IsDateDisabled(None, min, max)
  {
    if min.Some? { BeforeTotal(min.value, d, d); }
    if max.Some? { BeforeTotal(d, max.value, d); }
    if min.Some? && max.Some? { BeforeTotal(min.value, max.value, min.value); }
  }

  /** One cell of the grid: a blank before day 1, or a day with its flags. */
  datatype GridCell = Empty | Day(day: int, disabled: bool, selected: bool, today: bool)

  /** The grid `render` builds for (year, month). */
  function GridCells(year: int, month: int, value: Option<Date>, min: Option<Date>, max: Option<Date>, today: Date): seq<GridCell>
    requires 0 <= month <= 11
  {
    var start := FirstDayOfMonth(year, month);
    seq(start, _ => Empty)
    + seq(DaysInMonth(year, month), k =>
        var date := Some(Date(year, month, k + 1));
        Day(k + 1, IsDateDisabled(date, min, max), SameDay(date, value), SameDay(date, Some(today))))
  }

  /** The grid has `startDayOfWeek` blanks and then every day of the month,
      each under its weekday column, and nothing after the last day. The
      selected flag is set on exactly the cell of the value when the value
      lies in this month. */
  lemma {:induction false} GridShape(year: int, month: int, value: Option<Date>, min: Option<Date>, max: Option<Date>, today: Date)
    requires 0 <= month <= 11
    ensures var cells := GridCells(year, month, value, min, max, today);
      var start := FirstDayOfMonth(year, month);
      && |cells| == start + DaysInMonth(year, month)
      && (forall k :: 0 <= k < start ==> cells[k] == Empty)
      && (forall k :: start <= k < |cells| ==>
            cells[k].Day? && cells[k].day == k - start + 1 && Weekday(year, month, cells[k].day) == k % 7)
      && (forall k :: start <= k < |cells| ==>
            (cells[k].selected <==> value.Some? && value.value == Date(year, month, k - start + 1)))
  {
    var cells := GridCells(year, month, value, min, max, today);
    var start := FirstDayOfMonth(year, month);
    forall k | start <= k < |cells|
      ensures Weekday(year, month, cells[k].day) == k % 7
    {
      WeekdayAt(year, month, k - start + 1, start);
    }
  }

  /** The first of the month before, and after, (year, month). */
  function PrevFirst(d: Date): Date
    requires 0 <= d.month <= 11
  {
    var (y, m) := PrevMonth(d.year, d.month);
    Date(y, m, 1)
  }

  function NextFirst(d: Date): Date
    requires 0 <= d.month <= 11
  {
    var (y, m) := NextMonth(d.year, d.month);
    Date(y, m, 1)
  }

  class Calendar {
    var value: Option<Date>
    var min: Option<Date>
    var max: Option<Date>
    /** `_currentMonth`: a date in the displayed month. */
    var current: Date

    ghost predicate Valid()
      reads this
    {
      && IsValid(current)
      && (value.Some? ==> IsValid(value.value))
      && (min.Some? ==> IsValid(min.value))
      && (max.Some? ==> IsValid(max.value))
    }

    /** No value and no bounds, showing today's month. */
    constructor (today: Date)
      requires IsValid(today)
      ensures Valid()
      ensures value.None? && min.None? && max.None? && current == today
    {
      value := None;
      min := None;
      max := None;
      current := today;
    }

    /** `_previousMonth`: `new Date(year, month - 1, 1)`, whose month
        carry gives day 1 of the month before. */
    method PreviousMonth()
      requires Valid()
      modifies this`current
      ensures Valid()
      ensures current == PrevFirst(old(current))
    {
      var (y, m) := NormalizeMonth(current.year, current.month - 1);
      NormalizeAdjacent(current.year, current.month);
      current := Date(y, m, 1);
    }

    /** `_nextMonth`: `new Date(year, month + 1, 1)`. */
    method NextMonth()
      requires Valid()
      modifies this`current
      ensures Valid()
      ensures current == NextFirst(old(current))
    {
      var (y, m) := NormalizeMonth(current.year, current.month + 1);
      NormalizeAdjacent(current.year, current.month);
      current := Date(y, m, 1);
    }

    /** `_selectDate`: the day of the displayed month becomes the value
        and is announced, unless it is disabled, when nothing happens. */
    method SelectDate(day: int) returns (changed: Option<Date>)
      requires Valid()
      requires 1 <= day <= DaysInMonth(current.year, current.month)
      modifies this`value
      ensures Valid()
      ensures var date := Date(current.year, current.month, day);
        && (IsDateDisabled(Some(date), min, max) ==> value == old(value) && changed.None?)
        && (!IsDateDisabled(Some(date), min, max) ==> value == Some(date) && changed == value)
    {
      var date := Date(current.year, current.month, day);
      if IsDateDisabled(Some(date), min, max) {
        changed := None;
        return;
      }
      value := Some(date);
      changed := value;
    }

    /** The grid of `render`: blanks, then one cell per day. */
    method BuildGrid(today: Date) returns (cells: seq<GridCell>)
      requires Valid()
      ensures cells == GridCells(current.year, current.month, value, min, max, today)
    {
      var year := current.year;
      var month := current.month;
      var startDayOfWeek := FirstDayOfMonth(year, month);
      var daysInMonth := DaysInMonth(year, month);
      cells := [];
      var i := 0;
      while i < startDayOfWeek
        invariant 0 <= i <= startDayOfWeek
        invariant cells == seq(i, _ => Empty)
      {
        cells := cells + [Empty];
        i := i + 1;
      }
      var day := 1;
      while day <= daysInMonth
        invariant 1 <= day <= daysInMonth + 1
        invariant |cells| == startDayOfWeek + day - 1
        invariant forall k :: 0 <= k < startDayOfWeek ==> cells[k] == Empty
        invariant forall k :: startDayOfWeek <= k < |cells| ==>
          var date := Some(Date(year, month, k - startDayOfWeek + 1));
          cells[k] == Day(k - startDayOfWeek + 1, IsDateDisabled(date, min, max), SameDay(date, value), SameDay(date, Some(today)))
      {
        var date := Some(Date(year, month, day));
        cells := cells + [Day(day, IsDateDisabled(date, min, max), SameDay(date, value), SameDay(date, Some(today)))];
        day := day + 1;
      }
    }

    /** `canGoPrevious`: no `min`, or the first of the month before is not
        before the first of `min`'s month. */
    predicate CanGoPrevious()
      reads this
      requires Valid()
    {
      min.None? || AtMost(Date(min.value.year, min.value.month, 1), PrevFirst(current))
    }

    /** `canGoNext`: no `max`, or the first of the month after is not after
        the first of `max`'s month. */
    predicate CanGoNext()
      reads this
      requires Valid()
    {
      max.None? || AtMost(NextFirst(current), Date(max.value.year, max.value.month, 1))
    }
  }

  /** The previous-month arrow is enabled exactly when the month before has
      a day not before `min`: its last day then is not, and otherwise
      every one of its days is before `min`. */
  lemma CanGoPreviousMeaning(c: Calendar)
    requires c.Valid()
    ensures var p := PrevFirst(c.current);
      c.CanGoPrevious() <==> c.min.None? || MonthIndex(c.min.value.year, c.min.value.month) <= MonthIndex(p.year, p.month)
    ensures var p := PrevFirst(c.current);
      c.CanGoPrevious() && c.min.Some? ==> !Before(Date(p.year, p.month, DaysInMonth(p.year, p.month)), c.min.value)
    ensures var p := PrevFirst(c.current);
      !c.CanGoPrevious() ==> forall d :: 1 <= d <= DaysInMonth(p.year, p.month) ==> Before(Date(p.year, p.month, d), c.min.value)
  {
    var p := PrevFirst(c.current);
    if c.min.Some? {
      FirstDaysOrder(c.min.value.year, c.min.value.month, p.year, p.month);
    }
  }

  /** The next-month arrow is enabled exactly when the month after has a
      day not after `max`: its first day then is not, and otherwise every
      one of its days is after `max`. */
  lemma CanGoNextMeaning(c: Calendar)
    requires c.Valid()
    ensures var n := NextFirst(c.current);
      c.CanGoNext() <==> c.max.None? || MonthIndex(n.year, n.month) <= MonthIndex(c.max.value.year, c.max.value.month)
    ensures var n := NextFirst(c.current);
      c.CanGoNext() && c.max.Some? ==> !Before(c.max.value, n)
    ensures var n := NextFirst(c.current);
      !c.CanGoNext() ==> forall d :: 1 <= d <= DaysInMonth(n.year, n.month) ==> Before(c.max.value, Date(n.year, n.month, d))
  {
    var n := NextFirst(c.current);
    if c.max.Some? {
      FirstDaysOrder(n.year, n.month, c.max.value.year, c.max.value.month);
    }
  }

  /** Forward then back returns to day 1 of the starting month. */
  lemma PrevNextFirst(d: Date)
    requires IsValid(d)
    ensures PrevFirst(NextFirst(d)) == Date(d.year, d.month, 1)
    ensures NextFirst(PrevFirst(d)) == Date(d.year, d.month, 1)
  {
    PrevNextInverse(d.year, d.month);
  }
}
