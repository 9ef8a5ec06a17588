/** `app-date-picker`: a read-only text input showing the chosen date in one
    of three layouts, and a popup with a six-week grid of day buttons for
    the displayed month. */
module DatePicker {
  import opened Seqs
  import opened Text
  import opened Dates

  // ---------------------------------------------------------- formatting

  /** `String(n).padStart(2, '0')`. */
  function Pad2(n: nat): string
  {
    PadStart(NatToString(n), 2, '0')
  }

  /** Numbers below 100 pad to exactly two digits. */
  lemma Pad2Digits(n: nat)
    requires n < 100
    ensures |Pad2(n)| == 2 && AllDigits(Pad2(n))
  {
    var s := NatToString(n);
    if n < 10 {
      assert |s| == 1;
    } else {
      assert |NatToString(n / 10)| == 1;
    }
  }

  /** The two padded digits read back as the number. */
  lemma Pad2Value(n: nat)
    requires n < 100
    ensures AllDigits(Pad2(n)) && ParseNat(Pad2(n)) == n
  {
    var s := NatToString(n);
    Pad2Digits(n);
    ParseNatToString(n);
    if n < 10 {
      assert |s| == 1;
      var r := Pad2(n);
      assert r == ['0'] + s by { assert r[1..] == s; }
      ParseNatLeadingZero(s);
    }
  }

  /** Where each field sits in a format: the separator and the positions of
      the day, month and year between separators. Any format other than
      the two named ones is `YYYY-MM-DD`. */
  datatype Layout = Layout(sep: char, dayAt: nat, monthAt: nat, yearAt: nat)

  function LayoutOf(format: string): (l: Layout)
    ensures l.dayAt < 3 && l.monthAt < 3 && l.yearAt < 3
    ensures l.dayAt != l.monthAt && l.monthAt != l.yearAt && l.dayAt != l.yearAt
  {
    if format == "DD/MM/YYYY" then Layout('/', 0, 1, 2)
    else if format == "MM/DD/YYYY" then Layout('/', 1, 0, 2)
    else Layout('-', 2, 1, 0)
  }

  /** `_formatDate`: the empty string without a date; otherwise the year,
      1-based month and day, the last two padded to two digits, in the
      order of the format. */
  function FormatDate(d: Option<Date>, format: string): (r: string)
    requires d.Some? ==> IsValid(d.value)
    ensures r == "" <==> d.None?
  {
    if d.None? then ""
    else
      var year := IntToString(d.value.year);
      var month := Pad2(d.value.month + 1);
      var day := Pad2(d.value.day);
      if format == "DD/MM/YYYY" then day + "/" + month + "/" + year
      else if format == "MM/DD/YYYY" then month + "/" + day + "/" + year
      else year + "-" + month + "-" + day
  }

  /** Three separator-free fields joined by `sep` split back into them. */
  lemma SplitThree(a: string, b: string, c: string, sep: char)
    requires sep !in a && sep !in b && sep !in c
    ensures Split(a + [sep] + b + [sep] + c, sep) == [a, b, c]
  {
    var parts := [a, b, c];
    assert Join(parts[2..], sep) == c;
    assert Join(parts[1..], sep) == b + [sep] + c;
    assert Join(parts, sep) == a + [sep] + b + [sep] + c;
    SplitJoin(parts, sep);
  }

  /** The texts of the year, 1-based month and day. */
  function YearText(d: Date): string { IntToString(d.year) }
  function MonthText(d: Date): string requires IsValid(d) { Pad2(d.month + 1) }
  function DayText(d: Date): string requires IsValid(d) { Pad2(d.day) }

  /** The field texts contain no slash; the year text holds a dash exactly
      when the year is negative, as its minus sign. */
  lemma YearTextPlain(d: Date)
    ensures '/' !in YearText(d)
    ensures '-' !in YearText(d) <==> d.year >= 0
  {
    if d.year >= 0 {
      DigitsHaveNoSeparator(NatToString(d.year));
    } else {
      DigitsHaveNoSeparator(NatToString(-d.year));
      assert YearText(d)[0] == '-';
    }
  }

  lemma MonthTextPlain(d: Date)
    requires IsValid(d)
    ensures '/' !in MonthText(d) && '-' !in MonthText(d)
  {
    Pad2Digits(d.month + 1);
    DigitsHaveNoSeparator(MonthText(d));
  }

  lemma DayTextPlain(d: Date)
    requires IsValid(d)
    ensures '/' !in DayText(d) && '-' !in DayText(d)
  {
    Pad2Digits(d.day);
    DigitsHaveNoSeparator(DayText(d));
  }

  lemma FieldTexts(d: Date)
    requires IsValid(d)
    ensures '/' !in YearText(d) && '/' !in MonthText(d) && '/' !in DayText(d)
    ensures '-' !in MonthText(d) && '-' !in DayText(d)
    ensures '-' !in YearText(d) <==> d.year >= 0
  {
    YearTextPlain(d);
    MonthTextPlain(d);
    DayTextPlain(d);
  }

  /** The text of each layout, as fields and separators. */
  lemma DayFirstText(d: Date)
    requires IsValid(d)
    ensures FormatDate(Some(d), "DD/MM/YYYY") == DayText(d) + ['/'] + MonthText(d) + ['/'] + YearText(d)
  {
  }

  lemma MonthFirstText(d: Date)
    requires IsValid(d)
    ensures FormatDate(Some(d), "MM/DD/YYYY") == MonthText(d) + ['/'] + DayText(d) + ['/'] + YearText(d)
  {
  }

  lemma IsoText(d: Date, format: string)
    requires IsValid(d)
    requires format != "DD/MM/YYYY" && format != "MM/DD/YYYY"
    ensures FormatDate(Some(d), format) == YearText(d) + ['-'] + MonthText(d) + ['-'] + DayText(d)
  {
  }

  lemma SplitDayFirst(d: Date)
    requires IsValid(d)
    ensures Split(FormatDate(Some(d), "DD/MM/YYYY"), '/') == [DayText(d), MonthText(d), YearText(d)]
  {
    FieldTexts(d);
    DayFirstText(d);
    SplitThree(DayText(d), MonthText(d), YearText(d), '/');
  }

  lemma SplitMonthFirst(d: Date)
    requires IsValid(d)
    ensures Split(FormatDate(Some(d), "MM/DD/YYYY"), '/') == [MonthText(d), DayText(d), YearText(d)]
  {
    FieldTexts(d);
    MonthFirstText(d);
    SplitThree(MonthText(d), DayText(d), YearText(d), '/');
  }

  lemma SplitIso(d: Date, format: string)
    requires IsValid(d) && d.year >= 0
    requires format != "DD/MM/YYYY" && format != "MM/DD/YYYY"
    ensures Split(FormatDate(Some(d), format), '-') == [YearText(d), MonthText(d), DayText(d)]
  {
    FieldTexts(d);
    IsoText(d, format);
    SplitThree(YearText(d), MonthText(d), DayText(d), '-');
  }

  /** In the dash layout the minus sign of a negative year is one more
      separator: the text splits into four pieces, the first one empty. */
  lemma SplitIsoNegative(d: Date, format: string)
    requires IsValid(d) && d.year < 0
    requires format != "DD/MM/YYYY" && format != "MM/DD/YYYY"
    ensures Split(FormatDate(Some(d), format), '-') == ["", NatToString(-d.year), MonthText(d), DayText(d)]
  {
    var n := NatToString(-d.year);
    DigitsHaveNoSeparator(n);
    FieldTexts(d);
    IsoText(d, format);
    assert YearText(d) == ['-'] + n;
    LeadingRegroup('-', n, MonthText(d), DayText(d));
    SplitLeadingSeparator(n, MonthText(d), DayText(d), '-');
  }

  lemma LeadingRegroup(x: char, a: string, b: string, c: string)
    ensures ([x] + a) + [x] + b + [x] + c == [x] + (a + [x] + b + [x] + c)
  {
  }

  /** A separator in front of three joined fields adds an empty first
      piece. */
  lemma SplitLeadingSeparator(a: string, b: string, c: string, sep: char)
    requires sep !in a && sep !in b && sep !in c
    ensures Split([sep] + (a + [sep] + b + [sep] + c), sep) == ["", a, b, c]
  {
    SplitAfterSeparator(a + [sep] + b + [sep] + c, sep);
    SplitThree(a, b, c, sep);
  }

  /** Splitting a text that starts with the separator. */
  lemma SplitAfterSeparator(rest: string, sep: char)
    ensures Split([sep] + rest, sep) == [""] + Split(rest, sep)
  {
    var text := [sep] + rest;
    assert IndexOf(text, sep) == 0;
    SplitStep(text, sep);
    assert text[1..] == rest;
  }

  /** A formatted date splits at the layout's separator into its three
      field texts, each at its layout position, unless a negative year's
      minus sign meets the dash layout; then the year's digits follow an
      empty first piece. */
  lemma FormatDateSplit(d: Date, format: string)
    requires IsValid(d)
    ensures var l := LayoutOf(format);
      var p := Split(FormatDate(Some(d), format), l.sep);
      (l.sep == '/' || d.year >= 0) ==>
        |p| == 3 && p[l.dayAt] == DayText(d) && p[l.monthAt] == MonthText(d) && p[l.yearAt] == YearText(d)
    ensures var l := LayoutOf(format);
      var p := Split(FormatDate(Some(d), format), l.sep);
      (l.sep == '-' && d.year < 0) ==> p == ["", NatToString(-d.year), MonthText(d), DayText(d)]
  {
    if format == "DD/MM/YYYY" {
      SplitDayFirst(d);
    } else if format == "MM/DD/YYYY" {
      SplitMonthFirst(d);
    } else if d.year >= 0 {
      SplitIso(d, format);
    } else {
      SplitIsoNegative(d, format);
    }
  }

  /** The field texts are numerals of the fields, day and month two
      digits long. */
  lemma DayValue(d: Date)
    requires IsValid(d)
    ensures AllDigits(DayText(d)) && |DayText(d)| == 2 && ParseNat(DayText(d)) == d.day
  {
    Pad2Exact(d.day);
  }

  lemma MonthValue(d: Date)
    requires IsValid(d)
    ensures AllDigits(MonthText(d)) && |MonthText(d)| == 2 && ParseNat(MonthText(d)) == d.month + 1
  {
    Pad2Exact(d.month + 1);
  }

  lemma YearValue(d: Date)
    ensures d.year >= 0 ==> AllDigits(YearText(d)) && ParseNat(YearText(d)) == d.year
    ensures d.year < 0 ==>
      var t := YearText(d);
      |t| >= 2 && t[0] == '-' && AllDigits(t[1..]) && ParseNat(t[1..]) == -d.year
  {
    if d.year >= 0 {
      ParseNatToString(d.year);
    } else {
      assert YearText(d)[1..] == NatToString(-d.year);
      ParseNatToString(-d.year);
    }
  }

  /** Different years have different texts. */
  lemma YearTextInjective(a: Date, b: Date)
    requires YearText(a) == YearText(b)
    ensures a.year == b.year
  {
    YearValue(a);
    YearValue(b);
  }

  lemma Pad2Exact(n: nat)
    requires n < 100
    ensures AllDigits(Pad2(n)) && |Pad2(n)| == 2 && ParseNat(Pad2(n)) == n
  {
    Pad2Digits(n);
    Pad2Value(n);
  }

  /** A formatted date of a year from 0 on splits at the layout's separator
      into three numerals that read back as its day, 1-based month and
      year, with the day and month two digits long. */
  lemma FormatDateRoundTrip(d: Date, format: string)
    requires IsValid(d) && d.year >= 0
    ensures var l := LayoutOf(format);
      var p := Split(FormatDate(Some(d), format), l.sep);
      && |p| == 3
      && AllDigits(p[l.dayAt]) && |p[l.dayAt]| == 2 && ParseNat(p[l.dayAt]) == d.day
      && AllDigits(p[l.monthAt]) && |p[l.monthAt]| == 2 && ParseNat(p[l.monthAt]) == d.month + 1
      && AllDigits(p[l.yearAt]) && ParseNat(p[l.yearAt]) == d.year
  {
    FormatDateSplit(d, format);
    DayValue(d);
    MonthValue(d);
    YearValue(d);
  }

  /** A numeral contains no separator. */
  lemma DigitsHaveNoSeparator(s: string)
    requires AllDigits(s)
    ensures '/' !in s && '-' !in s
  {
    assert forall i :: 0 <= i < |s| ==> IsDigit(s[i]);
  }

  /** The three field texts determine the date. */
  lemma FieldsDetermineDate(a: Date, b: Date)
    requires IsValid(a) && IsValid(b)
    requires DayText(a) == DayText(b) && MonthText(a) == MonthText(b) && YearText(a) == YearText(b)
    ensures a == b
  {
    DayValue(a);
    DayValue(b);
    MonthValue(a);
    MonthValue(b);
    YearTextInjective(a, b);
  }

  /** Two dates with the same text in one format are the same date. */
  lemma FormatDateInjective(a: Date, b: Date, format: string)
    requires IsValid(a) && IsValid(b)
    requires FormatDate(Some(a), format) == FormatDate(Some(b), format)
    ensures a == b
  {
    var l := LayoutOf(format);
    FormatDateSplit(a, format);
    FormatDateSplit(b, format);
    if l.sep == '/' || (a.year >= 0 && b.year >= 0) {
      SameThreeFields(a, b, format);
    } else if a.year < 0 && b.year < 0 {
      SameNegativeIsoFields(a, b, format);
    }
  }

  lemma SameThreeFields(a: Date, b: Date, format: string)
    requires IsValid(a) && IsValid(b)
    requires var l := LayoutOf(format);
      var p := Split(FormatDate(Some(a), format), l.sep);
      |p| == 3 && p == Split(FormatDate(Some(b), format), l.sep)
      && p[l.dayAt] == DayText(a) && p[l.monthAt] == MonthText(a) && p[l.yearAt] == YearText(a)
      && p[l.dayAt] == DayText(b) && p[l.monthAt] == MonthText(b) && p[l.yearAt] == YearText(b)
    ensures a == b
  {
    FieldsDetermineDate(a, b);
  }

  lemma SameNegativeIsoFields(a: Date, b: Date, format: string)
    requires IsValid(a) && IsValid(b) && a.year < 0 && b.year < 0
    requires ["", NatToString(-a.year), MonthText(a), DayText(a)] == ["", NatToString(-b.year), MonthText(b), DayText(b)]
    ensures a == b
  {
    assert NatToString(-a.year) == NatToString(-b.year);
    ParseNatToString(-a.year);
    ParseNatToString(-b.year);
    FieldsDetermineDate(a, b);
  }

  // ---------------------------------------------------------- day grid

  /** One button of the grid. */
  datatype DayCell = DayCell(day: int, month: int, year: int, isOtherMonth: bool)

  function CellDate(c: DayCell): Date
  {
    Date(c.year, c.month, c.day)
  }

  /** The last `firstDay` days of the previous month, in increasing order. */
  function PrevMonthCells(year: int, month: int): seq<DayCell>
    requires 0 <= month <= 11
  {
    var (py, pm) := PrevMonth(year, month);
    var dim := DaysInMonth(py, pm);
    var f := FirstDayOfMonth(year, month);
    seq(f, k requires 0 <= k < f => DayCell(dim - f + 1 + k, pm, py, true))
  }

  /** Days 1 to the month's length. */
  function CurrentMonthCells(year: int, month: int): seq<DayCell>
    requires 0 <= month <= 11
  {
    seq(DaysInMonth(year, month), k => DayCell(k + 1, month, year, false))
  }

  /** How many cells the next month fills: the rest of 42. */
  function RemainingCells(year: int, month: int): (n: nat)
    requires 0 <= month <= 11
    ensures 5 <= n <= 14
  {
    42 - (FirstDayOfMonth(year, month) + DaysInMonth(year, month))
  }

  /** Days 1 to `RemainingCells` of the next month. */
  function NextMonthCells(year: int, month: int): seq<DayCell>
    requires 0 <= month <= 11
  {
    var (ny, nm) := NextMonth(year, month);
    seq(RemainingCells(year, month), k => DayCell(k + 1, nm, ny, true))
  }

  /** `_getAllDays` for the displayed month. */
  function AllDays(year: int, month: int): seq<DayCell>
    requires 0 <= month <= 11
  {
    PrevMonthCells(year, month) + CurrentMonthCells(year, month) + NextMonthCells(year, month)
  }

  /** `_getPrevMonthDays`, counting `i` down from `firstDay - 1`. */
  method GetPrevMonthDays(year: int, month: int) returns (days: seq<DayCell>)
    requires 0 <= month <= 11
    ensures days == PrevMonthCells(year, month)
  {
    var prevMonth := if month == 0 then 11 else month - 1;
    var prevYear := if month == 0 then year - 1 else year;
    var daysInMonth := DaysInMonth(prevYear, prevMonth);
    var firstDay := FirstDayOfMonth(year, month);
    days := [];
    var i := firstDay - 1;
    while i >= 0
      invariant -1 <= i <= firstDay - 1
      invariant |days| == firstDay - 1 - i
      invariant forall k :: 0 <= k < |days| ==>
        days[k] == DayCell(daysInMonth - firstDay + 1 + k, prevMonth, prevYear, true)
    {
      days := days + [DayCell(daysInMonth - i, prevMonth, prevYear, true)];
      i := i - 1;
    }
  }

  /** `_getCurrentMonthDays`. */
  method GetCurrentMonthDays(year: int, month: int) returns (days: seq<DayCell>)
    requires 0 <= month <= 11
    ensures days == CurrentMonthCells(year, month)
  {
    var daysInMonth := DaysInMonth(year, month);
    days := [];
    var i := 1;
    while i <= daysInMonth
      invariant 1 <= i <= daysInMonth + 1
      invariant |days| == i - 1
      invariant forall k :: 0 <= k < |days| ==> days[k] == DayCell(k + 1, month, year, false)
    {
      days := days + [DayCell(i, month, year, false)];
      i := i + 1;
    }
  }

  /** `_getNextMonthDays`. */
  method GetNextMonthDays(year: int, month: int) returns (days: seq<DayCell>)
    requires 0 <= month <= 11
    ensures days == NextMonthCells(year, month)
  {
    var totalCells := 42;
    var firstDay := FirstDayOfMonth(year, month);
    var daysInMonth := DaysInMonth(year, month);
    var remainingCells := totalCells - (firstDay + daysInMonth);
    var nextMonth := if month == 11 then 0 else month + 1;
    var nextYear := if month == 11 then year + 1 else year;
    days := [];
    var i := 1;
    while i <= remainingCells
      invariant 1 <= i <= remainingCells + 1
      invariant |days| == i - 1
      invariant forall k :: 0 <= k < |days| ==> days[k] == DayCell(k + 1, nextMonth, nextYear, true)
    {
      days := days + [DayCell(i, nextMonth, nextYear, true)];
      i := i + 1;
    }
  }

  /** `_getAllDays`. */
  method GetAllDays(year: int, month: int) returns (days: seq<DayCell>)
    requires 0 <= month <= 11
    ensures days == AllDays(year, month)
  {
    var prev := GetPrevMonthDays(year, month);
    var current := GetCurrentMonthDays(year, month);
    var next := GetNextMonthDays(year, month);
    days := prev + current + next;
  }

  /** The grid has 42 cells: `firstDay` trailing days of the previous month
      ending at its last day, then every day of this month, then the first
      days of the next month; exactly the cells of this month are enabled,
      and every cell is a real date. */
  lemma AllDaysShape(year: int, month: int)
    requires 0 <= month <= 11
    ensures var cells := AllDays(year, month);
      var f := FirstDayOfMonth(year, month);
      var dim := DaysInMonth(year, month);
      var (py, pm) := PrevMonth(year, month);
      var (ny, nm) := NextMonth(year, month);
      && |cells| == 42
      && (f > 0 ==> cells[f - 1] == DayCell(DaysInMonth(py, pm), pm, py, true))
      && (forall k :: 0 <= k < f ==> cells[k].isOtherMonth && (cells[k].year, cells[k].month) == (py, pm))
      && (forall k :: f <= k < f + dim ==> cells[k] == DayCell(k - f + 1, month, year, false))
      && (forall k :: f + dim <= k < 42 ==> cells[k] == DayCell(k - f - dim + 1, nm, ny, true))
      && (forall k :: 0 <= k < 42 ==> IsValid(CellDate(cells[k])))
  {
  }

  /** The previous month's cells fill the first columns up to the first
      day's weekday. */
  lemma {:induction false} PrevCellsWeekdays(year: int, month: int)
    requires 0 <= month <= 11
    ensures var cells := PrevMonthCells(year, month);
      forall k :: 0 <= k < |cells| ==> Weekday(cells[k].year, cells[k].month, cells[k].day) == k % 7
  {
    var cells := PrevMonthCells(year, month);
    var f := FirstDayOfMonth(year, month);
    var (py, pm) := PrevMonth(year, month);
    var dimP := DaysInMonth(py, pm);
    var fp := FirstDayOfMonth(py, pm);
    PrevNextInverse(year, month);
    FirstDayOfNextMonth(py, pm);
    WeekdayBack(fp, dimP, f);
    forall k | 0 <= k < |cells|
      ensures Weekday(cells[k].year, cells[k].month, cells[k].day) == k % 7
    {
      assert cells[k] == DayCell(dimP - f + 1 + k, pm, py, true);
      WeekdayAt(py, pm, dimP - f + 1 + k, f - dimP);
    }
  }

  /** Day `d` of the month stands in column `firstDay + d - 1`. */
  lemma {:induction false} CurrentCellsWeekdays(year: int, month: int)
    requires 0 <= month <= 11
    ensures var cells := CurrentMonthCells(year, month);
      forall k :: 0 <= k < |cells| ==>
        Weekday(cells[k].year, cells[k].month, cells[k].day) == (FirstDayOfMonth(year, month) + k) % 7
  {
    var cells := CurrentMonthCells(year, month);
    forall k | 0 <= k < |cells|
      ensures Weekday(cells[k].year, cells[k].month, cells[k].day) == (FirstDayOfMonth(year, month) + k) % 7
    {
      WeekdayAt(year, month, k + 1, FirstDayOfMonth(year, month));
    }
  }

  /** The next month's cells continue the columns after the last day. */
  lemma {:induction false} NextCellsWeekdays(year: int, month: int)
    requires 0 <= month <= 11
    ensures var cells := NextMonthCells(year, month);
      var start := FirstDayOfMonth(year, month) + DaysInMonth(year, month);
      forall k :: 0 <= k < |cells| ==> Weekday(cells[k].year, cells[k].month, cells[k].day) == (start + k) % 7
  {
    var cells := NextMonthCells(year, month);
    var start := FirstDayOfMonth(year, month) + DaysInMonth(year, month);
    var (ny, nm) := NextMonth(year, month);
    var fn := FirstDayOfMonth(ny, nm);
    FirstDayOfNextMonth(year, month);
    forall k | 0 <= k < |cells|
      ensures Weekday(cells[k].year, cells[k].month, cells[k].day) == (start + k) % 7
    {
      assert cells[k] == DayCell(k + 1, nm, ny, true);
      WeekdayAt(ny, nm, k + 1, start);
    }
  }

  /** Cell `k` falls on weekday `k % 7`: every cell stands under the right
      one of the `Su`..`Sa` labels. */
  lemma AllDaysWeekdays(year: int, month: int)
    requires 0 <= month <= 11
    ensures var cells := AllDays(year, month);
      forall k :: 0 <= k < |cells| ==> Weekday(cells[k].year, cells[k].month, cells[k].day) == k % 7
  {
    var p, c, n := PrevMonthCells(year, month), CurrentMonthCells(year, month), NextMonthCells(year, month);
    var cells := AllDays(year, month);
    PrevCellsWeekdays(year, month);
    CurrentCellsWeekdays(year, month);
    NextCellsWeekdays(year, month);
    forall k | 0 <= k < |cells|
      ensures Weekday(cells[k].year, cells[k].month, cells[k].day) == k % 7
    {
      if k < |p| {
        assert cells[k] == p[k];
      } else if k < |p| + |c| {
        assert cells[k] == c[k - |p|];
      } else {
        assert cells[k] == n[k - |p| - |c|];
      }
    }
  }

  // -------------------------------------------------------------- element

  class Picker {
    var value: Option<Date>
    var format: string
    var isOpen: bool
    var currentMonth: int
    var currentYear: int

    ghost predicate Valid()
      reads this
    {
      0 <= currentMonth <= 11 && (value.Some? ==> IsValid(value.value))
    }

    /** No date, ISO format, closed, showing the month of `today`. */
    constructor (today: Date)
      requires IsValid(today)
      ensures Valid()
      ensures value.None? && format == "YYYY-MM-DD" && !isOpen
      ensures currentMonth == today.month && currentYear == today.year
    {
      value := None;
      format := "YYYY-MM-DD";
      isOpen := false;
      currentMonth := today.month;
      currentYear := today.year;
    }

    /** The text of the input. */
    function InputText(): (r: string)
      reads this
      requires Valid()
      ensures r == "" <==> value.None?
    {
      FormatDate(value, format)
    }

    /** `_handlePrevMonth`. */
    method HandlePrevMonth()
      requires Valid()
      modifies this`currentMonth, this`currentYear
      ensures Valid()
      ensures (currentYear, currentMonth) == PrevMonth(old(currentYear), old(currentMonth))
    {
      if currentMonth == 0 {
        currentMonth := 11;
        currentYear := currentYear - 1;
      } else {
        currentMonth := currentMonth - 1;
      }
    }

    /** `_handleNextMonth`. */
    method HandleNextMonth()
      requires Valid()
      modifies this`currentMonth, this`currentYear
      ensures Valid()
      ensures (currentYear, currentMonth) == NextMonth(old(currentYear), old(currentMonth))
    {
      if currentMonth == 11 {
        currentMonth := 0;
        currentYear := currentYear + 1;
      } else {
        currentMonth := currentMonth + 1;
      }
    }

    /** `_handleDayClick`: the cell's date becomes the value, the popup
        closes, and the date is announced. */
    method HandleDayClick(cell: DayCell) returns (changed: Option<Date>)
      requires Valid() && IsValid(CellDate(cell))
      modifies this`value, this`isOpen
      ensures Valid()
      ensures value == Some(CellDate(cell)) && !isOpen && changed == value
    {
      value := Some(CellDate(cell));
      isOpen := false;
      changed := value;
    }

    /** `_handleClear`: no value, announced as such; the popup stays as it
        was. */
    method HandleClear() returns (changed: Option<Date>)
      requires Valid()
      modifies this`value
      ensures Valid()
      ensures value.None? && changed.None?
    {
      value := None;
      changed := None;
    }

    /** `_handleToday`: today's date becomes the value and the displayed
        month; the popup closes. */
    method HandleToday(today: Date) returns (changed: Option<Date>)
      requires Valid() && IsValid(today)
      modifies this
      ensures Valid()
      ensures value == Some(today) && changed == value && !isOpen
      ensures currentMonth == today.month && currentYear == today.year && format == old(format)
    {
      value := Some(today);
      currentMonth := today.month;
      currentYear := today.year;
      isOpen := false;
      changed := value;
    }

    /** `_handleInputClick`. */
    method HandleInputClick()
      modifies this`isOpen
      ensures isOpen == !old(isOpen)
    {
      isOpen := !isOpen;
    }

    /** `_handleClose`. */
    method HandleClose()
      modifies this`isOpen
      ensures !isOpen
    {
      isOpen := false;
    }

    /** `_handleOutsideClick`: a document click whose path does not pass
        through the element closes the popup. */
    method HandleOutsideClick(pathIncludesElement: bool)
      modifies this`isOpen
      ensures isOpen == (old(isOpen) && pathIncludesElement)
    {
      if !pathIncludesElement {
        isOpen := false;
      }
    }

    /** `_handleInputKeydown`: Enter or Space toggles the popup (and the
        key's default action is prevented), Escape or Tab closes it, every
        other key does nothing. */
    method HandleInputKeydown(key: string) returns (preventDefault: bool)
      modifies this`isOpen
      ensures preventDefault <==> key == "Enter" || key == " "
      ensures preventDefault ==> isOpen == !old(isOpen)
      ensures (key == "Escape" || key == "Tab") ==> !isOpen
      ensures !preventDefault && key != "Escape" && key != "Tab" ==> isOpen == old(isOpen)
    {
      preventDefault := false;
      if key == "Enter" || key == " " {
        preventDefault := true;
        isOpen := !isOpen;
      } else if key == "Escape" {
        isOpen := false;
      } else if key == "Tab" {
        isOpen := false;
      }
    }

    /** `willUpdate`: when `value` changed to a date, the displayed month
        and year follow it. */
    method WillUpdate(valueChanged: bool)
      requires Valid()
      modifies this`currentMonth, this`currentYear
      ensures Valid()
      ensures valueChanged && value.Some? ==> currentMonth == value.value.month && currentYear == value.value.year
      ensures !(valueChanged && value.Some?) ==> currentMonth == old(currentMonth) && currentYear == old(currentYear)
    {
      if valueChanged && value.Some? {
        currentMonth := value.value.month;
        currentYear := value.value.year;
      }
    }

    /** `connectedCallback`: a value present on attaching picks the
        displayed month. */
    method Connect()
      requires Valid()
      modifies this`currentMonth, this`currentYear
      ensures Valid()
      ensures value.Some? ==> currentMonth == value.value.month && currentYear == value.value.year
      ensures value.None? ==> currentMonth == old(currentMonth) && currentYear == old(currentYear)
    {
      if value.Some? {
        currentMonth := value.value.month;
        currentYear := value.value.year;
      }
    }

    /** The grid of the displayed month, and the enabled cells (`?disabled`
        is `isOtherMonth`). */
    method Grid() returns (days: seq<DayCell>)
      requires Valid()
      ensures days == AllDays(currentYear, currentMonth)
    {
      days := GetAllDays(currentYear, currentMonth);
    }
  }

  /** A click on an enabled cell of the displayed grid selects a day of the
      displayed month, and the input then shows that day. */
  lemma EnabledClickSelectsDisplayedMonth(year: int, month: int, k: int, format: string)
    requires 0 <= month <= 11
    requires 0 <= k < |AllDays(year, month)| && !AllDays(year, month)[k].isOtherMonth
    ensures var d := CellDate(AllDays(year, month)[k]);
      && d.year == year && d.month == month && IsValid(d)
      && k == FirstDayOfMonth(year, month) + d.day - 1
      && FormatDate(Some(d), format) != ""
  {
    AllDaysShape(year, month);
  }

  /** Clicking 29 February 2024 selects and announces it and closes the
      popup; the update that follows moves the display to February 2024,
      and Enter in the input opens the popup there again. */
  method DayClickScenario(p: Picker) returns (changed: Option<Date>, closed: bool, pressed: bool)
    requires p.Valid()
    modifies p
    ensures changed == Some(Date(2024, 1, 29)) && closed
    ensures p.value == changed && p.currentMonth == 1 && p.currentYear == 2024
    ensures pressed && p.isOpen
  {
    changed := p.HandleDayClick(DayCell(29, 1, 2024, false));
    closed := !p.isOpen;
    p.WillUpdate(true);
    pressed := p.HandleInputKeydown("Enter");
  }

  lemma ExampleFields()
    ensures YearText(Date(2024, 1, 9)) == "2024"
    ensures MonthText(Date(2024, 1, 9)) == "02"
    ensures DayText(Date(2024, 1, 9)) == "09"
  {
    assert NatToString(20) == "20";
    assert NatToString(202) == "202";
    assert PadStart("2", 2, '0') == "02";
    assert PadStart("9", 2, '0') == "09";
  }

  /** Zero-padding and field order of the three layouts on one date. */
  lemma FormatExamples()
    ensures FormatDate(Some(Date(2024, 1, 9)), "YYYY-MM-DD") == "2024-02-09"
    ensures FormatDate(Some(Date(2024, 1, 9)), "DD/MM/YYYY") == "09/02/2024"
    ensures FormatDate(Some(Date(2024, 1, 9)), "MM/DD/YYYY") == "02/09/2024"
    ensures FormatDate(Some(Date(2024, 1, 9)), "D.M.Y") == "2024-02-09"
  {
    ExampleFields();
    IsoText(Date(2024, 1, 9), "YYYY-MM-DD");
    DayFirstText(Date(2024, 1, 9));
    MonthFirstText(Date(2024, 1, 9));
    IsoText(Date(2024, 1, 9), "D.M.Y");
  }
}
