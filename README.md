# A verified model of the kargome component logic

kargome is a catalogue of Lit custom elements. Most of its components are
markup and styling. A handful carry state machines and list or string
computations that can be separated from the DOM. This project models those
in Dafny and proves what each one promises:

- the data table: sorting, pages and the page-button window;
- the page-number list of the pagination component;
- the toast queue of `app-sonner`;
- the calendar arithmetic behind the date picker and the calendar;
- two option pickers, the combobox and the select;
- the toggle group, the one-time-code input, the carousel and the theme
  switch;
- the catalogue page's search and category filter;
- the avatar's initials.

Each component is one module. Pure computations become functions with
contracts, related to reference definitions by lemmas. Component state that
the code updates in place becomes a class, with a method per handler. Loops
in the source become methods with loop invariants, proved equal to a
specification function. Three modules are shared:

- `Seqs`: `Option`, filtering, subsequences, `indexOf` and `splice`.
- `Text`: ASCII case mapping, substring search, `split` and `join` on one
  character, decimal numerals and `padStart`.
- `Dates`: a calendar date as a (year, month 0..11, day) triple, as
  `getFullYear`, `getMonth` and `getDate` give it, with the Gregorian calendar
  that `Date` uses.

These parts of the JavaScript runtime are modelled explicitly where the
components depend on them:

- `padEnd(n, '')` returns its string unchanged.
- An assignment past the end of an array leaves holes, and `join` turns them
  into empty strings.
- `||` falls back on an empty string.
- `??` keeps an empty string.
- `new Set` keeps the order of first appearance.
- `slice` counts negative positions from the end and clamps both positions
  (`DataTable.JsSlice`).
- `%` truncates toward zero, so its result takes the sign of the dividend
  (`Carousel.JsRem`).

Where the code and the component documentation disagree, the model follows
the code:

- `goToPage` stores its argument without clamping, and `totalPages` is 0 for
  an empty table.
- Replacing the table's records does not reset the page.
- Sorting by a non-sortable column is prevented only by the header;
  `handleSort` itself accepts any key.
- `dismiss` looks only at the toasts on screen, never at queued ones.
- `clear` removes only the 1st, 3rd, 5th… toast on screen. It calls
  `removeToast` from inside `forEach` over the array that `removeToast`
  splices.
- The one-time-code input renders min(|value|, length) cells, so an empty
  value renders none, because its `padEnd` pads with the empty string.
- Typing into a cell past the end of the value appends to the value.
- A paste shorter than `length` asks to focus the cell just past its digits,
  a cell the new value does not render.

## Model

| member | source | states |
|---|---|---|
| Seqs.Filter | src/components/app-components.js:380-386 | `Array.prototype.filter`: every kept element satisfies the test and comes from the input, every input element that satisfies it is kept, and a test true everywhere keeps the input unchanged |
| Seqs.FilterIsSubsequence | src/components/app-components.js:380 | filtering keeps the elements in their input order (an order-preserving subsequence) |
| Seqs.FilterMultiplicity | src/components/app-components.js:380-386 | an element that passes the test is kept as often as it occurs in the input, and one that fails is dropped every time |
| Seqs.FilterEmptyIff | src/components/app-components.js:430 | the filtered list is empty exactly when no element passes the test |
| Seqs.IndexOf | src/components/app-sonner.js:323 | `indexOf`: -1 exactly when absent, otherwise the first position holding the element |
| Seqs.IndexOfAt | src/components/app-toggle-group.js:104 | an element first found at position k has `indexOf` k |
| Seqs.RemoveAt | src/components/app-sonner.js:324-326 | `splice(i, 1)`: one shorter, the elements before i unchanged and those after i shifted down by one |
| Seqs.RemoveAtMembers | src/components/app-toggle-group.js:109 | in a list without repeats, removing position i removes exactly that element and keeps every other one |
| Text.LowerChar | src/components/app-combobox.js:145 | ASCII `toLowerCase` of one character: capitals move down by 32, everything else is unchanged |
| Text.UpperChar | src/components/app-avatar.js:114 | ASCII `toUpperCase` of one character |
| Text.Lower | src/components/app-select.js:220 | `toLowerCase` maps every character and keeps the length |
| Text.Upper | src/components/app-avatar.js:114 | `toUpperCase` maps every character and keeps the length |
| Text.LowerIdempotent | src/components/app-select.js:220 | lowercasing twice is lowercasing once, so the stored query is a fixed point of `toLowerCase` |
| Text.ContainsEmptyAndSelf | src/components/app-components.js:381-383 | `includes('')` always holds and a string includes itself |
| Text.Split | src/components/app-toggle-group.js:94 | `split` on one character gives at least one piece and no piece holds the separator |
| Text.JoinSplit | src/components/app-toggle-group.js:103-112 | joining the pieces of a split with the same separator gives the string back |
| Text.SplitJoin | src/components/app-toggle-group.js:103-112 | splitting a join of separator-free pieces gives the pieces back |
| Text.JoinSnoc | src/components/app-toggle-group.js:107 | joining after a `push` appends the separator and the new piece to the old join |
| Text.DigitsOf | src/components/app-input-otp.js:106 | `replace(/[^0-9]/g, '')`: only digits, a subsequence of the input, every digit of the input kept as often as it occurs and no other character, and a digits-only input is unchanged |
| Text.NatToString | src/components/app-toggle-group.js:79 | `String(n)` of a natural number: a non-empty numeral without a leading zero unless n is 0 |
| Text.IntToString | src/components/app-date-picker.js:275 | `String(n)` of an integer: a minus sign before the numeral of a negative number |
| Text.ParseNatToString | src/components/app-date-picker.js:275 | a numeral reads back as its number |
| Text.ParseNatLeadingZero | src/components/app-date-picker.js:276-277 | a leading zero does not change the value of a numeral |
| Text.PadStart | src/components/app-date-picker.js:276-277 | `padStart(width, c)`: at least `width` long, ends with the string, and only `c` in front of it |
| DataTable.Cell | src/components/app-data-table.js:166-167 | `a[sortColumn]`: a record without the field gives `undefined` |
| DataTable.StrLessIrreflexive | src/components/app-data-table.js:168-170 | no string sorts before itself under `<` |
| DataTable.StrLessTransitive | src/components/app-data-table.js:168-170 | the string order of `<` is transitive |
| DataTable.StrLessTotal | src/components/app-data-table.js:168-170 | two different strings are ordered one way or the other |
| DataTable.ValueLessOrder | src/components/app-data-table.js:168-170 | the comparator's `<` on cell values is irreflexive, transitive and total on different values |
| DataTable.PrecedesSplit | src/components/app-data-table.js:168-171 | the "sorts strictly before" relation of either direction is irreflexive, asymmetric and splits over any middle record |
| DataTable.Insert | src/components/app-data-table.js:165 | one insertion step of the sort adds exactly the inserted record (multiset) |
| DataTable.InsertSorted | src/components/app-data-table.js:165-173 | inserting into a sorted list keeps it sorted |
| DataTable.SortRows | src/components/app-data-table.js:165-173 | the sort is a permutation of its input and sorted by the column in the chosen direction |
| DataTable.InsertWithKey | src/components/app-data-table.js:168-171 | inserting a record behind all equal keys keeps the order of each group of equal keys |
| DataTable.SortedData | src/components/app-data-table.js:162-174 | `sortedData` is a permutation of `data`, of the same length |
| DataTable.SortedDataUnsorted | src/components/app-data-table.js:163 | with no sort column, or the empty one, `sortedData` is `data` in its original order |
| DataTable.SortedDataOrder | src/components/app-data-table.js:165-173 | ascending, the keys of the result never decrease; descending, they never increase |
| DataTable.SortedDataStable | src/components/app-data-table.js:165-173 | for every key value, the records with that key keep their input order (stability) |
| DataTable.JsSlice | src/components/app-data-table.js:178 | `slice(start, end)`: never more elements than the list; `s[start..end]` for positions inside the list, the rest of the list when `end` passes its end, and nothing when `end` is not after `start` or `start` is past the end |
| DataTable.SlicePosition | src/components/app-data-table.js:178 | a `slice` position, counted from the end when negative, clamped into 0..length |
| DataTable.JsSliceRelative | src/components/app-data-table.js:178 | `slice` on any positions is `slice` on their clamped positions from the start |
| DataTable.PageOffset | src/components/app-data-table.js:177 | with a positive page size the offset `(page-1)*pageSize` is not negative from page 1 on; page 0 ends at 0 and a negative page before 0 |
| DataTable.PaginatedDataSlice | src/components/app-data-table.js:176-179 | every page holds at most `pageSize` rows; page p from 1 on is the rows from `(p-1)*pageSize`, fewer at the end and none past it; page 0 is empty; a negative page counts from the end of the rows, as `slice` does |
| DataTable.PageFromOne | src/components/app-data-table.js:176-179 | page p from 1 on is the at most `pageSize` rows from `(p-1)*pageSize`, fewer at the end and none past it |
| DataTable.TrailingSlice | src/components/app-data-table.js:178 | a `slice` of positive width that ends at or before 0 is empty when it ends at 0 or reaches no further back than the start, and otherwise the rows that end that far from the end |
| DataTable.TotalPages | src/components/app-data-table.js:181-183 | `totalPages` is ceil(count / pageSize): enough pages for every row, no empty last page, and 0 exactly for no rows |
| DataTable.PagesUpToPrefix | src/components/app-data-table.js:176-183 | pages 1..k put together are the first min(k*pageSize, n) sorted rows |
| DataTable.PagesCoverAll | src/components/app-data-table.js:176-183 | pages 1..`totalPages` put together are exactly the sorted rows |
| DataTable.Range | src/components/app-data-table.js:270-279 | the run of consecutive page numbers from `startPage` to `endPage` |
| DataTable.RenderPageNumbers | src/components/app-data-table.js:259-282 | the loop of `renderPageNumbers` emits exactly the window's consecutive pages |
| DataTable.WindowProperties | src/components/app-data-table.js:259-282 | the window lies in 1..totalPages, is exactly min(5, totalPages) long, and holds the current page whenever it is in range |
| DataTable.FooterMatchesPage | src/components/app-data-table.js:227-231 | past one page the footer shows, and its item numbers count exactly the rows the current page shows |
| DataTable.NavigationStaysInRange | src/components/app-data-table.js:236-255 | from a page in range, the enabled Previous, Next and number buttons all lead to pages in range |
| DataTable.NextPastLastStaysEnabled | src/components/app-data-table.js:249 | from a page past the last one, Next is still enabled and leads further out: only the disabled buttons guard the range |
| DataTable.Table.constructor | src/components/app-data-table.js:24-32 | no records or columns, no sort column, ascending, page 1 of size 10 |
| DataTable.Table.HandleSort | src/components/app-data-table.js:185-194 | the current column flips the direction, another column is selected ascending, and the page becomes 1 in both cases |
| DataTable.Table.GoToPage | src/components/app-data-table.js:196-199 | the page is stored as given, unclamped |
| DataTable.SortToggleScenario | src/components/app-data-table.js:185-194 | clicking one column's header three times sorts it ascending, then descending, then ascending again, ending on page 1 |
| Pagination.Pages | src/components/app-pagination.js:123-126 | the pages `from`..`to` as consecutive entries |
| Pagination.GetPageNumbers | src/components/app-pagination.js:118-152 | the loops of `_getPageNumbers` build exactly the list `PageNumbers` defines |
| Pagination.PushPages | src/components/app-pagination.js:124-126 | one `for … push` loop appends the consecutive pages |
| Pagination.ShortListIsAllPages | src/components/app-pagination.js:123-126 | up to seven pages the list is exactly 1..total |
| Pagination.LongListShape | src/components/app-pagination.js:127-149 | past seven pages there are exactly seven entries, in the three shapes fixed by where the current page lies |
| Pagination.NumbersInRange | src/components/app-pagination.js:118-152 | the numbers strictly increase, lie in 1..total, start at 1 and end at total, and include the current page when it is in range |
| Pagination.EllipsesWellPlaced | src/components/app-pagination.js:127-149 | an ellipsis is never first or last, stands between two pages, and stands for at least one omitted page |
| Pagination.PageChange | src/components/app-pagination.js:154-163 | a request is emitted exactly for a page in 1..total other than the current one, and carries that page |
| Pagination.ClicksRequestValidPages | src/components/app-pagination.js:176-177 | `hasPrev` holds exactly when the previous page would be requested and `hasNext` likewise; a listed number requests exactly when it is not the current page |
| Sonner.MakeToast | src/components/app-sonner.js:227-235 | the new toast takes each of the caller's options and falls back on `info`, empty title and message, and 4000 ms |
| Sonner.ShortcutToast | src/components/app-sonner.js:243-257 | the `success`/`error`/`info`/`warning` shortcuts build a toast of that kind with the given texts and duration |
| Sonner.GetIcon | src/components/app-sonner.js:312-320 | the three named kinds get their icons and every other kind the info icon |
| Sonner.IndexOfId | src/components/app-sonner.js:260 | `find` by id: the first toast with that id, or none |
| Sonner.ClearSurvivors | src/components/app-sonner.js:266-268 | after `clear`, the 2nd, 4th, 6th… toast remain, in order |
| Sonner.ClearDone | src/components/app-sonner.js:266-268 | the `forEach` walk over the spliced list ends with exactly `ClearSurvivors` |
| Sonner.ToastCenter.constructor | src/components/app-sonner.js:24-25 | both arrays start empty, no timers, no container |
| Sonner.ToastCenter.SetAttached | src/components/app-sonner.js:270-272 | the container's presence is recorded and nothing else changes; the queue waits for the next show or drain |
| Sonner.ToastCenter.ProcessQueue | src/components/app-sonner.js:270-283 | without a container or with an empty queue nothing changes; otherwise the head of the queue moves to the end of the screen list, with an auto-removal timer exactly when its duration is positive |
| Sonner.ToastCenter.Show | src/components/app-sonner.js:227-241 | the new toast joins the end of the queue, one queue step runs, and its id is returned; FIFO and disjointness are kept |
| Sonner.ToastCenter.RemoveToast | src/components/app-sonner.js:322-340 | the toast leaves the screen list if there and the others keep their order; a second removal changes neither list; the queue is untouched and, with a container, a drain is scheduled |
| Sonner.ToastCenter.Dismiss | src/components/app-sonner.js:259-264 | the first toast on screen with the id is removed; an unknown id, or one still queued, changes nothing |
| Sonner.ToastCenter.Clear | src/components/app-sonner.js:266-268 | the queue is untouched and the screen list becomes `ClearSurvivors` of the old one, with one drain per removal |
| Sonner.ToastCenter.Fire | src/components/app-sonner.js:279-281 | a pending timer runs: an auto-removal removes its toast, a drain runs one queue step |
| Sonner.QueueAndScreenDisjoint | src/components/app-sonner.js:274-275 | no toast is both queued and on screen |
| Sonner.ScreenInCreationOrder | src/components/app-sonner.js:274-275 | toasts on screen appear in the order `show` created them |
| Sonner.ShowThree | src/components/app-sonner.js:227-241 | three shows with a container put A, B and C on screen in order, and only B (duration 100) gets a timer |
| Sonner.ThreeToastScenario | src/components/app-sonner.js:278-282 | B's timer removes B; A (duration 0) and C stay, and a drain is scheduled |
| Dates.DaysInMonth | src/components/app-date-picker.js:309-311 | 31, 30 or 28/29 days by month, February having 29 exactly in Gregorian leap years |
| Dates.Weekday | src/components/app-date-picker.js:313-315 | `getDay()` lies in 0..6 |
| Dates.WeekdayAnchors | src/components/app-date-picker.js:313-315 | the weekday function agrees with `getDay()` on known dates: 1 January 1970 a Thursday, 1 January 2000 a Saturday, 1 January 2024 a Monday, 29 February 2024 a Thursday |
| Dates.FirstDayOfMonth | src/components/app-date-picker.js:313-315 | the weekday of day 1 lies in 0..6 |
| Dates.PrevMonth | src/components/app-date-picker.js:411-418 | the month before stays in 0..11 and January goes to December of the year before |
| Dates.NextMonth | src/components/app-date-picker.js:420-427 | the month after stays in 0..11 and December goes to January of the year after |
| Dates.PrevNextInverse | src/components/app-date-picker.js:411-427 | the two month steps undo each other |
| Dates.NormalizeMonth | src/components/app-calendar.js:178-184 | `new Date(year, month ± 1, 1)` carries the month into 0..11 and the year by whole years |
| Dates.NormalizeAdjacent | src/components/app-calendar.js:178-184 | the carried month one step away is the adjacent month |
| Dates.BeforeTotal | src/components/app-calendar.js:163-169 | the date order is irreflexive, transitive and total |
| Dates.SameDayMeaning | src/components/app-date-picker.js:298-303 | `_isSameDay` holds exactly for two present dates with equal year, month and day |
| Dates.YearTermStep | src/components/app-date-picker.js:313-315 | the weekday's year term grows by 2 across a leap year and by 1 otherwise |
| Dates.FirstDayOfNextMonth | src/components/app-date-picker.js:352-371 | the next month starts `DaysInMonth` weekdays after this one: the weekday function and the month lengths agree |
| Dates.WeekdayFromFirst | src/components/app-date-picker.js:313-315 | day d falls d-1 weekdays after day 1 |
| Dates.FirstDaysOrder | src/components/app-calendar.js:228-233 | comparing firsts of months compares the months |
| Dates.WeekdayAt | src/components/app-calendar.js:207-226 | day d sits in column (start + d - 1) mod 7 of a grid with `start` leading blanks |
| Dates.WeekdayBack | src/components/app-date-picker.js:317-334 | going n days back from a weekday lands n columns to the left, modulo 7 |
| DatePicker.Pad2Digits | src/components/app-date-picker.js:276-277 | numbers below 100 pad to exactly two digits |
| DatePicker.Pad2Value | src/components/app-date-picker.js:276-277 | the two padded digits read back as the number |
| DatePicker.LayoutOf | src/components/app-date-picker.js:279-287 | each format places day, month and year at three different positions |
| DatePicker.FormatDate | src/components/app-date-picker.js:273-288 | `_formatDate` is empty exactly for no date |
| DatePicker.SplitThree | src/components/app-date-picker.js:279-287 | three separator-free fields joined by the separator split back into them |
| DatePicker.YearTextPlain | src/components/app-date-picker.js:275 | the year text holds no `/`, and it holds a `-` exactly when the year is negative |
| DatePicker.FieldTexts | src/components/app-date-picker.js:275-277 | no field text holds `/`; the month and day texts hold no `-`, and the year text holds one exactly for a negative year |
| DatePicker.DayFirstText | src/components/app-date-picker.js:280-281 | `DD/MM/YYYY` is day, slash, month, slash, year |
| DatePicker.MonthFirstText | src/components/app-date-picker.js:282-283 | `MM/DD/YYYY` is month, slash, day, slash, year |
| DatePicker.IsoText | src/components/app-date-picker.js:284-286 | any other format gives year, dash, month, dash, day |
| DatePicker.SplitIsoNegative | src/components/app-date-picker.js:284-286 | with a negative year the dash layout splits into four pieces: an empty one, the year's digits, the month and the day |
| DatePicker.SplitLeadingSeparator | src/components/app-date-picker.js:284-286 | a separator in front of three joined separator-free fields splits into an empty piece and the three fields |
| DatePicker.FormatDateSplit | src/components/app-date-picker.js:273-288 | for every valid date, the text splits at the layout's separator into three fields at the layout's positions, except a negative year in the dash layout, which gives an empty piece, the year's digits, the month and the day |
| DatePicker.DayValue | src/components/app-date-picker.js:277 | the day text is two digits that read back as the day |
| DatePicker.MonthValue | src/components/app-date-picker.js:276 | the month text is two digits that read back as the 1-based month |
| DatePicker.YearValue | src/components/app-date-picker.js:275 | a year from 0 on prints as digits that read back as the year; a negative year as a minus sign followed by digits that read back as its magnitude |
| DatePicker.YearTextInjective | src/components/app-date-picker.js:275 | different years print differently |
| DatePicker.FieldsDetermineDate | src/components/app-date-picker.js:275-277 | two valid dates with the same year, month and day texts are equal |
| DatePicker.FormatDateRoundTrip | src/components/app-date-picker.js:273-288 | a formatted date splits at its separator into numerals that read back as its day, 1-based month and year, day and month zero-padded to two digits |
| DatePicker.FormatDateInjective | src/components/app-date-picker.js:273-288 | two valid dates of any years with the same text in one format are the same date |
| DatePicker.FormatExamples | src/components/app-date-picker.js:273-288 | 9 February 2024 in the three layouts and in an unknown format |
| DatePicker.RemainingCells | src/components/app-date-picker.js:353-356 | the next month fills the 5 to 14 cells left of 42 |
| DatePicker.GetPrevMonthDays | src/components/app-date-picker.js:317-334 | the loop yields the last `firstDay` days of the previous month, ending at its last day, December of the year before for January |
| DatePicker.GetCurrentMonthDays | src/components/app-date-picker.js:336-350 | the loop yields days 1..`daysInMonth` of the month, none marked as another month's |
| DatePicker.GetNextMonthDays | src/components/app-date-picker.js:352-371 | the loop yields days 1..k of the next month, January of the year after for December |
| DatePicker.GetAllDays | src/components/app-date-picker.js:373-379 | the grid is the three lists in order |
| DatePicker.AllDaysShape | src/components/app-date-picker.js:373-379 | 42 cells: `firstDay` of the previous month, then every day of this one, then the rest from the next |
| DatePicker.PrevCellsWeekdays | src/components/app-date-picker.js:317-334 | the previous month's cells fill the columns before the first day under their weekdays |
| DatePicker.CurrentCellsWeekdays | src/components/app-date-picker.js:336-350 | day d stands under its weekday, column `firstDay + d - 1` |
| DatePicker.NextCellsWeekdays | src/components/app-date-picker.js:352-371 | the next month's cells continue the columns after the last day |
| DatePicker.AllDaysWeekdays | src/components/app-date-picker.js:373-379 | every one of the 42 cells stands under its own weekday |
| DatePicker.Picker.constructor | src/components/app-date-picker.js:32-40 | no value, ISO format, closed, showing today's month |
| DatePicker.Picker.InputText | src/components/app-date-picker.js:273-288 | the input shows the empty string exactly without a value |
| DatePicker.Picker.HandlePrevMonth | src/components/app-date-picker.js:411-418 | the displayed month moves back one, wrapping into the year before |
| DatePicker.Picker.HandleNextMonth | src/components/app-date-picker.js:420-427 | the displayed month moves on one, wrapping into the year after |
| DatePicker.Picker.HandleDayClick | src/components/app-date-picker.js:391-400 | the clicked date becomes the value and is announced, and the popup closes |
| DatePicker.Picker.HandleClear | src/components/app-date-picker.js:402-409 | the value becomes null and null is announced |
| DatePicker.Picker.HandleToday | src/components/app-date-picker.js:429-440 | today becomes the value and is announced, its month is shown, and the popup closes |
| DatePicker.Picker.HandleInputClick | src/components/app-date-picker.js:381-383 | a click on the input toggles the popup |
| DatePicker.Picker.HandleClose | src/components/app-date-picker.js:442-444 | the popup closes |
| DatePicker.Picker.HandleOutsideClick | src/components/app-date-picker.js:385-389 | a click outside the element closes the popup, one inside leaves it |
| DatePicker.Picker.HandleInputKeydown | src/components/app-date-picker.js:446-455 | Enter or Space toggles (and is cancelled), Escape or Tab closes, other keys change nothing |
| DatePicker.Picker.WillUpdate | src/components/app-date-picker.js:472-477 | when the value changes to a date, the displayed month and year follow it |
| DatePicker.Picker.Connect | src/components/app-date-picker.js:457-465 | on attaching, a present value picks the displayed month |
| DatePicker.Picker.Grid | src/components/app-date-picker.js:373-379 | the popup shows the 42-cell grid of the displayed month |
| DatePicker.EnabledClickSelectsDisplayedMonth | src/components/app-date-picker.js:542 | only cells of the displayed month are enabled, and clicking one selects a valid date of that month |
| DatePicker.DayClickScenario | src/components/app-date-picker.js:391-477 | clicking 29 February 2024 selects and announces it and closes the popup; the value update shows February 2024, and Enter then reopens the popup |
| MonthCalendar.EnabledIsClosedInterval | src/components/app-calendar.js:163-169 | a date is enabled exactly when it lies within the bounds that are set, the bounds themselves included; an absent date is never disabled |
| MonthCalendar.GridShape | src/components/app-calendar.js:207-226 | `startDayOfWeek` blanks, then days 1..`daysInMonth` under their weekdays, nothing after; exactly the value's cell is selected |
| MonthCalendar.Calendar.constructor | src/components/app-calendar.js:26-32 | no value and no bounds, showing today's month |
| MonthCalendar.Calendar.PreviousMonth | src/components/app-calendar.js:178-180 | the display moves to day 1 of the month before, across the year boundary |
| MonthCalendar.Calendar.NextMonth | src/components/app-calendar.js:182-184 | the display moves to day 1 of the month after, across the year boundary |
| MonthCalendar.Calendar.SelectDate | src/components/app-calendar.js:186-199 | a disabled day changes nothing; any other becomes the value, in the displayed year and month, and is announced |
| MonthCalendar.Calendar.BuildGrid | src/components/app-calendar.js:207-226 | the two loops of `render` build exactly `GridCells` |
| MonthCalendar.CanGoPreviousMeaning | src/components/app-calendar.js:228-230 | the previous arrow is enabled exactly when there is no min or the month before is not before min's month; when disabled, every day of that month is before min |
| MonthCalendar.CanGoNextMeaning | src/components/app-calendar.js:231-233 | the next arrow is enabled exactly when there is no max or the month after is not after max's month; when disabled, every day of that month is after max |
| MonthCalendar.PrevNextFirst | src/components/app-calendar.js:178-184 | forward then back, or back then forward, returns to day 1 of the month |
| Combobox.DownIndex | src/components/app-combobox.js:209-217 | ArrowDown's index: the next one, wrapping from the last to the first, and the first from no highlight |
| Combobox.UpIndex | src/components/app-combobox.js:218-224 | ArrowUp's index: the previous one, wrapping from the first (or no highlight) to the last |
| Combobox.UpDownInverse | src/components/app-combobox.js:209-224 | the two arrows undo each other, and ArrowDown is the successor modulo the length |
| Combobox.HighlightIndex | src/components/app-combobox.js:194 | `indexOf` of the highlight: -1 exactly for no highlight or one not in the list |
| Combobox.ArrowsCycle | src/components/app-combobox.js:209-224 | with no highlight in the list the arrows go to the first and last option; in a list without repeats they undo each other |
| Combobox.Combobox.constructor | src/components/app-combobox.js:27-34 | empty value and filter, no options, filterable, closed, no highlight |
| Combobox.Combobox.FilteredOptions | src/components/app-combobox.js:141-149 | all options when not filtering; otherwise exactly the options that contain the filter case-insensitively, in order |
| Combobox.Combobox.FilteredCounts | src/components/app-combobox.js:141-149 | while filtering, each matching option is listed as often as it occurs among the options, and no other option at all |
| Combobox.Combobox.DisplayValue | src/components/app-combobox.js:151-156 | the filter text while open and filterable, the value otherwise |
| Combobox.Combobox.ToggleDropdown | src/components/app-combobox.js:158-163 | open flips, and closing clears the filter |
| Combobox.Combobox.CloseDropdown | src/components/app-combobox.js:165-168 | closed with an empty filter |
| Combobox.Combobox.HandleInput | src/components/app-combobox.js:170-175 | the typed text becomes the filter and the list opens |
| Combobox.Combobox.HandleFocus | src/components/app-combobox.js:177-179 | focusing opens the list |
| Combobox.Combobox.SelectOption | src/components/app-combobox.js:181-190 | the option becomes the value and is announced, the filter clears and the list closes |
| Combobox.Combobox.HandleKeydown | src/components/app-combobox.js:192-229 | Escape and Tab close; Enter selects the highlight, else a single remaining option, else nothing; ArrowDown opens a closed list or moves the highlight down cyclically; ArrowUp moves it up cyclically; other keys change nothing |
| Select.ChoiceOf | src/components/app-select.js:198-203 | an option's caption is its text and its value the `value` attribute, or the text when that is absent or empty |
| Select.FindByValue | src/components/app-select.js:245-248 | none exactly when no option has the value; otherwise the first option that has it |
| Select.Select.constructor | src/components/app-select.js:25-34 | empty value, `Select...` placeholder, enabled, not searchable, closed, empty query |
| Select.Select.FirstUpdated | src/components/app-select.js:198-203 | the options are read from the children, one per child, in order |
| Select.Select.ToggleDropdown | src/components/app-select.js:205-210 | disabled, nothing changes; otherwise open flips and the query clears |
| Select.Select.CloseDropdown | src/components/app-select.js:212-216 | closed with an empty query |
| Select.Select.HandleSearch | src/components/app-select.js:218-221 | the query is the lowercased text |
| Select.Select.SelectOption | src/components/app-select.js:223-233 | the option's value becomes the value and the option is announced; closed, query cleared |
| Select.Select.FilteredOptions | src/components/app-select.js:235-243 | all options without a query or search; otherwise exactly the options whose lowercased caption or value contains the query, in order, each as often as among the options |
| Select.Select.DisplayValue | src/components/app-select.js:245-248 | the caption of the first option with the value, or the placeholder when none has it |
| Select.SearchIgnoresCase | src/components/app-select.js:218-243 | after typing, an option is listed exactly when its caption or value contains the text, both lowercased |
| Select.StoredQueryIgnoresCase | src/components/app-select.js:218-243 | with a stored non-empty query, an option is listed exactly when its lowercased caption or value contains the lowercased query |
| Select.SelectedLabelShown | src/components/app-select.js:245-252 | with distinct values the selected option's caption is shown, and the placeholder style is on only for an empty value |
| Select.UnknownValueStyling | src/components/app-select.js:252 | a non-empty value that names no option shows the placeholder text without the placeholder styling |
| ToggleGroup.GetButtons | src/components/app-toggle-group.js:86-90 | exactly the `BUTTON` or `role=button` children, in order, each as often as among the children |
| ToggleGroup.ButtonValue | src/components/app-toggle-group.js:79 | the `value` attribute, or the index as a numeral when it is absent or empty; never empty |
| ToggleGroup.Values | src/components/app-toggle-group.js:94 | the empty value holds no values |
| ToggleGroup.ValuesJoin | src/components/app-toggle-group.js:112 | joining non-empty comma-free values and reading them back gives them back |
| ToggleGroup.ClickPieces | src/components/app-toggle-group.js:102-112 | a multiple-mode click appends an absent value at the end, or removes the present one, keeping the others in order |
| ToggleGroup.ClickToggles | src/components/app-toggle-group.js:99-118 | for a value with distinct non-empty pieces, a multiple-mode click on a non-empty comma-free value flips that value's selection, keeps every other value's, and leaves the pieces distinct and non-empty |
| ToggleGroup.ClickTwiceRestores | src/components/app-toggle-group.js:102-112 | for any old value, clicking an unselected non-empty comma-free value twice restores the exact old value string |
| ToggleGroup.RepeatedPieceStaysSelected | src/components/app-toggle-group.js:102-108 | a repeated piece is removed one copy at a time: clicking `a` in `a,a` gives `a`, and `a` stays selected |
| ToggleGroup.EmptyPieceLost | src/components/app-toggle-group.js:94-112 | an empty piece can vanish with another value: clicking `a` in `,a` gives the empty value, which holds no empty piece |
| ToggleGroup.SingleSelectsClicked | src/components/app-toggle-group.js:96 | in single mode, after a click exactly the clicked value is selected; clicking again keeps it |
| ToggleGroup.SelectionFlags | src/components/app-toggle-group.js:78-80 | one `selected` flag per button |
| ToggleGroup.Group.constructor | src/components/app-toggle-group.js:24-28 | empty value, single mode |
| ToggleGroup.Group.HandleSlotChange | src/components/app-toggle-group.js:76-84 | the loop marks each button selected exactly when its value is selected |
| ToggleGroup.Group.SlotChange | src/components/app-toggle-group.js:76-90 | the buttons are found again and marked |
| ToggleGroup.Group.HandleClick | src/components/app-toggle-group.js:99-127 | the clicked value's new value is stored and announced, and the buttons are marked again |
| ToggleGroup.ClickOnButton | src/components/app-toggle-group.js:99-118 | for a value with distinct non-empty pieces, after a click on button k its flag flips and every button with another value keeps its flag |
| InputOtp.Chars | src/components/app-input-otp.js:109 | `split('')`: one one-character string per character |
| InputOtp.ConcatChars | src/components/app-input-otp.js:109-111 | splitting into characters and joining again gives the string back |
| InputOtp.Assign | src/components/app-input-otp.js:110 | `chars[index] = piece`: inside the array one slot changes; past the end the array grows with empty holes |
| InputOtp.WriteCellMeaning | src/components/app-input-otp.js:109-111 | inside the value the character at `index` is replaced by the piece; past the end the piece is appended |
| InputOtp.WriteOneDigit | src/components/app-input-otp.js:108-111 | a one-digit write inside the value changes exactly that position |
| InputOtp.WriteKeepsDigits | src/components/app-input-otp.js:108-120 | writing digits into a digits-only value keeps it digits-only |
| InputOtp.PasteDigits | src/components/app-input-otp.js:139 | the pasted digits, in order, cut to `length` |
| InputOtp.Cells | src/components/app-input-otp.js:73 | min(|value|, length) cells, one character each, none for the empty value |
| InputOtp.SeparatorBefore | src/components/app-input-otp.js:74-81 | a separator is drawn exactly when it is non-empty, `length > 3` and cell floor(length/2) is rendered, and then before that cell |
| InputOtp.Otp.constructor | src/components/app-input-otp.js:25-30 | empty value, six cells, no separator |
| InputOtp.Otp.HandleInput | src/components/app-input-otp.js:104-123 | the typed digits are written at the cell, the value is announced, and focus moves on exactly when a digit was entered before the last cell |
| InputOtp.Otp.HandleKeydown | src/components/app-input-otp.js:125-135 | Backspace on an empty cell past the first moves left; the arrows move within 0..length-1 and are cancelled only when they move; every other key, and Backspace elsewhere, moves nothing |
| InputOtp.Otp.HandlePaste | src/components/app-input-otp.js:137-146 | with digits the value becomes exactly them, is announced, and focus goes to min(|digits|, length-1); without, nothing changes |
| InputOtp.DigitsOnly | src/components/app-input-otp.js:106 | input and paste keep a digits-only value digits-only |
| InputOtp.ClearAndAppend | src/components/app-input-otp.js:116-120 | clearing a cell deletes its character and shifts the rest left; typing past the end appends |
| InputOtp.PasteFocusTarget | src/components/app-input-otp.js:141-143 | with digits to paste, the requested focus lies below `length`: on the last cell when the paste fills all cells, and just past the new value's rendered cells when it is shorter |
| Carousel.JsRem | src/components/app-carousel.js:82 | JavaScript's `%` for a positive divisor: the dividend less a whole multiple of the divisor, with the dividend's sign and a magnitude below the divisor; the dividend itself below the divisor, 0 at the divisor |
| Carousel.NonNegativeRem | src/components/app-carousel.js:82 | from 0 on, Dafny's remainder already is JavaScript's: it lies in 0 up to the divisor, leaves a multiple of the divisor, is the dividend itself below the divisor and 0 at the divisor |
| Carousel.NegativeRem | src/components/app-carousel.js:82 | for a negative dividend, the negated remainder of its magnitude lies above minus the divisor, is at most 0, and leaves a multiple of the divisor |
| Carousel.Slider.constructor | src/components/app-carousel.js:24-31 | index 0, no slides |
| Carousel.Slider.UpdateSlides | src/components/app-carousel.js:63-65 | the slide count is the number of children |
| Carousel.Slider.Next | src/components/app-carousel.js:81-84 | the index becomes (i+1) % n, JavaScript's `%` |
| Carousel.Slider.Previous | src/components/app-carousel.js:86-89 | the index becomes n-1 from 0 and i-1 otherwise |
| Carousel.Slider.GoTo | src/components/app-carousel.js:91-94 | the index is stored unchecked |
| Carousel.StepsInRange | src/components/app-carousel.js:81-89 | from an index in range both steps stay in range, `next` wraps from the last slide to the first, and the two steps undo each other |
| Carousel.NextTimesBelowEnd | src/components/app-carousel.js:82 | k steps that do not reach the end add k |
| Carousel.NextTimesAdd | src/components/app-carousel.js:82 | a+b steps are a steps followed by b steps |
| Carousel.FullCycle | src/components/app-carousel.js:82 | n steps over n slides return to the start |
| Carousel.OutOfRange | src/components/app-carousel.js:82-87 | an index out of range is not repaired: `next` from -3 of 5 gives -2, and `previous` with no slides gives -1 |
| Header.NextTheme | src/components/app-header.js:30-32 | light goes to dark, dark to spring, spring to light, and anything else or nothing to light |
| Header.InitialTheme | src/components/app-header.js:25-27 | the saved theme when there is one, else dark or light by the system preference |
| Header.Switch.constructor | src/components/app-header.js:18-21 | no theme yet; storage and the page attribute as found |
| Header.Switch.Connect | src/components/app-header.js:23-28 | the theme becomes the initial theme |
| Header.Switch.Toggle | src/components/app-header.js:30-36 | the next theme, always a known one, is stored, set on the page and saved |
| Header.ThreeToggles | src/components/app-header.js:31-33 | three toggles from a known theme return to it, and the first two leave it |
| Header.UnknownEntersAtLight | src/components/app-header.js:32 | an unknown or unset theme toggles to light and then to dark |
| Header.ToggleSurvivesReload | src/components/app-header.js:25-35 | a toggled theme is the one chosen after a reload |
| Catalogue.CategoryList | src/components/app-components.js:144 | `COMPONENTS.map(c => c.category)` |
| Catalogue.DistinctMembers | src/components/app-components.js:144 | `[...new Set(s)]` has no repeats and holds exactly the elements of s |
| Catalogue.DistinctOrder | src/components/app-components.js:144 | `[...new Set(s)]` lists the elements in the order of their first appearance |
| Catalogue.Categories | src/components/app-components.js:144 | each category of the catalogue once, no other, in order of first appearance |
| Catalogue.CatalogueSize | src/components/app-components.js:81-142 | the catalogue lists 60 components |
| Catalogue.FilterCards | src/components/app-components.js:380-386 | an order-preserving subsequence of the cards that keeps a card exactly when the search and the category both match, each kept card as often as among the cards |
| Catalogue.EmptySearchKeepsAll | src/components/app-components.js:380-386 | the empty search in category `All` keeps every card of a list, in order |
| Catalogue.EverythingAtStart | src/components/app-components.js:380-386 | the empty search in category `All` shows the whole catalogue in order |
| Catalogue.EmptyState | src/components/app-components.js:430 | the empty message shows exactly when no entry matches both the search and the category |
| Catalogue.Page.constructor | src/components/app-components.js:152-156 | empty search, category `All` |
| Catalogue.Page.SetSearch | src/components/app-components.js:416 | typing sets the search |
| Catalogue.Page.SetCategory | src/components/app-components.js:420-422 | a category button sets the category |
| Catalogue.Page.Shown | src/components/app-components.js:380-386 | the page shows the filtered catalogue of its search and category |
| Avatar.CharAt0 | src/components/app-avatar.js:112 | `charAt(0)`: the first character, or empty for an empty word |
| Avatar.WordStarts | src/components/app-avatar.js:110-113 | the reference scan: the characters that follow a space or the start, never longer than the text |
| Avatar.FirstCharsOfSplit | src/components/app-avatar.js:110-113 | `split(' ').map(charAt(0)).join('')` is the reference scan, so empty words between spaces add nothing |
| Avatar.Initials | src/components/app-avatar.js:108-116 | at most two characters, empty for an empty fallback, and the uppercased first characters of the words cut to two |
| Avatar.Render | src/components/app-avatar.js:119-123 | an image exactly when there is a source, with the alt text falling back on the initials; otherwise the initials |
| Avatar.InitialsSkipEmptyWords | src/components/app-avatar.js:111-112 | `ada  lovelace` gives `AL`: the empty word between the spaces adds nothing |
| Avatar.InitialsLeadingSpace | src/components/app-avatar.js:111-112 | ` grace` gives `G` |
| Avatar.InitialsCutToTwo | src/components/app-avatar.js:115 | `a b c` gives `AB` |

## Left out

- Rendering, styling, shadow-DOM queries, `classList` and attribute
  toggling, and event wiring are not modelled. Announced events are returned
  values (`changed`), focus moves are returned cell indices, and
  `preventDefault` is a returned flag.
- Real timing is not modelled. `setTimeout` callbacks in `app-sonner` are
  pending `Timer` entries that `Fire` may run in any order. The animation-end
  removal of a toast element belongs to the DOM. Carousel autoplay and its
  interval timer are left out.
- `Date.now() + Math.random()` toast ids, `new Date()` for today, the
  presence of the `app-sonner` element, `localStorage` and `matchMedia` are
  parameters.
- Time of day, time zones and parsing dates from strings are left out.
  Dates are (year, month, day) triples. So the min/max time-of-day subtlety
  of `_isDateDisabled` is outside the model, as are the two-digit years that
  `new Date(y, m, d)` maps into the 1900s.
- Case mapping is ASCII only. Unicode `toLowerCase` and `toUpperCase` are
  not modelled.
- DataTable.StrLess: strings are sequences of Unicode scalar values, and
  `<` compares them character by character. JavaScript compares UTF-16 code
  units, which orders characters outside the Basic Multilingual Plane
  differently. The model does not hold UTF-16 code units.
- Avatar.CharAt0: it returns the first Unicode scalar value of a word.
  JavaScript's `charAt(0)` returns the first UTF-16 code unit, which is half
  a surrogate pair for a character outside the Basic Multilingual Plane.
- Sonner.GetIcon: the icon table is a plain object, so an inherited key such
  as `toString` looks up a function rather than falling back on the info
  icon. The model treats every type other than the three named ones as
  unknown.
- ToggleGroup.ClickToggles: proved for old values whose pieces are
  non-empty and distinct, and so is ToggleGroup.ClickOnButton. The source
  accepts any string, but on other values its click is not a toggle:
  `indexOf` and `splice` remove only the first copy of a repeated piece, so
  the value stays selected (`RepeatedPieceStaysSelected`); and removing the
  last other piece can drop an empty piece with it (`EmptyPieceLost`). A
  button's value is never empty, so only the repeated pieces matter to the
  buttons. `ClickTwiceRestores` holds for every old value.
- ToggleGroup.Group.HandleClick: one click runs `_handleClick` once.
  `_handleSlotChange` adds a new click listener to each button every time it
  runs (app-toggle-group.js:82, called again at 118 and 132) and never
  removes the old ones, so after the buttons are marked k times one click
  runs `_handleClick` k times, and in multiple mode an even k leaves the
  value as it was. The model does not count listeners.
- DataTable.Value: a number cell holds a real, so fractions are modelled.
  `NaN`, `Infinity`, `-0`, `null` and booleans are not. With `NaN` every `<`
  is false, so the comparator (app-data-table.js:169-171) gives the same
  sign for both orders of a pair, one more inconsistent comparator that the
  model cannot express.
- DataTable.ValueLessOrder: JavaScript's `<` on mixed numbers, strings and
  `undefined` is not a consistent order. The model fixes one total order:
  numbers before strings before `undefined`. Array.prototype.sort's result on
  an inconsistent comparator is implementation-defined.
- DataTable.SortRows: an insertion sort stands for `Array.prototype.sort`.
  Both are permutations, sorted and stable, which is all the table relies
  on.
- Sonner.MakeToast: an option key present with the value `undefined`
  overrides the default in JavaScript. The model treats such a key as
  absent.
- Header.NextTheme: the theme cycle is a plain object, so inherited keys
  such as `toString` would look up a function. The model treats every theme
  other than the three as unknown.
- DatePicker.FormatDateRoundTrip: proved for years from 0 on. A negative
  year prints with a minus sign, which the ISO layout also uses as its
  separator; `SplitIsoNegative` and `FormatDateSplit` state what that text
  splits into, and `FormatDateInjective` holds for every year.
- Carousel.Slider.Next: it requires at least one slide. With none, the
  source computes `% 0`, which gives `NaN`.
- InputOtp.Otp.HandlePaste: it returns the index it asks to focus.
  `#focusInput` looks that index up among the inputs rendered at that moment,
  before the component re-renders. Whether such an input exists is DOM state
  the model does not hold.
- InputOtp.Otp: `length` is a natural number. A negative or fractional
  `length` attribute is not modelled.
- Catalogue.Categories: its contract states the derivation of `CATEGORIES`
  (distinct, complete, in order of first appearance). The concrete list of
  category names is not computed in a proof.
- The combobox and select apply their handlers to the key or text taken
  from the event. The event objects themselves are not modelled.
