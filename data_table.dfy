/** The data table (`app-data-table`): sorting records by one column,
    toggling the direction, fixed-size pages, the window of at most five
    page buttons and the "Showing a to b of n entries" footer. */
module DataTable {
  import opened Seqs

  // ------------------------------------------------------------- values

  /** A cell value as the comparator sees it: a finite number (a real,
      fractions included), a string, or `undefined` when the record has no
      such field. */
  datatype Value = Undefined | Num(n: real) | Str(s: string)

  /** A record: field name to value. */
  type Row = map<string, Value>

  /** `row[column]`. */
  function Cell(r: Row, column: string): (v: Value)
    ensures column !in r ==> v == Undefined
  {
    if column in r then r[column] else Undefined
  }

  /** JavaScript's `<` on two strings: lexicographic by character, a proper
      prefix first. The characters are Unicode scalar values, where
      JavaScript compares UTF-16 code units. */
  predicate StrLess(a: string, b: string)
    decreases |a|
  {
    if a == [] then b != []
    else if b == [] then false
    else if a[0] != b[0] then a[0] < b[0]
    else StrLess(a[1..], b[1..])
  }

  /** The strict order the comparator `aVal < bVal` induces: numbers by
      value, strings lexicographically, numbers before strings and
      `undefined` last. */
  predicate ValueLess(a: Value, b: Value)
  {
    match (a, b)
    case (Num(x), Num(y)) => x < y
    case (Str(x), Str(y)) => StrLess(x, y)
    case (Num(_), Str(_)) => true
    case (Num(_), Undefined) => true
    case (Str(_), Undefined) => true
    case _ => false
  }

  lemma {:induction false} StrLessIrreflexive(a: string)
    ensures !StrLess(a, a)
    decreases |a|
  {
    if a != [] { StrLessIrreflexive(a[1..]); }
  }

  lemma {:induction false} StrLessTransitive(a: string, b: string, c: string)
    requires StrLess(a, b) && StrLess(b, c)
    ensures StrLess(a, c)
    decreases |a|
  {
    if a != [] && b != [] && c != [] && a[0] == b[0] && b[0] == c[0] {
      StrLessTransitive(a[1..], b[1..], c[1..]);
    }
  }

  lemma {:induction false} StrLessTotal(a: string, b: string)
    requires a != b
    ensures StrLess(a, b) || StrLess(b, a)
    decreases |a|
  {
    if a != [] && b != [] && a[0] == b[0] {
      assert a == [a[0]] + a[1..] && b == [b[0]] + b[1..];
      StrLessTotal(a[1..], b[1..]);
    }
  }

  /** `ValueLess` is a strict total order, so the comparator is consistent. */
  lemma ValueLessOrder(a: Value, b: Value, c: Value)
    ensures !ValueLess(a, a)
    ensures ValueLess(a, b) && ValueLess(b, c) ==> ValueLess(a, c)
    ensures a != b ==> ValueLess(a, b) || ValueLess(b, a)
  {
    if a.Str? { StrLessIrreflexive(a.s); }
    if a.Str? && b.Str? && c.Str? && StrLess(a.s, b.s) && StrLess(b.s, c.s) {
      StrLessTransitive(a.s, b.s, c.s);
    }
    if a.Str? && b.Str? && a != b { StrLessTotal(a.s, b.s); }
  }

  // ------------------------------------------------------------ sorting

  datatype Direction = Asc | Desc

  /** The comparator is negative: `a` goes strictly before `b`. Ascending
      uses `aVal < bVal ? -1 : 1`, descending its negation; equal values
      compare as 0. */
  predicate Precedes(a: Row, b: Row, column: string, dir: Direction)
  {
    if dir == Asc then ValueLess(Cell(a, column), Cell(b, column))
    else ValueLess(Cell(b, column), Cell(a, column))
  }

  /** The consequences of a consistent comparator that sorting relies on:
      if `a` goes before `c`, any `b` goes after `a` or before `c`, and `c`
      does not go before `a`. */
  lemma PrecedesSplit(a: Row, b: Row, c: Row, column: string, dir: Direction)
    ensures Precedes(a, c, column, dir) ==> Precedes(a, b, column, dir) || Precedes(b, c, column, dir)
    ensures Precedes(a, c, column, dir) ==> !Precedes(c, a, column, dir)
    ensures !Precedes(a, a, column, dir)
  {
    var x, y, z := Cell(a, column), Cell(b, column), Cell(c, column);
    ValueLessOrder(x, y, z);
    ValueLessOrder(z, y, x);
    ValueLessOrder(x, z, y);
    ValueLessOrder(y, x, z);
    ValueLessOrder(y, z, x);
    ValueLessOrder(z, x, y);
    ValueLessOrder(x, z, x);
  }

  /** No element goes strictly before an earlier one. */
  predicate SortedBy(s: seq<Row>, column: string, dir: Direction)
  {
    forall i, j :: 0 <= i < j < |s| ==> !Precedes(s[j], s[i], column, dir)
  }

  /** Insert `x` into a list before the first element that does not go
      strictly before it. */
  function Insert(x: Row, s: seq<Row>, column: string, dir: Direction): (r: seq<Row>)
    ensures multiset(r) == multiset(s) + multiset{x}
  {
    if s == [] then [x]
    else if Precedes(s[0], x, column, dir) then
      assert s == [s[0]] + s[1..];
      [s[0]] + Insert(x, s[1..], column, dir)
    else [x] + s
  }

  /** A sorted list stays sorted with an element in front that none of
      its elements goes before. */
  lemma SortedCons(y: Row, t: seq<Row>, column: string, dir: Direction)
    requires SortedBy(t, column, dir)
    requires forall k :: 0 <= k < |t| ==> !Precedes(t[k], y, column, dir)
    ensures SortedBy([y] + t, column, dir)
  {
    var r := [y] + t;
    forall i, j | 0 <= i < j < |r| ensures !Precedes(r[j], r[i], column, dir) {
      assert r[j] == t[j - 1];
      if i > 0 { assert r[i] == t[i - 1]; }
    }
  }

  /** Insertion keeps a list sorted. */
  lemma {:induction false} InsertSorted(x: Row, s: seq<Row>, column: string, dir: Direction)
    requires SortedBy(s, column, dir)
    ensures SortedBy(Insert(x, s, column, dir), column, dir)
  {
    if s == [] {
    } else if Precedes(s[0], x, column, dir) {
      assert SortedBy(s[1..], column, dir);
      InsertSorted(x, s[1..], column, dir);
      var rest := Insert(x, s[1..], column, dir);
      forall k | 0 <= k < |rest| ensures !Precedes(rest[k], s[0], column, dir) {
        assert rest[k] in multiset(rest);
        PrecedesSplit(s[0], rest[k], x, column, dir);
        if rest[k] != x {
          assert rest[k] in multiset(s[1..]);
          var m :| 0 <= m < |s[1..]| && s[1..][m] == rest[k];
          assert s[m + 1] == rest[k];
        }
      }
      SortedCons(s[0], rest, column, dir);
    } else {
      forall k | 0 <= k < |s| ensures !Precedes(s[k], x, column, dir) {
        PrecedesSplit(s[k], s[0], x, column, dir);
        PrecedesSplit(s[0], s[0], s[0], column, dir);
      }
      SortedCons(x, s, column, dir);
    }
  }

  /** A stable sort: insertion of each record, from the last to the first,
      into the sorted rest. */
  function SortRows(s: seq<Row>, column: string, dir: Direction): (r: seq<Row>)
    ensures multiset(r) == multiset(s)
    ensures SortedBy(r, column, dir)
  {
    if s == [] then []
    else
      assert s == [s[0]] + s[1..];
      InsertSorted(s[0], SortRows(s[1..], column, dir), column, dir);
      Insert(s[0], SortRows(s[1..], column, dir), column, dir)
  }

  /** The records whose value at `column` is `v`, in their order. */
  function WithKey(s: seq<Row>, column: string, v: Value): (r: seq<Row>)
    ensures |r| <= |s|
  {
    if s == [] then []
    else if Cell(s[0], column) == v then [s[0]] + WithKey(s[1..], column, v)
    else WithKey(s[1..], column, v)
  }

  lemma WithKeyCons(a: Row, t: seq<Row>, column: string, v: Value)
    ensures WithKey([a] + t, column, v) == (if Cell(a, column) == v then [a] else []) + WithKey(t, column, v)
  {
    assert ([a] + t)[1..] == t;
  }

  /** Inserting a record puts it first among the records with its key: the
      ones it passes have keys that go strictly before its own. */
  lemma {:induction false} InsertWithKey(x: Row, s: seq<Row>, column: string, dir: Direction, v: Value)
    ensures WithKey(Insert(x, s, column, dir), column, v)
         == if Cell(x, column) == v then [x] + WithKey(s, column, v) else WithKey(s, column, v)
  {
    if s == [] {
      WithKeyCons(x, [], column, v);
    } else if Precedes(s[0], x, column, dir) {
      InsertWithKey(x, s[1..], column, dir, v);
      ValueLessOrder(Cell(x, column), Cell(x, column), Cell(x, column));
      assert Cell(s[0], column) != Cell(x, column);
      WithKeyCons(s[0], Insert(x, s[1..], column, dir), column, v);
      assert s == [s[0]] + s[1..];
      WithKeyCons(s[0], s[1..], column, v);
    } else {
      WithKeyCons(x, s, column, v);
    }
  }

  // ------------------------------------------------------------- getters

  /** The `sortedData` getter. Without a sort column (or with the empty
      one, which is falsy) the records as they are; otherwise a sorted
      copy. */
  function SortedData(data: seq<Row>, sortColumn: Option<string>, dir: Direction): (r: seq<Row>)
    ensures multiset(r) == multiset(data)
    ensures |r| == |data|
  {
    assert |multiset(data)| == |data|;
    if sortColumn == None || sortColumn.value == "" then data
    else SortRows(data, sortColumn.value, dir)
  }

  /** With no sort column the records keep their original order. */
  lemma SortedDataUnsorted(data: seq<Row>, dir: Direction)
    ensures SortedData(data, None, dir) == data
    ensures SortedData(data, Some(""), dir) == data
  {
  }

  /** Sorted ascending, the keys do not decrease; sorted descending, they do
      not increase. */
  lemma SortedDataOrder(data: seq<Row>, column: string, dir: Direction, i: int, j: int)
    requires column != ""
    requires 0 <= i < j < |data|
    ensures var r := SortedData(data, Some(column), dir);
      var a, b := Cell(r[i], column), Cell(r[j], column);
      if dir == Asc then a == b || ValueLess(a, b) else a == b || ValueLess(b, a)
  {
    var r := SortedData(data, Some(column), dir);
    var a, b := Cell(r[i], column), Cell(r[j], column);
    assert !Precedes(r[j], r[i], column, dir);
    ValueLessOrder(a, b, a);
  }

  /** Stability: for every key, the records with that key appear in the
      sorted result in their input order. */
  lemma {:induction false} SortedDataStable(data: seq<Row>, column: string, dir: Direction, v: Value)
    ensures WithKey(SortRows(data, column, dir), column, v) == WithKey(data, column, v)
  {
    if data != [] {
      SortedDataStable(data[1..], column, dir, v);
      InsertWithKey(data[0], SortRows(data[1..], column, dir), column, dir, v);
    }
  }

  /** `Array.prototype.slice(start, end)`: negative positions count from the
      end, and both are clamped to the list. */
  function JsSlice<T>(s: seq<T>, start: int, end: int): (r: seq<T>)
    ensures |r| <= |s|
    ensures 0 <= start <= end <= |s| ==> r == s[start..end]
    ensures 0 <= start <= |s| <= end ==> r == s[start..]
    ensures 0 <= end <= start ==> r == []
    ensures start >= |s| ==> r == []
  {
    var from := if start < 0 then (if |s| + start < 0 then 0 else |s| + start)
                else if start > |s| then |s| else start;
    var to := if end < 0 then (if |s| + end < 0 then 0 else |s| + end)
              else if end > |s| then |s| else end;
    if to <= from then [] else s[from..to]
  }

  /** A position of `slice` counted from the end (negative) or the start,
      clamped to 0..n. */
  function SlicePosition(n: nat, i: int): (p: nat)
    ensures p <= n
  {
    if i < 0 then (if n + i < 0 then 0 else n + i) else if i > n then n else i
  }

  /** `slice` first turns both positions into clamped positions from the
      start, then takes the elements between them. */
  lemma JsSliceRelative<T>(s: seq<T>, start: int, end: int)
    ensures JsSlice(s, start, end) == JsSlice(s, SlicePosition(|s|, start), SlicePosition(|s|, end))
  {
  }

  /** The `paginatedData` getter: the rows of page `page` (1-based). */
  function PaginatedData(sorted: seq<Row>, page: int, pageSize: int): (r: seq<Row>)
  {
    var startIndex := PageOffset(page, pageSize);
    JsSlice(sorted, startIndex, startIndex + pageSize)
  }

  /** `(currentPage - 1) * pageSize`: where a page starts. With a positive
      page size it is not negative from page 1 on, and the page ends at 0
      for page 0 and before 0 for a negative page. */
  function PageOffset(page: int, pageSize: int): (o: int)
    ensures pageSize > 0 && page >= 1 ==> o >= 0
    ensures pageSize > 0 && page == 0 ==> o + pageSize == 0
    ensures pageSize > 0 && page < 0 ==> o + pageSize < 0
  {
    if pageSize > 0 then PageProducts(page, pageSize); (page - 1) * pageSize
    else (page - 1) * pageSize
  }

  /** Every page holds at most `pageSize` rows. On a page from 1 on, they
      are the rows from `(page - 1) * pageSize`, fewer at the end, none
      beyond it. Page 0 is empty. A negative page, which `goToPage` also
      stores, counts from the end: page -k holds the at most `pageSize`
      rows that end k pages before the last row. */
  lemma PaginatedDataSlice(sorted: seq<Row>, page: int, pageSize: int)
    requires pageSize > 0
    ensures var start := PageOffset(page, pageSize);
      var r := PaginatedData(sorted, page, pageSize);
      |r| <= pageSize
      && (page >= 1 && start >= |sorted| ==> r == [])
      && (page >= 1 && start < |sorted| ==>
            r == sorted[start..if start + pageSize < |sorted| then start + pageSize else |sorted|])
      && (page == 0 ==> r == [])
      && (page < 0 ==>
            var e := |sorted| + start + pageSize;
            (e <= 0 ==> r == [])
            && (e > 0 ==> r == sorted[if e - pageSize < 0 then 0 else e - pageSize..e]))
  {
    if page >= 1 {
      PageFromOne(sorted, page, pageSize);
    } else {
      TrailingSlice(sorted, PageOffset(page, pageSize), pageSize);
    }
  }

  /** The page-from-1 half of `PaginatedDataSlice`. */
  lemma PageFromOne(sorted: seq<Row>, page: int, pageSize: int)
    requires pageSize > 0 && page >= 1
    ensures var start := PageOffset(page, pageSize);
      var r := PaginatedData(sorted, page, pageSize);
      |r| <= pageSize
      && (start >= |sorted| ==> r == [])
      && (start < |sorted| ==>
            r == sorted[start..if start + pageSize < |sorted| then start + pageSize else |sorted|])
  {
  }

  /** The signs of the page offsets. */
  lemma PageProducts(page: int, pageSize: int)
    requires pageSize > 0
    ensures page >= 1 ==> (page - 1) * pageSize >= 0
    ensures page == 0 ==> (page - 1) * pageSize + pageSize == 0
    ensures page < 0 ==> (page - 1) * pageSize + pageSize < 0
  {
    if page >= 1 {
      MulNonNegative(page - 1, pageSize);
    } else if page < 0 {
      MulPositive(-page, pageSize);
      assert (page - 1) * pageSize + pageSize == page * pageSize;
    }
  }

  /** A slice of `width` positions that ends at or before position 0 counts
      from the end of the list: it is empty when it ends at 0 or reaches
      back no further than the list, and otherwise the rows that end at
      that position counted from the end. */
  lemma TrailingSlice<T>(s: seq<T>, start: int, width: int)
    requires width > 0 && start + width <= 0
    ensures var r := JsSlice(s, start, start + width);
      var e := |s| + start + width;
      |r| <= width
      && (start + width == 0 ==> r == [])
      && (start + width < 0 && e <= 0 ==> r == [])
      && (start + width < 0 && e > 0 ==> r == s[if e - width < 0 then 0 else e - width..e])
  {
  }

  lemma MulNonNegative(a: int, b: int)
    requires a >= 0 && b >= 0
    ensures a * b >= 0
  {
  }

  lemma MulPositive(a: int, b: int)
    requires a > 0 && b > 0
    ensures a * b > 0
  {
  }

  /** The `totalPages` getter: `Math.ceil(count / pageSize)`. */
  function TotalPages(count: nat, pageSize: int): (t: nat)
    requires pageSize > 0
    ensures t * pageSize >= count
    ensures count > 0 ==> (t - 1) * pageSize < count
    ensures t == 0 <==> count == 0
  {
    (count + pageSize - 1) / pageSize
  }

  /** Pages 1 to `k` put together, in order. */
  function PagesUpTo(sorted: seq<Row>, k: nat, pageSize: int): seq<Row>
  {
    if k == 0 then [] else PagesUpTo(sorted, k - 1, pageSize) + PaginatedData(sorted, k, pageSize)
  }

  lemma {:induction false} PagesUpToPrefix(sorted: seq<Row>, k: nat, pageSize: int)
    requires pageSize > 0
    ensures var end := if k * pageSize < |sorted| then k * pageSize else |sorted|;
      PagesUpTo(sorted, k, pageSize) == sorted[..end]
  {
    if k > 0 {
      PagesUpToPrefix(sorted, k - 1, pageSize);
      PageFromOne(sorted, k, pageSize);
      MulNonNegative(k - 1, pageSize);
      assert k * pageSize == (k - 1) * pageSize + pageSize;
      var a := (k - 1) * pageSize;
      if a < |sorted| {
        var b := if k * pageSize < |sorted| then k * pageSize else |sorted|;
        assert sorted[..a] + sorted[a..b] == sorted[..b];
      }
    }
  }

  /** Concatenating pages 1 to `totalPages` gives every sorted row exactly
      once, in order. */
  lemma PagesCoverAll(sorted: seq<Row>, pageSize: int)
    requires pageSize > 0
    ensures PagesUpTo(sorted, TotalPages(|sorted|, pageSize), pageSize) == sorted
  {
    PagesUpToPrefix(sorted, TotalPages(|sorted|, pageSize), pageSize);
  }

  // ---------------------------------------------------------- page window

  const MaxVisible := 5

  /** The first and last page of the button window of `renderPageNumbers`. */
  function WindowBounds(currentPage: int, totalPages: int): (b: (int, int))
  {
    var start := if currentPage - MaxVisible / 2 > 1 then currentPage - MaxVisible / 2 else 1;
    var end := if totalPages < start + MaxVisible - 1 then totalPages else start + MaxVisible - 1;
    var start' := if end - start < MaxVisible - 1 then (if end - MaxVisible + 1 > 1 then end - MaxVisible + 1 else 1)
                  else start;
    (start', end)
  }

  /** The pages `from` to `to`, in order. */
  function Range(from: int, to: int): (r: seq<int>)
    decreases to - from
    ensures |r| == if to < from then 0 else to - from + 1
    ensures forall k :: 0 <= k < |r| ==> r[k] == from + k
  {
    if to < from then [] else [from] + Range(from + 1, to)
  }

  /** `renderPageNumbers`: the page numbers that get a button. */
  method RenderPageNumbers(currentPage: int, totalPages: int) returns (pages: seq<int>)
    ensures var (s, e) := WindowBounds(currentPage, totalPages); pages == Range(s, e)
  {
    pages := [];
    var startPage := if 1 > currentPage - MaxVisible / 2 then 1 else currentPage - MaxVisible / 2;
    var endPage := if totalPages < startPage + MaxVisible - 1 then totalPages else startPage + MaxVisible - 1;
    if endPage - startPage < MaxVisible - 1 {
      startPage := if 1 > endPage - MaxVisible + 1 then 1 else endPage - MaxVisible + 1;
    }
    assert (startPage, endPage) == WindowBounds(currentPage, totalPages);
    var i := startPage;
    while i <= endPage
      invariant startPage <= i <= (if endPage < startPage then startPage else endPage + 1)
      invariant |pages| == i - startPage
      invariant forall k :: 0 <= k < |pages| ==> pages[k] == startPage + k
      decreases endPage - i
    {
      pages := pages + [i];
      i := i + 1;
    }
  }

  /** The window is a run of consecutive pages inside 1..totalPages, exactly
      min(5, totalPages) long, and it holds the current page whenever that
      page is in range. */
  lemma WindowProperties(currentPage: int, totalPages: nat)
    ensures var (s, e) := WindowBounds(currentPage, totalPages);
      var w := Range(s, e);
      |w| == (if totalPages < MaxVisible then totalPages else MaxVisible)
      && (forall k :: 0 <= k < |w| ==> 1 <= w[k] <= totalPages)
      && (1 <= currentPage <= totalPages ==> currentPage in w)
  {
    var (s, e) := WindowBounds(currentPage, totalPages);
    var w := Range(s, e);
    if 1 <= currentPage <= totalPages {
      assert w[currentPage - s] == currentPage;
    }
  }

  // ----------------------------------------------------- footer and buttons

  /** `renderPagination`: hidden when everything fits on one page; otherwise
      the first and last item number shown. */
  function Footer(count: nat, currentPage: int, pageSize: int): (f: Option<(int, int)>)
  {
    if count <= pageSize then None
    else
      var startItem := (currentPage - 1) * pageSize + 1;
      var endItem := if currentPage * pageSize < count then currentPage * pageSize else count;
      Some((startItem, endItem))
  }

  /** On a page in range the footer numbers the rows that page shows,
      1-based: from `startItem` to `endItem` there are exactly as many as
      `paginatedData` holds. */
  lemma FooterMatchesPage(sorted: seq<Row>, page: int, pageSize: int)
    requires pageSize > 0 && |sorted| > pageSize
    requires 1 <= page <= TotalPages(|sorted|, pageSize)
    ensures Footer(|sorted|, page, pageSize).Some?
    ensures var (a, b) := Footer(|sorted|, page, pageSize).value;
      1 <= a <= b <= |sorted| && b - a + 1 == |PaginatedData(sorted, page, pageSize)|
  {
    var t := TotalPages(|sorted|, pageSize);
    var start := (page - 1) * pageSize;
    MulMonotone(page - 1, t - 1, pageSize);
    assert start < |sorted|;
    MulNonNegative(page - 1, pageSize);
    assert page * pageSize == start + pageSize;
    PageFromOne(sorted, page, pageSize);
  }

  lemma MulMonotone(a: int, b: int, c: int)
    requires a <= b && c >= 0
    ensures a * c <= b * c
  {
    MulNonNegative(b - a, c);
    assert b * c - a * c == (b - a) * c;
  }

  /** The Previous button is disabled on page 1, the Next button on page
      `totalPages`. */
  predicate PreviousEnabled(currentPage: int) { currentPage != 1 }

  predicate NextEnabled(currentPage: int, totalPages: int) { currentPage != totalPages }

  /** From a page in range, every enabled button leads to a page in range. */
  lemma NavigationStaysInRange(currentPage: int, totalPages: nat)
    requires 1 <= currentPage <= totalPages
    ensures PreviousEnabled(currentPage) ==> 1 <= currentPage - 1 <= totalPages
    ensures NextEnabled(currentPage, totalPages) ==> 1 <= currentPage + 1 <= totalPages
    ensures var (s, e) := WindowBounds(currentPage, totalPages);
      forall k :: 0 <= k < |Range(s, e)| ==> 1 <= Range(s, e)[k] <= totalPages
  {
    WindowProperties(currentPage, totalPages);
  }

  /** Only the disabled buttons keep the page in range: from a page past the
      last one (the records shrank), Next stays enabled and leads further
      out. */
  lemma NextPastLastStaysEnabled(currentPage: int, totalPages: nat)
    requires currentPage > totalPages
    ensures NextEnabled(currentPage, totalPages) && currentPage + 1 > totalPages
  {
  }

  // ------------------------------------------------------------ the state

  /** A column descriptor; only the key matters to sorting. */
  datatype Column = Column(key: string, caption: string, sortable: bool)

  class Table {
    var data: seq<Row>
    var columns: seq<Column>
    var sortColumn: Option<string>
    var sortDirection: Direction
    var currentPage: int
    var pageSize: int

    ghost predicate Valid()
      reads this
    {
      pageSize > 0
    }

    constructor ()
      ensures Valid()
      ensures data == [] && columns == [] && sortColumn == None
      ensures sortDirection == Asc && currentPage == 1 && pageSize == 10
    {
      data := [];
      columns := [];
      sortColumn := None;
      sortDirection := Asc;
      currentPage := 1;
      pageSize := 10;
    }

    /** `handleSort`: picking the current column flips the direction,
        another column sorts by it ascending; either way back to page 1. */
    method HandleSort(columnKey: string)
      requires Valid()
      modifies this
      ensures Valid()
      ensures old(sortColumn) == Some(columnKey) ==>
        sortColumn == old(sortColumn) && sortDirection == (if old(sortDirection) == Asc then Desc else Asc)
      ensures old(sortColumn) != Some(columnKey) ==> sortColumn == Some(columnKey) && sortDirection == Asc
      ensures currentPage == 1
      ensures data == old(data) && columns == old(columns) && pageSize == old(pageSize)
    {
      if sortColumn == Some(columnKey) {
        sortDirection := if sortDirection == Asc then Desc else Asc;
      } else {
        sortColumn := Some(columnKey);
        sortDirection := Asc;
      }
      currentPage := 1;
    }

    /** `goToPage`: stores the page as given, without clamping. */
    method GoToPage(page: int)
      requires Valid()
      modifies this`currentPage
      ensures Valid()
      ensures currentPage == page
    {
      currentPage := page;
    }
  }

  /** Picking the same column three times: ascending, descending, ascending
      again, and the page is 1 throughout. */
  method SortToggleScenario(t: Table, column: string) returns (first: Direction, second: Direction)
    requires t.Valid() && t.sortColumn != Some(column)
    modifies t
    ensures first == Asc && second == Desc
    ensures t.sortColumn == Some(column) && t.sortDirection == Asc && t.currentPage == 1
  {
    t.HandleSort(column);
    first := t.sortDirection;
    t.HandleSort(column);
    second := t.sortDirection;
    t.HandleSort(column);
  }
}
