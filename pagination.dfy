/** The page-number list of `app-pagination`: all pages up to seven, beyond
    that the first and last page, a window around the current one and
    ellipses for what is left out; and the guard on page-change requests. */
module Pagination {
  import opened Seqs

  /** One entry of the list: a page number or the `'...'` marker. */
  datatype Entry = Page(n: int) | Ellipsis

  /** The pages `from` to `to` as entries, in order. */
  function Pages(from: int, to: int): (r: seq<Entry>)
    decreases to - from
    ensures |r| == if to < from then 0 else to - from + 1
    ensures forall k :: 0 <= k < |r| ==> r[k] == Page(from + k)
  {
    if to < from then [] else [Page(from)] + Pages(from + 1, to)
  }

  /** The list `_getPageNumbers` builds, as a value. */
  function PageNumbers(current: int, total: int): seq<Entry>
  {
    if total <= 7 then Pages(1, total)
    else if current <= 4 then Pages(1, 5) + [Ellipsis, Page(total)]
    else if current >= total - 3 then [Page(1), Ellipsis] + Pages(total - 4, total)
    else [Page(1), Ellipsis] + Pages(current - 1, current + 1) + [Ellipsis, Page(total)]
  }

  /** `_getPageNumbers`, with its loops. */
  method GetPageNumbers(current: int, total: int) returns (pages: seq<Entry>)
    ensures pages == PageNumbers(current, total)
  {
    pages := [];
    if total <= 7 {
      pages := PushPages(pages, 1, total);
      assert pages == Pages(1, total);
    } else if current <= 4 {
      pages := PushPages(pages, 1, 5);
      pages := pages + [Ellipsis];
      pages := pages + [Page(total)];
    } else if current >= total - 3 {
      pages := pages + [Page(1)];
      pages := pages + [Ellipsis];
      pages := PushPages(pages, total - 4, total);
    } else {
      pages := pages + [Page(1)];
      pages := pages + [Ellipsis];
      pages := PushPages(pages, current - 1, current + 1);
      pages := pages + [Ellipsis];
      pages := pages + [Page(total)];
    }
  }

  /** One `for` loop of `_getPageNumbers`: push the pages `from` to `to`. */
  method PushPages(pages: seq<Entry>, from: int, to: int) returns (r: seq<Entry>)
    ensures r == pages + Pages(from, to)
  {
    r := pages;
    var i := from;
    while i <= to
      invariant from <= i <= (if to < from then from else to + 1)
      invariant r == pages + Pages(from, i - 1)
    {
      PagesSnoc(from, i);
      r := r + [Page(i)];
      i := i + 1;
    }
  }

  /** Pages(from, to) grows by one page at its end. */
  lemma PagesSnoc(from: int, to: int)
    requires from <= to
    ensures Pages(from, to) == Pages(from, to - 1) + [Page(to)]
  {
  }

  /** Up to seven pages, the list is exactly 1..total. */
  lemma ShortListIsAllPages(current: int, total: int)
    requires total <= 7
    ensures var r := PageNumbers(current, total);
      |r| == (if total < 1 then 0 else total)
      && forall k :: 0 <= k < |r| ==> r[k] == Page(k + 1)
  {
  }

  /** Beyond seven pages the list has exactly seven entries, in one of three
      shapes depending on where the current page is. */
  lemma LongListShape(current: int, total: int)
    requires total > 7
    ensures var r := PageNumbers(current, total);
      |r| == 7
      && (current <= 4 ==> r == [Page(1), Page(2), Page(3), Page(4), Page(5), Ellipsis, Page(total)])
      && (4 < current && current >= total - 3 ==>
            r == [Page(1), Ellipsis, Page(total - 4), Page(total - 3), Page(total - 2), Page(total - 1), Page(total)])
      && (4 < current < total - 3 ==>
            r == [Page(1), Ellipsis, Page(current - 1), Page(current), Page(current + 1), Ellipsis, Page(total)])
  {
    var r := PageNumbers(current, total);
    if current <= 4 {
      assert Pages(1, 5) == [Page(1), Page(2), Page(3), Page(4), Page(5)];
    } else if current >= total - 3 {
      assert Pages(total - 4, total) == [Page(total - 4), Page(total - 3), Page(total - 2), Page(total - 1), Page(total)];
    } else {
      assert Pages(current - 1, current + 1) == [Page(current - 1), Page(current), Page(current + 1)];
    }
  }

  /** The page numbers of the list, strictly increasing. */
  predicate NumbersIncrease(r: seq<Entry>)
  {
    forall i, j :: 0 <= i < j < |r| && r[i].Page? && r[j].Page? ==> r[i].n < r[j].n
  }

  /** Every number lies in 1..total, the numbers increase, the list starts
      with page 1 and ends with page `total` whenever there is a page, and
      the current page is listed whenever it is in range. */
  lemma NumbersInRange(current: int, total: int)
    ensures var r := PageNumbers(current, total);
      NumbersIncrease(r)
      && (forall k :: 0 <= k < |r| && r[k].Page? ==> 1 <= r[k].n <= total)
      && (total >= 1 ==> r[0] == Page(1) && r[|r| - 1] == Page(total))
      && (1 <= current <= total ==> Page(current) in r)
  {
    var r := PageNumbers(current, total);
    if total <= 7 {
      ShortListIsAllPages(current, total);
      if 1 <= current <= total { assert r[current - 1] == Page(current); }
    } else {
      LongListShape(current, total);
    }
  }

  /** An ellipsis is never first or last, never next to another, and the
      pages on either side of it leave out at least one page. */
  lemma EllipsesWellPlaced(current: int, total: int)
    ensures var r := PageNumbers(current, total);
      forall k :: 0 <= k < |r| && r[k] == Ellipsis ==>
        0 < k < |r| - 1 && r[k - 1].Page? && r[k + 1].Page? && r[k - 1].n + 1 < r[k + 1].n
  {
    var r := PageNumbers(current, total);
    if total <= 7 {
      ShortListIsAllPages(current, total);
    } else {
      LongListShape(current, total);
    }
  }

  /** `_handlePageChange`: the page announced with `page-change`, if any.
      The component's own `page` is left to its owner. */
  function PageChange(newPage: int, page: int, total: int): (e: Option<int>)
    ensures e.Some? <==> 1 <= newPage <= total && newPage != page
    ensures e.Some? ==> e.value == newPage
  {
    if newPage < 1 || newPage > total || newPage == page then None else Some(newPage)
  }

  /** `hasPrev` and `hasNext` of `render`. */
  predicate HasPrev(page: int) { page > 1 }

  predicate HasNext(page: int, total: int) { page < total }

  /** From a page in range, the enabled arrows request the neighbouring page,
      the disabled ones would request nothing, and a click on a listed number
      requests exactly the pages other than the current one. */
  lemma ClicksRequestValidPages(page: int, total: int)
    requires 1 <= page <= total
    ensures HasPrev(page) <==> PageChange(page - 1, page, total) == Some(page - 1)
    ensures HasNext(page, total) <==> PageChange(page + 1, page, total) == Some(page + 1)
    ensures var r := PageNumbers(page, total);
      forall k :: 0 <= k < |r| && r[k].Page? ==>
        (PageChange(r[k].n, page, total).Some? <==> r[k].n != page)
  {
    NumbersInRange(page, total);
  }
}
