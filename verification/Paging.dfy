/** Paging of a listing: internal/store/sqlite/{post,thread,search}.go, buildPagination and pageFromQuery
    of internal/handler/thread.go.  Go's int is 64 bits wide and wraps around. */
module Paging {

  // ----- 64-bit arithmetic -----

  const TWO63: int := 0x8000_0000_0000_0000

  type int64 = n: int | -0x8000_0000_0000_0000 <= n < 0x8000_0000_0000_0000

  /** Two's complement. */
  function Wrap(n: int): int64 {
    (n + TWO63) % (2 * TWO63) - TWO63
  }

  /** Go's division truncates toward zero. */
  function Quotient(a: int, b: int): int
    requires b > 0
  {
    if a >= 0 then a / b else -(-a / b)
  }

  // ----- Requests and pages -----

  datatype PageRequest = PageRequest(page: int64, perPage: int64)

  datatype PageResult<+T> = PageResult(items: seq<T>, total: int64, page: int64, totalPages: int)

  type Count = n: int64 | 0 < n witness 1

  /** The result shows the page asked for, the first one when none is, by the size asked for, by 25 when none is:
      the rows from there on, as long as the place of the first fits in 64 bits, and the number of pages that
      hold the rows, as long as the rounding-up sum fits. */
  ghost predicate ShowsWhatIsAsked<T>(rows: seq<T>, total: int64, req: PageRequest, result: PageResult<T>) {
    var page := if req.page > 0 then req.page else 1;
    var size := if req.perPage > 0 then req.perPage else 25;
    && result.page == page && result.total == total
    && ((page - 1) * size < 0x8000_0000_0000_0000 ==> result.items == SliceOf(rows, (page - 1) * size, size))
    && (0 <= total && total + size <= 0x8000_0000_0000_0000 ==> EnoughPages(result.totalPages, total, size))
  }

  /** At most `size` rows, from place `from` on. */
  function SliceOf<T>(rows: seq<T>, from: int, size: int): seq<T> {
    if from < 0 || size < 0 || from >= |rows| then []
    else if from + size <= |rows| then rows[from..from + size]
    else rows[from..]
  }

  /** The OFFSET clause: SQLite reads a negative one as zero. */
  function Skipped(page: Count, per: Count): nat {
    var offset := Wrap((page - 1) * per);
    if offset < 0 then 0 else offset
  }

  function LimitOffset<T>(rows: seq<T>, limit: nat, offset: nat): seq<T> {
    var from := if offset < |rows| then offset else |rows|;
    var to := if from + limit < |rows| then from + limit else |rows|;
    rows[from..to]
  }

  function Page<T>(rows: seq<T>, page: Count, per: Count): seq<T> {
    LimitOffset(rows, per, Skipped(page, per))
  }

  function TotalPages(total: int64, per: Count): int {
    var pages := Quotient(Wrap(total + per - 1), per);
    if pages == 0 then 1 else pages
  }

  /** One page of a query whose rows, in order, are `rows`, and whose count is `total`. */
  method ListPage<T>(rows: seq<T>, total: int64, req: PageRequest) returns (result: PageResult<T>)
    ensures ShowsWhatIsAsked(rows, total, req, result)
    ensures var page, size := if req.page > 0 then req.page else 1, if req.perPage > 0 then req.perPage else 25;
            result == PageResult(Page(rows, page, size), total, page, TotalPages(total, size))
  {
    var perPage := req.perPage;
    if perPage <= 0 {
      perPage := 25;
    }
    var pg := req.page;
    if pg <= 0 {
      pg := 1;
    }
    var cursor := LimitOffset(rows, perPage, Skipped(pg, perPage));
    var items: seq<T> := [];
    for i := 0 to |cursor|
      invariant items == cursor[..i]
    {
      items := items + [cursor[i]];
    }
    var totalPages := Quotient(Wrap(total + perPage - 1), perPage);
    if totalPages == 0 {
      totalPages := 1;
    }
    result := PageResult(items, total, pg, totalPages);
    PageIsSlice(rows, pg, perPage);
    if 0 <= total && total + perPage <= TWO63 {
      FittingTotal(total, perPage);
    }
  }

  lemma PageIsSlice<T>(rows: seq<T>, page: Count, per: Count)
    ensures (page - 1) * per < TWO63 ==> Page(rows, page, per) == SliceOf(rows, (page - 1) * per, per)
  {
    if (page - 1) * per < TWO63 {
      OffsetBefore(page, per, TWO63);
      NotNegative(page - 1, per);
    }
  }

  // ----- The number of pages -----

  /** The least number of pages of size `per`, at least one, that hold `total` rows. */
  ghost predicate EnoughPages(pages: int, total: int, per: Count) {
    1 <= pages && total <= pages * per && (pages == 1 || (pages - 1) * per < total)
  }

  lemma WrapSmall(n: int)
    requires -TWO63 <= n < TWO63
    ensures Wrap(n) == n
  {
  }

  lemma WrapLarge(n: int)
    requires TWO63 <= n < 3 * TWO63
    ensures Wrap(n) == n - 2 * TWO63
  {
    assert n + TWO63 == (n - TWO63) + 2 * TWO63;
  }

  lemma CeilingDivision(total: int, per: Count)
    requires total > 0
    ensures EnoughPages((total + per - 1) / per, total, per)
  {
    var q, r := (total + per - 1) / per, (total + per - 1) % per;
    assert total + per - 1 == q * per + r;
    assert (q - 1) * per == q * per - per;
  }

  /** What the handlers see, with a sum that fits in 64 bits. */
  lemma FittingTotal(total: int64, per: Count)
    requires 0 <= total && total + per <= TWO63
    ensures EnoughPages(TotalPages(total, per), total, per)
  {
    WrapSmall(total + per - 1);
    if total == 0 {
      assert (per - 1) / per == 0;
    } else {
      CeilingDivision(total, per);
    }
  }

  lemma SmallQuotient(a: int, per: Count)
    requires a >= 0
    ensures a / per >= 0 && (a / per == 0 <==> a < per)
  {
  }

  /** The page size is a setting without an upper limit, so the rounding-up sum may wrap around.  The
      number of pages is right exactly when it does not, or when it does but one page is enough and the
      wrapped quotient rounds to zero. */
  lemma {:induction false} TotalPagesRightIff(total: int64, per: Count)
    requires 0 <= total
    ensures EnoughPages(TotalPages(total, per), total, per)
            <==> (total + per <= TWO63 || (total <= per && 2 * TWO63 - (total + per - 1) < per))
  {
    if total + per <= TWO63 {
      FittingTotal(total, per);
    } else {
      WrapLarge(total + per - 1);
      SmallQuotient(2 * TWO63 - (total + per - 1), per);
      if TotalPages(total, per) == 1 {
        OnePageAsked(total, per);
      }
    }
  }

  lemma OnePageAsked(total: int64, per: Count)
    ensures EnoughPages(1, total, per) <==> total <= per
  {
  }

  /** The largest page size and two rows: a negative number of pages. */
  lemma {:induction false} WrappedTotal()
    ensures TotalPages(2, 0x7FFF_FFFF_FFFF_FFFF) == -1
  {
    WrapLarge(0x8000_0000_0000_0000);
    assert -(0x8000_0000_0000_0000 / 0x7FFF_FFFF_FFFF_FFFF) == -1;
  }

  // ----- Which rows a page shows -----

  lemma OffsetBefore(page: Count, per: Count, bound: int)
    requires (page - 1) * per < bound <= TWO63
    ensures Skipped(page, per) == (page - 1) * per
  {
    NotNegative(page - 1, per);
    WrapSmall((page - 1) * per);
  }

  lemma NotNegative(a: nat, b: nat)
    ensures a * b >= 0
  {
  }

  /** A page is the slice it should be exactly when its offset fits in 64 bits, or the wrapped offset
      happens to lie behind the last row. */
  lemma {:induction false} PageRightIff<T>(rows: seq<T>, page: Count, per: Count)
    requires |rows| < TWO63
    ensures Page(rows, page, per) == LimitOffset(rows, per, (page - 1) * per)
            <==> ((page - 1) * per < TWO63 || |rows| <= Skipped(page, per))
  {
    if (page - 1) * per < TWO63 {
      OffsetBefore(page, per, TWO63);
    }
  }

  /** Page 368934881474191034 of a listing by 25 shows what page 1 shows. */
  lemma {:induction false} FarPageShowsFirst<T>(rows: seq<T>)
    ensures Page(rows, 368934881474191034, 25) == Page(rows, 1, 25)
  {
    WrapLarge(368934881474191033 * 25);
  }

  /** Inside a listing the offsets never wrap around. */
  lemma InRange(total: int64, page: Count, per: Count)
    requires 0 <= total && total + per <= TWO63 && page <= TotalPages(total, per)
    ensures (page - 1) * per <= total && Skipped(page, per) == (page - 1) * per
    ensures page < TotalPages(total, per) ==> page * per < total
  {
    FittingTotal(total, per);
    var pages := TotalPages(total, per);
    if pages > 1 {
      Monotone(page - 1, pages - 1, per);
      if page < pages {
        Monotone(page, pages - 1, per);
      }
    }
    OffsetBefore(page, per, TWO63);
  }

  lemma Monotone(a: int, b: int, per: Count)
    requires a <= b
    ensures a * per <= b * per
  {
  }

  lemma PageStart(page: int, per: Count)
    ensures page * per == (page - 1) * per + per
  {
  }

  /** Every page but the last is full; the last is not empty unless the listing is. */
  lemma {:induction false} PagesFull<T>(rows: seq<T>, page: Count, per: Count)
    requires |rows| + per <= TWO63 && page <= TotalPages(|rows|, per)
    ensures page < TotalPages(|rows|, per) ==> |Page(rows, page, per)| == per
    ensures page == TotalPages(|rows|, per) ==> |Page(rows, page, per)| == |rows| - (page - 1) * per
    ensures Page(rows, page, per) == [] ==> rows == []
  {
    InRange(|rows|, page, per);
    FittingTotal(|rows|, per);
    PageStart(page, per);
    NotNegative(page - 1, per);
  }

  /** Behind the last page: empty, exactly while the offset has not wrapped to a shown row. */
  lemma {:induction false} LaterPages<T>(rows: seq<T>, page: Count, per: Count)
    requires |rows| + per <= TWO63 && page > TotalPages(|rows|, per)
    ensures (page - 1) * per >= |rows|
    ensures Page(rows, page, per) == [] <==> ((page - 1) * per < TWO63 || |rows| <= Skipped(page, per))
  {
    FittingTotal(|rows|, per);
    Monotone(TotalPages(|rows|, per), page - 1, per);
    if (page - 1) * per < TWO63 {
      OffsetBefore(page, per, TWO63);
    }
  }

  // ----- The pages partition the list -----

  /** Pages 1 to n, one after the other. */
  function Pages<T>(rows: seq<T>, n: nat, per: Count): seq<T>
    requires n < TWO63
  {
    if n == 0 then [] else Pages(rows, n - 1, per) + Page(rows, n, per)
  }

  lemma {:induction false} PagesPrefix<T>(rows: seq<T>, n: nat, per: Count)
    requires |rows| + per <= TWO63 && n <= TotalPages(|rows|, per) && n < TWO63
    ensures Pages(rows, n, per) == rows[..if n * per < |rows| then n * per else |rows|]
  {
    NotNegative(n, per);
    if n > 0 {
      PagesPrefix(rows, n - 1, per);
      InRange(|rows|, n, per);
      PageStart(n, per);
      NotNegative(n - 1, per);
    }
  }

  lemma FewPages(total: int64, per: Count)
    requires 0 <= total && total + per <= TWO63
    ensures 1 <= TotalPages(total, per) < TWO63
  {
    FittingTotal(total, per);
    var pages := TotalPages(total, per);
    if pages > 1 {
      assert (pages - 1) * per >= pages - 1 by { Spread(pages - 1, per); }
    }
  }

  lemma Spread(a: nat, per: Count)
    ensures a * per >= a
  {
  }

  /** Reading pages 1 to the last gives every row once, in order. */
  lemma {:induction false} PagesPartition<T>(rows: seq<T>, per: Count)
    requires |rows| + per <= TWO63
    ensures 1 <= TotalPages(|rows|, per) < TWO63
    ensures Pages(rows, TotalPages(|rows|, per), per) == rows
  {
    FewPages(|rows|, per);
    FittingTotal(|rows|, per);
    PagesPrefix(rows, TotalPages(|rows|, per), per);
  }

  /** The rows of some results, one after the other. */
  function Joined<T>(results: seq<PageResult<T>>): seq<T> {
    if results == [] then [] else Joined(results[..|results| - 1]) + results[|results| - 1].items
  }

  /** The results are what asking for pages 1, 2 and so on by this size gives. */
  ghost predicate AskedInTurn<T>(rows: seq<T>, perPage: int64, results: seq<PageResult<T>>) {
    && |results| < TWO63 && |rows| < TWO63
    && forall i :: 0 <= i < |results| ==> ShowsWhatIsAsked(rows, |rows|, PageRequest(i + 1, perPage), results[i])
  }

  /** Asking for every page up to the last one announced, by whatever size, and joining what is shown gives every
      row once, in order. */
  lemma {:induction false} AskedPagesJoin<T>(rows: seq<T>, perPage: int64, results: seq<PageResult<T>>)
    requires AskedInTurn(rows, perPage, results) && results != [] && |results| == results[0].totalPages
    requires |rows| + (if perPage > 0 then perPage else 25) <= TWO63
    ensures Joined(results) == rows
  {
    var size := if perPage > 0 then perPage else 25;
    assert ShowsWhatIsAsked(rows, |rows|, PageRequest(1, perPage), results[0]);
    assert EnoughPages(|results|, |rows|, size);
    JoinedPrefix(rows, perPage, size, results);
  }

  function UpTo<T>(rows: seq<T>, to: nat): seq<T> {
    if to < |rows| then rows[..to] else rows
  }

  lemma {:induction false} JoinedPrefix<T>(rows: seq<T>, perPage: int64, size: Count, results: seq<PageResult<T>>)
    requires AskedInTurn(rows, perPage, results) && size == (if perPage > 0 then perPage else 25)
    requires |rows| + size <= TWO63 && (results != [] ==> (|results| - 1) * size <= |rows|)
    ensures |results| * size >= 0 && Joined(results) == UpTo(rows, |results| * size)
  {
    NotNegative(|results|, size);
    if results != [] {
      var n := |results| - 1;
      NotNegative(n, size);
      PageStart(n + 1, size);
      PageStart(n, size);
      JoinedPrefix(rows, perPage, size, results[..n]);
      LastShown(rows, perPage, size, results);
      SliceAppended(rows, n * size, size);
    }
  }

  lemma LastShown<T>(rows: seq<T>, perPage: int64, size: Count, results: seq<PageResult<T>>)
    requires AskedInTurn(rows, perPage, results) && size == (if perPage > 0 then perPage else 25) && results != []
    requires (|results| - 1) * size < TWO63
    ensures results[|results| - 1].items == SliceOf(rows, (|results| - 1) * size, size)
  {
    assert ShowsWhatIsAsked(rows, |rows|, PageRequest(|results|, perPage), results[|results| - 1]);
  }

  lemma SliceAppended<T>(rows: seq<T>, from: nat, size: nat)
    requires from <= |rows|
    ensures UpTo(rows, from) + SliceOf(rows, from, size) == UpTo(rows, from + size)
  {
  }

  /** Row i is shown on page i / per + 1 at place i % per, and nowhere else. */
  lemma {:induction false} RowShownOnce<T>(rows: seq<T>, per: Count, i: nat, page: Count, place: nat)
    requires |rows| + per <= TWO63 && i < |rows| && page <= TotalPages(|rows|, per)
    ensures i / per + 1 <= TotalPages(|rows|, per)
    ensures place < |Page(rows, page, per)| && Skipped(page, per) + place == i
            <==> page == i / per + 1 && place == i % per
    ensures page == i / per + 1 && place == i % per ==> Page(rows, page, per)[place] == rows[i]
  {
    PageSlice(rows, page, per);
    PageOfRow(|rows|, per, i);
    var base := (page - 1) * per;
    if base + place == i && place < per {
      SameQuotient(page - 1, i / per, place, i % per, per);
    }
  }

  lemma PageSlice<T>(rows: seq<T>, page: Count, per: Count)
    requires |rows| + per <= TWO63 && page <= TotalPages(|rows|, per)
    ensures var base := (page - 1) * per;
            && 0 <= base <= |rows| && Skipped(page, per) == base
            && Page(rows, page, per) == rows[base..if base + per < |rows| then base + per else |rows|]
  {
    InRange(|rows|, page, per);
    NotNegative(page - 1, per);
  }

  lemma PageOfRow(total: int64, per: Count, i: nat)
    requires total + per <= TWO63 && i < total
    ensures i / per + 1 <= TotalPages(total, per) && i == (i / per) * per + i % per
  {
    FittingTotal(total, per);
    Division(i, per);
    PageBelow(TotalPages(total, per), i / per, i, total, per);
  }

  lemma Division(i: nat, per: Count)
    ensures i == (i / per) * per + i % per && 0 <= i % per < per
  {
  }

  lemma PageBelow(pages: int, q: int, i: int, total: int, per: Count)
    requires total <= pages * per && q * per <= i < total
    ensures q + 1 <= pages
  {
    if pages <= q {
      Monotone(pages, q, per);
    }
  }

  lemma SameQuotient(a: int, b: int, r: nat, s: nat, per: Count)
    requires a * per + r == b * per + s && r < per && s < per
    ensures a == b && r == s
  {
    if a < b {
      Monotone(a + 1, b, per);
      PageStart(a + 1, per);
    } else if b < a {
      Monotone(b + 1, a, per);
      PageStart(b + 1, per);
    }
  }

  // ----- The page bar of a listing -----

  datatype Bar = Bar(current: int, total: int, pages: seq<int>, hasPrev: bool, hasNext: bool, prev: int, next: int)

  /** None is the panic of make() on a negative length. */
  datatype MaybeBar = NoBar | SomeBar(bar: Bar)

  ghost predicate BarOf(bar: Bar, page: int, totalPages: int) {
    && bar.current == page && bar.total == totalPages && |bar.pages| == totalPages
    && (forall i :: 0 <= i < totalPages ==> bar.pages[i] == i + 1)
    && (bar.hasPrev <==> page > 1) && (bar.hasNext <==> page < totalPages)
    && bar.prev == page - 1 && bar.next == page + 1
  }

  /** A link is offered exactly when its page exists. */
  ghost predicate LinksLead(bar: Bar) {
    (bar.hasPrev <==> bar.prev in bar.pages) && (bar.hasNext <==> bar.next in bar.pages)
  }

  /** The bar lists 1 to totalPages; making the slice panics when totalPages is negative. */
  method BuildPagination(page: int64, totalPages: int64) returns (result: MaybeBar)
    ensures result.NoBar? <==> totalPages < 0
    ensures result.SomeBar? ==> BarOf(result.bar, page, totalPages)
    ensures result.SomeBar? && 1 <= page <= totalPages ==> LinksLead(result.bar)
  {
    if totalPages < 0 {
      return NoBar;
    }
    var pages := seq(totalPages, i => 0);
    for i := 0 to |pages|
      invariant |pages| == totalPages
      invariant forall j :: 0 <= j < i ==> pages[j] == j + 1
    {
      pages := pages[i := i + 1];
    }
    var bar := Bar(page, totalPages, pages, page > 1, page < totalPages, page - 1, page + 1);
    assert bar.hasPrev && page <= totalPages ==> pages[page - 2] == bar.prev;
    assert bar.hasNext && 1 <= page ==> pages[page] == bar.next;
    result := SomeBar(bar);
  }
}
