/** The page links under a list of search results: buildSearchPagination of internal/handler/search.go. */
module SearchWindow {
  import opened Paging

  /** What a reader of page `page` of `total` should be offered: five consecutive pages, or all there are,
      the current one in the middle unless an end is too close. */
  ghost predicate Centred(pages: seq<int>, page: int, total: nat) {
    && |pages| == (if total < 5 then total else 5)
    && (forall i :: 0 <= i < |pages| ==> 1 <= pages[i] <= total && pages[i] == pages[0] + i)
    && (1 <= page <= total ==> page in pages)
    && (3 <= page <= total - 2 ==> |pages| == 5 && pages[2] == page)
    && (page < 3 && total > 0 ==> pages[0] == 1)
    && (page > total - 2 && total > 0 ==> pages[|pages| - 1] == total)
  }

  /** The description leaves no choice. */
  lemma {:induction false} CentredIsUnique(a: seq<int>, b: seq<int>, page: int, total: nat)
    requires Centred(a, page, total) && Centred(b, page, total)
    ensures a == b
  {
    if total > 0 {
      assert a[|a| - 1] == a[0] + |a| - 1 && b[|b| - 1] == b[0] + |b| - 1;
      if 3 <= page <= total - 2 {
        assert a[2] == a[0] + 2 && b[2] == b[0] + 2;
      }
    }
  }

  /** The next links of a current page that exists lead to pages in the window. */
  lemma LinksInWindow(pages: seq<int>, page: int, total: nat)
    requires Centred(pages, page, total) && 1 <= page <= total
    ensures (page > 1 <==> page - 1 in pages) && (page < total <==> page + 1 in pages)
  {
    var k :| 0 <= k < |pages| && pages[k] == page;
    if page > 1 {
      assert pages[k - 1] == page - 1;
    }
    if page < total {
      assert pages[|pages| - 1] == pages[0] + |pages| - 1;
      assert pages[k + 1] == page + 1;
    }
  }

  /** The numbers from start to end. */
  ghost predicate Consecutive(pages: seq<int>, start: int, end: int) {
    && |pages| == (if start <= end then end - start + 1 else 0)
    && (forall j :: 0 <= j < |pages| ==> pages[j] == start + j)
  }

  lemma WindowIsCentred(pages: seq<int>, start: int, end: int, page: int, total: nat)
    requires 1 <= page && Consecutive(pages, start, end)
    requires var first := if page < 3 then 1 else page - 2;
             if first + 4 <= total then start == first && end == first + 4
             else end == total && start == (if total > 4 then total - 4 else 1)
    ensures Centred(pages, page, total)
  {
    if page <= total {
      assert pages[page - start] == page;
    }
  }

  datatype Links = Links(pages: seq<int>, hasPrev: bool, hasNext: bool, prev: int64, next: int64)

  /** The window is as it should be exactly when two pages further on is still a 64-bit number; on the two
      largest page numbers no page is offered.  `totalPages` is the rounded quotient of a 64-bit count
      by 20, so it is never near the top of the range. */
  method BuildSearchPagination(page: int64, totalPages: int64) returns (links: Links)
    requires 1 <= page && 0 <= totalPages < TWO63 - 1
    ensures Centred(links.pages, page, totalPages) <==> (page + 2 < TWO63 || totalPages == 0)
    ensures page + 2 >= TWO63 ==> links.pages == []
    ensures (links.hasPrev <==> page > 1) && (links.hasNext <==> page < totalPages)
    ensures 1 < page ==> links.prev == page - 1
    ensures page < totalPages ==> links.next == page + 1
  {
    var start := Wrap(page - 2);
    if start < 1 {
      start := 1;
    }
    WrapSmall(page - 2);
    var end := Wrap(start + 4);
    if page + 2 < TWO63 {
      WrapSmall(start + 4);
    } else {
      WrapLarge(start + 4);
    }
    if end > totalPages {
      end := totalPages;
      WrapSmall(end - 4);
      if Wrap(end - 4) > 0 {
        start := Wrap(end - 4);
      } else {
        start := 1;
      }
    }
    var pages: seq<int> := [];
    var i := start;
    while i <= end
      invariant i <= TWO63 && (start > end ==> pages == [])
      invariant start <= i && (start <= end + 1 ==> i <= end + 1)
      invariant |pages| == i - start
      invariant forall j :: 0 <= j < |pages| ==> pages[j] == start + j
      decreases end + 1 - i
    {
      pages := pages + [i];
      i := i + 1;
    }
    WrapSmall(page - 1);
    if page < totalPages {
      WrapSmall(page + 1);
    }
    links := Links(pages, page > 1, page < totalPages, Wrap(page - 1), Wrap(page + 1));
    if page + 2 < TWO63 {
      WindowIsCentred(pages, start, end, page, totalPages);
    }
  }
}
