/** The page arithmetic of `LibraryDatabase.list`: the number of pages, the
    clamping of the requested page, and the slice of the year-sorted books
    that the page shows. */
module Pagination {
  import opened Text

  /** One page of a listing: its number, the number of pages, and the
      window `[start, end)` of the listing it shows, with those items. */
  datatype Page<T> = Page(number: int, totalPages: int, start: int, end: int, items: seq<T>)

  /** `(n + page_size - 1) // page_size`: the fewest pages of `pageSize`
      items that hold `n` items. */
  function TotalPages(n: nat, pageSize: int): (t: int)
    requires n >= 1 && pageSize > 0
    ensures t >= 1
    ensures (t - 1) * pageSize < n <= t * pageSize
  {
    var t := (n + pageSize - 1) / pageSize;
    CeilingDivision(n, pageSize, t);
    t
  }

  lemma CeilingDivision(n: nat, pageSize: int, t: int)
    requires n >= 1 && pageSize > 0 && t == (n + pageSize - 1) / pageSize
    ensures t >= 1
    ensures (t - 1) * pageSize < n <= t * pageSize
  {
    var r := (n + pageSize - 1) % pageSize;
    assert n + pageSize - 1 == t * pageSize + r && 0 <= r < pageSize;
    assert (t - 1) * pageSize == t * pageSize - pageSize;
  }

  /** `max(1, min(page, total_pages))`. */
  function ClampPage(page: int, totalPages: int): (p: int)
    requires totalPages >= 1
    ensures 1 <= p <= totalPages
    ensures page < 1 ==> p == 1
    ensures page > totalPages ==> p == totalPages
    ensures 1 <= page <= totalPages ==> p == page
  {
    if page < 1 then 1 else if page > totalPages then totalPages else page
  }

  lemma MulMonotone(a: int, b: int, c: int)
    requires a <= b && c >= 0
    ensures a * c <= b * c
  {
    assert b * c - a * c == (b - a) * c;
  }

  /** The page `list` shows for `page` out of `sorted`: nothing for an empty
      listing; otherwise the clamped page, which is a non-empty window of at
      most `pageSize` items starting at `(number - 1) * pageSize`, reaching
      the end of the listing exactly on the last page. There is more than
      one page exactly when the listing is longer than a page. */
  function Paginate<T>(sorted: seq<T>, page: int, pageSize: int): (r: Option<Page<T>>)
    requires pageSize > 0
    ensures r.None? <==> sorted == []
    ensures r.Some? ==>
      var v := r.value;
      && v.totalPages >= 1
      && (v.totalPages - 1) * pageSize < |sorted| <= v.totalPages * pageSize
      && v.number == ClampPage(page, v.totalPages)
      && v.start == (v.number - 1) * pageSize
      && 0 <= v.start < v.end <= |sorted|
      && v.end - v.start <= pageSize
      && v.items == sorted[v.start..v.end]
      && (v.end == |sorted| <==> v.number == v.totalPages)
      && (v.totalPages > 1 <==> |sorted| > pageSize)
  {
    if sorted == [] then None
    else
      var total := TotalPages(|sorted|, pageSize);
      var number := ClampPage(page, total);
      var start := (number - 1) * pageSize;
      var end := if start + pageSize < |sorted| then start + pageSize else |sorted|;
      MulMonotone(0, number - 1, pageSize);
      MulMonotone(number - 1, total - 1, pageSize);
      assert number < total ==> start + pageSize <= (total - 1) * pageSize by {
        if number < total {
          MulMonotone(number, total - 1, pageSize);
        }
      }
      assert total > 1 ==> pageSize <= (total - 1) * pageSize by {
        if total > 1 {
          MulMonotone(1, total - 1, pageSize);
        }
      }
      Some(Page(number, total, start, end, sorted[start..end]))
  }

  /** Every item is shown on page `k / pageSize + 1`, at its place within
      that page. */
  lemma EveryItemOnItsPage<T>(sorted: seq<T>, pageSize: int, k: int)
    requires pageSize > 0 && 0 <= k < |sorted|
    ensures var v := Paginate(sorted, k / pageSize + 1, pageSize).value;
      && v.number == k / pageSize + 1
      && v.start <= k < v.end
      && v.items[k - v.start] == sorted[k]
  {
    var v := Paginate(sorted, k / pageSize + 1, pageSize).value;
    PageOfIndex(|sorted|, pageSize, v.totalPages, k);
  }

  lemma PageOfIndex(n: int, pageSize: int, total: int, k: int)
    requires pageSize > 0 && 0 <= k < n <= total * pageSize
    ensures 1 <= k / pageSize + 1 <= total
    ensures (k / pageSize) * pageSize <= k < (k / pageSize) * pageSize + pageSize
  {
    var q := k / pageSize;
    assert k == q * pageSize + k % pageSize;
    if q + 1 > total {
      MulMonotone(total, q, pageSize);
    }
  }

  /** Consecutive pages adjoin: each page ends where the next one starts, so
      paging through from 1 to the last page shows every item exactly once. */
  lemma PagesAdjoin<T>(sorted: seq<T>, pageSize: int, p: int)
    requires pageSize > 0 && sorted != []
    requires 1 <= p < Paginate(sorted, 1, pageSize).value.totalPages
    ensures Paginate(sorted, p, pageSize).value.end == Paginate(sorted, p + 1, pageSize).value.start
  {
  }

  /** 25 books at 10 per page make 3 pages; page 0 is
      read as page 1 and page 99 as page 3, which shows the last 5 books. */
  lemma TwentyFiveBooksExample<T>(sorted: seq<T>)
    requires |sorted| == 25
    ensures Paginate(sorted, 1, 10).value.totalPages == 3
    ensures Paginate(sorted, 0, 10).value.number == 1
    ensures Paginate(sorted, 99, 10).value.number == 3
    ensures Paginate(sorted, 99, 10).value.items == sorted[20..25]
  {
  }
}
