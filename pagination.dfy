/**
 * `LIMIT pageSize OFFSET (page - 1) * pageSize` over an ordered result, and
 * the page count `Math.ceil(totalJobs / pageSize)` of the envelope.
 */
module Pagination {

  /** The route's fixed page size. */
  const PageSize: nat := 10

  /** The rows `LIMIT limit OFFSET offset` returns from the ordered rows `s`. */
  function Window<T>(s: seq<T>, offset: nat, limit: nat): (r: seq<T>)
    ensures |r| == if offset >= |s| then 0 else if offset + limit <= |s| then limit else |s| - offset
    ensures forall k :: 0 <= k < |r| ==> r[k] == s[offset + k]
  {
    if offset >= |s| then []
    else if offset + limit <= |s| then s[offset..offset + limit]
    else s[offset..]
  }

  /** Page number `page` (1-based) of the ordered rows `s`. */
  function PageOf<T>(s: seq<T>, page: int): (r: seq<T>)
    requires page >= 1
    ensures |r| <= PageSize
  {
    Window(s, (page - 1) * PageSize, PageSize)
  }

  /** `Math.ceil(total / pageSize)`: the least number of pages that holds `total` rows. */
  function TotalPages(total: nat): (n: nat)
    ensures n * PageSize >= total
    ensures n > 0 ==> (n - 1) * PageSize < total
  {
    (total + PageSize - 1) / PageSize
  }

  /** No pages exactly when there are no rows. */
  lemma TotalPagesZeroIff(total: nat)
    ensures TotalPages(total) == 0 <==> total == 0
  {
  }

  /** A page past the last one is empty, and every page up to the last one is not. */
  lemma PageEmptyIffBeyondLast<T>(s: seq<T>, page: int)
    requires page >= 1
    ensures PageOf(s, page) == [] <==> page > TotalPages(|s|)
  {
    var n := TotalPages(|s|);
    if page > n {
      assert (page - 1) * PageSize >= n * PageSize;
    } else {
      assert (page - 1) * PageSize <= (n - 1) * PageSize;
    }
  }

  /** The length of a page, from the number of rows and the page's offset. */
  lemma PageLength<T>(s: seq<T>, page: int)
    requires page >= 1
    ensures var offset := (page - 1) * PageSize;
      |PageOf(s, page)| == if offset >= |s| then 0 else if |s| - offset >= PageSize then PageSize else |s| - offset
  {
  }

  /** Pages `1..n` of `s`, concatenated in order. */
  function Pages<T>(s: seq<T>, n: nat): seq<T> {
    if n == 0 then [] else Pages(s, n - 1) + PageOf(s, n)
  }

  /** The first `n` pages are the first `n * pageSize` rows (or all of them). */
  lemma {:induction false} PagesArePrefix<T>(s: seq<T>, n: nat)
    ensures Pages(s, n) == s[..if n * PageSize <= |s| then n * PageSize else |s|]
  {
    if n > 0 {
      PagesArePrefix(s, n - 1);
      var lo := (n - 1) * PageSize;
      var w := PageOf(s, n);
      if lo >= |s| {
        assert w == [];
      } else {
        var hi := if n * PageSize <= |s| then n * PageSize else |s|;
        assert w == s[lo..hi];
        assert s[..lo] + s[lo..hi] == s[..hi];
      }
    }
  }

  /** Pagination is complete: pages `1..TotalPages` reassemble the whole ordered result. */
  lemma PagesReassemble<T>(s: seq<T>)
    ensures Pages(s, TotalPages(|s|)) == s
  {
    PagesArePrefix(s, TotalPages(|s|));
  }

  /** The row at index `i` is on page `i / pageSize + 1`, at position `i % pageSize`, and that page exists. */
  lemma RowOnItsPage<T>(s: seq<T>, i: int) returns (page: int)
    requires 0 <= i < |s|
    ensures page == i / PageSize + 1 && 1 <= page <= TotalPages(|s|)
    ensures i % PageSize < |PageOf(s, page)| && PageOf(s, page)[i % PageSize] == s[i]
  {
    page := i / PageSize + 1;
    assert (page - 1) * PageSize == i - i % PageSize;
  }
}
