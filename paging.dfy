/** Pagination of the sorted opportunity list: 1-indexed pages of five
    records, the page count, and the Prev/Next buttons. */
module Paging {

  const PageSize: nat := 5

  /** `Array.prototype.slice` index normalisation: a negative index counts
      from the end, and the result is clamped to `[0, len]`. */
  function SliceIndex(i: int, len: nat): (r: nat)
    ensures r <= len
  {
    if i < 0 then (if len + i < 0 then 0 else len + i)
    else if i > len then len else i
  }

  /** `s.slice(start, end)`. */
  function JsSlice<T>(s: seq<T>, start: int, end: int): seq<T> {
    var from, to := SliceIndex(start, |s|), SliceIndex(end, |s|);
    if from < to then s[from..to] else []
  }

  /** The records shown on page `page`: `slice((page - 1) * 5, page * 5)`. */
  function Page<T>(s: seq<T>, page: int): seq<T> {
    JsSlice(s, (page - 1) * PageSize, page * PageSize)
  }

  /** `Math.ceil(n / 5)`. */
  function TotalPages(n: nat): nat {
    (n + PageSize - 1) / PageSize
  }

  function Min(a: int, b: int): int {
    if a <= b then a else b
  }

  /** `TotalPages(n)` is the ceiling of n / 5: the fewest pages of five that
      hold `n` records. */
  lemma TotalPagesIsCeiling(n: nat)
    ensures TotalPages(n) * PageSize >= n
    ensures TotalPages(n) == 0 || (TotalPages(n) - 1) * PageSize < n
  {
    var t := TotalPages(n);
    assert (n + 4) == t * 5 + (n + 4) % 5;
  }

  /** A page is the window `[(page - 1) * 5, page * 5)` of the list clipped to
      its length; it has at most five records, and it is non-empty exactly for
      the pages 1 to `TotalPages`. */
  lemma PageIsWindow<T>(s: seq<T>, page: int)
    requires page >= 1
    ensures (page - 1) * PageSize <= |s| ==>
              Page(s, page) == s[(page - 1) * PageSize..Min(page * PageSize, |s|)]
    ensures (page - 1) * PageSize > |s| ==> Page(s, page) == []
    ensures |Page(s, page)| <= PageSize
    ensures Page(s, page) != [] <==> page <= TotalPages(|s|)
  {
    TotalPagesIsCeiling(|s|);
    var t := TotalPages(|s|);
    if page <= t {
      assert (page - 1) * PageSize <= (t - 1) * PageSize;
    } else {
      assert (page - 1) * PageSize >= t * PageSize;
    }
  }

  /** Pages 1 to `k` laid end to end. */
  function PagesUpTo<T>(s: seq<T>, k: nat): seq<T> {
    if k == 0 then [] else PagesUpTo(s, k - 1) + Page(s, k)
  }

  lemma {:induction false} PagesUpToIsPrefix<T>(s: seq<T>, k: nat)
    ensures PagesUpTo(s, k) == s[..Min(k * PageSize, |s|)]
  {
    if k > 0 {
      PagesUpToIsPrefix(s, k - 1);
      PageIsWindow(s, k);
      var m := Min((k - 1) * PageSize, |s|);
      if (k - 1) * PageSize <= |s| {
        assert s[..m] + s[m..Min(k * PageSize, |s|)] == s[..Min(k * PageSize, |s|)];
      }
    }
  }

  /** Concatenating pages 1 to `TotalPages` gives back the whole list, each
      record once and in order. */
  lemma PagesPartitionList<T>(s: seq<T>)
    ensures PagesUpTo(s, TotalPages(|s|)) == s
  {
    PagesUpToIsPrefix(s, TotalPages(|s|));
    TotalPagesIsCeiling(|s|);
  }

  /** The Prev button: disabled on page 1. */
  function PrevPage(page: int): int {
    if page == 1 then page else page - 1
  }

  /** The Next button as written: disabled only when `page == totalPages`. */
  function NextPageAsWritten(page: int, totalPages: nat): int {
    if page == totalPages then page else page + 1
  }

  /** The Next button as intended: disabled once `page >= totalPages`. */
  function NextPage(page: int, totalPages: nat): int {
    if page >= totalPages then page else page + 1
  }

  /** From a page in `[1, totalPages]` both buttons keep the page in that
      range, and there the written Next guard agrees with the intended one. */
  lemma NavigationStaysInRange(page: int, totalPages: nat)
    requires 1 <= page <= totalPages
    ensures 1 <= PrevPage(page) <= totalPages
    ensures 1 <= NextPageAsWritten(page, totalPages) <= totalPages
    ensures NextPageAsWritten(page, totalPages) == NextPage(page, totalPages)
  {
  }

  /** With the intended guard, Next never moves to a page without records:
      it is enabled only below the last page, and it never goes past
      `TotalPages`. */
  lemma NextPageStaysOnRecords<T>(s: seq<T>, page: int)
    requires page >= 1
    ensures NextPage(page, TotalPages(|s|)) != page ==>
              NextPage(page, TotalPages(|s|)) <= TotalPages(|s|)
              && Page(s, NextPage(page, TotalPages(|s|))) != []
    ensures NextPage(page, TotalPages(|s|)) <= if page <= TotalPages(|s|) then TotalPages(|s|) else page
  {
    if page < TotalPages(|s|) {
      PageIsWindow(s, page + 1);
    }
  }
}
