/**
 * The pagination arithmetic of the review listing: which rows a page
 * requests, how many pages a result count makes, which page buttons are
 * shown, and when the Previous and Next buttons are disabled.
 */
module Pagination {
  import opened Wrappers

  /** Courses per page of the listing. */
  const ItemsPerPage := 12

  /** The rows a page requests: `first` to `last`, both included, counted from 0. */
  datatype RowRange = RowRange(first: int, last: int)

  /** The page a row index falls on (pages count from 1). */
  function PageOf(row: nat): (page: int)
    ensures page >= 1
  {
    row / ItemsPerPage + 1
  }

  /**
   * The range requested for `page`: twelve rows, and exactly the rows that
   * fall on that page.
   */
  function PageRows(page: int): (r: RowRange)
    requires page >= 1
    ensures r.first >= 0 && r.last - r.first + 1 == ItemsPerPage
    ensures forall row: nat :: r.first <= row <= r.last <==> PageOf(row) == page
  {
    var from := (page - 1) * ItemsPerPage;
    var to := from + ItemsPerPage - 1;
    RowRange(from, to)
  }

  /** Consecutive pages abut: each starts right after the previous one ends. */
  lemma PagesAbut(page: int)
    requires page >= 1
    ensures PageRows(page + 1).first == PageRows(page).last + 1
  {
  }

  /** Different pages request no common row. */
  lemma PagesDisjoint(p: int, q: int, row: nat)
    requires p >= 1 && q >= 1 && p != q
    ensures !(PageRows(p).first <= row <= PageRows(p).last && PageRows(q).first <= row <= PageRows(q).last)
  {
  }

  /**
   * `Math.ceil(totalCount / 12)`: no pages for no results; otherwise the
   * fewest pages whose rows hold them all.
   */
  function TotalPages(totalCount: nat): (n: nat)
    ensures totalCount == 0 ==> n == 0
    ensures totalCount > 0 ==> (n - 1) * ItemsPerPage < totalCount <= n * ItemsPerPage
  {
    (totalCount + ItemsPerPage - 1) / ItemsPerPage
  }

  /** Every result row lies on a page from 1 to the page count. */
  lemma RowsWithinPages(totalCount: nat, row: nat)
    requires row < totalCount
    ensures 1 <= PageOf(row) <= TotalPages(totalCount)
  {
  }

  /** The first page button: two before the current page, but not before page 1. */
  function WindowStart(current: int): int {
    if current - 2 > 1 then current - 2 else 1
  }

  /**
   * The button slots of the window: `min(5, totalPages)` of them, slot `i`
   * holding page `WindowStart(current) + i` unless that is past the last page.
   */
  function WindowSlots(current: int, totalPages: nat): (slots: seq<Option<int>>)
    ensures |slots| == if totalPages < 5 then totalPages else 5
  {
    var count := if totalPages < 5 then totalPages else 5;
    seq(count, i requires 0 <= i < count =>
      var page := WindowStart(current) + i;
      if page > totalPages then None else Some(page))
  }

  /** The pages of the slots that hold one, in order (empty slots render nothing). */
  function Rendered(slots: seq<Option<int>>): (pages: seq<int>)
    ensures |pages| <= |slots|
    ensures forall p :: p in pages <==> Some(p) in slots
  {
    if slots == [] then []
    else (if slots[0].Some? then [slots[0].value] else []) + Rendered(slots[1..])
  }

  /** When the filled slots come first, the rendered pages are their values. */
  lemma {:induction false} RenderedPrefix(slots: seq<Option<int>>, filled: nat)
    requires filled <= |slots|
    requires forall i :: 0 <= i < |slots| ==> (slots[i].Some? <==> i < filled)
    ensures |Rendered(slots)| == filled
    ensures forall i :: 0 <= i < filled ==> Rendered(slots)[i] == slots[i].value
  {
    if slots != [] {
      if filled == 0 {
        RenderedPrefix(slots[1..], 0);
      } else {
        RenderedPrefix(slots[1..], filled - 1);
      }
    }
  }

  /** How many page buttons the window shows. */
  function ButtonCount(current: int, totalPages: nat): (n: nat)
    ensures n <= 5 && n <= totalPages
  {
    var count := if totalPages < 5 then totalPages else 5;
    var fit := totalPages - WindowStart(current) + 1;
    if fit < 0 then 0 else if fit < count then fit else count
  }

  /**
   * The page buttons shown: consecutive pages from `WindowStart(current)`,
   * at most `min(5, totalPages)` of them, none past the last page.
   */
  function PageButtons(current: int, totalPages: nat): (pages: seq<int>)
    ensures |pages| == ButtonCount(current, totalPages)
    ensures forall i :: 0 <= i < |pages| ==> pages[i] == WindowStart(current) + i
    ensures forall i :: 0 <= i < |pages| ==> 1 <= pages[i] <= totalPages
  {
    var slots := WindowSlots(current, totalPages);
    RenderedPrefix(slots, ButtonCount(current, totalPages));
    Rendered(slots)
  }

  /** A current page within range always has its own button. */
  lemma CurrentPageShown(current: int, totalPages: nat)
    requires 1 <= current <= totalPages
    ensures current in PageButtons(current, totalPages)
  {
    var pages := PageButtons(current, totalPages);
    var i := current - WindowStart(current);
    assert 0 <= i < |pages|;
    assert pages[i] == current;
  }

  /** The pagination bar is shown only when there is more than one page. */
  predicate PaginationShown(totalPages: nat) {
    totalPages > 1
  }

  /** Previous is disabled on the first page. */
  predicate PreviousDisabled(current: int) {
    current == 1
  }

  /** Next is disabled on the last page. */
  predicate NextDisabled(current: int, totalPages: nat) {
    current == totalPages
  }

  /**
   * From any page in range, Previous and Next, when enabled, lead to a page
   * that is still in range.
   */
  lemma NavigationStaysInRange(current: int, totalPages: nat)
    requires 1 <= current <= totalPages
    ensures !PreviousDisabled(current) ==> 1 <= current - 1 <= totalPages
    ensures !NextDisabled(current, totalPages) ==> 1 <= current + 1 <= totalPages
  {
  }

  /**
   * Next is disabled only on the last page exactly: a current page beyond it
   * (one read from the address) leaves Next enabled, and it leads further out.
   */
  lemma NextEnabledPastLastPage(current: int, totalPages: nat)
    requires current > totalPages
    ensures !NextDisabled(current, totalPages) && current + 1 > totalPages
  {
  }
}
