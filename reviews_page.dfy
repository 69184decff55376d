/**
 * The review listing's state: the filter fields, the current page, the
 * result count and the address's query parameters, with the handlers that
 * change them. Every handler keeps the current page positive and readable
 * back from the address.
 */
module Reviews {
  import opened Wrappers
  import opened Numbers
  import opened SearchParams
  import opened Pagination
  import CourseQuery

  /** `params.get(key) || fallback`: the value when present and non-empty. */
  function ParamOr(params: Params, key: string, fallback: string): (v: string)
    ensures key in params && params[key] != "" ==> v == params[key]
    ensures !(key in params && params[key] != "") ==> v == fallback
  {
    if key in params && params[key] != "" then params[key] else fallback
  }

  /**
   * The page the address asks for: `parseInt(page || '1')`. An address with
   * no page parameter, or an empty one, asks for page 1.
   */
  function AddressPage(params: Params): (r: Option<int>)
    ensures ("page" !in params || params["page"] == "") ==> r == Some(1)
  {
    assert IntToString(1) + [] == "1";
    ParseIntToString(1, []);
    ParseInt(ParamOr(params, "page", "1"))
  }

  /** An address whose page parameter is the text of `n` asks for page `n`. */
  lemma PageParamReadsBack(params: Params, n: int)
    requires "page" in params && params["page"] == IntToString(n)
    ensures AddressPage(params) == Some(n)
  {
    assert IntToString(n) + [] == IntToString(n);
    ParseIntToString(n, []);
  }

  /** The filter-change handlers write the new value and page 1 into the address. */
  function FilterUpdate(key: string, value: string): seq<(string, string)> {
    [(key, value), ("page", "1")]
  }

  /** After a filter change the address holds page 1 and the filter value (or lacks the key when it is empty). */
  lemma FilterUpdateEffect(params: Params, key: string, value: string)
    requires key != "page"
    ensures var r := Updated(params, FilterUpdate(key, value));
      && AddressPage(r) == Some(1)
      && (value != "" ==> key in r && r[key] == value)
      && (value == "" ==> key !in r)
      && forall k :: k != key && k != "page" ==> (k in r <==> k in params) && (k in params ==> r[k] == params[k])
  {
    var updates := FilterUpdate(key, value);
    UpdatedEffect(params, updates);
    assert updates[1] == ("page", "1");
    assert forall k :: k != key && k != "page" ==> k !in Keys(updates);
    PageParamReadsBack(Updated(params, updates), 1);
    assert IntToString(1) == "1";
  }

  /** The page buttons write the page's text into the address; it reads back as that page. */
  lemma PageUpdateEffect(params: Params, page: int)
    ensures var r := Updated(params, [("page", IntToString(page))]);
      && AddressPage(r) == Some(page)
      && forall k :: k != "page" ==> (k in r <==> k in params) && (k in params ==> r[k] == params[k])
  {
    var updates := [("page", IntToString(page))];
    UpdatedEffect(params, updates);
    assert updates[0] == ("page", IntToString(page));
    assert forall k :: k != "page" ==> k !in Keys(updates);
    PageParamReadsBack(Updated(params, updates), page);
  }

  /** The review listing page. */
  class ReviewsPage {
    /** The address's query parameters. */
    var params: Params
    var searchQuery: string
    var sortBy: string
    var departmentFilter: string
    var levelFilter: string
    var currentPage: int
    /** The result count of the last successful fetch. */
    var totalCount: nat

    /** The current page is positive, and the address, read back, gives it. */
    ghost predicate Valid()
      reads this
    {
      currentPage >= 1 && AddressPage(params) == Some(currentPage)
    }

    /** `Math.ceil(totalCount / 12)`. */
    function PageCount(): nat
      reads this
    {
      TotalPages(totalCount)
    }

    /**
     * The page as it opens: each field from its parameter, or its default
     * when the parameter is missing or empty.
     */
    constructor (initial: Params)
      requires AddressPage(initial).Some? && AddressPage(initial).value >= 1
      ensures params == initial
      ensures searchQuery == ParamOr(initial, "q", "")
      ensures sortBy == ParamOr(initial, "sort", "popularity")
      ensures departmentFilter == ParamOr(initial, "dept", "all")
      ensures levelFilter == ParamOr(initial, "level", "all")
      ensures Some(currentPage) == AddressPage(initial)
      ensures totalCount == 0
      ensures Valid()
    {
      params := initial;
      searchQuery := ParamOr(initial, "q", "");
      sortBy := ParamOr(initial, "sort", "popularity");
      departmentFilter := ParamOr(initial, "dept", "all");
      levelFilter := ParamOr(initial, "level", "all");
      currentPage := AddressPage(initial).value;
      totalCount := 0;
    }

    /** Typing in the search box changes the search text only. */
    method SetSearchQuery(text: string)
      requires Valid()
      modifies this
      ensures searchQuery == text
      ensures params == old(params) && sortBy == old(sortBy)
      ensures departmentFilter == old(departmentFilter) && levelFilter == old(levelFilter)
      ensures currentPage == old(currentPage) && totalCount == old(totalCount)
      ensures Valid()
    {
      searchQuery := text;
    }

    /** Submitting the search writes the search text and page 1 into the address. */
    method Search()
      modifies this
      ensures params == Updated(old(params), FilterUpdate("q", old(searchQuery)))
      ensures currentPage == 1
      ensures searchQuery == old(searchQuery) && sortBy == old(sortBy)
      ensures departmentFilter == old(departmentFilter) && levelFilter == old(levelFilter)
      ensures totalCount == old(totalCount)
      ensures Valid()
    {
      FilterUpdateEffect(params, "q", searchQuery);
      params := UpdateSearchParams(params, FilterUpdate("q", searchQuery));
      currentPage := 1;
    }

    /** Choosing a department ("all" is stored as the empty value) returns to page 1. */
    method SelectDepartment(value: string)
      modifies this
      ensures departmentFilter == (if value == "all" then "" else value)
      ensures params == Updated(old(params), FilterUpdate("dept", departmentFilter))
      ensures currentPage == 1
      ensures searchQuery == old(searchQuery) && sortBy == old(sortBy) && levelFilter == old(levelFilter)
      ensures totalCount == old(totalCount)
      ensures Valid()
    {
      var filterValue := if value == "all" then "" else value;
      departmentFilter := filterValue;
      FilterUpdateEffect(params, "dept", filterValue);
      params := UpdateSearchParams(params, FilterUpdate("dept", filterValue));
      currentPage := 1;
    }

    /** Choosing a level ("all" is stored as the empty value) returns to page 1. */
    method SelectLevel(value: string)
      modifies this
      ensures levelFilter == (if value == "all" then "" else value)
      ensures params == Updated(old(params), FilterUpdate("level", levelFilter))
      ensures currentPage == 1
      ensures searchQuery == old(searchQuery) && sortBy == old(sortBy) && departmentFilter == old(departmentFilter)
      ensures totalCount == old(totalCount)
      ensures Valid()
    {
      var filterValue := if value == "all" then "" else value;
      levelFilter := filterValue;
      FilterUpdateEffect(params, "level", filterValue);
      params := UpdateSearchParams(params, FilterUpdate("level", filterValue));
      currentPage := 1;
    }

    /** Choosing a sort order returns to page 1. */
    method SelectSort(value: string)
      modifies this
      ensures sortBy == value
      ensures params == Updated(old(params), FilterUpdate("sort", value))
      ensures currentPage == 1
      ensures searchQuery == old(searchQuery)
      ensures departmentFilter == old(departmentFilter) && levelFilter == old(levelFilter)
      ensures totalCount == old(totalCount)
      ensures Valid()
    {
      sortBy := value;
      FilterUpdateEffect(params, "sort", value);
      params := UpdateSearchParams(params, FilterUpdate("sort", value));
      currentPage := 1;
    }

    /**
     * "Clear all" in the active-filters row: no search text, both filters
     * back to "all", an address with no parameters (the sort order is kept
     * in the state but dropped from the address), page 1.
     */
    method ClearAll()
      modifies this
      ensures searchQuery == "" && departmentFilter == "all" && levelFilter == "all"
      ensures params == map[] && currentPage == 1
      ensures sortBy == old(sortBy) && totalCount == old(totalCount)
      ensures Valid()
    {
      searchQuery := "";
      departmentFilter := "all";
      levelFilter := "all";
      params := map[];
      currentPage := 1;
    }

    /**
     * "Clear filters" under an empty result: as "Clear all", except that
     * both filters become the empty value instead of "all".
     */
    method ClearFilters()
      modifies this
      ensures searchQuery == "" && departmentFilter == "" && levelFilter == ""
      ensures params == map[] && currentPage == 1
      ensures sortBy == old(sortBy) && totalCount == old(totalCount)
      ensures Valid()
    {
      searchQuery := "";
      departmentFilter := "";
      levelFilter := "";
      params := map[];
      currentPage := 1;
    }

    /** Moves to `page` and writes it into the address. */
    method MoveTo(page: int)
      requires page >= 1
      modifies this
      ensures currentPage == page
      ensures params == Updated(old(params), [("page", IntToString(page))])
      ensures searchQuery == old(searchQuery) && sortBy == old(sortBy)
      ensures departmentFilter == old(departmentFilter) && levelFilter == old(levelFilter)
      ensures totalCount == old(totalCount)
      ensures Valid()
    {
      currentPage := page;
      PageUpdateEffect(params, page);
      params := UpdateSearchParams(params, [("page", IntToString(page))]);
    }

    /** The Previous button, clickable when shown and not on page 1. */
    method PreviousPage()
      requires Valid()
      requires PaginationShown(PageCount()) && !PreviousDisabled(currentPage)
      modifies this
      ensures currentPage == old(currentPage) - 1
      ensures params == Updated(old(params), [("page", IntToString(currentPage))])
      ensures searchQuery == old(searchQuery) && sortBy == old(sortBy)
      ensures departmentFilter == old(departmentFilter) && levelFilter == old(levelFilter)
      ensures totalCount == old(totalCount)
      ensures Valid()
    {
      MoveTo(currentPage - 1);
    }

    /** The Next button, clickable when shown and not on the last page. */
    method NextPage()
      requires Valid()
      requires PaginationShown(PageCount()) && !NextDisabled(currentPage, PageCount())
      modifies this
      ensures currentPage == old(currentPage) + 1
      ensures params == Updated(old(params), [("page", IntToString(currentPage))])
      ensures searchQuery == old(searchQuery) && sortBy == old(sortBy)
      ensures departmentFilter == old(departmentFilter) && levelFilter == old(levelFilter)
      ensures totalCount == old(totalCount)
      ensures Valid()
    {
      MoveTo(currentPage + 1);
    }

    /** A numbered page button, one of those shown. */
    method GoToPage(page: int)
      requires Valid()
      requires PaginationShown(PageCount()) && page in PageButtons(currentPage, PageCount())
      modifies this
      ensures currentPage == page && 1 <= page <= PageCount()
      ensures params == Updated(old(params), [("page", IntToString(page))])
      ensures searchQuery == old(searchQuery) && sortBy == old(sortBy)
      ensures departmentFilter == old(departmentFilter) && levelFilter == old(levelFilter)
      ensures totalCount == old(totalCount)
      ensures Valid()
    {
      MoveTo(page);
    }

    /**
     * The end of a fetch: on an error nothing changes; otherwise the count
     * returned, or 0 when there is none, becomes the result count.
     */
    method FetchCompleted(failed: bool, count: Option<nat>)
      requires Valid()
      modifies this
      ensures totalCount == if failed then old(totalCount) else count.GetOr(0)
      ensures params == old(params) && currentPage == old(currentPage)
      ensures searchQuery == old(searchQuery) && sortBy == old(sortBy)
      ensures departmentFilter == old(departmentFilter) && levelFilter == old(levelFilter)
      ensures Valid()
    {
      if !failed {
        totalCount := count.GetOr(0);
      }
    }

    /** The query the current state sends. */
    method CurrentQuery() returns (query: seq<CourseQuery.QueryOp>)
      requires Valid()
      ensures query == CourseQuery.Query(searchQuery, departmentFilter, levelFilter, sortBy, currentPage)
    {
      query := CourseQuery.BuildQuery(searchQuery, departmentFilter, levelFilter, sortBy, currentPage);
    }
  }
}
