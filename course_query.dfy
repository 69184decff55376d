/**
 * The course query the review listing sends: the filters for the search
 * text, the department and the course level, the sort order, and the page's
 * row range. The query is modelled as the list of builder calls made, in
 * the order they are made; the database that answers it is not modelled.
 */
module CourseQuery {
  import opened Wrappers
  import opened Numbers
  import Pagination

  /** One builder call on the course query. */
  datatype QueryOp =
    | MatchAny(filter: string)                  // .or(filter)
    | Eq(column: string, value: string)         // .eq(column, value)
    | Gte(column: string, value: string)        // .gte(column, value)
    | Lt(column: string, value: string)         // .lt(column, value)
    | OrderBy(column: string, ascending: bool)  // .order(column, { ascending })
    | Range(from: int, to: int)                 // .range(from, to)

  /** The level choices offered, besides "all". */
  const Levels: seq<string> := ["100", "200", "300", "400", "500+"]

  /** The search text matched, as a substring, against the code or the name. */
  function SearchFilter(q: string): string {
    "code.ilike.%" + q + "%,name.ilike.%" + q + "%"
  }

  /** The search filter, present exactly when there is search text. */
  function SearchOps(q: string): (ops: seq<QueryOp>)
    ensures |ops| == if q == "" then 0 else 1
    ensures forall i :: 0 <= i < |ops| ==> ops[i] == MatchAny(SearchFilter(q))
  {
    if q != "" then [MatchAny(SearchFilter(q))] else []
  }

  /** The department filter, present exactly when a department other than "all" is chosen. */
  function DepartmentOps(dept: string): (ops: seq<QueryOp>)
    ensures |ops| == if dept == "" || dept == "all" then 0 else 1
    ensures forall i :: 0 <= i < |ops| ==> ops[i] == Eq("departments.code", dept)
  {
    if dept != "" && dept != "all" then [Eq("departments.code", dept)] else []
  }

  /** A number plus 100, NaN staying NaN. */
  function Plus100(n: Option<int>): (r: Option<int>)
    ensures r.Some? <==> n.Some?
    ensures n.Some? ==> r.value == n.value + 100
  {
    match n
    case Some(v) => Some(v + 100)
    case None => None
  }

  /**
   * The level bounds on the course code. "500+" bounds it from below only;
   * any other level is read with `parseInt` and bounds the code to the
   * hundred it starts. Both bounds are prefixed with the department filter's
   * value as it stands, "all" included.
   */
  function LevelBounds(dept: string, level: string): (ops: seq<QueryOp>)
    ensures |ops| == if level == "" || level == "all" then 0 else if level == "500+" then 1 else 2
    ensures |ops| >= 1 ==> ops[0].Gte? && ops[0].column == "code"
    ensures |ops| == 2 ==> ops[1].Lt? && ops[1].column == "code"
    ensures level == "500+" ==> ops == [Gte("code", dept + " 500")]
  {
    if level == "" || level == "all" then []
    else if level == "500+" then [Gte("code", dept + " 500")]
    else
      var levelNum := ParseInt(level);
      [Gte("code", dept + " " + NumberToString(levelNum)),
       Lt("code", dept + " " + NumberToString(Plus100(levelNum)))]
  }

  /**
   * A level that starts with the text of a number `n` (and goes on with no
   * further digit) bounds the code from "<dept> n" up to "<dept> n+100".
   */
  lemma LevelBoundsOfNumber(dept: string, level: string, n: int, rest: string)
    requires level == IntToString(n) + rest
    requires rest == [] || !IsDigit(rest[0])
    requires level != "500+"
    ensures LevelBounds(dept, level) ==
      [Gte("code", dept + " " + IntToString(n)), Lt("code", dept + " " + IntToString(n + 100))]
  {
    ParseIntToString(n, rest);
    assert level[0] == '-' || IsDigit(level[0]);
    assert level != "all" && level != "";
  }

  /** The texts of the hundreds from 100 to 500. */
  lemma HundredsText()
    ensures IntToString(100) == "100" && IntToString(200) == "200" && IntToString(300) == "300"
    ensures IntToString(400) == "400" && IntToString(500) == "500"
  {
    assert NatToString(1) == "1" && NatToString(10) == "10";
    assert NatToString(2) == "2" && NatToString(20) == "20";
    assert NatToString(3) == "3" && NatToString(30) == "30";
    assert NatToString(4) == "4" && NatToString(40) == "40";
    assert NatToString(5) == "5" && NatToString(50) == "50";
  }

  /** A level written as the text of `n` bounds the code by that text and the text of n+100. */
  lemma LevelBoundsOfText(dept: string, level: string, n: int, next: string)
    requires level == IntToString(n) && next == IntToString(n + 100)
    requires level != "500+"
    ensures LevelBounds(dept, level) == [Gte("code", dept + " " + level), Lt("code", dept + " " + next)]
  {
    assert level == IntToString(n) + [];
    LevelBoundsOfNumber(dept, level, n, []);
  }

  /**
   * Every numeric level on offer bounds the code to its own hundred: from
   * "<dept> L" up to, not including, the next level's "<dept> L+100".
   */
  lemma OfferedLevelBounds(dept: string, level: string, i: nat)
    requires i < |Levels| - 1 && level == Levels[i]
    ensures LevelBounds(dept, level) ==
      [Gte("code", dept + " " + level), Lt("code", dept + " " + (if i + 1 < |Levels| - 1 then Levels[i + 1] else "500"))]
  {
    HundredsText();
    var next := if i + 1 < |Levels| - 1 then Levels[i + 1] else "500";
    var n := 100 * (i + 1);
    assert level == IntToString(n) && next == IntToString(n + 100);
    LevelBoundsOfText(dept, level, n, next);
  }

  /**
   * The "300" level with department "all" (its value before any department
   * is chosen) bounds the code by "all 300" and "all 400".
   */
  lemma LevelBoundsWithAllDepartment(level: string)
    requires level == "300"
    ensures LevelBounds("all", level) == [Gte("code", "all 300"), Lt("code", "all 400")]
  {
    HundredsText();
    LevelBoundsOfText("all", level, 300, "400");
    AllPrefixed();
  }

  /** The two bound texts for level 300 under department "all". */
  lemma AllPrefixed()
    ensures "all" + " " + "300" == "all 300" && "all" + " " + "400" == "all 400"
  {
  }

  /** A level with no leading number bounds the code by two equal values: no code is in between. */
  lemma LevelBoundsOfNaN(dept: string, level: string)
    requires level != "" && level != "all" && level != "500+"
    requires ParseInt(level) == None
    ensures |LevelBounds(dept, level)| == 2
    ensures LevelBounds(dept, level)[0].value == LevelBounds(dept, level)[1].value == dept + " NaN"
  {
  }

  /** The sort order: by name, by code, newest first; anything else (popularity) by code. */
  function SortOrder(sortBy: string): (op: QueryOp)
    ensures op.OrderBy?
    ensures !op.ascending <==> sortBy == "newest"
    ensures sortBy == "name" ==> op == OrderBy("name", true)
    ensures sortBy == "newest" ==> op == OrderBy("created_at", false)
    ensures sortBy != "name" && sortBy != "newest" ==> op == OrderBy("code", true)
  {
    match sortBy
    case "name" => OrderBy("name", true)
    case "code" => OrderBy("code", true)
    case "newest" => OrderBy("created_at", false)
    case _ => OrderBy("code", true)
  }

  /** The range call for a page: exactly the rows of that page. */
  function PageRange(page: int): (op: QueryOp)
    requires page >= 1
    ensures op.Range? && op.to - op.from + 1 == Pagination.ItemsPerPage
    ensures forall row: nat :: op.from <= row <= op.to <==> Pagination.PageOf(row) == page
  {
    var rows := Pagination.PageRows(page);
    Range(rows.first, rows.last)
  }

  /** The filters of the query, in the order they are applied. */
  function Filters(searchQuery: string, dept: string, level: string): seq<QueryOp> {
    SearchOps(searchQuery) + DepartmentOps(dept) + LevelBounds(dept, level)
  }

  /** The whole query: the filters, then the sort order, then the page's range. */
  function Query(searchQuery: string, dept: string, level: string, sortBy: string, page: int): (q: seq<QueryOp>)
    requires page >= 1
    ensures 2 <= |q| <= 6
    ensures q[|q| - 1].Range? && q[|q| - 1].from == (page - 1) * Pagination.ItemsPerPage
  {
    Filters(searchQuery, dept, level) + [SortOrder(sortBy), PageRange(page)]
  }

  /** The "Active filters" row is shown when there is search text, a department or a level. */
  predicate FiltersActive(searchQuery: string, dept: string, level: string) {
    searchQuery != "" || (dept != "" && dept != "all") || (level != "" && level != "all")
  }

  /** The "Active filters" row is shown exactly when the query filters anything. */
  lemma ActiveFiltersMatchQuery(searchQuery: string, dept: string, level: string)
    ensures FiltersActive(searchQuery, dept, level) <==> Filters(searchQuery, dept, level) != []
  {
    var f := Filters(searchQuery, dept, level);
    assert |f| == |SearchOps(searchQuery)| + |DepartmentOps(dept)| + |LevelBounds(dept, level)|;
  }

  /**
   * The query ends with one sort order and one page range; every call before
   * them is a filter.
   */
  lemma QueryShape(searchQuery: string, dept: string, level: string, sortBy: string, page: int)
    requires page >= 1
    ensures var q := Query(searchQuery, dept, level, sortBy, page);
      |q| >= 2 && q[|q| - 2] == SortOrder(sortBy) && q[|q| - 1] == PageRange(page) &&
      forall i :: 0 <= i < |q| - 2 ==> !q[i].OrderBy? && !q[i].Range?
  {
    var f := Filters(searchQuery, dept, level);
    var s := SearchOps(searchQuery);
    var d := DepartmentOps(dept);
    var l := LevelBounds(dept, level);
    forall i | 0 <= i < |f|
      ensures !f[i].OrderBy? && !f[i].Range?
    {
      if i < |s| {
        assert f[i] == s[i];
      } else if i < |s| + |d| {
        assert f[i] == d[i - |s|];
      } else {
        assert f[i] == l[i - |s| - |d|];
      }
    }
  }

  /** The level step of the builder: appends the level's bounds on the code. */
  method AddLevelBounds(query: seq<QueryOp>, dept: string, level: string) returns (result: seq<QueryOp>)
    ensures result == query + LevelBounds(dept, level)
  {
    result := query;
    if level != "" && level != "all" {
      if level == "500+" {
        result := result + [Gte("code", dept + " 500")];
      } else {
        var levelNum := ParseInt(level);
        result := result + [Gte("code", dept + " " + NumberToString(levelNum))];
        result := result + [Lt("code", dept + " " + NumberToString(Plus100(levelNum)))];
      }
    }
  }

  /** The sort step of the builder: appends the ordering for `sortBy`. */
  method AddSortOrder(query: seq<QueryOp>, sortBy: string) returns (result: seq<QueryOp>)
    ensures result == query + [SortOrder(sortBy)]
  {
    if sortBy == "name" {
      result := query + [OrderBy("name", true)];
    } else if sortBy == "code" {
      result := query + [OrderBy("code", true)];
    } else if sortBy == "newest" {
      result := query + [OrderBy("created_at", false)];
    } else {
      result := query + [OrderBy("code", true)];  // popularity, and any other value
    }
  }

  /**
   * The query built call by call, each step reassigning the query as the
   * builder does.
   */
  method BuildQuery(searchQuery: string, dept: string, level: string, sortBy: string, currentPage: int)
    returns (query: seq<QueryOp>)
    requires currentPage >= 1
    ensures query == Query(searchQuery, dept, level, sortBy, currentPage)
  {
    query := [];
    if searchQuery != "" {
      query := query + [MatchAny(SearchFilter(searchQuery))];
    }
    assert query == SearchOps(searchQuery);
    if dept != "" && dept != "all" {
      query := query + [Eq("departments.code", dept)];
    }
    assert query == SearchOps(searchQuery) + DepartmentOps(dept);
    query := AddLevelBounds(query, dept, level);
    query := AddSortOrder(query, sortBy);
    var from := (currentPage - 1) * Pagination.ItemsPerPage;
    var to := from + Pagination.ItemsPerPage - 1;
    query := query + [Range(from, to)];
  }
}
