/**
 * The query that the `/users` listing hands to the store: the `where`
 * condition built from `search` and `filter`, the page window built from
 * `page` and `limit`, and the fixed newest-first order; and the number of
 * pages shown for the count the store reports. `page` and `limit` arrive
 * already parsed as integers.
 */
module Listing {
  import opened Wrappers
  import opened Strings
  import opened Users

  datatype Column = Name | Email

  /** The `where` option: no condition, `column LIKE '%needle%'`, or either of two conditions. */
  datatype Where = Everything | Like(column: Column, needle: string) | Or(left: Where, right: Where)

  /** `order: [[column, direction]]`. */
  datatype Order = Order(column: string, descending: bool)

  /** What `findAndCountAll` is asked for. */
  datatype ListQuery = ListQuery(where: Where, limit: int, offset: int, order: Order)

  /** The request's `search`, `filter`, `page` and `limit`; each may be absent. */
  datatype ListParams = ListParams(search: Option<string>, filter: Option<string>, page: Option<int>, limit: Option<int>)

  const DefaultPage := 1
  const DefaultLimit := 10

  /** The only order the listing uses: newest first. */
  function NewestFirst(): Order {
    Order("createdAt", true)
  }

  /** A user row satisfies a condition; `LIKE '%t%'` is read as "contains `t`". */
  predicate Matches(w: Where, u: StoredUser) {
    match w
    case Everything => true
    case Like(column, needle) => Contains(if column == Name then u.name else u.email, needle)
    case Or(left, right) => Matches(left, u) || Matches(right, u)
  }

  /** JavaScript truthiness of the `search` parameter: present and not empty. */
  predicate Searching(search: Option<string>) {
    search.Some? && search.value != []
  }

  /** The condition for `search` and `filter`: none without a search, the
      named column for `filter=name` or `filter=email`, and name or email
      for any other filter or none. */
  function WhereClause(search: Option<string>, filter: Option<string>): (w: Where)
    ensures w == Everything <==> !Searching(search)
  {
    if !Searching(search) then Everything
    else
      var s := search.value;
      if filter == Some("name") then Like(Name, s)
      else if filter == Some("email") then Like(Email, s)
      else Or(Like(Name, s), Like(Email, s))
  }

  /** Which rows the condition selects, stated without reference to the clause. */
  lemma WhereSelects(search: Option<string>, filter: Option<string>, u: StoredUser)
    ensures Matches(WhereClause(search, filter), u) <==>
      || !Searching(search)
      || (filter == Some("name") && Contains(u.name, search.value))
      || (filter == Some("email") && Contains(u.email, search.value))
      || (filter != Some("name") && filter != Some("email") &&
          (Contains(u.name, search.value) || Contains(u.email, search.value)))
  {
  }

  /** Filtering by one column narrows the default search over both, and the
      default search selects exactly the rows one of the two filters selects. */
  lemma FiltersNarrow(search: Option<string>, other: Option<string>, u: StoredUser)
    requires other != Some("name") && other != Some("email")
    ensures Matches(WhereClause(search, Some("name")), u) ==> Matches(WhereClause(search, other), u)
    ensures Matches(WhereClause(search, Some("email")), u) ==> Matches(WhereClause(search, other), u)
    ensures Matches(WhereClause(search, other), u) <==>
      Matches(WhereClause(search, Some("name")), u) || Matches(WhereClause(search, Some("email")), u)
  {
  }

  /** The text searched for occurs in every row a search selects. */
  lemma SearchTextOccurs(search: Option<string>, filter: Option<string>, u: StoredUser)
    requires Searching(search)
    requires Matches(WhereClause(search, filter), u)
    ensures Contains(u.name, search.value) || Contains(u.email, search.value)
  {
    WhereSelects(search, filter, u);
  }

  /** `offset = (page - 1) * limit`: the rows before the page. */
  function Offset(page: int, limit: int): (r: int)
    requires limit > 0
    ensures page >= 1 ==> r >= 0
  {
    (page - 1) * limit
  }

  /** Consecutive pages are adjacent windows of `limit` rows. */
  lemma ConsecutivePages(page: int, limit: int)
    requires limit > 0
    ensures Offset(page + 1, limit) == Offset(page, limit) + limit
  {
  }

  lemma MulMonotone(a: int, b: int, n: int)
    requires a <= b && n > 0
    ensures a * n <= b * n
  {
    var d := b - a;
    assert b * n == a * n + d * n;
  }

  /** `Math.ceil(count / limit)`: the fewest pages of `limit` rows that hold
      `count` rows; none when there are no rows. */
  function TotalPages(count: nat, limit: int): (r: nat)
    requires limit > 0
    ensures r * limit >= count
    ensures count > 0 ==> (r - 1) * limit < count
    ensures r == 0 <==> count == 0
  {
    var r := (count + limit - 1) / limit;
    assert count + limit - 1 == r * limit + (count + limit - 1) % limit;
    r
  }

  /** The page that row `j` (counting from 0 in the listing order) is on. */
  function PageOf(j: nat, limit: int): (p: int)
    requires limit > 0
    ensures p >= 1
    ensures Offset(p, limit) <= j < Offset(p, limit) + limit
  {
    var p := j / limit + 1;
    assert j == (p - 1) * limit + j % limit;
    p
  }

  /** Each of the `count` rows lies on exactly one page, and that page is
      between 1 and the number of pages. */
  lemma {:induction false} PagesCoverRows(count: nat, limit: int, j: nat, page: int)
    requires limit > 0
    requires j < count
    ensures 1 <= PageOf(j, limit) <= TotalPages(count, limit)
    ensures Offset(page, limit) <= j < Offset(page, limit) + limit <==> page == PageOf(j, limit)
  {
    var p := PageOf(j, limit);
    var q := TotalPages(count, limit);
    if q < p {
      MulMonotone(q, p - 1, limit);
      assert false;
    }
    if page < p {
      MulMonotone(page, p - 1, limit);
    } else if page > p {
      MulMonotone(p, page - 1, limit);
    }
  }

  /** The query of the listing handler for the given parameters. */
  function BuildQuery(params: ListParams): (q: ListQuery)
    requires params.limit.None? || params.limit.value > 0
    ensures q.order == NewestFirst()
    ensures q.where == WhereClause(params.search, params.filter)
    ensures q.limit > 0
    ensures q.limit == (if params.limit.None? then DefaultLimit else params.limit.value)
    ensures q.offset == Offset(if params.page.None? then DefaultPage else params.page.value, q.limit)
  {
    var page := if params.page.None? then DefaultPage else params.page.value;
    var limit := if params.limit.None? then DefaultLimit else params.limit.value;
    ListQuery(WhereClause(params.search, params.filter), limit, Offset(page, limit), NewestFirst())
  }

  /** Without parameters the listing asks for the first ten rows of all users, newest first. */
  lemma DefaultQuery()
    ensures BuildQuery(ListParams(None, None, None, None)) == ListQuery(Everything, 10, 0, Order("createdAt", true))
  {
  }
}
