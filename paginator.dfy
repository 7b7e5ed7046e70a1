/**
 * `paginator(defaultOptions)`, the offset paginator: the page number and
 * page size pick a window of `findMany` through `skip`/`take`, `count`
 * gives the total, and the page metadata follows from the two. The
 * delegate's two calls are given as functions of their argument bags.
 */
module Paginator {
  import opened Wrappers
  import opened QueryModel

  datatype PaginateOptions = PaginateOptions(
    page: Option<int>,
    perPage: Option<int>,
    sortField: Option<string>,
    sortDirection: Option<Direction>)

  /** No option given: what an absent `options` object resolves to under `options?.`. */
  const NoOptions := PaginateOptions(None, None, None, None)

  datatype Meta = Meta(
    total: nat,
    currentPage: int,
    perPage: int,
    totalPages: int,
    previousPage: Option<int>,
    nextPage: Option<int>)

  datatype PageResult<T> = PageResult(data: seq<T>, meta: Meta)

  // ---------------------------------------------------------------------
  // Options.

  /** `x || fallback` for a number that may be undefined: undefined and 0 are falsy. */
  function OrElse(x: Option<int>, fallback: int): (r: int)
    ensures x.Some? && x.value != 0 ==> r == x.value
    ensures (x.None? || x.value == 0) ==> r == fallback
  {
    if x.Some? && x.value != 0 then x.value else fallback
  }

  function Page(options: PaginateOptions, defaults: PaginateOptions): int {
    OrElse(options.page, OrElse(defaults.page, 1))
  }

  function PerPage(options: PaginateOptions, defaults: PaginateOptions): int {
    OrElse(options.perPage, OrElse(defaults.perPage, 10))
  }

  /** The rows before the page: `(page - 1) * perPage`, or 0 for a page number below 1. */
  function Skip(page: int, perPage: int): int {
    if page > 0 then (page - 1) * perPage else 0
  }

  function SortField(options: PaginateOptions, defaults: PaginateOptions): string {
    options.sortField.GetOr(defaults.sortField.GetOr("createdAt"))
  }

  function SortDirection(options: PaginateOptions, defaults: PaginateOptions): Direction {
    options.sortDirection.GetOr(defaults.sortDirection.GetOr(Desc))
  }

  /** `args?.orderBy ?? {[sortField]: sortDirection}`: a supplied `orderBy` is kept. */
  function OrderBy(args: Args, field: string, dir: Direction): Arg {
    if "orderBy" in args && !args["orderBy"].Undefined? then args["orderBy"]
    else SortObject(SortKey(field, Some(dir)))
  }

  // ---------------------------------------------------------------------
  // The two delegate calls.

  /** `{...args, skip, take: perPage, orderBy}`. */
  function FindManyArgs(args: Args, skip: int, take: int, orderBy: Arg): Args {
    args["skip" := Number(skip)]["take" := Number(take)]["orderBy" := orderBy]
  }

  /** `{where: args.where}`: the count sees the filter and nothing else. */
  function CountArgs(args: Args): Args {
    map["where" := if "where" in args then args["where"] else Undefined]
  }

  // ---------------------------------------------------------------------
  // The metadata.

  /** `Math.ceil(total / perPage)` for a total of at least 0 and a non-zero page size. */
  function CeilDiv(total: nat, perPage: int): (r: int)
    requires perPage != 0
    ensures perPage > 0 ==> (r - 1) * perPage < total <= r * perPage
    ensures perPage < 0 ==> r * perPage <= total < (r - 1) * perPage
  {
    if perPage > 0 then (total + perPage - 1) / perPage
    else
      var m := -perPage;
      assert (total / m) * m <= total < (total / m) * m + m;
      -(total / m)
  }

  /** `Math.ceil(total / perPage) || 1`: a result of 0 (also -0) falls back to 1. */
  function TotalPages(total: nat, perPage: int): int
    requires perPage != 0
  {
    var pages := CeilDiv(total, perPage);
    if pages == 0 then 1 else pages
  }

  function PreviousPage(page: int): Option<int> {
    if page > 1 then Some(page - 1) else None
  }

  function NextPage(page: int, totalPages: int): Option<int> {
    if page < totalPages then Some(page + 1) else None
  }

  /** The page: the rows exactly as fetched, the count, and the page numbers around this one. */
  function Paginate<T>(findMany: Args -> seq<T>, count: Args -> nat,
                       defaults: PaginateOptions, args: Args, options: PaginateOptions): (r: PageResult<T>)
    ensures r.meta.perPage != 0
    ensures r.meta.currentPage == Page(options, defaults) && r.meta.perPage == PerPage(options, defaults)
    ensures r.data == findMany(FindManyArgs(args, Skip(r.meta.currentPage, r.meta.perPage), r.meta.perPage,
                                            OrderBy(args, SortField(options, defaults), SortDirection(options, defaults))))
    ensures r.meta.total == count(CountArgs(args))
    ensures r.meta.totalPages == TotalPages(r.meta.total, r.meta.perPage)
    ensures r.meta.previousPage == PreviousPage(r.meta.currentPage)
    ensures r.meta.nextPage == NextPage(r.meta.currentPage, r.meta.totalPages)
  {
    var page := Page(options, defaults);
    var perPage := PerPage(options, defaults);
    var skip := Skip(page, perPage);
    var orderBy := OrderBy(args, SortField(options, defaults), SortDirection(options, defaults));
    var data := findMany(FindManyArgs(args, skip, perPage, orderBy));
    var total := count(CountArgs(args));
    var totalPages := TotalPages(total, perPage);
    PageResult(data, Meta(total, page, perPage, totalPages, PreviousPage(page), NextPage(page, totalPages)))
  }

  // ---------------------------------------------------------------------
  // Properties.

  /**
   * Page and page size fall back through `||`: a missing or zero value
   * gives way to the default, then to 1 and 10; any other value, negative
   * ones included, is kept.
   */
  lemma ResolvePageAndPerPage(options: PaginateOptions, defaults: PaginateOptions)
    ensures Page(options, defaults) != 0 && PerPage(options, defaults) != 0
    ensures options.page.Some? && options.page.value != 0 ==> Page(options, defaults) == options.page.value
    ensures ((options.page.None? || options.page.value == 0) && defaults.page.Some? && defaults.page.value != 0)
              ==> Page(options, defaults) == defaults.page.value
    ensures ((options.page.None? || options.page.value == 0) && (defaults.page.None? || defaults.page.value == 0))
              ==> Page(options, defaults) == 1
    ensures options.perPage.Some? && options.perPage.value != 0 ==> PerPage(options, defaults) == options.perPage.value
    ensures ((options.perPage.None? || options.perPage.value == 0) && defaults.perPage.Some? && defaults.perPage.value != 0)
              ==> PerPage(options, defaults) == defaults.perPage.value
    ensures ((options.perPage.None? || options.perPage.value == 0) && (defaults.perPage.None? || defaults.perPage.value == 0))
              ==> PerPage(options, defaults) == 10
  {
  }

  /** With a positive page size no row count is skipped below zero; a page below 1 starts at the top. */
  lemma SkipBounds(page: int, perPage: int)
    requires perPage >= 1
    ensures Skip(page, perPage) >= 0
    ensures page <= 1 ==> Skip(page, perPage) == 0
    ensures page >= 1 ==> Skip(page, perPage) + perPage == page * perPage
  {
  }

  /** Sorting defaults to `createdAt` descending, and a supplied `orderBy` always wins. */
  lemma OrderByDefaults(args: Args, options: PaginateOptions, defaults: PaginateOptions)
    ensures "orderBy" in args && !args["orderBy"].Undefined? ==>
              OrderBy(args, SortField(options, defaults), SortDirection(options, defaults)) == args["orderBy"]
    ensures options.sortField.None? && defaults.sortField.None? ==> SortField(options, defaults) == "createdAt"
    ensures options.sortDirection.None? && defaults.sortDirection.None? ==> SortDirection(options, defaults) == Desc
    ensures !("orderBy" in args && !args["orderBy"].Undefined?) ==>
              OrderBy(args, SortField(options, defaults), SortDirection(options, defaults))
                == SortObject(SortKey(SortField(options, defaults), Some(SortDirection(options, defaults))))
  {
  }

  /** `findMany` gets every other key of `args` unchanged; `count` gets only the filter. */
  lemma DelegateArgs(args: Args, skip: int, take: int, orderBy: Arg)
    ensures var q := FindManyArgs(args, skip, take, orderBy);
      && q["skip"] == Number(skip) && q["take"] == Number(take) && q["orderBy"] == orderBy
      && (forall k :: k in args && k != "skip" && k != "take" && k != "orderBy" ==> k in q && q[k] == args[k])
      && (forall k :: k in q ==> k in args || k == "skip" || k == "take" || k == "orderBy")
    ensures CountArgs(args).Keys == {"where"}
    ensures "where" in args ==> CountArgs(args)["where"] == args["where"]
    ensures "where" !in args ==> CountArgs(args)["where"] == Undefined
  {
  }

  /** There is always at least one page when the page size is positive; an empty table has exactly one. */
  lemma TotalPagesAtLeastOne(total: nat, perPage: int)
    requires perPage >= 1
    ensures TotalPages(total, perPage) >= 1
    ensures total == 0 ==> TotalPages(total, perPage) == 1
    ensures total > 0 ==> (TotalPages(total, perPage) - 1) * perPage < total <= TotalPages(total, perPage) * perPage
  {
  }

  /**
   * A negative page size is not rejected: fewer rows than its magnitude give
   * one page (`Math.ceil` returns -0, which is falsy), more give a negative
   * page count.
   */
  lemma NegativePerPage(total: nat, perPage: int)
    requires perPage < 0
    ensures total < -perPage ==> TotalPages(total, perPage) == 1
    ensures total >= -perPage ==> TotalPages(total, perPage) == -(total / -perPage) < 0
  {
  }

  /** There is a previous page exactly from page 2 on, and it is the page before. */
  lemma PreviousPageMeaning(page: int)
    ensures PreviousPage(page).Some? <==> page > 1
    ensures PreviousPage(page).Some? ==> PreviousPage(page).value == page - 1
  {
  }

  /**
   * With a positive page size, there is a next page exactly when rows remain
   * past this page; on or past the last page there is none. `||` never lets
   * page 0 through, but a negative page is kept, and it always has a "next
   * page" one above it, itself not a real page.
   */
  lemma NextPageMeansMoreRows(total: nat, page: int, perPage: int)
    requires perPage >= 1 && page != 0
    ensures NextPage(page, TotalPages(total, perPage)).Some? <==> page * perPage < total
    ensures NextPage(page, TotalPages(total, perPage)).Some? ==> NextPage(page, TotalPages(total, perPage)).value == page + 1
  {
    var t := TotalPages(total, perPage);
    TotalPagesAtLeastOne(total, perPage);
    if total > 0 {
      if page < t {
        assert page <= t - 1;
        MulMonotone(page, t - 1, perPage);
      } else {
        MulMonotone(t, page, perPage);
      }
    }
  }

  lemma MulMonotone(a: int, b: int, c: int)
    requires a <= b && c >= 0
    ensures a * c <= b * c
  {
  }

  /**
   * Pages tile the table: with a positive page size, the window of page p
   * starts where the window of page p - 1 ends, and page 1 starts at row 0.
   */
  lemma PagesTile(page: int, perPage: int)
    requires perPage >= 1 && page >= 1
    ensures Skip(1, perPage) == 0
    ensures Skip(page + 1, perPage) == Skip(page, perPage) + perPage
  {
  }

  /** A table served in order: `findMany` returns the rows of the `skip`/`take` window, cut at the end. */
  function Window<T>(rows: seq<T>, q: Args): seq<T> {
    var skip := if "skip" in q && q["skip"].Number? && q["skip"].n > 0 then q["skip"].n else 0;
    var take := if "take" in q && q["take"].Number? && q["take"].n > 0 then q["take"].n else 0;
    rows[Min(skip, |rows|)..Min(skip + take, |rows|)]
  }

  /** Against a table served in order, the page holds exactly the rows of its window. */
  lemma PageWindow<T>(rows: seq<T>, count: Args -> nat, defaults: PaginateOptions, args: Args, options: PaginateOptions)
    requires PerPage(options, defaults) >= 1
    ensures var r := Paginate(q => Window(rows, q), count, defaults, args, options);
      var start := Skip(r.meta.currentPage, r.meta.perPage);
      r.data == rows[Min(start, |rows|)..Min(start + r.meta.perPage, |rows|)]
  {
    var r := Paginate(q => Window(rows, q), count, defaults, args, options);
    var q := FindManyArgs(args, Skip(r.meta.currentPage, r.meta.perPage), r.meta.perPage,
                          OrderBy(args, SortField(options, defaults), SortDirection(options, defaults)));
    SkipBounds(r.meta.currentPage, r.meta.perPage);
    assert q["skip"] == Number(Skip(r.meta.currentPage, r.meta.perPage));
    assert q["take"] == Number(r.meta.perPage);
  }

  function Min(a: int, b: int): int {
    if a < b then a else b
  }
}
