/**
 * `BooksService.findAll`: the list of search conditions is built step by
 * step from the query, then wrapped with a fixed `orderBy` and `select`
 * into the argument bag of the offset paginator, whose result is returned
 * as it is.
 */
module BooksService {
  import opened Wrappers
  import Text
  import opened QueryModel
  import opened Paginator

  /** The query string of `GET /books`; every field may be left out. */
  datatype BooksQuery = BooksQuery(
    page: Option<int>,
    perPage: Option<int>,
    genre: Option<string>,
    q: Option<string>,
    sortDirection: Option<Direction>,
    sortField: Option<string>)

  /** A string that is neither undefined nor empty. */
  predicate Truthy(s: Option<string>) {
    s.Some? && s.value != ""
  }

  /** `{OR: [{title: {contains: q}}, {author: {contains: q}}]}`. */
  function SearchCondition(q: string): Filter {
    AnyOf([Contains("title", q), Contains("author", q)])
  }

  /** `{genre: {is: {keyName: genre}}}`. */
  function GenreCondition(genre: string): Filter {
    RelationIs("genre", EqualTo("keyName", Str(genre)))
  }

  /** The conditions `findAll` collects: the search one first, then the genre one, each only when given. */
  function Conditions(query: BooksQuery): seq<Filter> {
    (if Truthy(query.q) then [SearchCondition(query.q.value)] else [])
    + (if Truthy(query.genre) then [GenreCondition(query.genre.value)] else [])
  }

  /** Builds `conditions` by pushing onto an empty list, as `findAll` does. */
  method BuildConditions(query: BooksQuery) returns (conditions: seq<Filter>)
    ensures conditions == Conditions(query)
  {
    conditions := [];
    if Truthy(query.q) {
      conditions := conditions + [SearchCondition(query.q.value)];
    }
    if Truthy(query.genre) {
      conditions := conditions + [GenreCondition(query.genre.value)];
    }
  }

  /** The fields the list returns: id, title, author, published and the genre's name. */
  const BookSelection := Selection({"id", "title", "author", "published"}, map["genre" := {"name"}])

  /** `{[query.sortField || 'createdAt']: query.sortDirection}`; the direction may stay undefined. */
  function BooksOrderBy(query: BooksQuery): SortKey {
    SortKey(if Truthy(query.sortField) then query.sortField.value else "createdAt", query.sortDirection)
  }

  /** The argument bag handed to the paginator. */
  function BooksArgs(query: BooksQuery, conditions: seq<Filter>): Args {
    map["where" := Condition(AllOf(conditions)),
        "orderBy" := SortObject(BooksOrderBy(query)),
        "select" := Projection(BookSelection)]
  }

  /** Only the page number and size are passed on as options. */
  function BooksOptions(query: BooksQuery): PaginateOptions {
    PaginateOptions(query.page, query.perPage, None, None)
  }

  /**
   * The defaults the injected paginator was made with. Of the keys it is
   * given (`page`, `limit`, `sortField`, `sortOrder`) the paginator reads
   * only `page` and `sortField`.
   */
  const ServiceDefaults := PaginateOptions(Some(1), None, Some("createdAt"), None)

  /** `findAll`: the paginator's `{data, meta}` for the query. */
  method FindAll<T>(query: BooksQuery, findMany: Args -> seq<T>, count: Args -> nat) returns (result: PageResult<T>)
    ensures result == Paginate(findMany, count, ServiceDefaults, BooksArgs(query, Conditions(query)), BooksOptions(query))
  {
    var conditions := BuildConditions(query);
    var args := BooksArgs(query, conditions);
    result := Paginate(findMany, count, ServiceDefaults, args, BooksOptions(query));
  }

  // ---------------------------------------------------------------------
  // Properties.

  /** One condition per given field, the search one first. */
  lemma ConditionsShape(query: BooksQuery)
    ensures |Conditions(query)| == (if Truthy(query.q) then 1 else 0) + (if Truthy(query.genre) then 1 else 0)
    ensures Truthy(query.q) ==> Conditions(query)[0] == SearchCondition(query.q.value)
    ensures Truthy(query.genre) ==> Conditions(query)[|Conditions(query)| - 1] == GenreCondition(query.genre.value)
    ensures !Truthy(query.q) && !Truthy(query.genre) ==> Conditions(query) == []
  {
  }

  /** A column that holds text or nothing, as the book and genre columns filtered on do. */
  predicate TextColumn(v: Scalar) {
    v.Str? || v.Null?
  }

  /** Whether a book matches the query, said directly of its columns. */
  predicate Matches(query: BooksQuery, book: Row) {
    (Truthy(query.q) ==>
      (Get(book, "title").Str? && Text.Contains(Get(book, "title").s, query.q.value))
      || (Get(book, "author").Str? && Text.Contains(Get(book, "author").s, query.q.value)))
    && (Truthy(query.genre) ==>
      "genre" in book.relations && Get(Row(book.relations["genre"], map[]), "keyName") == Str(query.genre.value))
  }

  /**
   * The `where` of `findAll` selects exactly the books whose title or author
   * contains the search text and whose genre has the requested key name.
   */
  lemma WhereSelectsMatches(query: BooksQuery, book: Row)
    requires "genre" in book.relations ==> TextColumn(Get(Row(book.relations["genre"], map[]), "keyName"))
    ensures Holds(AllOf(Conditions(query)), book) <==> Matches(query, book)
  {
    var cs := Conditions(query);
    ConditionsShape(query);
    if Truthy(query.q) {
      var f := SearchCondition(query.q.value);
      assert Holds(f, book) <==> Holds(f.parts[0], book) || Holds(f.parts[1], book);
    }
    if Truthy(query.genre) {
      assert Holds(cs[|cs| - 1], book) <==>
        "genre" in book.relations && Get(Row(book.relations["genre"], map[]), "keyName") == Str(query.genre.value);
    }
    if Truthy(query.q) && Truthy(query.genre) {
      assert Holds(AllOf(cs), book) <==> Holds(cs[0], book) && Holds(cs[1], book);
    }
  }

  /**
   * The paginator receives the service's filter, selection and sort
   * unchanged: the query's `orderBy` wins over the paginator's defaults even
   * with no direction given, and `count` sees the same filter.
   */
  lemma FindManyReceives(query: BooksQuery)
    ensures var args := BooksArgs(query, Conditions(query));
      var options := BooksOptions(query);
      var page, perPage := Page(options, ServiceDefaults), PerPage(options, ServiceDefaults);
      var q := FindManyArgs(args, Skip(page, perPage), perPage,
                            OrderBy(args, SortField(options, ServiceDefaults), SortDirection(options, ServiceDefaults)));
      && q["where"] == Condition(AllOf(Conditions(query)))
      && q["orderBy"] == SortObject(BooksOrderBy(query))
      && q["select"] == Projection(BookSelection)
      && q["take"] == Number(perPage)
      && q.Keys == {"where", "orderBy", "select", "skip", "take"}
      && CountArgs(args) == map["where" := Condition(AllOf(Conditions(query)))]
  {
  }

  /** Without page options the first page of ten books is served; given ones pass through `||`. */
  lemma BooksPageDefaults(query: BooksQuery)
    ensures (query.page.None? || query.page.value == 0) ==> Page(BooksOptions(query), ServiceDefaults) == 1
    ensures (query.perPage.None? || query.perPage.value == 0) ==> PerPage(BooksOptions(query), ServiceDefaults) == 10
    ensures query.page.Some? && query.page.value != 0 ==> Page(BooksOptions(query), ServiceDefaults) == query.page.value
    ensures query.perPage.Some? && query.perPage.value != 0 ==>
              PerPage(BooksOptions(query), ServiceDefaults) == query.perPage.value
  {
  }
}
