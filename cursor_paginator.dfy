/**
 * `cursorPaginator(defaultOptions)` and the paginate function it returns.
 * Rows are ordered by the compound key (sort field, id), both in one
 * direction; a cursor names the last row seen, and the next page is the
 * rows strictly after it. One row more than the page size is fetched to
 * learn whether a next page exists.
 */
module CursorPaginator {
  import opened Wrappers
  import opened QueryModel
  import opened CursorJson
  import opened CursorCodec

  /** The pagination options: every field may be left out. */
  datatype CursorOptions = CursorOptions(
    cursor: Option<string>,
    limit: Option<int>,
    sortField: Option<string>,
    sortOrder: Option<Direction>)

  datatype PageInfo = PageInfo(
    limit: int,
    hasNextPage: bool,
    hasPreviousPage: bool,
    nextCursor: Option<string>,
    previousCursor: Option<string>)

  datatype CursorPage = CursorPage(data: seq<Row>, pagination: PageInfo)

  // ---------------------------------------------------------------------
  // Resolving the options.

  /** The requested page size: the option, else the default, else 10, taken through `??`. */
  function RequestedLimit(options: CursorOptions, defaults: CursorOptions): int {
    options.limit.GetOr(defaults.limit.GetOr(10))
  }

  /** `Math.max(1, requested)`: a page holds at least one row. */
  function Limit(options: CursorOptions, defaults: CursorOptions): (limit: int)
    ensures limit >= 1
    ensures RequestedLimit(options, defaults) >= 1 ==> limit == RequestedLimit(options, defaults)
    ensures RequestedLimit(options, defaults) < 1 ==> limit == 1
  {
    var n := RequestedLimit(options, defaults);
    if n > 1 then n else 1
  }

  function SortField(options: CursorOptions, defaults: CursorOptions): string {
    options.sortField.GetOr(defaults.sortField.GetOr("createdAt"))
  }

  function SortOrder(options: CursorOptions, defaults: CursorOptions): Direction {
    options.sortOrder.GetOr(defaults.sortOrder.GetOr(Desc))
  }

  /** `options.cursor ?? defaultOptions.cursor`: an empty string given in the options is kept. */
  function CursorString(options: CursorOptions, defaults: CursorOptions): Option<string> {
    if options.cursor.Some? then options.cursor else defaults.cursor
  }

  /** Whether the cursor string is truthy. */
  predicate HasCursor(options: CursorOptions, defaults: CursorOptions) {
    CursorString(options, defaults).Some? && CursorString(options, defaults).value != ""
  }

  // ---------------------------------------------------------------------
  // The query.

  /** `[{[sortField]: sortOrder}, {id: sortOrder}]`. */
  function OrderBy(field: string, dir: Direction): (keys: seq<SortKey>)
    ensures |keys| == 2 && keys[0].field == field && keys[1].field == "id"
    ensures keys[0].direction == keys[1].direction == Some(dir)
  {
    [SortKey(field, Some(dir)), SortKey("id", Some(dir))]
  }

  /** `lt` when sorting descending, `gt` when ascending. */
  function OpFor(dir: Direction): Op {
    if dir == Desc then Lt else Gt
  }

  /** `OR[{field: {op: v}}, AND[{field: v}, {id: {op: id}}]]` for the cursor's (v, id). */
  function CursorWhere(field: string, dir: Direction, c: Cursor): Filter {
    var op := OpFor(dir);
    AnyOf([Compare(field, op, c.sortValue), AllOf([EqualTo(field, c.sortValue), Compare("id", op, c.id)])])
  }

  /** `args?.where || {}`. */
  function ExistingWhere(args: Args): (f: Filter)
    requires WhereTyped(args)
    ensures "where" in args && args["where"].Condition? ==> f == args["where"].where
    ensures !("where" in args && args["where"].Condition?) ==> f == Everything
  {
    if "where" in args && args["where"].Condition? then args["where"].where else Everything
  }

  /** An existing filter with keys is combined with the cursor's by AND; `{}` gives way to it. */
  function MergeWhere(existing: Filter, cursorWhere: Filter): Filter {
    if KeyCount(existing) > 0 then AllOf([existing, cursorWhere]) else cursorWhere
  }

  /** The argument bag of `findMany`: `{...args, where?, take, orderBy}`. */
  function QueryArgs(args: Args, take: int, orderBy: seq<SortKey>, where: Option<Filter>): Args {
    var base := args["take" := Number(take)]["orderBy" := SortList(orderBy)];
    if where.Some? then base["where" := Condition(where.value)] else base
  }

  /** The `findMany` arguments, or the error of a cursor that does not decode. */
  function Query(args: Args, defaults: CursorOptions, options: CursorOptions): Result<Args, CursorError>
    requires WhereTyped(args)
  {
    var limit := Limit(options, defaults);
    var field, dir := SortField(options, defaults), SortOrder(options, defaults);
    var orderBy := OrderBy(field, dir);
    if HasCursor(options, defaults) then
      match DecodeCursor(CursorString(options, defaults).value)
      case Err(e) => Err(e)
      case Ok(c) => Ok(QueryArgs(args, limit + 1, orderBy, Some(MergeWhere(ExistingWhere(args), CursorWhere(field, dir, c)))))
    else
      Ok(QueryArgs(args, limit + 1, orderBy, None))
  }

  /** The cursor of a row: its id and its value in the sort column. */
  function CursorOf(row: Row, field: string): Cursor {
    Cursor(Get(row, "id"), Get(row, field))
  }

  /** `results.slice(0, limit)` when more than `limit` rows came back, else all of them. */
  function PageData(results: seq<Row>, limit: int): (data: seq<Row>)
    requires limit >= 1
    ensures |results| > limit ==> data == results[..limit]
    ensures |results| <= limit ==> data == results
    ensures |data| <= limit
  {
    if |results| > limit then results[..limit] else results
  }

  /** The cursor of the row at index i of the page, encoded. */
  function EncodedCursorAt(data: seq<Row>, i: nat, field: string): string
    requires i < |data|
  {
    EncodeCursor(CursorOf(data[i], field))
  }

  /** `nextCursor`: the last row's cursor, when there is a next page and a row to take it from. */
  function NextCursor(data: seq<Row>, hasNext: bool, field: string): (r: Option<string>)
    ensures r.Some? <==> hasNext && |data| > 0
    ensures r.Some? ==> r.value == EncodedCursorAt(data, |data| - 1, field)
  {
    if hasNext && |data| > 0 then Some(EncodedCursorAt(data, |data| - 1, field)) else None
  }

  /** `previousCursor`: the first row's cursor, when a cursor was given and there is a row to take it from. */
  function PreviousCursor(data: seq<Row>, hasPrevious: bool, field: string): (r: Option<string>)
    ensures r.Some? <==> hasPrevious && |data| > 0
    ensures r.Some? ==> r.value == EncodedCursorAt(data, 0, field)
  {
    if hasPrevious && |data| > 0 then Some(EncodedCursorAt(data, 0, field)) else None
  }

  /** The page built from what `findMany` returned. */
  function Page(results: seq<Row>, limit: int, field: string, hasCursor: bool): (page: CursorPage)
    requires limit >= 1
    ensures page.data == PageData(results, limit)
    ensures page.pagination.limit == limit
    ensures page.pagination.hasNextPage <==> |results| > limit
    ensures page.pagination.hasPreviousPage == hasCursor
    ensures page.pagination.nextCursor == NextCursor(page.data, page.pagination.hasNextPage, field)
    ensures page.pagination.previousCursor == PreviousCursor(page.data, hasCursor, field)
  {
    var hasNext := |results| > limit;
    var data := PageData(results, limit);
    CursorPage(data, PageInfo(limit, hasNext, hasCursor, NextCursor(data, hasNext, field), PreviousCursor(data, hasCursor, field)))
  }

  /**
   * The paginate function: resolve the options, build the query, call
   * `findMany` once and shape the page. A cursor that does not decode
   * fails before `findMany` is consulted.
   */
  function Paginate(findMany: Args -> seq<Row>, defaults: CursorOptions, args: Args, options: CursorOptions)
    : (r: Result<CursorPage, CursorError>)
    requires WhereTyped(args)
    ensures Query(args, defaults, options).Err? <==> r.Err?
    ensures r.Err? ==> HasCursor(options, defaults) && r.error == InvalidCursorFormat
    ensures r.Ok? ==> r.value == Page(findMany(Query(args, defaults, options).value),
                                      Limit(options, defaults), SortField(options, defaults),
                                      HasCursor(options, defaults))
  {
    match Query(args, defaults, options)
    case Err(e) => Err(e)
    case Ok(q) => Ok(Page(findMany(q), Limit(options, defaults), SortField(options, defaults), HasCursor(options, defaults)))
  }

  // ---------------------------------------------------------------------
  // What the query asks for.

  /**
   * `findMany` gets every key of `args` unchanged except `take`, `orderBy`
   * and, with a cursor, `where`: one row more than the page, ordered by the
   * sort field then id in one direction.
   */
  lemma QueryKeys(args: Args, defaults: CursorOptions, options: CursorOptions)
    requires WhereTyped(args)
    requires Query(args, defaults, options).Ok?
    ensures var q := Query(args, defaults, options).value;
      && q["take"] == Number(Limit(options, defaults) + 1)
      && q["orderBy"] == SortList(OrderBy(SortField(options, defaults), SortOrder(options, defaults)))
      && (forall k :: k in args && k != "take" && k != "orderBy" && k != "where" ==> k in q && q[k] == args[k])
      && (forall k :: k in q ==> k in args || k == "take" || k == "orderBy" || k == "where")
      && (!HasCursor(options, defaults) ==> ("where" in q <==> "where" in args))
      && (!HasCursor(options, defaults) && "where" in args ==> q["where"] == args["where"])
      && (HasCursor(options, defaults) ==> "where" in q && q["where"].Condition?)
  {
  }

  /** Without a cursor, no argument is rejected: the query always builds. */
  lemma NoCursorNoError(args: Args, defaults: CursorOptions, options: CursorOptions)
    requires WhereTyped(args)
    requires !HasCursor(options, defaults)
    ensures Query(args, defaults, options).Ok?
  {
  }

  /** The cursor where-clause, merged, keeps the caller's filter and adds the cursor's. */
  lemma MergeWhereMeaning(existing: Filter, cursorWhere: Filter, row: Row)
    ensures Holds(MergeWhere(existing, cursorWhere), row) <==> Holds(existing, row) && Holds(cursorWhere, row)
  {
    if KeyCount(existing) > 0 {
      var f := AllOf([existing, cursorWhere]);
      assert Holds(f, row) <==> Holds(f.parts[0], row) && Holds(f.parts[1], row);
    }
  }

  // ---------------------------------------------------------------------
  // The order and the cursor predicate.

  /** x comes before y in direction dir. */
  predicate Before(dir: Direction, x: Scalar, y: Scalar) {
    if dir == Asc then Less(x, y) else Less(y, x)
  }

  /** The compound key (sort value, id) of a row. */
  function KeyOf(row: Row, field: string): (Scalar, Scalar) {
    (Get(row, field), Get(row, "id"))
  }

  /** Lexicographic order on (sort value, id) keys in one direction. */
  predicate Precedes(dir: Direction, a: (Scalar, Scalar), b: (Scalar, Scalar)) {
    Before(dir, a.0, b.0) || (a.0 == b.0 && Before(dir, a.1, b.1))
  }

  /** The order `orderBy` asks for: the first sort key that tells a and b apart decides. */
  predicate RowBefore(keys: seq<SortKey>, a: Row, b: Row)
    decreases |keys|
  {
    keys != [] &&
    var k := keys[0];
    var dir := k.direction.GetOr(Asc);
    Before(dir, Get(a, k.field), Get(b, k.field))
    || (Get(a, k.field) == Get(b, k.field) && RowBefore(keys[1..], a, b))
  }

  /** The compound `orderBy` sorts rows exactly by the (sort value, id) order. */
  lemma OrderByIsPrecedes(field: string, dir: Direction, a: Row, b: Row)
    ensures RowBefore(OrderBy(field, dir), a, b) <==> Precedes(dir, KeyOf(a, field), KeyOf(b, field))
  {
    var keys := OrderBy(field, dir);
    assert keys[0] == SortKey(field, Some(dir));
    assert keys[1..][0] == SortKey("id", Some(dir));
    assert keys[1..][1..] == [];
    assert !RowBefore(keys[1..][1..], a, b);
  }

  lemma PrecedesIrreflexive(dir: Direction, a: (Scalar, Scalar))
    ensures !Precedes(dir, a, a)
  {
    LessIrreflexive(a.0);
    LessIrreflexive(a.1);
  }

  lemma PrecedesAsymmetric(dir: Direction, a: (Scalar, Scalar), b: (Scalar, Scalar))
    requires Precedes(dir, a, b)
    ensures !Precedes(dir, b, a)
  {
    if Before(dir, a.0, b.0) {
      if dir == Asc { LessAsymmetric(a.0, b.0); } else { LessAsymmetric(b.0, a.0); }
      LessIrreflexive(a.0);
    } else {
      LessIrreflexive(a.0);
      if dir == Asc { LessAsymmetric(a.1, b.1); } else { LessAsymmetric(b.1, a.1); }
    }
  }

  /** Two values of one kind: both NULL, both strings, both numbers or both DateTimes. */
  predicate SameKind(x: Scalar, y: Scalar) {
    (x.Null? && y.Null?) || (x.Str? && y.Str?) || (x.Num? && y.Num?) || (x.Date? && y.Date?)
  }

  /** A cursor whose values have the kinds of the row's columns. */
  predicate FitsRow(c: Cursor, row: Row, field: string) {
    SameKind(c.sortValue, Get(row, field)) && SameKind(c.id, Get(row, "id"))
  }

  lemma AtSameKind(column: Scalar, v: Scalar)
    requires SameKind(v, column)
    ensures AtColumnType(column, v) == v
  {
  }

  /**
   * The cursor predicate holds for a row exactly when the row's
   * (sort value, id) lies strictly after the cursor's in the page order.
   */
  lemma CursorWhereSelectsAfter(field: string, dir: Direction, c: Cursor, row: Row)
    requires FitsRow(c, row, field)
    ensures Holds(CursorWhere(field, dir, c), row) <==> Precedes(dir, (c.sortValue, c.id), KeyOf(row, field))
  {
    AtSameKind(Get(row, field), c.sortValue);
    AtSameKind(Get(row, "id"), c.id);
    CursorWhereHolds(field, dir, c, row);
  }

  /** Through the codec a DateTime becomes text, and the predicate still selects the row alike. */
  lemma DecodedCursorSelectsAlike(field: string, dir: Direction, c: Cursor, row: Row)
    requires FitsRow(c, row, field)
    ensures Holds(CursorWhere(field, dir, AsDecoded(c)), row) <==> Holds(CursorWhere(field, dir, c), row)
  {
    DecodedOperandsAlike(Get(row, field), c.sortValue);
    DecodedOperandsAlike(Get(row, "id"), c.id);
    CursorWhereHolds(field, dir, AsDecoded(c), row);
    CursorWhereHolds(field, dir, c, row);
  }

  /** The cursor predicate holds when the row is past the cursor's value, or level with it and past its id. */
  lemma CursorWhereHolds(field: string, dir: Direction, c: Cursor, row: Row)
    ensures Holds(CursorWhere(field, dir, c), row) <==>
      Holds(Compare(field, OpFor(dir), c.sortValue), row)
      || (Holds(EqualTo(field, c.sortValue), row) && Holds(Compare("id", OpFor(dir), c.id), row))
  {
    var f := CursorWhere(field, dir, c);
    assert Holds(f.parts[1], row) <==> Holds(f.parts[1].parts[0], row) && Holds(f.parts[1].parts[1], row);
    assert Holds(f, row) <==> Holds(f.parts[0], row) || Holds(f.parts[1], row);
  }

  /** A filter operand compares alike before and after the codec, except a DateTime against a non-DateTime column. */
  lemma DecodedOperandsAlike(column: Scalar, v: Scalar)
    ensures column.Date? || !v.Date? ==> AtColumnType(column, AsParsed(v)) == AtColumnType(column, v)
  {
  }

  /** Rows listed in strictly increasing (sort value, id) order. */
  predicate StrictlySorted(rows: seq<Row>, field: string, dir: Direction) {
    forall i, j :: 0 <= i < j < |rows| ==> Precedes(dir, KeyOf(rows[i], field), KeyOf(rows[j], field))
  }

  /** Every row's sort value and id have the same kinds as the first row's. */
  predicate Uniform(rows: seq<Row>, field: string) {
    forall i :: 0 <= i < |rows| ==>
      SameKind(Get(rows[i], field), Get(rows[0], field)) && SameKind(Get(rows[i], "id"), Get(rows[0], "id"))
  }

  /**
   * Resuming from a page's cursor: when the cursor of row k of a sorted table
   * goes out as a string and comes back, the where-clause built from it
   * selects exactly the rows after row k.
   */
  lemma ResumeAfterCursor(rows: seq<Row>, field: string, dir: Direction, k: nat)
    requires StrictlySorted(rows, field, dir) && Uniform(rows, field)
    requires k < |rows|
    ensures DecodeCursor(EncodeCursor(CursorOf(rows[k], field))).Ok?
    ensures forall j :: 0 <= j < |rows| ==>
      (Holds(CursorWhere(field, dir, DecodeCursor(EncodeCursor(CursorOf(rows[k], field))).value), rows[j]) <==> k < j)
  {
    var c := CursorOf(rows[k], field);
    DecodeEncodeCursor(c);
    forall j | 0 <= j < |rows|
      ensures Holds(CursorWhere(field, dir, AsDecoded(c)), rows[j]) <==> k < j
    {
      assert FitsRow(c, rows[j], field);
      DecodedCursorSelectsAlike(field, dir, c, rows[j]);
      CursorWhereSelectsAfter(field, dir, c, rows[j]);
      assert (c.sortValue, c.id) == KeyOf(rows[k], field);
      if j == k {
        PrecedesIrreflexive(dir, KeyOf(rows[k], field));
      } else if j < k {
        PrecedesAsymmetric(dir, KeyOf(rows[j], field), KeyOf(rows[k], field));
      }
    }
  }

  /** The next page's cursor, when there is one, is the cursor of the page's last row, and the page is full. */
  lemma NextCursorOfFullPage(findMany: Args -> seq<Row>, defaults: CursorOptions, args: Args, options: CursorOptions)
    requires WhereTyped(args)
    requires Paginate(findMany, defaults, args, options).Ok?
    ensures var p := Paginate(findMany, defaults, args, options).value;
      p.pagination.hasNextPage ==>
        |p.data| == Limit(options, defaults) && p.pagination.nextCursor.Some? &&
        p.pagination.nextCursor.value == EncodeCursor(CursorOf(p.data[|p.data| - 1], SortField(options, defaults)))
  {
    var q := Query(args, defaults, options).value;
    FullPage(findMany(q), Limit(options, defaults), SortField(options, defaults), HasCursor(options, defaults));
  }

  /** The same, for a page built from any rows. */
  lemma FullPage(results: seq<Row>, limit: int, field: string, hasCursor: bool)
    requires limit >= 1
    ensures var p := Page(results, limit, field, hasCursor);
      p.pagination.hasNextPage ==>
        |p.data| == limit && p.pagination.nextCursor.Some? &&
        p.pagination.nextCursor.value == EncodeCursor(CursorOf(p.data[|p.data| - 1], field))
  {
  }
}
