/**
 * The part of Prisma's query language the paginators and the book service
 * build: column values, rows, `where` filters with their meaning on a row,
 * `orderBy` keys, and the argument bag handed to `findMany` and `count`.
 */
module QueryModel {
  import opened Wrappers
  import Text

  /** A column value: SQL NULL, a string, an integer or a DateTime (kept as its ISO-8601 text). */
  datatype Scalar = Null | Str(s: string) | Num(n: int) | Date(iso: string)

  /** A row: its columns, and the columns of each to-one relation that is set. */
  datatype Row = Row(columns: map<string, Scalar>, relations: map<string, map<string, Scalar>>)

  /** `row[field]`; a column the row does not carry reads as NULL. */
  function Get(row: Row, field: string): Scalar {
    if field in row.columns then row.columns[field] else Null
  }

  // ---------------------------------------------------------------------
  // Comparing values.

  /** Code-point lexicographic order on strings. */
  predicate StrLess(a: string, b: string)
    decreases |a|
  {
    b != [] && (a == [] || a[0] < b[0] || (a[0] == b[0] && StrLess(a[1..], b[1..])))
  }

  lemma {:induction false} StrLessIrreflexive(a: string)
    ensures !StrLess(a, a)
    decreases |a|
  {
    if a != [] {
      StrLessIrreflexive(a[1..]);
    }
  }

  lemma {:induction false} StrLessAsymmetric(a: string, b: string)
    requires StrLess(a, b)
    ensures !StrLess(b, a)
    decreases |a|
  {
    if a != [] && a[0] == b[0] {
      StrLessAsymmetric(a[1..], b[1..]);
    }
  }

  lemma {:induction false} StrLessTransitive(a: string, b: string, c: string)
    requires StrLess(a, b) && StrLess(b, c)
    ensures StrLess(a, c)
    decreases |a|
  {
    if a != [] && a[0] == b[0] && b[0] == c[0] {
      StrLessTransitive(a[1..], b[1..], c[1..]);
    }
  }

  lemma {:induction false} StrLessTotal(a: string, b: string)
    ensures a == b || StrLess(a, b) || StrLess(b, a)
    decreases |a|
  {
    if a != [] && b != [] && a[0] == b[0] {
      StrLessTotal(a[1..], b[1..]);
      if a[1..] == b[1..] {
        assert a == [a[0]] + a[1..] && b == [b[0]] + b[1..];
      }
    }
  }

  /**
   * The operand of a filter read at the column's type: Prisma takes an
   * ISO-8601 string given for a DateTime column as that instant.
   */
  function AtColumnType(column: Scalar, operand: Scalar): (r: Scalar)
    ensures column.Date? && operand.Str? ==> r == Date(operand.s)
    ensures !(column.Date? && operand.Str?) ==> r == operand
  {
    if column.Date? && operand.Str? then Date(operand.s) else operand
  }

  /** `a < b` between two values of one column type; NULL and mixed types compare false. */
  predicate Less(a: Scalar, b: Scalar) {
    match (a, b)
    case (Num(x), Num(y)) => x < y
    case (Str(x), Str(y)) => StrLess(x, y)
    case (Date(x), Date(y)) => StrLess(x, y)
    case _ => false
  }

  lemma LessIrreflexive(a: Scalar)
    ensures !Less(a, a)
  {
    if a.Str? { StrLessIrreflexive(a.s); }
    if a.Date? { StrLessIrreflexive(a.iso); }
  }

  lemma LessAsymmetric(a: Scalar, b: Scalar)
    requires Less(a, b)
    ensures !Less(b, a)
  {
    if a.Str? { StrLessAsymmetric(a.s, b.s); }
    if a.Date? { StrLessAsymmetric(a.iso, b.iso); }
  }

  lemma LessTransitive(a: Scalar, b: Scalar, c: Scalar)
    requires Less(a, b) && Less(b, c)
    ensures Less(a, c)
  {
    if a.Str? { StrLessTransitive(a.s, b.s, c.s); }
    if a.Date? { StrLessTransitive(a.iso, b.iso, c.iso); }
  }

  // ---------------------------------------------------------------------
  // Filters.

  datatype Op = Lt | Gt

  /**
   * A `where` object. `Everything` is the empty object `{}`; `AllOf` is
   * `{AND: [...]}`, `AnyOf` is `{OR: [...]}`; `Compare` is `{field: {lt|gt: v}}`,
   * `EqualTo` is `{field: v}`, `Contains` is `{field: {contains: t}}` and
   * `RelationIs` is `{relation: {is: filter}}`.
   */
  datatype Filter =
    | Everything
    | AllOf(parts: seq<Filter>)
    | AnyOf(parts: seq<Filter>)
    | Compare(field: string, op: Op, value: Scalar)
    | EqualTo(field: string, value: Scalar)
    | Contains(field: string, text: string)
    | RelationIs(relation: string, inner: Filter)

  /** `Object.keys(filter).length`, as far as the model needs it: only `{}` has none. */
  function KeyCount(f: Filter): (n: nat)
    ensures n == 0 <==> f.Everything?
  {
    if f.Everything? then 0 else 1
  }

  /** Whether the database returns `row` for the filter `f`. */
  predicate Holds(f: Filter, row: Row)
    decreases f
  {
    match f
    case Everything => true
    case AllOf(parts) => forall i :: 0 <= i < |parts| ==> Holds(parts[i], row)
    case AnyOf(parts) => exists i :: 0 <= i < |parts| && Holds(parts[i], row)
    case Compare(field, op, v) =>
      var c := Get(row, field);
      if op == Lt then Less(c, AtColumnType(c, v)) else Less(AtColumnType(c, v), c)
    case EqualTo(field, v) => Get(row, field) == AtColumnType(Get(row, field), v)
    case Contains(field, t) => Get(row, field).Str? && Text.Contains(Get(row, field).s, t)
    case RelationIs(rel, inner) => rel in row.relations && Holds(inner, Row(row.relations[rel], map[]))
  }

  // ---------------------------------------------------------------------
  // Ordering and projection.

  datatype Direction = Asc | Desc

  /** `{field: direction}` in an `orderBy`; the direction may be left undefined. */
  datatype SortKey = SortKey(field: string, direction: Option<Direction>)

  /** `select`: the scalar fields kept, and for each relation the fields kept of it. */
  datatype Selection = Selection(fields: set<string>, related: map<string, set<string>>)

  /**
   * A value in a query's argument bag. `Undefined` is a key set to
   * `undefined`; `SortObject` is a one-key `orderBy` object and `SortList` an
   * array of them; `Other` stands for any value the model does not inspect.
   */
  datatype Arg =
    | Undefined
    | Number(n: int)
    | Condition(where: Filter)
    | SortObject(key: SortKey)
    | SortList(keys: seq<SortKey>)
    | Projection(selection: Selection)
    | Other(tag: string)

  /** The argument object of `findMany` or `count`; a key it lacks is `undefined`. */
  type Args = map<string, Arg>

  /** `args.where` is a filter or undefined, as the delegate's argument type demands. */
  predicate WhereTyped(args: Args) {
    "where" in args ==> args["where"].Condition? || args["where"].Undefined?
  }
}
