# Book inventory API core, modelled in Dafny

This project models the logic core of a NestJS book-inventory API. The API stores books and genres with Prisma. The model covers:

- **Offset paginator** (`paginator`). It resolves `page`/`perPage` from the request options and the factory defaults with JavaScript `||`. It computes `skip` and the sort order, then hands `findMany` and `count` their arguments. It also derives `totalPages`, `previousPage` and `nextPage`.
- **Cursor paginator** (`cursorPaginator`).
  - A cursor is the `{id, sortValue}` pair of a row, written as JSON, encoded as UTF-8 and then as base64.
  - A cursor in the request is decoded. A cursor that cannot be decoded fails with "Invalid cursor format" before `findMany` is called.
  - The query asks for `limit + 1` rows, ordered by `(sortField, id)`. The cursor's `where` (greater or less than, by sort order) is combined with any `where` the caller passed.
  - The page then holds `limit` rows, the `hasNextPage`/`hasPreviousPage` flags and the next and previous cursors.
- **Book service** (`BooksService.findAll`). It collects the search and genre conditions, builds the `findMany` arguments (where, orderBy, select) and delegates to the offset paginator.
- **Seed script's key name** (`kebabCase` and `keyName ?? kebabCase(name)`). The text is trimmed and lower-cased, each run of characters outside `[a-z0-9]` becomes `-`, and leading and trailing hyphens are dropped.
- **Four exception filters**:
  - the catch-all filter: always 500;
  - the `HttpException` filter: the exception's own status, with the stack outside production;
  - the Prisma filter: error codes P2002, P2003 and P2025 are mapped to 409, 400 and 404 with messages built from the error's `meta`, and the stack lines are deleted in production;
  - the Zod filter: always 400, with one `{path, message}` entry per issue, and the stack deleted in production.

How the files are laid out:

- **Supporting modules.**
  - `Wrappers`: `Option` and `Result`.
  - `Text`: join, split and decimal text.
  - `Base64`: the base64 encoding of section 4 of RFC 4648.
  - `Utf8`: the UTF-8 of RFC 3629.
  - `CursorJson`: the JSON text `JSON.stringify` writes for a cursor, as RFC 8259 describes it, with its parser.
  - `QueryModel`: the part of Prisma's query language the core builds, with the meaning of a `where` filter on a row.
  - `JsValues`: JavaScript values, with `String(v)`, optional-chaining reads, `v[i]` and the properties `JSON.stringify` writes.
  - `ExceptionText`: the message and stack helpers the catch-all and HTTP filters share.
- **Pure code** is modelled as functions with lemmas. This covers both paginators, the cursor codec, `kebabCase` and the catch-all and HTTP filters.
- **Code that updates local state in place** is modelled as methods:
  - `BuildConditions` pushes onto the conditions array.
  - The Prisma and Zod `Catch` methods `delete` a property from the response object.

## Model

| member | source | states |
|---|---|---|
| Paginator.OrElse | src/utils/paginator/paginator.ts:37-38 | `x \|\| fallback` on a number: a present non-zero value wins; a missing value or 0 gives the fallback. |
| Paginator.ResolvePageAndPerPage | src/utils/paginator/paginator.ts:37-38 | page and perPage are never 0. A non-zero option wins. Failing that, a non-zero default wins. With no non-zero option or default they are 1 and 10. Negative values are not clamped. |
| Paginator.Skip | src/utils/paginator/paginator.ts:39 | the offset `page > 0 ? (page - 1) * perPage : 0`; no contract of its own, its meaning is stated by Paginator.SkipBounds and Paginator.PagesTile. |
| Paginator.SkipBounds | src/utils/paginator/paginator.ts:39 | for perPage ≥ 1: skip is never negative and is 0 on page 1 or below. From page 1 on, skip + perPage = page·perPage. |
| Paginator.PagesTile | src/utils/paginator/paginator.ts:39 | page 1 starts at row 0, and each later page starts exactly perPage rows after the previous one, so pages neither overlap nor leave gaps. |
| Paginator.OrderByDefaults | src/utils/paginator/paginator.ts:41-47 | a caller's orderBy is passed through unchanged. Otherwise the order is `{[sortField]: sortDirection}`, which defaults to createdAt and desc. |
| Paginator.DelegateArgs | src/utils/paginator/paginator.ts:49-52 | findMany gets every key the caller passed, plus skip, take and orderBy, and nothing else. count gets only the caller's where. |
| Paginator.CeilDiv | src/utils/paginator/paginator.ts:53 | the result is `Math.ceil(total / perPage)`, the bracketing integer for either sign of perPage. |
| Paginator.TotalPages | src/utils/paginator/paginator.ts:53 | `Math.ceil(total / perPage) \|\| 1`; no contract of its own, its meaning is stated by Paginator.CeilDiv, Paginator.TotalPagesAtLeastOne and Paginator.NegativePerPage. |
| Paginator.TotalPagesAtLeastOne | src/utils/paginator/paginator.ts:53 | for perPage ≥ 1: totalPages ≥ 1, and is 1 for an empty table. Otherwise it is the least number of pages that covers total. |
| Paginator.NegativePerPage | src/utils/paginator/paginator.ts:53 | a negative perPage gives totalPages 1 when total < \|perPage\|. Otherwise it gives a negative page count, `-(total div \|perPage\|)`. |
| Paginator.PreviousPageMeaning | src/utils/paginator/paginator.ts:62 | previousPage exists exactly when page > 1, and is then page − 1. |
| Paginator.NextPageMeansMoreRows | src/utils/paginator/paginator.ts:53-63 | for any page `\|\|` lets through (every page but 0) and perPage ≥ 1: nextPage exists exactly when rows remain beyond this page (page·perPage < total), and is then page + 1. So a negative page always gets nextPage = page + 1, itself not a real page. |
| Paginator.Paginate | src/utils/paginator/paginator.ts:33-67 | data is what findMany returns for the resolved skip, take and orderBy. total is what count returns for the where. meta carries the resolved page and perPage and the derived page numbers. |
| Paginator.PageWindow | src/utils/paginator/paginator.ts:39-60 | against a table served in order, the page's data is exactly the rows `[skip, skip + perPage)`, cut at the table's end. |
| CursorPaginator.Limit | src/utils/paginator/cursor.paginator.ts:136-143 | the limit is at least 1. It is the requested limit when that is at least 1, else 1. |
| CursorPaginator.OrderBy | src/utils/paginator/cursor.paginator.ts:147-150 | two sort keys: the sort field, then id, both in the requested direction. |
| CursorPaginator.OrderByIsPrecedes | src/utils/paginator/cursor.paginator.ts:147-150 | ordering by those two keys is the lexicographic order on (sortValue, id). |
| CursorPaginator.PrecedesIrreflexive | src/utils/paginator/cursor.paginator.ts:147-150 | no row precedes itself in that order. |
| CursorPaginator.PrecedesAsymmetric | src/utils/paginator/cursor.paginator.ts:147-150 | two rows never precede each other. |
| CursorPaginator.ExistingWhere | src/utils/paginator/cursor.paginator.ts:166 | the caller's where filter, or the empty filter when there is none. |
| CursorPaginator.MergeWhereMeaning | src/utils/paginator/cursor.paginator.ts:191-196 | the merged `AND` filter holds on a row exactly when both the caller's filter and the cursor filter hold. |
| CursorPaginator.Query | src/utils/paginator/cursor.paginator.ts:143-211 | the findMany arguments, or the decode error; no contract of its own, its meaning is stated by CursorPaginator.QueryKeys, CursorPaginator.NoCursorNoError and CursorPaginator.MergeWhereMeaning. |
| CursorPaginator.QueryKeys | src/utils/paginator/cursor.paginator.ts:143-211 | the query takes limit + 1 rows, ordered by (sortField, id). Every other key of the caller's args is passed unchanged. Without a cursor the where is untouched; with one, a where filter is always set. |
| CursorPaginator.NoCursorNoError | src/utils/paginator/cursor.paginator.ts:155-211 | without a cursor, building the query never fails. |
| CursorPaginator.CursorWhere | src/utils/paginator/cursor.paginator.ts:163-188 | the `OR`/`AND` filter built from the cursor; no contract of its own, its meaning is stated by CursorPaginator.CursorWhereSelectsAfter and CursorPaginator.DecodedCursorSelectsAlike. |
| CursorPaginator.CursorWhereSelectsAfter | src/utils/paginator/cursor.paginator.ts:163-188 | on a row whose columns have the cursor's types, the cursor filter selects exactly the rows after the cursor in the sort order. |
| CursorPaginator.DecodedCursorSelectsAlike | src/utils/paginator/cursor.paginator.ts:155-188 | a cursor that went through encoding and decoding selects the same rows as the original. A Date sort value comes back as its ISO string and is read again as a date. |
| CursorPaginator.DecodedOperandsAlike | src/utils/paginator/cursor.paginator.ts:172-182 | a decoded operand, read at its column's type, equals the original operand read at that type, unless a Date operand meets a column that is not a date. |
| CursorPaginator.ResumeAfterCursor | src/utils/paginator/cursor.paginator.ts:155-233 | on a table strictly ordered by (sortField, id), the decoded cursor of row k selects exactly the rows after k. |
| CursorPaginator.PageData | src/utils/paginator/cursor.paginator.ts:217-220 | with more than limit rows fetched, data is the first limit rows; otherwise it is all of them. It never holds more than limit rows. |
| CursorPaginator.NextCursor | src/utils/paginator/cursor.paginator.ts:226-233 | nextCursor is set exactly when there is a next page and data is non-empty. It is then the encoded cursor of the last row. |
| CursorPaginator.PreviousCursor | src/utils/paginator/cursor.paginator.ts:238-245 | previousCursor is set exactly when a cursor was given and data is non-empty. It is then the encoded cursor of the first row. |
| CursorPaginator.Page | src/utils/paginator/cursor.paginator.ts:214-258 | the result holds the data, the limit and the two cursors. hasNextPage means more than limit rows came back; hasPreviousPage means a cursor was given. |
| CursorPaginator.Paginate | src/utils/paginator/cursor.paginator.ts:130-259 | the call fails exactly when a given cursor does not decode, with "Invalid cursor format". Otherwise the result is the page built from findMany's rows for the query. |
| CursorPaginator.NextCursorOfFullPage | src/utils/paginator/cursor.paginator.ts:214-233 | when there is a next page, data holds exactly limit rows, and nextCursor encodes the last of them. |
| CursorCodec.DecodeCursor | src/utils/paginator/cursor.paginator.ts:73-82 | a cursor string is accepted only if it is the base64 of the UTF-8 bytes of a text that reads as the returned cursor; every failure carries the message "Invalid cursor format". |
| CursorCodec.EncodeCursor | src/utils/paginator/cursor.paginator.ts:66-68 | base64 of the UTF-8 bytes of the cursor's JSON text; no contract of its own, its meaning is stated by CursorCodec.DecodeEncodeCursor and CursorCodec.EncodeCursorInjective. |
| CursorCodec.DecodeEncodeCursor | src/utils/paginator/cursor.paginator.ts:66-82 | decoding an encoded cursor always succeeds. It gives the cursor back with each Date read back as its ISO string. |
| CursorCodec.CursorRoundTrip | src/utils/paginator/cursor.paginator.ts:66-82 | a cursor without Date values survives encoding and decoding unchanged. |
| CursorCodec.DateSortValueChanges | src/utils/paginator/cursor.paginator.ts:66-82 | a Date sort value does not survive the round trip: it comes back as a string. |
| CursorCodec.EncodeCursorInjective | src/utils/paginator/cursor.paginator.ts:66-68 | two cursors without Date values that encode to the same text are equal. |
| CursorCodec.ParsedTextAccepted | src/utils/paginator/cursor.paginator.ts:73-82 | base64 of any text the cursor reader accepts decodes to exactly the cursor read from it. |
| CursorCodec.NonCursorTextRejected | src/utils/paginator/cursor.paginator.ts:73-82 | with the model's strict reader, base64 of a text that is not a cursor object as `JSON.stringify` writes it is rejected with "Invalid cursor format" (the source rejects only text `JSON.parse` refuses; see "## Left out"). |
| CursorJson.ParseSerialize | src/utils/paginator/cursor.paginator.ts:67-77 | JSON.parse of JSON.stringify of a cursor gives the cursor back, with each Date as its ISO string. |
| CursorJson.ParseEscaped | src/utils/paginator/cursor.paginator.ts:67-77 | reading an escaped JSON string literal gives back the original string and the rest of the text. |
| Base64.DecodeEncode | src/utils/paginator/cursor.paginator.ts:67-76 | decoding the base64 of any bytes gives the bytes back. |
| Base64.EncodeDecode | src/utils/paginator/cursor.paginator.ts:67-76 | a text the strict decoder accepts re-encodes to the same text, so the accepted texts are exactly the canonical encodings. |
| Base64.EncodeLength | src/utils/paginator/cursor.paginator.ts:67 | the encoding of n bytes has 4·⌈n/3⌉ characters. |
| Utf8.DecodeEncode | src/utils/paginator/cursor.paginator.ts:67-76 | decoding the UTF-8 of any string gives the string back. |
| Utf8.EncodeDecode | src/utils/paginator/cursor.paginator.ts:73-76 | bytes the strict UTF-8 decoder accepts are exactly the encoding of the text it returns, so every accepted byte sequence has one reading. |
| Text.JoinSplit | src/filters/prisma-exception.filter.ts:57 | splitting a text on a character and joining the parts with it gives the text back. |
| Text.SplitJoin | src/exception-filters/zod-exception-filter.ts:33 | joining parts that do not contain the separator, then splitting, gives the parts back. |
| QueryModel.AtColumnType | src/utils/paginator/cursor.paginator.ts:172-182 | an ISO string compared with a DateTime column is read as that instant. Every other operand is taken as it is. |
| QueryModel.LessTransitive | src/utils/paginator/cursor.paginator.ts:147-150 | the column order used by `gt`/`lt` and by orderBy is transitive. |
| BooksService.BuildConditions | src/books/books.service.ts:13-31 | the two guarded pushes produce exactly Conditions(query): a title filter when a title is given, a category filter when a category is given, in that order. |
| BooksService.ConditionsShape | src/books/books.service.ts:13-31 | there is one condition per truthy `q` and `genre`, the search condition first and the genre condition last. With neither, the list is empty. |
| BooksService.WhereSelectsMatches | src/books/books.service.ts:15-38 | the where filter selects a book exactly when its title or author contains `q`, and its genre's keyName is `genre`, each only when given. |
| BooksService.FindManyReceives | src/books/books.service.ts:33-55 | findMany gets where, orderBy `{[sortField \|\| createdAt]: sortDirection}`, the book selection, skip and take, and nothing else. count gets only the where. |
| BooksService.BooksPageDefaults | src/books/books.service.ts:54 | a missing or zero page or perPage falls back to 1 or 10; any other value is used. |
| BooksService.FindAll | src/books/books.service.ts:12-57 | the result is the offset paginator's result for those args and options under the service's defaults. |
| Seed.LowerCharwise | prisma/seed.ts:8 | lower-casing keeps the length and maps each character on its own to its lower-case form. |
| Seed.KebabCase | prisma/seed.ts:5-11 | trim, lower-case, runs of other characters to '-', outer hyphens stripped; no contract of its own, its meaning is stated by Seed.KebabCaseIsJoinedWords, Seed.KebabCaseShape and Seed.KebabCaseIdempotent. |
| Seed.KebabCaseIsJoinedWords | prisma/seed.ts:5-11 | kebabCase is the maximal `[a-z0-9]` runs of the trimmed, lower-cased input, joined with '-'. |
| Seed.KebabCaseShape | prisma/seed.ts:9-10 | the result holds only `a-z`, `0-9` and '-', never starts or ends with '-', and has no two hyphens in a row. |
| Seed.KebabCaseEmpty | prisma/seed.ts:5-11 | the result is empty exactly when the trimmed, lower-cased input holds no `[a-z0-9]` character. |
| Seed.KebabCaseIdempotent | prisma/seed.ts:5-11 | applying kebabCase to its own result changes nothing. |
| Seed.KebabCaseKeepsAlphanumerics | prisma/seed.ts:5-11 | the `[a-z0-9]` characters of the trimmed, lower-cased input all appear in the result, in the same order. |
| Seed.WordsOfJoin | prisma/seed.ts:9 | joining alphanumeric words with '-' and splitting the result into words gives the words back. |
| Seed.KeyNameFallback | prisma/seed.ts:26 | a given keyName is used as it is; a missing one falls back to the kebabCase of the name. |
| Seed.ScienceFictionKey | prisma/seed.ts:16 | kebabCase of 'Science Fiction' is 'science-fiction', the key name the seed gives that genre. |
| ExceptionText.ExceptionMessage | src/filters/all-exception.filter.ts:53-64 | the first matching rule wins. An Error gives its message and a string gives itself. An object with a `message` property gives `String(message)`. Anything else gives "Unknown error occurred". |
| ExceptionText.ExceptionStack | src/filters/all-exception.filter.ts:66-71 | an Error with a non-empty stack gives its stack. Anything else gives "No stack trace available". The result is never empty. |
| AllExceptionFilter.Catch | src/filters/all-exception.filter.ts:32-50 | the status is always 500. The body has exactly status false, timestamp, path, statusCode 500, the extracted message and data null, with no property left undefined. The log line holds message, status and stack. |
| AllExceptionFilter.LogLineText | src/filters/all-exception.filter.ts:38-40 | the logged line reads `Exception: <message>, Status: 500, Stack: <stack>`. |
| HttpExceptionFilter.AsThrown | src/filters/http-exception.filter.ts:39-40 | an HttpException is an Error, carrying its own message and stack. |
| HttpExceptionFilter.Catch | src/filters/http-exception.filter.ts:37-55 | the reply and statusCode use the exception's own status. The body holds the extracted message and gains `stack` exactly outside production. The logger gets "message stack", with the stack as the trace. |
| HttpExceptionFilter.OwnMessageAndStack | src/filters/http-exception.filter.ts:58-76 | for an HttpException the client sees its own message. Outside production it also sees its stack, or "No stack trace available" when the stack is empty or missing. Nothing in the body is undefined. |
| PrismaExceptionFilter.StatusFor | src/filters/prisma-exception.filter.ts:27-44 | P2002 gives 409, P2003 gives 400 and P2025 gives 404. Exactly the unknown codes give 500. |
| PrismaExceptionFilter.MessageFor | src/filters/prisma-exception.filter.ts:28-43 | the message per error code, or the TypeError it throws; no contract of its own, its meaning is stated by PrismaExceptionFilter.MessageCrashes, PrismaExceptionFilter.UniqueConstraintMessage, PrismaExceptionFilter.ModelNameMessages and PrismaExceptionFilter.UnknownCodeMessage. |
| PrismaExceptionFilter.MessageCrashes | src/filters/prisma-exception.filter.ts:28-31 | the message throws a TypeError exactly for P2002 whose `meta.target` is missing or null. |
| PrismaExceptionFilter.UniqueConstraintMessage | src/filters/prisma-exception.filter.ts:30 | with target fields, the P2002 message is "\<first field\> already exists". An empty target list reads "undefined already exists". |
| PrismaExceptionFilter.ModelNameMessages | src/filters/prisma-exception.filter.ts:32-39 | P2003 and P2025 never throw. They name `meta.modelName`, or "undefined" when it is missing, followed by their fixed text. |
| PrismaExceptionFilter.UnknownCodeMessage | src/filters/prisma-exception.filter.ts:40-43 | any other code gives "Internal server error" and never throws. |
| PrismaExceptionFilter.StackTrace | src/filters/prisma-exception.filter.ts:57 | `stackTrace` is the stack split into lines, or undefined when there is no stack. |
| PrismaExceptionFilter.ErrorResponse | src/filters/prisma-exception.filter.ts:50-58 | the body as first built holds statusCode, timestamp, path, message, error = cause, data null and stackTrace. |
| PrismaExceptionFilter.Catch | src/filters/prisma-exception.filter.ts:17-61 | the filter fails exactly when the message throws. Otherwise the status is the mapped one and the body carries the mapped message, path, timestamp, cause and null data. `stackTrace` is deleted exactly in production. The log line is the code, message and stack. |
| PrismaExceptionFilter.StackTraceLines | src/filters/prisma-exception.filter.ts:57-61 | `stackTrace` is written exactly outside production when there is a stack, and its lines joined with '\n' give the stack back. |
| ZodExceptionFilter.SegmentTexts | src/exception-filters/zod-exception-filter.ts:33 | one text per path segment: a key as it is, an index in decimal. |
| ZodExceptionFilter.ErrorEntries | src/exception-filters/zod-exception-filter.ts:32-35 | one `{path, message}` entry per issue, in issue order. |
| ZodExceptionFilter.ErrorResponse | src/exception-filters/zod-exception-filter.ts:28-39 | the body as first built holds statusCode 400, timestamp, path, the errors, "Validation failed", data null and the stack. |
| ZodExceptionFilter.Catch | src/exception-filters/zod-exception-filter.ts:23-43 | the status is always 400. `errors` has one entry per issue, holding the joined path and the message. `stack` is deleted exactly in production. |
| ZodExceptionFilter.IndexTextHasNoDot | src/exception-filters/zod-exception-filter.ts:33 | an array index is written without a '.'. |
| ZodExceptionFilter.PathRoundTrip | src/exception-filters/zod-exception-filter.ts:33 | when no key contains a '.', splitting the joined path on '.' gives back the text of every segment. |
| ZodExceptionFilter.DottedKeyAmbiguous | src/exception-filters/zod-exception-filter.ts:33 | a key that contains a '.' is written like two keys: `['a.b']` and `['a', 'b']` give the same path. |
| ZodExceptionFilter.ItemsIndexName | src/filters/zod-exception.filter.spec.ts:163-187 | the path `['items', 0, 'name']` is written "items.0.name". |

## Left out

- Clamping of page and perPage: the paginator follows the code, which applies `||` and no clamping. A negative page or perPage passes through (see Paginator.NegativePerPage; a negative page also gets nextPage = page + 1, see Paginator.NextPageMeansMoreRows). The repository's own tests (src/utils/paginator/paginator.spec.ts:505-563, such as "should handle page 0 by defaulting to page 1" and "should handle negative limit by defaulting to limit 1") expect clamping to at least 1, but src/utils/paginator/paginator.ts:37-38 applies only `||`.
- CursorPaginator.Paginate: requires the caller's `where` to be a filter or absent, as the TypeScript type of the findMany arguments demands. It cannot state that findMany is not called on a decoding failure, because findMany is a pure function parameter here. It states instead that the result is then an error that mentions no rows.
- CursorCodec.DecodeCursor: Node's base64 and UTF-8 decoders are lenient; they skip bad characters and replace bad sequences. The model's decoders are strict, and its JSON reader accepts only the shape `JSON.stringify` writes for a cursor. Texts that Node would decode leniently into a valid cursor are rejected here.
- CursorCodec.NonCursorTextRejected: the source's `JSON.parse` accepts any JSON text. Base64 of `{}` or `{"id":"x"}` therefore decodes, and the cursor filter at src/utils/paginator/cursor.paginator.ts:168-188 gets undefined operands, which Prisma drops, so the first page is served again. Base64 of `null` throws a TypeError at `cursor.sortValue` (line 172) instead of "Invalid cursor format". The model's strict reader rejects all of these with "Invalid cursor format".
- Numbers are integers. JavaScript floating point, NaN and Infinity are not modelled. A non-integer id or sort value is out of scope.
- A column missing from a row is read as NULL. In the source it is `undefined`, which `JSON.stringify` drops from the cursor.
- Column comparison is code-point order on strings and on ISO-8601 date texts. The database's collation is not modelled.
- Seed.Lower: lower-cases ASCII letters only. Unicode case mapping is not modelled.
- Seed.KebabCaseIsJoinedWords: trimming uses the JavaScript white-space set on UTF-16 code units. Characters outside the Basic Multilingual Plane are single characters here.
- The seed script's `main` (the upserts and the book creation) is database I/O and is not modelled; only its key-name rule is.
- The offset paginator runs `findMany` and `count` under `Promise.all`. The model evaluates both as pure function parameters, so concurrency is not modelled.
- Timestamps (`new Date().toISOString()`), `request.url` and `NODE_ENV` are taken as parameters.
- The logger's transport, `httpAdapter.reply` and `response.status().json()` are I/O. The model returns the status, the body and the logged text instead. The Sentry decorator is not modelled.
- ZodExceptionFilter.Catch: the logged line `JSON.stringify(exception.issues)` is not modelled, because it serialises Zod's whole issue objects, whose fields the model does not carry.
- HttpExceptionFilter.Catch: `getStatus()` is taken as the exception's `status` field.
- Authentication, the controllers, validation pipes, the response interceptor, the decorators and the module wiring are outside the modelled core.
