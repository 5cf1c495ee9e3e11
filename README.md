# go-stations TODO API in Dafny

A model of the core of the go-stations TODO API server. It covers three pieces:

- **The TODO service.** Create, read (cursor-paginated), update and delete over the `todos` table.
- **The TODO HTTP handler.** Method dispatch, query-parameter defaults, validation, and the mapping of service results to HTTP statuses.
- **The basic-auth gate.** It admits a request only with the configured user name and password.

Modules:

- `Wrappers` (`wrappers.dfy`): `Option` and `Result`.
- `Model` (`model.dfy`): the TODO entity, the error kinds, and the request and response envelopes of the API.
- `Service` (`service.dfy`):
  - The table is a value `Table(rows, nextId)`: rows by id, plus the id the next insert receives. `WellFormed` says every id is in `[1, nextId)`, as an auto-increment key guarantees.
  - Each operation has a specification function (`CreateSpec`, `ReadSpec`, `UpdateSpec`, `DeleteSpec`) whose contract states what the service promises.
  - Lemmas about reading: `IsPage` is a declarative definition of a page, proved complete (`PageUnique`) and met by the read walk (`CursorPage`). Paging from the last returned id neither skips nor repeats rows (`ReadNextPage`).
  - A lemma shows the delete statement carries exactly one placeholder per id (`PlaceholderCount`).
  - The class `TODOService` holds the table as fields. Its methods follow the Go code statement by statement and are proved equal to the specification functions. This includes the `rows.Next()` loop of `ReadTODO` and the argument-copy loop of `DeleteTODO`.
  - What the storage engine decides on its own arrives as an `Engine` value: the timestamp it writes, whether a statement fails, whether the confirming select fails, and after how many rows a read's cursor stops on an error.
- `Http` (`http.dfy`): request and response values, as far as the handler and the gate look at them.
- `Handler` (`handler.dfy`):
  - `Decide` is what `ServeHTTP` does before calling the service: reject with 400 or 405, or invoke one service operation with given arguments.
  - `Respond` is how the service's result becomes the response.
  - `TODOHandler.ServeHTTP` is written step by step like the Go method. It is proved to be `Decide`, then the specified service operation (`Performed`), then `Respond`.
  - The `Create`, `Read`, `Update` and `Delete` wrappers are methods of `TODOHandler`. `Read` keeps its array-copy loop.
- `BasicAuth` (`auth.dfy`): the admission test `Admit` and the gate `BasicAuthMiddleware`. For each request the gate either forwards it unchanged or answers it with 401 itself.

## Model

| member | source | states |
|---|---|---|
| Service.CreateSpec | service/todo.go:26-59 | An empty subject is a constraint error with the table unchanged. Otherwise the table is unchanged or gains exactly one row under a fresh id, and it changes iff the insert succeeds. Success iff subject non-empty and neither statement fails. The returned TODO carries the new id and equals the stored row. Errors are only Constraint or Storage. |
| Service.TODOService.CreateTODO | service/todo.go:26-59 | The check, the insert, `LastInsertId` and the confirming select, step by step. New table and result equal `CreateSpec` of the old table. |
| Service.ScanSound | service/todo.go:64-65 | The `ORDER BY id DESC LIMIT` walk returns stored rows, strictly descending, all below the bound, and at most `limit` of them when the limit is non-negative. |
| Service.ScanComplete | service/todo.go:64-65 | A stored row below the bound that the walk leaves out means the walk returned exactly `limit` rows, all newer than it. |
| Service.ScanNone | service/todo.go:64-65 | The walk is empty when no row is stored below its start. |
| Service.CursorPage | service/todo.go:73-78 | With `prevID == 0` reading from the newest row, otherwise from below `prevID`, gives a page in the sense of `IsPage`: stored, descending, filtered, at most `size` rows, and the largest matching ids. |
| Service.PageTail | service/todo.go:87-94 | Dropping the first row of a page leaves the page of size - 1 that continues below that row's id. |
| Service.PageNonEmpty | service/todo.go:64-65 | A page with a non-zero limit and a matching stored row is not empty. |
| Service.PageHeadIsMax | service/todo.go:64-65 | The first row of a page is the newest matching row. |
| Service.PageUnique | service/todo.go:64-65 | Two pages for the same table, cursor and size are equal, so `IsPage` fully specifies the read. |
| Service.ScanResume | service/todo.go:64-65 | When a read of n rows returns all n of them, reading n + m rows equals reading those n rows, then m rows below the last id returned. |
| Service.PageIsScan | service/todo.go:64-65 | Any page in the sense of `IsPage` is the one the read walk from the cursor yields. |
| Service.ReadSpec | service/todo.go:62-102 | Fails, with a storage error, iff the query fails. On success the result is the beginning of a page (`PartialPage`), no longer than where the cursor stopped. Unless the cursor stopped before the page's end, it is the whole page: at most `size` rows, strictly descending ids, all below `prevID` when it is non-zero, and the largest such ids. |
| Service.TruncatedReadSucceeds | service/todo.go:88-101 | With two stored rows, a cursor that fails after the first makes the read succeed with one row, which is not the page. |
| Service.CheckedReadSpec | service/todo.go:62-102 | The read with the cursor's error checked: it succeeds exactly when the read as written yields the whole page, and then returns that page. Otherwise it is a storage error. |
| Service.NothingToRead | service/todo.go:96-101 | With no matching row a successful read is the empty list. |
| Service.PagingEnds | service/todo.go:62-102 | After a non-empty page shorter than `size`, reading on from its last id is a successful empty list: repeated paging ends. |
| Service.ReadNextPage | service/todo.go:62-102 | If a page of n rows is full, the page of m rows read with its last id as `prev_id` continues it: the two together are the page of n + m rows. |
| Service.TODOService.ReadTODO | service/todo.go:62-102 | The query, then the `rows.Next()` loop appending rows newest first until the result ends or the cursor stops, with a loop invariant tying the partial list to the walk. Equals `ReadSpec` and returns the beginning of a page. |
| Service.UpdateSpec | service/todo.go:105-144 | Id 0 is NotFound and an empty subject is a constraint error, both with no write. An id that is not stored fails and leaves the table unchanged; it is NotFound when the update statement itself succeeds. A failing update statement writes nothing and is a storage error. Otherwise, whenever the update statement succeeds, that row is written with the new subject, description and update time `Engine.now`, keeping its creation time, even if the confirming select then fails. Nothing else changes. Success iff the id is stored, the subject is non-empty and neither statement fails. A failing confirming select after the write is a storage error. The result carries the input id and equals the stored row. |
| Service.TODOService.UpdateTODO | service/todo.go:105-144 | The checks, the update, `RowsAffected` and the confirming select, step by step. New table and result equal `UpdateSpec` of the old table. |
| Service.ParamCountAppend | service/todo.go:156-159 | The number of `?` parameters of a concatenation is the sum of the parts' counts. |
| Service.RepeatParams | service/todo.go:156 | `strings.Repeat(",?", n)` carries n parameters. |
| Service.QueryCount | service/todo.go:148-159 | The statement `DELETE FROM todos WHERE id IN (?%s)` carries one parameter more than the placeholders substituted into it. |
| Service.PlaceholderCount | service/todo.go:155-159 | The delete statement built for n ≥ 1 ids has exactly n placeholders. |
| Service.NoneStored | service/todo.go:174-176 | None of the ids is stored iff the set of stored ids they hit is empty, which is when no row is affected. |
| Service.DeleteSpec | service/todo.go:147-179 | Empty ids: success and no change. A failing statement is a storage error with no change. Otherwise exactly the stored rows whose id is listed are removed and every other row keeps its value. NotFound iff none of the ids was stored. |
| Service.DeletedNeverRead | service/todo.go:147-179 | After a successful delete no read returns a deleted id. |
| Service.TODOService.DeleteTODO | service/todo.go:147-179 | The placeholder string, the statement, the loop copying ids into the argument array, the execution and the `RowsAffected` check, step by step. Equals `DeleteSpec`; the driver's placeholder/argument mismatch error is shown unreachable. |
| Service.TODOService.constructor | service/todo.go:19-23 | `NewTODOService` over the table the database holds: the service's state is that table, which must be well formed (ids below the auto-increment counter). |
| Service.TODOService.ExecInsert | service/todo.go:38-46 | A failing insert writes nothing. Otherwise the row goes in under the next id with both timestamps `Engine.now`, and that id is returned as the last insert id. |
| Service.TODOService.QueryRow | service/todo.go:48-53 | The confirming select (also at service/todo.go:134) returns the stored row, and fails when the id is absent or the select fails. |
| Service.TODOService.ExecUpdate | service/todo.go:122-130 | The update statement writes the row only when the id is stored, keeps its creation time, and reports 0 affected rows iff the id is absent. |
| Service.TODOService.ExecDelete | service/todo.go:168-176 | The delete statement fails when the placeholder count differs from the number of arguments. Otherwise it removes the listed ids and reports how many stored rows they hit. |
| Handler.Decide | handler/todo.go:27-124 | A method other than POST/GET/PUT/DELETE is 405, and 405 arises only then. Early rejections are 400 or 405. POST is rejected iff the body does not decode. GET is rejected iff a non-empty `prev_id` or `size` is not an integer; absent or empty `prev_id` gives 0 and absent or empty `size` gives 5, otherwise the parsed values are used. PUT is rejected iff decoding fails, id is 0 or the subject is empty. DELETE is rejected iff decoding fails or `ids` is empty. Otherwise the call carries the decoded request. |
| Handler.Respond | handler/todo.go:36-120 | 200 iff the service call succeeded, with the wrapper's envelope as the body. Any create error is 400, any read error 500, any update error 404. A delete NotFound is 404 and any other delete error 500. |
| Handler.TODOHandler.constructor | handler/todo.go:20-24 | `NewTODOHandler`: the handler over the given service. |
| Handler.TODOHandler.Create | handler/todo.go:127-138 | New table and result are `CreateSpec` of the old table, wrapped in `CreateTODOResponse`. |
| Handler.TODOHandler.Read | handler/todo.go:141-156 | The copy loop fills the result array with the service's list, with the same length and order; the result is `ReadSpec` wrapped, and on success the beginning of a page. |
| Handler.TODOHandler.Update | handler/todo.go:159-169 | New table and result are `UpdateSpec` of the old table, wrapped in `UpdateTODOResponse`. |
| Handler.TODOHandler.Delete | handler/todo.go:172-179 | New table and result are `DeleteSpec` of the old table, an empty envelope on success. |
| Handler.TODOHandler.ServeHTTP | handler/todo.go:27-124 | The service is called iff `Decide` does not reject. A rejection answers with `Decide`'s status and leaves the table unchanged. Otherwise the table changes as the decided service operation specifies and the response is `Respond` of its outcome. |
| Handler.ServedPage | handler/todo.go:43-77 | A GET that reaches the service leaves the table unchanged and answers 200 iff the query succeeds, even when the cursor stopped early. The body is the beginning of the page for the decided `prev_id` and `size`, and the whole page when the cursor ran to the end. Without `size` that is at most 5 rows. |
| Handler.EmptySubjectCreate | handler/todo.go:30-41 | A POST whose subject is empty reaches the service, is refused there, and answers 400 with the table unchanged. |
| Handler.UpdateUnknown | handler/todo.go:79-96 | A valid PUT of an id that is not stored answers 404 and changes nothing. |
| Handler.DeleteUnknown | handler/todo.go:98-120 | A DELETE naming no stored id changes nothing and answers 404, or 500 when the statement fails. |
| BasicAuth.Admit | handler/middleware/auth.go:11-18 | Admitted iff both configured variables are non-empty and the credentials are present and equal to exactly that pair. If either variable is unset or empty, no one is admitted (fail closed). |
| BasicAuth.BasicAuthMiddleware | handler/middleware/auth.go:8-28 | Forwards iff `Admit`, and then forwards the request unchanged to the inner handler. Otherwise answers 401 with `WWW-Authenticate: Basic realm="restricted"`. |
| BasicAuth.DecisionByCredentials | handler/middleware/auth.go:15-18 | Two requests with the same credentials get the same decision, whatever their method, query or body, and the same 401 when refused. |
| BasicAuth.AnonymousRefused | handler/middleware/auth.go:15-23 | A request without Basic credentials, or with an empty user name or password, is refused with the 401 challenge in every environment. |

## Left out

- **SQL and SQLite execution.** The `todos` table is modelled as a map from id to row. Ids come from a counter standing for SQLite's auto-increment key; the table's schema and triggers are not part of this model.
- **Timestamps.** `created_at` and `updated_at` are whatever the store writes, given as `Engine.now`.
- **Storage failures.** Driver and context errors (cancellation, a closed database) are `Engine.execFails` and `Engine.confirmFails` for a statement and a confirming select. During a read they are `Engine.cursorStop`: `rows.Next()` returns false early and the rows read so far are returned as a success (see Findings). Failures of `LastInsertId` and `RowsAffected` are not modelled; the source ignores the latter's error anyway. A `rows.Scan` failure part-way through the read loop, which the source does report, is folded into a failing query.
- **Integer width.** `int64` ids and sizes are unbounded integers, so id-counter exhaustion is not modelled. A negative `size` is read as SQLite reads a negative `LIMIT`: no limit. A `size` of 0 yields an empty page. Neither is rejected, as in the source.
- **Nil versus empty slice.** A nil slice and an empty slice cannot be told apart in the model. The read returns the empty sequence, as the source ensures at service/todo.go:97-99.
- **Concurrency.** A concurrent delete between a write and its confirming select is not modelled: each operation runs alone. That race is what `confirmFails` can stand for.
- **JSON and integer parsing.** JSON decoding of a body is given: `Body` holds the decoded value of each request type, or None when decoding fails. `strconv.Atoi` is an abstract partial function passed to `Decide`/`ServeHTTP`. Error texts written by `http.Error`, and the headers it sets, are not modelled.
- **Multi-valued query parameters.** Only the first value of each parameter is modelled, as `Query().Get` returns.
- **Error matching.** `errors.Is(err, &model.ErrNotFound{})` is modelled as recognising exactly the NotFound error kind. The `model` package is not part of this model.
- **The basic-auth environment.** It is read on every request as the source does (`os.Getenv` inside the handler function), and is passed as a map. `r.BasicAuth()` parsing of the Authorization header ("Basic" scheme of RFC 7617, section 2) is given as the `Credentials` of the request.
- **The router and `main.go`.** Route registration, server start-up and shutdown, the timezone and the database connection are not part of this model. The router does not wire the auth gate in front of the TODO handler, so no middleware chain is modelled.
- **Other middleware and handlers.** Access logging (wall-clock time and printing), panic recovery and the panic endpoint, the health check (a sleep), and the user-agent helpers in `common/os.go` are not part of this model.

## Findings

| source | as written | input that shows it | evidently intended | confidence | as-written member | corrected member |
|---|---|---|---|---|---|---|
| service/todo.go:88-101 | After the `rows.Next()` loop, `rows.Err()` is never checked. A cursor that stops on an error ends the loop like the end of the result, and the rows read so far are returned with a nil error. handler/todo.go:72-77 then answers 200 with a short list. | Rows 1 and 2 stored, `prev_id` 0, `size` 5, and the cursor fails after yielding row 2: the read succeeds with only row 2. | Check `rows.Err()` after the loop and return it, so a read either fails or returns the whole page. | medium, not executed | Service.TruncatedReadSucceeds | Service.CheckedReadSpec |

The service and the handler keep the read as written, since that is what the server does. The pagination lemmas (`PageUnique`, `ReadNextPage`) are stated about whole pages, which is what `CheckedReadSpec` returns.
