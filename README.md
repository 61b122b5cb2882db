# URL shortener: the SQLite alias store

This project models the persistence layer of a URL shortener: the `Storage`
type of `internal/storage/sqlite/sqlite.go`, which keeps one SQLite table
`url(id, alias, url)` with a UNIQUE alias and an `INTEGER PRIMARY KEY` id,
and its operations `New`, `SaveURL`, `GetURL` and `DeleteURL`.

- `outcomes.dfy` (module `Outcomes`): `Option` and `Result`, the latter
  standing for Go's `(value, error)` pair.
- `storage_errors.dfy` (module `StorageErrors`): the driver's errors
  (`sqlite3.Error` with its codes, `sql.ErrNoRows`, anything else), the
  store's error kinds `URLExists`, `URLNotFound` and `StorageFailure(cause)`,
  and the two classifications sqlite.go performs: a unique-constraint
  violation on INSERT becomes `URLExists`, "no rows" on SELECT becomes
  `URLNotFound`.
- `url_table.dfy` (module `UrlTable`): the table as a sequence of rows in
  insertion order, the schema's guarantees (`WellFormed`: aliases distinct,
  ids distinct), what each SQL statement does to the rows, how SQLite picks
  the id of a new row, and the lemmas about saving, looking up and deleting.
- `sqlite.dfy` (module `Sqlite`): the class `Storage` holding the rows, its
  methods, `New`, and a client method `Scenario` that runs save, lookup,
  duplicate save, delete, lookup, delete again and save again on a fresh
  database and proves each outcome from the contracts alone.

Each operation is one atomic step. The database driver's behaviour is a
`Fault` argument: no fault, or a failure at one step (opening/preparing,
running the statement, or reading its result) with the error the driver
returned. A failure while preparing or running leaves the table unchanged.
A failure of `LastInsertId` or `RowsAffected` comes after the statement ran,
so, as in the code, the row is already inserted or deleted although the
caller receives an error.

Behaviour of the code worth knowing:
- The id column is `INTEGER PRIMARY KEY` without `AUTOINCREMENT`, so a new
  row gets one more than the largest live id (1 on an empty table). An id
  can be handed out again after the newest row is deleted
  (`UrlTable.NewestIdReused`; `Sqlite.Scenario` saves "ex1" twice with a
  delete in between and gets id 1 both times). The only promise is that a
  new id differs from every live id.
- The comment at sqlite.go:38-39 says alias and url cannot be empty, but the
  schema at sqlite.go:44-45 declares them only `NOT NULL`, and Go strings are
  never nil: empty aliases and URLs are stored like any other, and the model
  has no precondition against them.
- A failure in `New` is the driver's error wrapped with the operation name;
  it is modelled as `StorageFailure` carrying that cause.
- `GetURL` never changes the table: the method has no `modifies` clause.

## Model

| member | source | states |
|---|---|---|
| `StorageErrors.ClassifyInsertError` | internal/storage/sqlite/sqlite.go:81-89 | a failed INSERT is URLExists exactly when the driver error is a sqlite3.Error with extended code SQLITE_CONSTRAINT_UNIQUE; every other error is a StorageFailure carrying that cause, never URLNotFound |
| `StorageErrors.ClassifyQueryError` | internal/storage/sqlite/sqlite.go:120-127 | a failed lookup is URLNotFound exactly when the error is "no rows"; every other error is a StorageFailure carrying that cause, never URLExists |
| `UrlTable.Find` | internal/storage/sqlite/sqlite.go:111-119 | the row QueryRow selects is a row of the table with the requested alias, and there is none exactly when no row has that alias |
| `UrlTable.CountAlias` | internal/storage/sqlite/sqlite.go:138-148 | the rows-affected count of DELETE is zero exactly when no row has the alias, and never exceeds the table size |
| `UrlTable.Without` | internal/storage/sqlite/sqlite.go:138 | DELETE by alias keeps exactly the rows with another alias and removes as many rows as it reports affected |
| `UrlTable.MaxId` | internal/storage/sqlite/sqlite.go:43 | the largest id is the id of some row and no row has a larger one |
| `UrlTable.NextRowId` | internal/storage/sqlite/sqlite.go:43 | a new rowid is larger than every live id (so no live row holds it), is 1 on an empty table and otherwise one more than a live id |
| `UrlTable.Inserted` | internal/storage/sqlite/sqlite.go:73-80 | a successful INSERT appends one row with the given alias and url and an id no live row holds, leaving the earlier rows as they were |
| `UrlTable.InsertKeepsWellFormed` | internal/storage/sqlite/sqlite.go:44 | an INSERT of an alias not yet present keeps aliases and ids distinct |
| `UrlTable.DeleteKeepsWellFormed` | internal/storage/sqlite/sqlite.go:138 | a DELETE keeps aliases and ids distinct |
| `UrlTable.CountIsZeroOrOne` | internal/storage/sqlite/sqlite.go:138-148 | with unique aliases DELETE affects exactly one row when the alias is present and none otherwise |
| `UrlTable.FindsTheRow` | internal/storage/sqlite/sqlite.go:111-119 | with unique aliases the lookup by a row's alias returns that row |
| `UrlTable.FindAfterAppend` | internal/storage/sqlite/sqlite.go:73-80 | after an INSERT, an alias that was present still yields its old row, the new alias yields the new row, and any other alias yields nothing |
| `UrlTable.SaveThenGet` | internal/storage/sqlite/sqlite.go:73-131 | round trip: after saving a fresh alias, looking it up returns the row with the URL just saved and the id assigned |
| `UrlTable.FindAfterDelete` | internal/storage/sqlite/sqlite.go:111-138 | after deleting an alias, looking it up finds nothing and every other alias yields what it did before |
| `UrlTable.DeleteAbsent` | internal/storage/sqlite/sqlite.go:138-148 | deleting an alias that is not present leaves the table unchanged |
| `UrlTable.DeleteTwice` | internal/storage/sqlite/sqlite.go:138-148 | a repeated delete changes nothing and affects zero rows |
| `UrlTable.NewestIdReused` | internal/storage/sqlite/sqlite.go:42-45 | deleting the row just saved restores the table, and saving the alias again receives the same id: ids are not reserved |
| `Sqlite.CreateIfAbsent` | internal/storage/sqlite/sqlite.go:41-47 | creating the table if absent keeps every existing row and yields an empty table otherwise |
| `Sqlite.New` | internal/storage/sqlite/sqlite.go:24-63 | a driver failure while opening, preparing or creating yields a StorageFailure with its cause and no store; otherwise a new valid store over the existing rows, or an empty table |
| `Sqlite.Storage.Open` | internal/storage/sqlite/sqlite.go:62 | the store wraps a table that satisfies the schema's uniqueness |
| `Sqlite.Storage.SaveURL` | internal/storage/sqlite/sqlite.go:68-101 | keeps aliases and ids unique; a duplicate alias is URLExists with the table unchanged; a fresh alias appends one row whose id no live row held and which GetURL then finds; failures before the INSERT change nothing and are classified; a LastInsertId failure reports StorageFailure after the row was written |
| `Sqlite.Storage.GetURL` | internal/storage/sqlite/sqlite.go:106-132 | without a fault it succeeds exactly when the alias is present, with the URL of the row the lookup selects (so a SaveURL that succeeded is followed by a GetURL returning the saved URL), and otherwise is URLNotFound; driver failures are StorageFailure except "no rows"; never URLExists |
| `Sqlite.Storage.DeleteURL` | internal/storage/sqlite/sqlite.go:135-149 | keeps the uniqueness invariant; removes exactly the rows with the alias and keeps all others; succeeds with 1 when the alias was present and 0 (table unchanged) when not; failures before the DELETE change nothing; a RowsAffected failure reports StorageFailure after the row was removed |

## Left out

- SQL text, statement preparation and the sqlite3 driver itself: each statement is modelled by its effect on the rows, and the driver's failures by the `Fault` argument.
- The schema string passes `CREATE TABLE` and `CREATE INDEX` (followed by a stray `)`) to one `Prepare`; SQL parsing is not modelled, and the index only affects lookup speed, so the model has the table alone.
- The storage path and the database file: `New` takes the table's prior contents (or its absence) as an argument.
- `UrlTable.NextRowId`: ids are unbounded integers; the case where the largest id is 9223372036854775807, in which SQLite picks a random unused id or fails with SQLITE_FULL, is not modelled.
- `Sqlite.Storage.SaveURL`, `Sqlite.Storage.GetURL`, `Sqlite.Storage.DeleteURL`: the placeholder Go returns beside an error (SaveURL's `0` id, GetURL's `""`, DeleteURL's `0` count) is not modelled; an error is a `Result.Err` without a value.
- Error message text, the `op` prefix added with `fmt.Errorf`, and matching through wrapped errors with `errors.Is`: only error kinds are modelled (`URLNotFound` is returned unwrapped in the code, the others wrapped).
- Concurrency, connection pooling and the atomicity of concurrent saves: delegated to SQLite; each operation is one atomic step.
- `cmd/url-shortener/main.go` (router, middleware, HTTP server, `os.Exit`, logger selection), `internal/config/config.go` (environment and YAML loading) and `internal/http-server/middleware/logger/logger.go` (request logging): wiring and I/O without invariants of their own.
- `internal/storage/storage.go`, which declares the sentinel errors, is not part of this model; its two sentinels are the `URLExists` and `URLNotFound` kinds.
