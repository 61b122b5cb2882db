/**
 * The error kinds the SQLite store reports, the driver errors they are made
 * from, and the two places where sqlite.go turns a driver error into a
 * domain error.
 */
module StorageErrors {

  /** Primary result code SQLITE_CONSTRAINT. */
  const ErrConstraint: int := 19
  /** Extended result code SQLITE_CONSTRAINT_UNIQUE: SQLITE_CONSTRAINT | (8 << 8). */
  const ErrConstraintUnique: int := 2067

  /**
   * An error as the database layer hands it to the store: a `sqlite3.Error`
   * with its primary and extended codes, the `sql.ErrNoRows` sentinel of
   * `database/sql`, or any other error (I/O, a closed handle, ...).
   */
  datatype DriverError =
    | SqliteError(code: int, extendedCode: int)
    | NoRows
    | OtherError(message: string)

  /** What SQLite reports for an INSERT whose alias is already in the table. */
  const UniqueViolation: DriverError := SqliteError(ErrConstraint, ErrConstraintUnique)

  /**
   * The error kinds a caller of the store can tell apart: the sentinels
   * `storage.ErrURLExists` and `storage.ErrURLNotFound`, and every other
   * failure, which is passed on wrapped with the cause it came from.
   */
  datatype StorageError =
    | URLExists
    | URLNotFound
    | StorageFailure(cause: DriverError)

  predicate IsUniqueViolation(e: DriverError) {
    e.SqliteError? && e.extendedCode == ErrConstraintUnique
  }

  /**
   * The classification of a failed INSERT: a `sqlite3.Error` whose extended
   * code is the unique-constraint code becomes URLExists; any other error,
   * including other constraint violations, stays a storage failure carrying
   * its cause.
   */
  function ClassifyInsertError(e: DriverError): (r: StorageError)
    ensures r == URLExists <==> IsUniqueViolation(e)
    ensures r != URLExists ==> r == StorageFailure(e)
    ensures r != URLNotFound
  {
    if IsUniqueViolation(e) then URLExists else StorageFailure(e)
  }

  /**
   * The classification of a failed lookup: "no rows" becomes URLNotFound,
   * returned unwrapped; any other error stays a storage failure carrying its
   * cause.
   */
  function ClassifyQueryError(e: DriverError): (r: StorageError)
    ensures r == URLNotFound <==> e == NoRows
    ensures r != URLNotFound ==> r == StorageFailure(e)
    ensures r != URLExists
  {
    if e == NoRows then URLNotFound else StorageFailure(e)
  }
}
