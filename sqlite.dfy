/**
 * The SQLite-backed URL store: a handle on the `url` table and the three
 * operations on it. Each operation is one atomic step of the engine. What the
 * database driver does instead of succeeding is a `Fault` argument, naming
 * the step that failed and the error the driver returned there.
 */
module Sqlite {
  import opened Outcomes
  import opened StorageErrors
  import opened UrlTable

  /** The steps of talking to the database where the driver can fail. */
  datatype Step =
    | Prepare     // opening the database or preparing the statement
    | Execute     // running the statement
    | ReadResult  // LastInsertId, RowsAffected, or reading the selected row

  datatype Fault = NoFault | FailAt(step: Step, cause: DriverError)

  /** The driver failed before the statement took effect, so the table is as it was. */
  predicate FailsBeforeResult(fault: Fault) {
    fault.FailAt? && fault.step != ReadResult
  }

  /** `CREATE TABLE IF NOT EXISTS url(...)`: an existing table is kept, an absent one is created empty. */
  function CreateIfAbsent(existing: Option<seq<Row>>): (rows: seq<Row>)
    ensures existing.Some? ==> rows == existing.value
    ensures existing.None? ==> rows == []
  {
    if existing.Some? then existing.value else []
  }

  class Storage {
    /** The live rows of the `url` table, in insertion order. */
    var rows: seq<Row>

    ghost predicate Valid()
      reads this
    {
      WellFormed(rows)
    }

    constructor Open(table: seq<Row>)
      requires WellFormed(table)
      ensures Valid() && rows == table
    {
      rows := table;
    }

    /**
     * Inserts (urlToSave, alias). A duplicate alias is rejected by the UNIQUE
     * constraint and reported as URLExists with the table unchanged; a fresh
     * alias gets a new row whose id no live row holds. A failure while
     * preparing or running the INSERT leaves the table unchanged; a failure
     * of LastInsertId comes after the row was written.
     */
    method SaveURL(urlToSave: string, alias: string, fault: Fault) returns (r: Result<int, StorageError>)
      requires Valid()
      modifies this
      ensures Valid()
      ensures FailsBeforeResult(fault) ==>
                rows == old(rows) &&
                r == Err(if fault.step == Prepare then StorageFailure(fault.cause)
                         else ClassifyInsertError(fault.cause))
      ensures !FailsBeforeResult(fault) && HasAlias(old(rows), alias) ==>
                rows == old(rows) && r == Err(URLExists)
      ensures !FailsBeforeResult(fault) && !HasAlias(old(rows), alias) ==>
                rows == Inserted(old(rows), alias, urlToSave) &&
                r == (if fault.NoFault? then Ok(rows[|old(rows)|].id) else Err(StorageFailure(fault.cause)))
      ensures r.Ok? ==> !HasId(old(rows), r.value) && Find(rows, alias) == Some(Row(r.value, alias, urlToSave))
    {
      if fault.FailAt? && fault.step == Prepare {
        return Err(StorageFailure(fault.cause));
      }
      var execError: Option<DriverError>;
      if fault.FailAt? && fault.step == Execute {
        execError := Some(fault.cause);
      } else if HasAlias(rows, alias) {
        execError := Some(UniqueViolation);
      } else {
        execError := None;
      }
      if execError.Some? {
        return Err(ClassifyInsertError(execError.value));
      }
      InsertKeepsWellFormed(rows, alias, urlToSave);
      SaveThenGet(rows, alias, urlToSave);
      var id := NextRowId(rows);
      rows := Inserted(rows, alias, urlToSave);
      if fault.FailAt? {
        return Err(StorageFailure(fault.cause));
      }
      return Ok(id);
    }

    /**
     * Looks up the URL saved under `alias`. Without a fault it returns that
     * URL when the alias is present and URLNotFound when it is not; a failure
     * while preparing is a storage failure, and a failure while running the
     * query or reading its row is classified by ClassifyQueryError. The table
     * is never changed.
     */
    method GetURL(alias: string, fault: Fault) returns (r: Result<string, StorageError>)
      requires Valid()
      ensures fault.NoFault? ==> (r.Ok? <==> HasAlias(rows, alias))
      ensures fault.NoFault? && r.Ok? ==>
                exists i :: 0 <= i < |rows| && rows[i].alias == alias && rows[i].url == r.value
      ensures fault.NoFault? && r.Err? ==> r.error == URLNotFound
      ensures fault.NoFault? ==>
                r == (if Find(rows, alias).Some? then Ok(Find(rows, alias).value.url) else Err(URLNotFound))
      ensures fault.FailAt? ==>
                r == Err(if fault.step == Prepare then StorageFailure(fault.cause)
                         else ClassifyQueryError(fault.cause))
      ensures r != Err(URLExists)
    {
      if fault.FailAt? {
        if fault.step == Prepare {
          return Err(StorageFailure(fault.cause));
        }
        return Err(ClassifyQueryError(fault.cause));
      }
      var found := Find(rows, alias);
      if found.None? {
        return Err(ClassifyQueryError(NoRows));
      }
      return Ok(found.value.url);
    }

    /**
     * Deletes the row saved under `alias`, if any, and returns the number of
     * rows deleted: 1 when the alias was present, 0 when it was not. Deleting
     * an absent alias is a success that changes nothing. A failure while
     * preparing or running the DELETE leaves the table unchanged; a failure of
     * RowsAffected comes after the row was removed.
     */
    method DeleteURL(alias: string, fault: Fault) returns (r: Result<int, StorageError>)
      requires Valid()
      modifies this
      ensures Valid()
      ensures FailsBeforeResult(fault) ==> rows == old(rows) && r == Err(StorageFailure(fault.cause))
      ensures !FailsBeforeResult(fault) ==> rows == Without(old(rows), alias)
      ensures fault.FailAt? && fault.step == ReadResult ==> r == Err(StorageFailure(fault.cause))
      ensures fault.NoFault? ==> r == Ok(if HasAlias(old(rows), alias) then 1 else 0)
      ensures forall x :: x in old(rows) && x.alias != alias ==> x in rows
      ensures !HasAlias(old(rows), alias) ==> rows == old(rows)
    {
      if FailsBeforeResult(fault) {
        return Err(StorageFailure(fault.cause));
      }
      var affected := CountAlias(rows, alias);
      CountIsZeroOrOne(rows, alias);
      DeleteKeepsWellFormed(rows, alias);
      if !HasAlias(rows, alias) {
        DeleteAbsent(rows, alias);
      }
      rows := Without(rows, alias);
      if fault.FailAt? {
        return Err(StorageFailure(fault.cause));
      }
      return Ok(affected);
    }
  }

  /**
   * Opens the store on a database whose `url` table may already exist
   * (`existing`) and creates the table if it does not. Existing rows are all
   * kept. A failure while opening, preparing or running the CREATE statement
   * yields no store and a storage failure. `New` discards the result of the
   * CREATE statement, so it has no ReadResult step: a fault at that step
   * does not occur and is treated as no fault.
   */
  method New(existing: Option<seq<Row>>, fault: Fault) returns (r: Result<Storage, StorageError>)
    requires existing.Some? ==> WellFormed(existing.value)
    ensures FailsBeforeResult(fault) ==> r == Err(StorageFailure(fault.cause))
    ensures !FailsBeforeResult(fault) ==>
              r.Ok? && fresh(r.value) && r.value.Valid() && r.value.rows == CreateIfAbsent(existing)
  {
    if FailsBeforeResult(fault) {
      return Err(StorageFailure(fault.cause));
    }
    var s := new Storage.Open(CreateIfAbsent(existing));
    return Ok(s);
  }

  /**
   * A client of the store on a fresh database: save, look up, save the same
   * alias again, delete, look up, delete again, and save the alias anew,
   * which gets back id 1. Every outcome follows from the contracts above.
   */
  method Scenario() {
    var created := New(None, NoFault);
    var s := created.value;
    var saved := s.SaveURL("https://example.com", "ex1", NoFault);
    assert saved == Ok(1);
    var got := s.GetURL("ex1", NoFault);
    assert got == Ok("https://example.com");
    var again := s.SaveURL("https://other.com", "ex1", NoFault);
    assert again == Err(URLExists);
    var deleted := s.DeleteURL("ex1", NoFault);
    assert deleted == Ok(1);
    var gone := s.GetURL("ex1", NoFault);
    assert gone == Err(URLNotFound);
    var deletedAgain := s.DeleteURL("ex1", NoFault);
    assert deletedAgain == Ok(0);
    var resaved := s.SaveURL("https://other.com", "ex1", NoFault);
    assert resaved == Ok(1);
  }
}
