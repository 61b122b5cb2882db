/**
 * The `url` table the store keeps in SQLite: rows of (id, alias, url) in
 * insertion order, with the UNIQUE constraint on `alias` and the
 * `INTEGER PRIMARY KEY` rowid on `id`. The functions below give what the
 * three SQL statements of the store do to it, and the lemmas state what the
 * store's callers rely on.
 */
module UrlTable {
  import opened Outcomes

  /** One record: the rowid, the alias (unique) and the URL it stands for. */
  datatype Row = Row(id: int, alias: string, url: string)

  predicate HasAlias(rows: seq<Row>, alias: string) {
    exists i :: 0 <= i < |rows| && rows[i].alias == alias
  }

  predicate HasId(rows: seq<Row>, id: int) {
    exists i :: 0 <= i < |rows| && rows[i].id == id
  }

  /** The UNIQUE constraint on `alias`: no two rows share an alias. */
  predicate AliasesUnique(rows: seq<Row>) {
    forall i, j :: 0 <= i < j < |rows| ==> rows[i].alias != rows[j].alias
  }

  /** The PRIMARY KEY on `id`: no two rows share an id. */
  predicate IdsUnique(rows: seq<Row>) {
    forall i, j :: 0 <= i < j < |rows| ==> rows[i].id != rows[j].id
  }

  /** What the schema guarantees of every state of the table. */
  predicate WellFormed(rows: seq<Row>) {
    AliasesUnique(rows) && IdsUnique(rows)
  }

  /** `SELECT url FROM url WHERE alias = ?` with QueryRow: the first matching row, if any. */
  function Find(rows: seq<Row>, alias: string): (r: Option<Row>)
    ensures r.Some? ==> r.value in rows && r.value.alias == alias
    ensures r.None? <==> !HasAlias(rows, alias)
  {
    if rows == [] then None
    else if rows[0].alias == alias then Some(rows[0])
    else
      var r := Find(rows[1..], alias);
      assert r.None? ==> forall i :: 1 <= i < |rows| ==> rows[1..][i - 1] == rows[i];
      r
  }

  /** The number of rows whose alias is `alias`: what `DELETE ... WHERE alias = ?` affects. */
  function CountAlias(rows: seq<Row>, alias: string): (n: nat)
    ensures n <= |rows|
    ensures n == 0 <==> !HasAlias(rows, alias)
  {
    if rows == [] then 0
    else
      var n := CountAlias(rows[1..], alias);
      assert n == 0 ==> forall i :: 1 <= i < |rows| ==> rows[1..][i - 1] == rows[i];
      assert HasAlias(rows[1..], alias) ==> HasAlias(rows, alias);
      (if rows[0].alias == alias then 1 else 0) + n
  }

  /** The table after `DELETE FROM url WHERE alias = ?`: every other row, in the same order. */
  function Without(rows: seq<Row>, alias: string): (r: seq<Row>)
    ensures |r| == |rows| - CountAlias(rows, alias)
    ensures forall x :: x in r <==> x in rows && x.alias != alias
  {
    if rows == [] then []
    else if rows[0].alias == alias then Without(rows[1..], alias)
    else [rows[0]] + Without(rows[1..], alias)
  }

  /** The largest id in a non-empty table. */
  function MaxId(rows: seq<Row>): (m: int)
    requires rows != []
    ensures HasId(rows, m)
    ensures forall i :: 0 <= i < |rows| ==> rows[i].id <= m
  {
    if |rows| == 1 then rows[0].id
    else
      var m := MaxId(rows[1..]);
      assert forall i :: 1 <= i < |rows| ==> rows[1..][i - 1] == rows[i];
      if rows[0].id >= m then rows[0].id else m
  }

  /**
   * The rowid SQLite gives a new row of a table without AUTOINCREMENT: one
   * more than the largest id in the table, or 1 when the table is empty.
   */
  function NextRowId(rows: seq<Row>): (id: int)
    ensures !HasId(rows, id)
    ensures forall i :: 0 <= i < |rows| ==> rows[i].id < id
    ensures rows == [] ==> id == 1
    ensures rows != [] ==> HasId(rows, id - 1)
  {
    if rows == [] then 1 else MaxId(rows) + 1
  }

  /** The table after `INSERT INTO url(url, alias) VALUES(?, ?)` succeeds. */
  function Inserted(rows: seq<Row>, alias: string, url: string): (r: seq<Row>)
    ensures |r| == |rows| + 1 && r[..|rows|] == rows
    ensures r[|rows|].alias == alias && r[|rows|].url == url
    ensures !HasId(rows, r[|rows|].id)
  {
    rows + [Row(NextRowId(rows), alias, url)]
  }

  // ----- The UNIQUE constraint is kept by every statement -----

  /** An INSERT that the UNIQUE constraint lets through keeps the table well formed. */
  lemma InsertKeepsWellFormed(rows: seq<Row>, alias: string, url: string)
    requires WellFormed(rows) && !HasAlias(rows, alias)
    ensures WellFormed(Inserted(rows, alias, url))
  {
    var r := Inserted(rows, alias, url);
    forall i, j | 0 <= i < j < |r|
      ensures r[i].alias != r[j].alias && r[i].id != r[j].id
    {
      if j == |rows| {
        assert r[i] == rows[i];
      } else {
        assert r[i] == rows[i] && r[j] == rows[j];
      }
    }
  }

  /** A DELETE keeps the table well formed. */
  lemma {:induction false} DeleteKeepsWellFormed(rows: seq<Row>, alias: string)
    requires WellFormed(rows)
    ensures WellFormed(Without(rows, alias))
  {
    if rows != [] {
      TailWellFormed(rows);
      DeleteKeepsWellFormed(rows[1..], alias);
      if rows[0].alias != alias {
        var rest := Without(rows[1..], alias);
        forall x | x in rest ensures rows[0].alias != x.alias && rows[0].id != x.id {
          HeadDiffers(rows, x);
        }
        ConsWellFormed(rows[0], rest);
      }
    }
  }

  lemma TailWellFormed(rows: seq<Row>)
    requires WellFormed(rows) && rows != []
    ensures WellFormed(rows[1..])
  {
    var tail := rows[1..];
    forall i, j | 0 <= i < j < |tail|
      ensures tail[i].alias != tail[j].alias && tail[i].id != tail[j].id
    {
      assert tail[i] == rows[i + 1] && tail[j] == rows[j + 1];
    }
  }

  lemma HeadDiffers(rows: seq<Row>, x: Row)
    requires WellFormed(rows) && rows != [] && x in rows[1..]
    ensures rows[0].alias != x.alias && rows[0].id != x.id
  {
    var m :| 0 <= m < |rows| - 1 && rows[1..][m] == x;
    assert rows[m + 1] == x;
  }

  lemma ConsWellFormed(head: Row, rest: seq<Row>)
    requires WellFormed(rest)
    requires forall x :: x in rest ==> head.alias != x.alias && head.id != x.id
    ensures WellFormed([head] + rest)
  {
    var r := [head] + rest;
    forall i, j | 0 <= i < j < |r|
      ensures r[i].alias != r[j].alias && r[i].id != r[j].id
    {
      assert r[j] == rest[j - 1];
      if i > 0 {
        assert r[i] == rest[i - 1];
      } else {
        assert rest[j - 1] in rest;
      }
    }
  }

  /** Under the UNIQUE constraint a DELETE by alias affects at most one row: exactly one when the alias is present. */
  lemma {:induction false} CountIsZeroOrOne(rows: seq<Row>, alias: string)
    requires AliasesUnique(rows)
    ensures CountAlias(rows, alias) == if HasAlias(rows, alias) then 1 else 0
  {
    if rows != [] {
      var tail := rows[1..];
      assert AliasesUnique(tail) by {
        forall i, j | 0 <= i < j < |tail| ensures tail[i].alias != tail[j].alias {
          assert tail[i] == rows[i + 1] && tail[j] == rows[j + 1];
        }
      }
      CountIsZeroOrOne(tail, alias);
      if rows[0].alias == alias {
        assert !HasAlias(tail, alias) by {
          forall i | 0 <= i < |tail| ensures tail[i].alias != alias {
            assert tail[i] == rows[i + 1];
          }
        }
      } else if HasAlias(rows, alias) {
        var i :| 0 <= i < |rows| && rows[i].alias == alias;
        assert tail[i - 1] == rows[i];
      }
    }
  }

  // ----- Lookups after each statement -----

  /** Under the UNIQUE constraint the lookup by a row's alias finds exactly that row. */
  lemma FindsTheRow(rows: seq<Row>, i: nat)
    requires AliasesUnique(rows) && i < |rows|
    ensures Find(rows, rows[i].alias) == Some(rows[i])
  {
    var found := Find(rows, rows[i].alias);
    var j :| 0 <= j < |rows| && rows[j] == found.value;
    assert j == i;
  }

  /** A lookup after an INSERT: the new row for its own alias, the old answer for any alias already present. */
  lemma {:induction false} FindAfterAppend(rows: seq<Row>, row: Row, alias: string)
    ensures Find(rows + [row], alias) ==
              if HasAlias(rows, alias) then Find(rows, alias)
              else if row.alias == alias then Some(row)
              else None
  {
    if rows == [] {
      assert [] + [row] == [row];
    } else {
      assert (rows + [row])[1..] == rows[1..] + [row];
      FindAfterAppend(rows[1..], row, alias);
      if rows[0].alias != alias && !HasAlias(rows[1..], alias) {
        assert !HasAlias(rows, alias) by {
          forall i | 0 <= i < |rows| ensures rows[i].alias != alias {
            if i > 0 { assert rows[i] == rows[1..][i - 1]; }
          }
        }
      }
    }
  }

  /** Round trip: after an INSERT of a fresh alias the lookup of that alias yields the URL just saved. */
  lemma SaveThenGet(rows: seq<Row>, alias: string, url: string)
    requires !HasAlias(rows, alias)
    ensures Find(Inserted(rows, alias, url), alias) == Some(Row(NextRowId(rows), alias, url))
  {
    FindAfterAppend(rows, Row(NextRowId(rows), alias, url), alias);
  }

  /** A lookup after a DELETE: nothing for the deleted alias, the old answer for every other alias. */
  lemma {:induction false} FindAfterDelete(rows: seq<Row>, deleted: string, alias: string)
    ensures Find(Without(rows, deleted), alias) == if alias == deleted then None else Find(rows, alias)
  {
    if rows != [] {
      FindAfterDelete(rows[1..], deleted, alias);
    }
  }

  /** Deleting an alias that is not there leaves the table as it is. */
  lemma {:induction false} DeleteAbsent(rows: seq<Row>, alias: string)
    requires !HasAlias(rows, alias)
    ensures Without(rows, alias) == rows
  {
    if rows != [] {
      assert !HasAlias(rows[1..], alias) by {
        forall i | 0 <= i < |rows| - 1 ensures rows[1..][i].alias != alias {
          assert rows[1..][i] == rows[i + 1];
        }
      }
      DeleteAbsent(rows[1..], alias);
    }
  }

  /** Repeating a DELETE changes nothing and affects no row. */
  lemma DeleteTwice(rows: seq<Row>, alias: string)
    ensures Without(Without(rows, alias), alias) == Without(rows, alias)
    ensures CountAlias(Without(rows, alias), alias) == 0
  {
    var once := Without(rows, alias);
    assert !HasAlias(once, alias) by {
      forall i | 0 <= i < |once| ensures once[i].alias != alias {
        assert once[i] in once;
      }
    }
    DeleteAbsent(once, alias);
  }

  /**
   * Ids are not reserved: deleting the newest row and saving again hands
   * out the id the deleted row had, since the next rowid depends only on
   * the rows still in the table.
   */
  lemma NewestIdReused(rows: seq<Row>, alias: string, url: string, again: string)
    requires !HasAlias(rows, alias)
    ensures Without(Inserted(rows, alias, url), alias) == rows
    ensures var later := Inserted(Without(Inserted(rows, alias, url), alias), alias, again);
            later[|rows|].id == Inserted(rows, alias, url)[|rows|].id
  {
    var row := Row(NextRowId(rows), alias, url);
    DeleteAbsent(rows, alias);
    WithoutAppend(rows, row, alias);
  }

  lemma {:induction false} WithoutAppend(rows: seq<Row>, row: Row, alias: string)
    ensures Without(rows + [row], alias) ==
              Without(rows, alias) + (if row.alias == alias then [] else [row])
  {
    var last := if row.alias == alias then [] else [row];
    if rows == [] {
      assert [] + [row] == [row];
    } else {
      var rest := rows[1..];
      assert rows + [row] == [rows[0]] + (rest + [row]);
      assert rows == [rows[0]] + rest;
      WithoutCons(rows[0], rest + [row], alias);
      WithoutCons(rows[0], rest, alias);
      WithoutAppend(rest, row, alias);
      if rows[0].alias != alias {
        AppendAssociates([rows[0]], Without(rest, alias), last);
      }
    }
  }

  lemma WithoutCons(head: Row, tail: seq<Row>, alias: string)
    ensures Without([head] + tail, alias) ==
              (if head.alias == alias then [] else [head]) + Without(tail, alias)
  {
    assert ([head] + tail)[1..] == tail;
  }

  lemma AppendAssociates<T>(a: seq<T>, b: seq<T>, c: seq<T>)
    ensures a + (b + c) == (a + b) + c
  {
  }
}
