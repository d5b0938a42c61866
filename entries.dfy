/**
 * One row of the `white_list` table and the pure queries over a table
 * held as a sequence of rows in ascending ROWID order: which rows are
 * expired, which survive a cleanup, which survive deleting one id, and
 * which ROWID the next insert receives.
 */
module Entries {

  /** `(ROWID, ip, label, expiration)`, the label held in `labelText`; an expiration of 0 means "never". */
  datatype Row = Row(id: int, ip: string, labelText: string, expiration: int)

  /** The WHERE clause of the cleanup: `expiration > 0 AND expiration < now`. */
  predicate IsExpired(r: Row, now: int)
  {
    r.expiration > 0 && r.expiration < now
  }

  /** SQLite's INTEGER range: `sqlite3` raises OverflowError when asked to bind an int outside it. */
  const Int64Min: int := -0x8000_0000_0000_0000
  const Int64Max: int := 0x7fff_ffff_ffff_ffff

  predicate FitsInt64(x: int)
  {
    Int64Min <= x <= Int64Max
  }

  /** A table as SQLite scans it: ROWIDs positive and strictly ascending. */
  predicate WellFormed(rows: seq<Row>)
  {
    (forall i :: 0 <= i < |rows| ==> rows[i].id >= 1) &&
    (forall i, j :: 0 <= i < j < |rows| ==> rows[i].id < rows[j].id)
  }

  /** The rows `select_expired` returns, in table order. */
  function ExpiredRows(rows: seq<Row>, now: int): (r: seq<Row>)
    ensures forall x :: x in r <==> x in rows && IsExpired(x, now)
    ensures |r| <= |rows|
  {
    if rows == [] then []
    else if IsExpired(rows[0], now) then [rows[0]] + ExpiredRows(rows[1..], now)
    else ExpiredRows(rows[1..], now)
  }

  /** The rows `delete_expired` leaves in the table, in table order. */
  function LiveRows(rows: seq<Row>, now: int): (r: seq<Row>)
    ensures forall x :: x in r <==> x in rows && !IsExpired(x, now)
    ensures |r| <= |rows|
  {
    if rows == [] then []
    else if IsExpired(rows[0], now) then LiveRows(rows[1..], now)
    else [rows[0]] + LiveRows(rows[1..], now)
  }

  /** Every row is either expired or kept: the two counts add up to the table's size. */
  lemma {:induction false} ExpiredLiveCount(rows: seq<Row>, now: int)
    ensures |ExpiredRows(rows, now)| + |LiveRows(rows, now)| == |rows|
  {
    if rows != [] {
      ExpiredLiveCount(rows[1..], now);
    }
  }

  /** A row with expiration 0 (or below) is never expired and always survives a cleanup. */
  lemma PermanentRowsSurvive(rows: seq<Row>, now: int, x: Row)
    requires x in rows && x.expiration <= 0
    ensures x !in ExpiredRows(rows, now) && x in LiveRows(rows, now)
  {
  }

  /** The cleanup removes nothing exactly when no row is expired. */
  lemma {:induction false} LiveRowsUnchanged(rows: seq<Row>, now: int)
    ensures LiveRows(rows, now) == rows <==> ExpiredRows(rows, now) == []
  {
    ExpiredLiveCount(rows, now);
    if ExpiredRows(rows, now) == [] {
      NothingExpiredKeepsAll(rows, now);
    }
  }

  lemma {:induction false} NothingExpiredKeepsAll(rows: seq<Row>, now: int)
    requires ExpiredRows(rows, now) == []
    ensures LiveRows(rows, now) == rows
  {
    if rows != [] {
      assert rows[0] !in ExpiredRows(rows, now);
      assert ExpiredRows(rows[1..], now) == [];
      NothingExpiredKeepsAll(rows[1..], now);
    }
  }

  /** The rows after the first of a table are a table whose ids all exceed the first one's. */
  lemma TailWellFormed(rows: seq<Row>)
    requires WellFormed(rows) && rows != []
    ensures WellFormed(rows[1..])
    ensures forall x :: x in rows[1..] ==> rows[0].id < x.id
  {
    forall x | x in rows[1..] ensures rows[0].id < x.id {
      var k :| 0 <= k < |rows[1..]| && rows[1..][k] == x;
      assert rows[k + 1] == x;
    }
  }

  /** A row whose positive id is below every id of a table can go in front of it. */
  lemma ConsWellFormed(first: Row, rest: seq<Row>)
    requires WellFormed(rest) && first.id >= 1
    requires forall x :: x in rest ==> first.id < x.id
    ensures WellFormed([first] + rest)
  {
    var rows := [first] + rest;
    forall i, j | 0 <= i < j < |rows| ensures rows[i].id < rows[j].id {
      if i == 0 {
        assert rows[j] in rest;
      } else {
        assert rows[i] == rest[i - 1] && rows[j] == rest[j - 1];
      }
    }
  }

  /** A cleanup keeps the surviving rows in their original order. */
  lemma {:induction false} LiveRowsWellFormed(rows: seq<Row>, now: int)
    requires WellFormed(rows)
    ensures WellFormed(LiveRows(rows, now))
  {
    if rows != [] {
      TailWellFormed(rows);
      LiveRowsWellFormed(rows[1..], now);
      var rest := LiveRows(rows[1..], now);
      if !IsExpired(rows[0], now) {
        ConsWellFormed(rows[0], rest);
      }
    }
  }

  /** `select_expired` lists its rows in table order too. */
  lemma {:induction false} ExpiredRowsWellFormed(rows: seq<Row>, now: int)
    requires WellFormed(rows)
    ensures WellFormed(ExpiredRows(rows, now))
  {
    if rows != [] {
      TailWellFormed(rows);
      ExpiredRowsWellFormed(rows[1..], now);
      var rest := ExpiredRows(rows[1..], now);
      if IsExpired(rows[0], now) {
        ConsWellFormed(rows[0], rest);
      }
    }
  }

  /**
   * Sweeping at `t1` and then at a later `t2` leaves what one sweep at `t2`
   * leaves: a row expired at `t1` is still expired at `t2`.
   */
  lemma {:induction false} LiveRowsLater(rows: seq<Row>, t1: int, t2: int)
    requires t1 <= t2
    ensures LiveRows(LiveRows(rows, t1), t2) == LiveRows(rows, t2)
  {
    if rows != [] {
      LiveRowsLater(rows[1..], t1, t2);
    }
  }

  /** The rows `DELETE ... WHERE ROWID = id` leaves, in table order. */
  function WithoutId(rows: seq<Row>, id: int): (r: seq<Row>)
    ensures forall x :: x in r <==> x in rows && x.id != id
    ensures |r| <= |rows|
  {
    if rows == [] then []
    else if rows[0].id == id then WithoutId(rows[1..], id)
    else [rows[0]] + WithoutId(rows[1..], id)
  }

  /** Deleting an id that no row carries leaves the table as it was. */
  lemma {:induction false} WithoutAbsentId(rows: seq<Row>, id: int)
    requires forall i :: 0 <= i < |rows| ==> rows[i].id != id
    ensures WithoutId(rows, id) == rows
  {
    if rows != [] {
      WithoutAbsentId(rows[1..], id);
    }
  }

  /** Deleting an id keeps the other rows in their order. */
  lemma {:induction false} WithoutIdWellFormed(rows: seq<Row>, id: int)
    requires WellFormed(rows)
    ensures WellFormed(WithoutId(rows, id))
  {
    if rows != [] {
      TailWellFormed(rows);
      WithoutIdWellFormed(rows[1..], id);
      var rest := WithoutId(rows[1..], id);
      if rows[0].id != id {
        ConsWellFormed(rows[0], rest);
      }
    }
  }

  /** In a well-formed table an id names at most one row, so a delete removes at most one row. */
  lemma {:induction false} WithoutIdCount(rows: seq<Row>, id: int)
    requires WellFormed(rows)
    ensures |WithoutId(rows, id)| == |rows| - (if exists i :: 0 <= i < |rows| && rows[i].id == id then 1 else 0)
  {
    if rows != [] {
      WithoutIdCount(rows[1..], id);
      if rows[0].id == id {
        WithoutAbsentId(rows[1..], id);
      } else {
        assert (exists i :: 0 <= i < |rows| && rows[i].id == id) <==>
               (exists i :: 0 <= i < |rows[1..]| && rows[1..][i].id == id) by {
          if exists i :: 0 <= i < |rows| && rows[i].id == id {
            var i :| 0 <= i < |rows| && rows[i].id == id;
            assert rows[1..][i - 1].id == id;
          }
          if exists i :: 0 <= i < |rows[1..]| && rows[1..][i].id == id {
            var i :| 0 <= i < |rows[1..]| && rows[1..][i].id == id;
            assert rows[i + 1].id == id;
          }
        }
      }
    }
  }

  /** The largest ROWID in use. */
  function MaxId(rows: seq<Row>): (m: int)
    requires rows != []
    ensures exists i :: 0 <= i < |rows| && rows[i].id == m
    ensures forall i :: 0 <= i < |rows| ==> rows[i].id <= m
  {
    if |rows| == 1 then rows[0].id
    else
      var rest := MaxId(rows[1..]);
      assert forall i :: 1 <= i < |rows| ==> rows[i] == rows[1..][i - 1];
      if rows[0].id >= rest then rows[0].id else rest
  }

  /**
   * The ROWID SQLite gives a new row of a table without AUTOINCREMENT:
   * one more than the largest ROWID in use, or 1 for an empty table.
   */
  function NextId(rows: seq<Row>): (id: int)
    ensures forall i :: 0 <= i < |rows| ==> rows[i].id < id
    ensures WellFormed(rows) ==> id >= 1
    ensures rows == [] ==> id == 1
  {
    if rows == [] then 1 else MaxId(rows) + 1
  }

  /** In ROWID order the largest id is the last one. */
  lemma NextIdOfWellFormed(rows: seq<Row>)
    requires WellFormed(rows) && rows != []
    ensures NextId(rows) == rows[|rows| - 1].id + 1
  {
  }

  /** Appending a row with the next id keeps the table well formed. */
  lemma AppendWellFormed(rows: seq<Row>, ip: string, labelText: string, expiration: int)
    requires WellFormed(rows)
    ensures WellFormed(rows + [Row(NextId(rows), ip, labelText, expiration)])
  {
  }

  /**
   * ROWIDs are reused: after the newest row is deleted, the next insert
   * receives that row's id again.
   */
  lemma NewestIdReused(rows: seq<Row>, ip: string, labelText: string, expiration: int)
    requires WellFormed(rows)
    ensures var id := NextId(rows);
      NextId(WithoutId(rows + [Row(id, ip, labelText, expiration)], id)) == id
  {
    var id := NextId(rows);
    var t := rows + [Row(id, ip, labelText, expiration)];
    assert forall i :: 0 <= i < |rows| ==> t[i] == rows[i];
    WithoutAbsentId(rows, id);
    WithoutIdAppend(rows, Row(id, ip, labelText, expiration));
    if rows != [] {
      NextIdOfWellFormed(rows);
    }
  }

  lemma {:induction false} WithoutIdAppend(rows: seq<Row>, x: Row)
    ensures WithoutId(rows + [x], x.id) == WithoutId(rows, x.id)
  {
    if rows == [] {
      assert [x][1..] == [];
    } else {
      assert (rows + [x])[1..] == rows[1..] + [x];
      WithoutIdAppend(rows[1..], x);
    }
  }
}
