/**
 * `AlohomoraDatabase`: the `white_list` table, held in memory as its rows
 * in ascending ROWID order. The clock reading `int(time.time())` that the
 * expiry queries use is the parameter `now`.
 */
module Store {
  import opened Entries

  class AlohomoraDatabase {
    var rows: seq<Row>

    ghost predicate Valid()
      reads this
    {
      WellFormed(rows)
    }

    /** Opens a database file whose table already holds `existing` (empty for a new file). */
    constructor (existing: seq<Row>)
      requires WellFormed(existing)
      ensures Valid() && rows == existing
    {
      rows := existing;
    }

    /** `SELECT ROWID, ip, label, expiration FROM white_list`: every row, in ROWID order. */
    method Select() returns (r: seq<Row>)
      requires Valid()
      ensures r == rows && WellFormed(r)
    {
      r := rows;
    }

    /** The rows with `expiration > 0 AND expiration < now`, in ROWID order. */
    method SelectExpired(now: int) returns (r: seq<Row>)
      requires Valid()
      ensures r == ExpiredRows(rows, now)
      ensures forall x :: x in r <==> x in rows && x.expiration > 0 && x.expiration < now
      ensures WellFormed(r)
    {
      r := ExpiredRows(rows, now);
      ExpiredRowsWellFormed(rows, now);
    }

    /**
     * Appends one row; SQLite assigns it the next ROWID. An expiration
     * outside SQLite's INTEGER range cannot be bound: the statement raises
     * (`bound` is false) and nothing is written.
     */
    method Insert(ip: string, labelText: string, expiration: int) returns (bound: bool)
      requires Valid()
      modifies this
      ensures Valid()
      ensures bound <==> FitsInt64(expiration)
      ensures bound ==> rows == old(rows) + [Row(NextId(old(rows)), ip, labelText, expiration)]
      ensures !bound ==> rows == old(rows)
      ensures forall x :: x in old(rows) ==> x.id != NextId(old(rows))
    {
      bound := FitsInt64(expiration);
      if bound {
        AppendWellFormed(rows, ip, labelText, expiration);
        rows := rows + [Row(NextId(rows), ip, labelText, expiration)];
      }
    }

    /**
     * `DELETE FROM white_list WHERE ROWID = rowid`; an absent id changes
     * nothing. An id outside SQLite's INTEGER range cannot be bound: the
     * statement raises (`bound` is false) and nothing is deleted.
     */
    method Delete(rowid: int) returns (bound: bool)
      requires Valid()
      modifies this
      ensures Valid()
      ensures bound <==> FitsInt64(rowid)
      ensures bound ==> rows == WithoutId(old(rows), rowid)
      ensures !bound ==> rows == old(rows)
      ensures (forall i :: 0 <= i < |old(rows)| ==> old(rows)[i].id != rowid) ==> rows == old(rows)
      ensures |rows| >= |old(rows)| - 1
    {
      bound := FitsInt64(rowid);
      if !bound {
        return;
      }
      WithoutIdWellFormed(rows, rowid);
      WithoutIdCount(rows, rowid);
      if forall i :: 0 <= i < |rows| ==> rows[i].id != rowid {
        WithoutAbsentId(rows, rowid);
      }
      rows := WithoutId(rows, rowid);
    }

    /**
     * Deletes every expired row at once and reports whether any row went
     * (the cursor's `rowcount > 0`).
     */
    method DeleteExpired(now: int) returns (removed: bool)
      requires Valid()
      modifies this
      ensures Valid()
      ensures rows == LiveRows(old(rows), now)
      ensures removed <==> ExpiredRows(old(rows), now) != []
      ensures |old(rows)| - |rows| == |ExpiredRows(old(rows), now)|
    {
      var before := rows;
      LiveRowsWellFormed(rows, now);
      ExpiredLiveCount(rows, now);
      rows := LiveRows(rows, now);
      removed := |before| - |rows| > 0;
    }
  }
}
