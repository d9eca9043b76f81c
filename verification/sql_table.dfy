/** The SQLite `records` table shared by rdb/rdb.go and beacon.go: the same
    Record type, the same `Equals`, the same four prepared SELECT statements,
    the same `Close`, and the same checked insert transaction. */
module SqlTable {
  import opened Binary
  import opened Outcomes
  import opened Selection

  /** A row of `records (id, bits, timestamp, hash, signature)`. */
  datatype Record = Record(id: int, bits: Bytes, time: int, hash: Bytes, signature: Bytes)

  /** Go's zero Record, what `r0` holds when the tip read fails. */
  const Zero: Record := Record(0, [], 0, [], [])

  /** `Record.Equals`: two records are the same exactly when their IDs are,
      that is, when they differ at most in bits, time, hash and signature. */
  predicate Equals(r: Record, r2: Record): (same: bool)
    ensures same <==> r == r2.(bits := r.bits, time := r.time, hash := r.hash, signature := r.signature)
  {
    r.id == r2.id
  }

  /** Equals ignores bits, time, hash and signature, and is an equivalence. */
  lemma EqualsComparesIdsOnly(r: Record, bits: Bytes, time: int, hash: Bytes, signature: Bytes)
    ensures Equals(r, Record(r.id, bits, time, hash, signature))
    ensures forall r2: Record :: Equals(r, r2) <==> r2.id == r.id
    ensures forall r2: Record, r3: Record :: Equals(r, r2) && Equals(r2, r3) ==> Equals(r, r3)
  {
  }

  /** Ids of an `INTEGER PRIMARY KEY AUTOINCREMENT` table: positive, and
      increasing in row order. */
  ghost predicate IdsIncreasing(rows: seq<Record>) {
    (forall i :: 0 <= i < |rows| ==> rows[i].id > 0) &&
    (forall i, j :: 0 <= i < j < |rows| ==> rows[i].id < rows[j].id)
  }

  /** The id of the last row, or 0, the ID of the zero Record, on an empty table. */
  function LastId(rows: seq<Record>): (id: int)
    ensures rows == [] ==> id == Zero.id
  {
    if rows == [] then 0 else rows[|rows| - 1].id
  }

  /** What `New` takes from the tip read: the ID the new row must follow
      (`r0.ID`) and the link hash. */
  datatype Prepared = Prepared(prevId: int, hash: Bytes32)

  /** What the insert transaction reports, step by step: an error at each
      step that can fail, and the id the engine assigns to the new row. A
      race with a concurrent writer shows up as an assigned id other than
      the one expected. */
  datatype Replies = Replies(
    tipFault: Option<string>,        // the tip query fails other than by finding no rows
    beginFault: Option<string>,      // db.Begin
    execFault: Option<string>,       // the INSERT
    assignedId: int,                 // result.LastInsertId
    idFault: Option<string>,         // ... or its error
    rollbackFault: Option<string>,   // tx.Rollback after a race
    commitFault: Option<string>)     // tx.Commit

  function FaultError(f: Option<string>): Error
    requires f.Some?
  {
    External(f.value)
  }

  /** The `*sql.DB` handle on the records table and its prepared statements. */
  class Database {
    var rows: seq<Record>
    var closed: bool

    ghost predicate Valid()
      reads this
    {
      IdsIncreasing(rows)
    }

    constructor (rows: seq<Record>)
      requires IdsIncreasing(rows)
      ensures Valid() && this.rows == rows && !closed
    {
      this.rows := rows;
      closed := false;
    }

    /** `SELECT * FROM records ORDER BY id DESC LIMIT 1` */
    function Latest(): (r: Result<Record>)
      reads this
      ensures closed ==> r == Fail(DatabaseClosed)
      ensures !closed ==> (r == Fail(NoRows) <==> rows == [])
      ensures r.Ok? <==> !closed && rows != []
      ensures r.Ok? ==> r.value in rows && forall x :: x in rows ==> x.id <= r.value.id
    {
      if closed then Fail(DatabaseClosed)
      else OrElse(ArgMax(rows, (x: Record) => x.id, (x: Record) => true), NoRows)
    }

    /** `SELECT * FROM records WHERE id=? LIMIT 1` */
    function Select(id: int): (r: Result<Record>)
      reads this
      ensures closed ==> r == Fail(DatabaseClosed)
      ensures !closed ==> (r == Fail(NoRows) <==> forall x :: x in rows ==> x.id != id)
      ensures r.Ok? <==> !closed && exists x :: x in rows && x.id == id
      ensures r.Ok? ==> r.value in rows && r.value.id == id
    {
      if closed then Fail(DatabaseClosed)
      else OrElse(ArgMin(rows, (x: Record) => x.id, (x: Record) => x.id == id), NoRows)
    }

    /** `SELECT * FROM records WHERE timestamp>=? ORDER BY timestamp ASC LIMIT 1` */
    function After(t: int): (r: Result<Record>)
      reads this
      ensures closed ==> r == Fail(DatabaseClosed)
      ensures !closed ==> (r == Fail(NoRows) <==> forall x :: x in rows ==> x.time < t)
      ensures r.Ok? <==> !closed && exists x :: x in rows && x.time >= t
      ensures r.Ok? ==> r.value in rows && r.value.time >= t
      ensures r.Ok? ==> forall x :: x in rows && x.time >= t ==> r.value.time <= x.time
    {
      if closed then Fail(DatabaseClosed)
      else OrElse(ArgMin(rows, (x: Record) => x.time, (x: Record) => x.time >= t), NoRows)
    }

    /** `SELECT * FROM records WHERE timestamp<=? ORDER BY timestamp DESC LIMIT 1` */
    function Before(t: int): (r: Result<Record>)
      reads this
      ensures closed ==> r == Fail(DatabaseClosed)
      ensures !closed ==> (r == Fail(NoRows) <==> forall x :: x in rows ==> x.time > t)
      ensures r.Ok? <==> !closed && exists x :: x in rows && x.time <= t
      ensures r.Ok? ==> r.value in rows && r.value.time <= t
      ensures r.Ok? ==> forall x :: x in rows && x.time <= t ==> x.time <= r.value.time
    {
      if closed then Fail(DatabaseClosed)
      else OrElse(ArgMax(rows, (x: Record) => x.time, (x: Record) => x.time <= t), NoRows)
    }

    /** The tip read at the start of `New` (`rdb.Latest()` at line 209 of
        rdb/rdb.go and line 192 of beacon.go): the Latest statement, unless
        the query itself fails. */
    function TipRead(tipFault: Option<string>): (r: Result<Record>)
      reads this
      ensures tipFault.Some? ==> r == Fail(External(tipFault.value))
      ensures tipFault.None? ==> r == Latest()
    {
      if tipFault.Some? then Fail(External(tipFault.value)) else Latest()
    }

    /** `sql.DB.Close`: the handle is closed whatever happens, and the
        error the driver reports while closing its connections, if any, is
        returned. */
    method Shut(closeFault: Option<string>) returns (err: Option<Error>)
      modifies this
      ensures closed && rows == old(rows)
      ensures err.None? <==> closeFault.None?
      ensures closeFault.Some? ==> err == Some(FaultError(closeFault))
    {
      closed := true;
      err := if closeFault.Some? then Some(FaultError(closeFault)) else None;
    }
  }

  /** When the timestamps strictly increase along the table, After and
      Before at a row's own timestamp both return that row (the `after` and
      `before` checks of rdb/rdb_test.go). */
  lemma ExactTimeFindsRow(db: Database, i: int)
    requires !db.closed && 0 <= i < |db.rows|
    requires forall j, k :: 0 <= j < k < |db.rows| ==> db.rows[j].time < db.rows[k].time
    ensures db.After(db.rows[i].time) == Ok(db.rows[i])
    ensures db.Before(db.rows[i].time) == Ok(db.rows[i])
  {
    var rows, t := db.rows, db.rows[i].time;
    assert forall j :: 0 <= j < |rows| && rows[j].time == t ==> j == i;
    var a := db.After(t);
    assert rows[i] in rows;
    var ja :| 0 <= ja < |rows| && rows[ja] == a.value;
    assert a.value.time <= t;
    var b := db.Before(t);
    var jb :| 0 <= jb < |rows| && rows[jb] == b.value;
    assert b.value.time >= t;
  }

  /** With increasing ids the row of greatest id is the last one, so the
      `latest` statement reads the last row appended. */
  lemma LatestIsLast(db: Database)
    requires db.Valid() && !db.closed && db.rows != []
    ensures db.Latest() == Ok(db.rows[|db.rows| - 1])
  {
    var rows := db.rows;
    var tip := db.Latest().value;
    var j :| 0 <= j < |rows| && rows[j] == tip;
    assert rows[|rows| - 1] in rows;
  }

  /** `RDB.Close` of both packages: a value whose `db` is nil reports that
      the connection is already closed; otherwise the handle is closed and
      whatever error closing it reports is returned. */
  method Close(db: Database?, closeFault: Option<string>) returns (err: Option<Error>)
    modifies db
    ensures db == null ==> err == Some(AlreadyClosed)
    ensures db != null ==> db.closed && db.rows == old(db.rows)
    ensures db != null ==> (err.None? <==> closeFault.None?)
    ensures db != null && closeFault.Some? ==> err == Some(FaultError(closeFault))
  {
    if db == null {
      return Some(AlreadyClosed);
    }
    err := db.Shut(closeFault);
  }

  /** The insert transaction of `New` (lines 228-257 of rdb/rdb.go, 213-242
      of beacon.go): begin, insert `r`, read the assigned id, and commit only
      when it is `prevId + 1`; otherwise roll back and report the race. */
  method InsertChecked(db: Database, r: Record, prevId: int, replies: Replies) returns (res: Result<Record>)
    requires db.Valid()
    requires replies.assignedId > LastId(db.rows)
    modifies db
    ensures db.Valid() && db.closed == old(db.closed)
    ensures res.Ok? <==>
      !db.closed && replies.beginFault.None? && replies.execFault.None? && replies.idFault.None? &&
      replies.assignedId == prevId + 1 && replies.commitFault.None?
    ensures res.Ok? ==> res.value == r.(id := replies.assignedId) && db.rows == old(db.rows) + [res.value]
    ensures res.Fail? ==> db.rows == old(db.rows)
    ensures db.closed ==> res == Fail(DatabaseClosed)
    ensures !db.closed && replies.beginFault.Some? ==> res == Fail(FaultError(replies.beginFault))
    ensures !db.closed && replies.beginFault.None? && replies.execFault.Some? ==>
      res == Fail(FaultError(replies.execFault))
    ensures !db.closed && replies.beginFault.None? && replies.execFault.None? && replies.idFault.Some? ==>
      res == Fail(FaultError(replies.idFault))
    ensures (!db.closed && replies.beginFault.None? && replies.execFault.None? && replies.idFault.None? &&
             replies.assignedId == prevId + 1 && replies.commitFault.Some?) ==>
      res == Fail(FaultError(replies.commitFault))
    ensures res == Fail(RaceDetected) <==>
      !db.closed && replies.beginFault.None? && replies.execFault.None? && replies.idFault.None? &&
      replies.assignedId != prevId + 1 && replies.rollbackFault.None?
    ensures (!db.closed && replies.beginFault.None? && replies.execFault.None? && replies.idFault.None? &&
             replies.assignedId != prevId + 1 && replies.rollbackFault.Some?) ==>
      res == Fail(FaultError(replies.rollbackFault))
  {
    // open the transaction; a closed handle cannot
    if db.closed {
      return Fail(DatabaseClosed);
    }
    if replies.beginFault.Some? {
      return Fail(FaultError(replies.beginFault));
    }
    // insert the row; on failure nothing is committed (nor rolled back)
    if replies.execFault.Some? {
      return Fail(FaultError(replies.execFault));
    }
    // read the id the engine assigned, rolling back if that fails
    if replies.idFault.Some? {
      return Fail(FaultError(replies.idFault));
    }
    var inserted := r.(id := replies.assignedId);
    if replies.assignedId != prevId + 1 {
      if replies.rollbackFault.Some? {
        return Fail(FaultError(replies.rollbackFault));
      }
      return Fail(RaceDetected);
    }
    if replies.commitFault.Some? {
      return Fail(FaultError(replies.commitFault));
    }
    db.rows := db.rows + [inserted];
    return Ok(inserted);
  }
}
