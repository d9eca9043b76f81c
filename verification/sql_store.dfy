/** store/store.go: the RecordStore over SQLite. Queries pick a row by
    `MIN(id)` or `MAX(id)` and decode it with `extractRecord`; `New` reads
    the tip and inserts in one transaction. */
module SqlStore {
  import opened Binary
  import opened Outcomes
  import opened Crypto
  import opened Selection
  import opened StoreRecords

  // ---------------------------------------------------------------------
  // extractRecord

  /** What `Scan` of a single-row query gives: the five columns, with the
      BLOB columns as byte slices of any length, or an error (`NoRows` for
      `sql.ErrNoRows`). */
  datatype Scan =
    | Row(id: nat, bits: Bytes, time: int, hash: Bytes, signature: Bytes)
    | ScanFailed(error: Error)

  /** How many bytes the copy loop of `extractRecord` moves: it stops at the
      end of the 32-byte arrays or of either scanned slice. */
  function CopyLength(b: Bytes, h: Bytes): (m: nat)
    ensures m <= 32 && m <= |b| && m <= |h|
    ensures m == 32 || m == |b| || m == |h|
  {
    if |b| < 32 && |b| <= |h| then |b| else if |h| < 32 then |h| else 32
  }

  /** A 32-byte array whose first `m` bytes come from `src` and whose other
      bytes keep their zero value. */
  function Filled(src: Bytes, m: nat): (r: Bytes32)
    requires m <= 32 && m <= |src|
    ensures r[..m] == src[..m]
    ensures forall i :: m <= i < 32 ==> r[i] == 0
  {
    src[..m] + Zeros(32 - m)
  }

  /** The record `extractRecord` produces from a scan: `sql.ErrNoRows`
      becomes `ErrNoRecords`, any other error is returned as it is. */
  function Extracted(s: Scan): (r: Result<Record>)
    ensures s == ScanFailed(NoRows) ==> r == Fail(NoRecords)
    ensures s.ScanFailed? && s.error != NoRows ==> r == Fail(s.error)
    ensures s.Row? ==> r.Ok? && r.value.id == s.id && r.value.time == s.time && r.value.signature == s.signature
    ensures s.Row? ==>
      var m := CopyLength(s.bits, s.hash);
      && (forall i :: 0 <= i < m ==> r.value.bits[i] == s.bits[i] && r.value.hash[i] == s.hash[i])
      && (forall i :: m <= i < 32 ==> r.value.bits[i] == 0 && r.value.hash[i] == 0)
  {
    match s
    case ScanFailed(e) => if e == NoRows then Fail(NoRecords) else Fail(e)
    case Row(id, b, t, h, sig) =>
      var m := CopyLength(b, h);
      assert forall i :: 0 <= i < m ==> Filled(b, m)[i] == Filled(b, m)[..m][i];
      assert forall i :: 0 <= i < m ==> Filled(h, m)[i] == Filled(h, m)[..m][i];
      Ok(Record(id, Filled(b, m), t, Filled(h, m), sig))
  }

  /** `extractRecord`: scan, map the error, then copy the bits and hash
      byte by byte into the record's arrays. */
  method ExtractRecord(scan: Scan) returns (r: Result<Record>)
    ensures r == Extracted(scan)
  {
    var bits := new Byte[32](_ => 0);
    var hash := new Byte[32](_ => 0);
    var b: Bytes, h: Bytes := [], [];
    if scan.Row? {
      b, h := scan.bits, scan.hash;
    }
    var i := 0;
    while i < bits.Length && i < |b| && i < |h|
      invariant 0 <= i <= CopyLength(b, h)
      invariant bits[..i] == b[..i] && hash[..i] == h[..i]
      invariant forall j :: i <= j < 32 ==> bits[j] == 0 && hash[j] == 0
    {
      bits[i] := b[i];
      hash[i] := h[i];
      i := i + 1;
    }
    FilledAfterCopy(bits[..], b, i);
    FilledAfterCopy(hash[..], h, i);
    match scan
    case ScanFailed(e) =>
      r := if e == NoRows then Fail(NoRecords) else Fail(e);
    case Row(id, _, t, _, sig) =>
      r := Ok(Record(id, bits[..], t, hash[..], sig));
  }

  /** After the copy loop, an array of zeros holds `Filled(src, m)`. */
  lemma FilledAfterCopy(arr: seq<Byte>, src: Bytes, m: nat)
    requires |arr| == 32 && m <= 32 && m <= |src|
    requires arr[..m] == src[..m]
    requires forall j :: m <= j < 32 ==> arr[j] == 0
    ensures arr == Filled(src, m)
  {
    assert arr == arr[..m] + arr[m..];
    assert arr[m..] == Zeros(32 - m);
  }

  /** The row the table holds for a record, as the query scans it. */
  function Columns(x: Record): (s: Scan)
    ensures s.Row? && s.id == x.id && s.bits == x.bits && s.time == x.time && s.hash == x.hash && s.signature == x.signature
  {
    Row(x.id, x.bits, x.time, x.hash, x.signature)
  }

  /** What a single-row query scans: the selected row, or `sql.ErrNoRows`. */
  function ScanOf(selected: Option<Record>): (s: Scan)
    ensures s == ScanFailed(NoRows) <==> selected.None?
  {
    match selected
    case Some(x) => Columns(x)
    case None => ScanFailed(NoRows)
  }

  /** Every column of a stored record survives the scan: the table holds 32
      bytes of bits and hash, so the copy loop moves all of them. */
  lemma ExtractRoundTrip(x: Record)
    ensures Extracted(Columns(x)) == Ok(x)
  {
    var r := Extracted(Columns(x)).value;
    assert r.bits == x.bits;
    assert r.hash == x.hash;
  }

  // ---------------------------------------------------------------------
  // The store

  /** Ids of an `INTEGER PRIMARY KEY` column: positive and increasing in row order. */
  ghost predicate IdsIncreasing(rows: seq<Record>) {
    (forall i :: 0 <= i < |rows| ==> rows[i].id > 0) &&
    (forall i, j :: 0 <= i < j < |rows| ==> rows[i].id < rows[j].id)
  }

  /** The rowid SQLite gives the next insert: one more than the largest, 1 on an empty table. */
  function NextId(rows: seq<Record>): (id: nat)
    ensures id > 0 && (rows == [] ==> id == 1)
  {
    if rows == [] then 1 else rows[|rows| - 1].id + 1
  }

  /** Times that never decrease along the table, as `time.Now()` gives them. */
  ghost predicate TimesIncreasing(rows: seq<Record>) {
    forall i, j :: 0 <= i < j < |rows| ==> rows[i].time <= rows[j].time
  }

  /** What the engine reports during `New`: an error at each step that can fail. */
  datatype Replies = Replies(
    beginFault: Option<string>,      // rs.db.Begin
    tipFault: Option<string>,        // the tip query fails other than by finding no rows
    execFault: Option<string>)       // insert the row

  /** `recordStore` of store/store.go: the records table and the signer. */
  class Store {
    const prims: Primitives
    const signer: Signer
    var rows: seq<Record>

    ghost predicate Valid()
      reads this
    {
      IdsIncreasing(rows)
    }

    /** `Open`, once the table exists: the signer is kept. */
    constructor (prims: Primitives, signer: Signer, rows: seq<Record>)
      requires IdsIncreasing(rows)
      ensures Valid() && this.prims == prims && this.signer == signer && this.rows == rows
    {
      this.prims := prims;
      this.signer := signer;
      this.rows := rows;
    }

    /** `Latest`: the row `WHERE id=(SELECT MAX(id) FROM records)`. */
    function Latest(): (r: Result<Record>)
      reads this
      ensures r.Ok? || r == Fail(NoRecords)
      ensures r == Fail(NoRecords) <==> rows == []
      ensures r.Ok? ==> r.value in rows && forall x :: x in rows ==> x.id <= r.value.id
    {
      var selected := ArgMax(rows, (x: Record) => x.id, (x: Record) => true);
      assert selected.Some? ==> Extracted(ScanOf(selected)) == Ok(selected.value) by {
        if selected.Some? { ExtractRoundTrip(selected.value); }
      }
      Extracted(ScanOf(selected))
    }

    /** `After(min)`: the row `WHERE id=(SELECT MIN(id) FROM records WHERE time>=min)`. */
    function After(min: int): (r: Result<Record>)
      reads this
      ensures r.Ok? || r == Fail(NoRecords)
      ensures r == Fail(NoRecords) <==> forall x :: x in rows ==> x.time < min
      ensures r.Ok? ==> r.value in rows && r.value.time >= min
      ensures r.Ok? ==> forall x :: x in rows && x.time >= min ==> r.value.id <= x.id
    {
      var selected := ArgMin(rows, (x: Record) => x.id, (x: Record) => x.time >= min);
      assert selected.Some? ==> Extracted(ScanOf(selected)) == Ok(selected.value) by {
        if selected.Some? { ExtractRoundTrip(selected.value); }
      }
      Extracted(ScanOf(selected))
    }

    /** `Before(max)`: the row `WHERE id=(SELECT MAX(id) FROM records WHERE time<=max)`. */
    function Before(max: int): (r: Result<Record>)
      reads this
      ensures r.Ok? || r == Fail(NoRecords)
      ensures r == Fail(NoRecords) <==> forall x :: x in rows ==> x.time > max
      ensures r.Ok? ==> r.value in rows && r.value.time <= max
      ensures r.Ok? ==> forall x :: x in rows && x.time <= max ==> x.id <= r.value.id
    {
      var selected := ArgMax(rows, (x: Record) => x.id, (x: Record) => x.time <= max);
      assert selected.Some? ==> Extracted(ScanOf(selected)) == Ok(selected.value) by {
        if selected.Some? { ExtractRoundTrip(selected.value); }
      }
      Extracted(ScanOf(selected))
    }

    /** The tip read inside `New`'s transaction of store/store.go (the
        `Latest` query at lines 99-102 and its error check): its own failure,
        or `Latest`. */
    function TipRead(tipFault: Option<string>): (r: Result<Record>)
      reads this
      ensures tipFault.Some? ==> r == Fail(External(tipFault.value))
      ensures tipFault.None? ==> r == Latest()
    {
      if tipFault.Some? then Fail(External(tipFault.value)) else Latest()
    }

    /** `New(bits)`: in one transaction read the tip, link the bits to it (to
        the public key on an empty table), sign `bits ++ hash` and insert.
        `now` is the time. */
    method New(bits: Bytes32, now: int, replies: Replies) returns (r: Result<Record>)
      requires Valid()
      modifies this
      ensures Valid()
      ensures r.Fail? ==> rows == old(rows)
      ensures replies.beginFault.Some? ==> r == Fail(External(replies.beginFault.value))
      ensures replies.beginFault.None? ==>
        var link := LinkFromTip(prims, signer.publicKey, old(TipRead(replies.tipFault)), bits);
        && (link.Fail? ==> r == Fail(link.error))
        && (link.Ok? && signer.sign(bits + link.value).Fail? ==> r == Fail(signer.sign(bits + link.value).error))
        && (r.Ok? <==> link.Ok? && signer.sign(bits + link.value).Ok? && replies.execFault.None?)
        && (link.Ok? && signer.sign(bits + link.value).Ok? && replies.execFault.Some? ==>
              r == Fail(External(replies.execFault.value)))
        && (r.Ok? ==>
              r.value == Record(NextId(old(rows)), bits, now, link.value, signer.sign(bits + link.value).value) &&
              rows == old(rows) + [r.value])
      ensures r.Ok? ==> Link(prims, signer.publicKey, Previous(old(rows), |old(rows)|), bits) == Ok(r.value.hash)
      ensures r.Ok? ==> r.value.bits == bits && Latest() == Ok(r.value)
      ensures Chained(prims, signer.publicKey, old(rows)) ==> Chained(prims, signer.publicKey, rows)
    {
      if replies.beginFault.Some? {
        return Fail(External(replies.beginFault.value));
      }
      // read the latest record
      var tip := TipRead(replies.tipFault);
      if tip.Fail? && tip.error != NoRecords {
        return Fail(tip.error);
      }
      var link := LinkFromTip(prims, signer.publicKey, tip, bits);
      if link.Fail? {
        // only the PKIX encoding of the public key can fail here
        return Fail(link.error);
      }
      var hash := link.value;
      // the signature covers the bits followed by the link hash
      var signature := signer.sign(bits + hash);
      if signature.Fail? {
        return Fail(signature.error);
      }
      if replies.execFault.Some? {
        return Fail(External(replies.execFault.value));
      }
      ghost var before := rows;
      LatestIsLast(this);
      assert Link(prims, signer.publicKey, Previous(before, |before|), bits) == Ok(hash);
      var record := Record(NextId(rows), bits, now, hash, signature.value);
      AppendNext(before, record);
      // insert the row
      rows := rows + [record];
      r := Ok(record);
      LatestIsLast(this);
      if Chained(prims, signer.publicKey, before) {
        if before != [] { ChainLength(prims, signer.publicKey, before); }
        ChainExtends(prims, signer.publicKey, before, record);
      }
    }
  }

  /** A row with the next rowid keeps the ids increasing. */
  lemma AppendNext(rows: seq<Record>, r: Record)
    requires IdsIncreasing(rows) && r.id == NextId(rows)
    ensures IdsIncreasing(rows + [r])
  {
  }

  /** With increasing ids the `MAX(id)` row is the last one appended. */
  lemma LatestIsLast(s: Store)
    requires s.Valid()
    ensures s.rows != [] ==> s.Latest() == Ok(s.rows[|s.rows| - 1])
  {
    if s.rows != [] {
      var tip := s.Latest().value;
      var j :| 0 <= j < |s.rows| && s.rows[j] == tip;
      assert s.rows[|s.rows| - 1] in s.rows;
    }
  }

  /** When times never decrease along the table, the lowest id at or after
      `min` is a record of least time at or after `min`, and the highest id at
      or before `max` one of greatest time at or before `max`: `After` and
      `Before` are nearest-by-time lookups. */
  lemma NearestByTime(s: Store, min: int, max: int)
    requires s.Valid() && TimesIncreasing(s.rows)
    ensures s.After(min).Ok? ==> forall x :: x in s.rows && x.time >= min ==> s.After(min).value.time <= x.time
    ensures s.Before(max).Ok? ==> forall x :: x in s.rows && x.time <= max ==> x.time <= s.Before(max).value.time
  {
    var a, b := s.After(min), s.Before(max);
    if a.Ok? { LeastIdLeastTime(s.rows, a.value, min); }
    if b.Ok? { GreatestIdGreatestTime(s.rows, b.value, max); }
  }

  /** With times never decreasing, a row of least id at or after `min` has the least such time. */
  lemma LeastIdLeastTime(rows: seq<Record>, a: Record, min: int)
    requires IdsIncreasing(rows) && TimesIncreasing(rows)
    requires a in rows && forall x :: x in rows && x.time >= min ==> a.id <= x.id
    ensures forall x :: x in rows && x.time >= min ==> a.time <= x.time
  {
    var i :| 0 <= i < |rows| && rows[i] == a;
    forall x | x in rows && x.time >= min
      ensures a.time <= x.time
    {
      var j :| 0 <= j < |rows| && rows[j] == x;
      assert i <= j;
    }
  }

  /** With times never decreasing, a row of greatest id at or before `max` has the greatest such time. */
  lemma GreatestIdGreatestTime(rows: seq<Record>, b: Record, max: int)
    requires IdsIncreasing(rows) && TimesIncreasing(rows)
    requires b in rows && forall x :: x in rows && x.time <= max ==> x.id <= b.id
    ensures forall x :: x in rows && x.time <= max ==> x.time <= b.time
  {
    var i :| 0 <= i < |rows| && rows[i] == b;
    forall x | x in rows && x.time <= max
      ensures x.time <= b.time
    {
      var j :| 0 <= j < |rows| && rows[j] == x;
      assert j <= i;
    }
  }
}
