/** beacon.go: the second ledger variant. Each record's link hash chains on
    the previous record's BITS; the first record's link hash also covers the
    signer's public key. The bits come from an `io.Reader` through
    `io.ReadFull`. The table, its queries, `Close` and the insert
    transaction are those of module SqlTable. */
module Beacon {
  import opened Binary
  import opened Outcomes
  import opened Crypto
  import opened SqlTable
  import opened Selection

  // ---------------------------------------------------------------------
  // Filling the 64 random bytes

  /** What `io.ReadFull(rdb.reader, r.Bits)` reports on a 64-byte buffer:
      the count read, the buffer, and the error. */
  datatype Fill = Fill(n: int, bits: Bytes64, err: Option<Error>)

  /** `io.ReadFull` on a 64-byte buffer from a reader that holds `stream`
      and then reports end of file: it reads until the buffer is full, and
      reports EOF when nothing was read and UnexpectedEOF when only part
      was. */
  function ReadFull(stream: Bytes): (f: Fill)
    ensures f.err.None? <==> f.n == 64
    ensures f.n == (if |stream| < 64 then |stream| else 64)
    ensures f.bits[..f.n] == stream[..f.n]
    ensures f.err == Some(EOF) <==> stream == []
    ensures f.err == Some(UnexpectedEOF) <==> 0 < |stream| < 64
  {
    if |stream| >= 64 then Fill(64, stream[..64], None)
    else
      var bits := stream + Zeros(64 - |stream|);
      assert bits[..|stream|] == stream;
      Fill(|stream|, bits, if stream == [] then Some(EOF) else Some(UnexpectedEOF))
  }

  // ---------------------------------------------------------------------
  // The hash chain

  /** `EncodedPublicKey` as `Open` sets it: base64 of the PKIX encoding of the
      signer's public key; the encoding error is dropped, leaving the
      encoding of no bytes. */
  function EncodePublicKey(p: Primitives, pub: PublicKey): (e: Bytes)
    ensures p.pkix(pub).Ok? ==> e == p.base64(p.pkix(pub).value)
    ensures p.pkix(pub).Fail? && EmptyEncodesEmpty(p) ==> e == []
  {
    p.base64(p.pkix(pub).GetOr([]))
  }

  /** The link hash of beacon.go: SHA-256 of the base64 of the previous
      record's bits followed by the base64 of the new bits; for the first
      record, SHA-256 of the encoded public key followed by the base64 of
      the bits. */
  function Link(p: Primitives, encodedPublicKey: Bytes, prev: Option<Record>, bits: Bytes): (h: Bytes32)
    ensures prev.None? ==> h == p.sha256(encodedPublicKey + p.base64(bits))
    ensures prev.Some? ==> h == p.sha256(p.base64(prev.value.bits) + p.base64(bits))
  {
    match prev
    case None => p.sha256(encodedPublicKey + p.base64(bits))
    case Some(r0) => p.sha256(p.base64(r0.bits) + p.base64(bits))
  }

  /** Row `i` has id `i + 1` and the link hash from the row before it. */
  ghost predicate LinkedAt(p: Primitives, encodedPublicKey: Bytes, rows: seq<Record>, i: nat)
    requires i < |rows|
  {
    rows[i].id == i + 1 && rows[i].hash == Link(p, encodedPublicKey, Previous(rows, i), rows[i].bits)
  }

  /** The table is the chain: ids 1, 2, 3, ... and each row linked to the one before. */
  ghost predicate Chained(p: Primitives, encodedPublicKey: Bytes, rows: seq<Record>) {
    forall i :: 0 <= i < |rows| ==> LinkedAt(p, encodedPublicKey, rows, i)
  }

  /** The tip step of `New` as written (lines 191-200 of beacon.go): an
      error other than "no rows" is not returned, and the zero Record stands
      in for the previous record. */
  function PrepareAsWritten(p: Primitives, encodedPublicKey: Bytes, tip: Result<Record>, bits: Bytes): (r: Prepared)
    ensures tip.Ok? ==> r == Prepared(tip.value.id, Link(p, encodedPublicKey, Some(tip.value), bits))
    ensures tip == Fail(NoRows) ==> r == Prepared(0, Link(p, encodedPublicKey, None, bits))
    ensures tip.Fail? && tip != Fail(NoRows) ==> r == Prepared(0, p.sha256(p.base64([]) + p.base64(bits)))
  {
    var r0 := tip.GetOr(Zero);
    Prepared(r0.id,
      if tip == Fail(NoRows) then p.sha256(encodedPublicKey + p.base64(bits))
      else p.sha256(p.base64(r0.bits) + p.base64(bits)))
  }

  /** The tip step of `New` with the error returned, as store/store.go does
      it: the previous record is the tip, or none on an empty table, and any
      other failure of the read aborts. */
  function Prepare(p: Primitives, encodedPublicKey: Bytes, tip: Result<Record>, bits: Bytes): (r: Result<Prepared>)
    ensures tip.Ok? ==> r == Ok(Prepared(tip.value.id, Link(p, encodedPublicKey, Some(tip.value), bits)))
    ensures tip == Fail(NoRows) ==> r == Ok(Prepared(0, Link(p, encodedPublicKey, None, bits)))
    ensures tip.Fail? && tip != Fail(NoRows) ==> r == Fail(tip.error)
  {
    match tip
    case Ok(r0) => Ok(Prepared(r0.id, p.sha256(p.base64(r0.bits) + p.base64(bits))))
    case Fail(NoRows) => Ok(Prepared(0, p.sha256(encodedPublicKey + p.base64(bits))))
    case Fail(e) => Fail(e)
  }

  /** Where the corrected step succeeds it agrees with the code as written. */
  lemma PrepareRefinesAsWritten(p: Primitives, encodedPublicKey: Bytes, tip: Result<Record>, bits: Bytes)
    ensures Prepare(p, encodedPublicKey, tip, bits).Ok? ==>
      Prepare(p, encodedPublicKey, tip, bits).value == PrepareAsWritten(p, encodedPublicKey, tip, bits)
  {
  }

  /** A failed tip read on an empty table: as written, the record gets
      previous id 0, so the race check lets id 1 through, but its hash leaves
      out the public key, so the table committed is not a chain whenever the
      two digests differ. */
  lemma TipFaultBreaksGenesis(p: Primitives, encodedPublicKey: Bytes, db: Database, fault: string,
                              bits: Bytes, now: int, signature: Bytes)
    requires db.rows == [] && !db.closed && EmptyEncodesEmpty(p)
    requires p.sha256(p.base64(bits)) != p.sha256(encodedPublicKey + p.base64(bits))
    ensures var Prepared(prevId, hash) := PrepareAsWritten(p, encodedPublicKey, db.TipRead(Some(fault)), bits);
            prevId + 1 == 1 &&
            !Chained(p, encodedPublicKey, db.rows + [Record(prevId + 1, bits, now, hash, signature)])
    ensures Prepare(p, encodedPublicKey, db.TipRead(Some(fault)), bits) == Fail(External(fault))
  {
    var Prepared(prevId, hash) := PrepareAsWritten(p, encodedPublicKey, db.TipRead(Some(fault)), bits);
    var rows := db.rows + [Record(prevId + 1, bits, now, hash, signature)];
    assert p.base64([]) + p.base64(bits) == p.base64(bits);
    assert !LinkedAt(p, encodedPublicKey, rows, 0);
  }

  /** On a chained table the corrected step links to the last row and asks
      for the id after it. */
  lemma PrepareLinksToTip(p: Primitives, encodedPublicKey: Bytes, db: Database, tipFault: Option<string>, bits: Bytes)
    requires db.Valid()
    ensures var r := Prepare(p, encodedPublicKey, db.TipRead(tipFault), bits);
            r.Ok? ==>
              r.value.prevId == LastId(db.rows) &&
              r.value.hash == Link(p, encodedPublicKey, Previous(db.rows, |db.rows|), bits)
  {
    if db.rows != [] && !db.closed {
      LatestIsLast(db);
    }
  }

  /** Extending a chain by a row with the next id and the link from the last row keeps it a chain. */
  lemma ChainExtends(p: Primitives, encodedPublicKey: Bytes, rows: seq<Record>, r: Record)
    requires Chained(p, encodedPublicKey, rows)
    requires r.id == |rows| + 1
    requires r.hash == Link(p, encodedPublicKey, Previous(rows, |rows|), r.bits)
    ensures Chained(p, encodedPublicKey, rows + [r])
  {
    var rows' := rows + [r];
    forall i | 0 <= i < |rows'|
      ensures LinkedAt(p, encodedPublicKey, rows', i)
    {
      if i < |rows| {
        assert LinkedAt(p, encodedPublicKey, rows, i);
        assert rows'[i] == rows[i];
        assert Previous(rows', i) == Previous(rows, i);
      } else {
        assert rows'[i] == r;
        assert Previous(rows', i) == Previous(rows, |rows|);
      }
    }
  }

  /** The `RDB` value of beacon.go: signer, encoded public key and database handle. */
  class RDB {
    const prims: Primitives
    const signer: Signer
    const encodedPublicKey: Bytes
    var db: Database?

    /** `Open`, once the database is open: the signer is kept and
        `EncodedPublicKey` computed from its public key. */
    constructor (prims: Primitives, signer: Signer, db: Database?)
      ensures this.prims == prims && this.signer == signer && this.db == db
      ensures encodedPublicKey == EncodePublicKey(prims, signer.publicKey)
    {
      this.prims := prims;
      this.signer := signer;
      encodedPublicKey := EncodePublicKey(prims, signer.publicKey);
      this.db := db;
    }

    /** `New`, with the tip error returned: fill 64 bits, link them to the
        tip, sign `bits ++ hash`, and append the record if the engine gives
        it the id after the tip's. `fill` is what `io.ReadFull` reported and
        `now` the Unix time. */
    method New(fill: Fill, now: int, replies: Replies) returns (r: Result<Record>)
      requires db != null && db.Valid()
      requires replies.assignedId > LastId(db.rows)
      modifies db
      ensures db.Valid() && db.closed == old(db.closed)
      ensures r.Fail? ==> db.rows == old(db.rows)
      ensures fill.err.Some? ==> r == Fail(fill.err.value)
      ensures fill.err.None? && fill.n < 64 ==> r == Fail(ShortRead)
      ensures fill.err.None? && fill.n >= 64 ==>
        var prep := Prepare(prims, encodedPublicKey, old(db.TipRead(replies.tipFault)), fill.bits);
        && (prep.Fail? ==> r == Fail(prep.error))
        && (prep.Ok? ==>
              var Prepared(prevId, hash) := prep.value;
              && (signer.sign(fill.bits + hash).Fail? ==> r == Fail(signer.sign(fill.bits + hash).error))
              && (r.Ok? <==>
                    signer.sign(fill.bits + hash).Ok? && !db.closed && replies.beginFault.None? &&
                    replies.execFault.None? && replies.idFault.None? &&
                    replies.assignedId == prevId + 1 && replies.commitFault.None?)
              && (r.Ok? ==>
                    r.value == Record(prevId + 1, fill.bits, now, hash, signer.sign(fill.bits + hash).value) &&
                    db.rows == old(db.rows) + [r.value])
              && (signer.sign(fill.bits + hash).Ok? ==>
                    (r == Fail(RaceDetected) <==>
                       !db.closed && replies.beginFault.None? && replies.execFault.None? && replies.idFault.None? &&
                       replies.assignedId != prevId + 1 && replies.rollbackFault.None?))
              && (signer.sign(fill.bits + hash).Ok? && !db.closed && replies.beginFault.None? &&
                  replies.execFault.None? && replies.idFault.None? && replies.assignedId != prevId + 1 &&
                  replies.rollbackFault.Some? ==>
                    r == Fail(FaultError(replies.rollbackFault))))
      ensures fill.err.None? && fill.n >= 64 ==>
        var prep := Prepare(prims, encodedPublicKey, old(db.TipRead(replies.tipFault)), fill.bits);
        prep.Ok? && signer.sign(fill.bits + prep.value.hash).Ok? ==>
          && (db.closed ==> r == Fail(DatabaseClosed))
          && (!db.closed && replies.beginFault.Some? ==> r == Fail(FaultError(replies.beginFault)))
          && (!db.closed && replies.beginFault.None? && replies.execFault.Some? ==>
                r == Fail(FaultError(replies.execFault)))
          && (!db.closed && replies.beginFault.None? && replies.execFault.None? && replies.idFault.Some? ==>
                r == Fail(FaultError(replies.idFault)))
          && (!db.closed && replies.beginFault.None? && replies.execFault.None? && replies.idFault.None? &&
              replies.assignedId == prep.value.prevId + 1 && replies.commitFault.Some? ==>
                r == Fail(FaultError(replies.commitFault)))
      ensures r.Ok? ==>
        r.value.id == LastId(old(db.rows)) + 1 &&
        r.value.hash == Link(prims, encodedPublicKey, Previous(old(db.rows), |old(db.rows)|), r.value.bits)
      ensures Chained(prims, encodedPublicKey, old(db.rows)) ==> Chained(prims, encodedPublicKey, db.rows)
    {
      // the reader must supply all 64 bytes
      if fill.err.Some? {
        return Fail(fill.err.value);
      }
      if fill.n < 64 {
        return Fail(ShortRead);
      }
      var bits := fill.bits;
      // link to the tip: hash the base64 of its bits with the base64 of the new bits
      var tip := db.TipRead(replies.tipFault);
      var prep := Prepare(prims, encodedPublicKey, tip, bits);
      if prep.Fail? {
        return Fail(prep.error);
      }
      var Prepared(prevId, s) := prep.value;
      var hash := CopyDigest(s);
      // the signature covers the bits followed by the link hash
      var signature := signer.sign(bits + hash);
      if signature.Fail? {
        return Fail(signature.error);
      }
      ghost var rows := db.rows;
      PrepareLinksToTip(prims, encodedPublicKey, db, replies.tipFault, bits);
      r := InsertChecked(db, Record(0, bits, now, hash, signature.value), prevId, replies);
      if r.Ok? && Chained(prims, encodedPublicKey, rows) {
        if rows != [] { assert LinkedAt(prims, encodedPublicKey, rows, |rows| - 1); }
        ChainExtends(prims, encodedPublicKey, rows, r.value);
      }
    }
  }
}
