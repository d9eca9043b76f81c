/** rdb/rdb.go: the first ledger variant. Each record's link hash chains on
    the previous record's HASH; the first record's link hash covers only its
    own bits. The key is derived from a passphrase through `stupidReader`. */
module Rdb {
  import opened Binary
  import opened Outcomes
  import opened Crypto
  import opened SqlTable
  import opened Selection

  // ---------------------------------------------------------------------
  // stupidReader: a deterministic byte stream from a passphrase

  /** The state of a stupidReader: every byte written so far into its running
      SHA-512 `h`, the current digest `a`, and the read position `i` in it. */
  datatype ReaderState = ReaderState(absorbed: Bytes, a: Bytes, i: nat)

  /** The reader's invariant: `a` is the digest of everything absorbed, and
      the position lies inside it. */
  ghost predicate ReaderInv(sha512: Bytes -> Bytes64, s: ReaderState) {
    s.a == sha512(s.absorbed) && s.i < |s.a|
  }

  /** One turn of the loop in `Read` after `a[i]` is handed out: advance,
      and when the position reaches the end of `a`, write `a` into the hash,
      replace `a` by the new digest and start again at 0. */
  function Advance(sha512: Bytes -> Bytes64, s: ReaderState): (t: ReaderState)
    requires s.i < |s.a|
    ensures t.i < |t.a|
  {
    if s.i + 1 == |s.a| then
      var absorbed := s.absorbed + s.a;
      ReaderState(absorbed, sha512(absorbed), 0)
    else
      s.(i := s.i + 1)
  }

  /** The state of a reader in state `s` after it has handed out `n` bytes. */
  function AdvanceBy(sha512: Bytes -> Bytes64, s: ReaderState, n: nat): (t: ReaderState)
    requires s.i < |s.a|
    ensures t.i < |t.a|
    decreases n
  {
    if n == 0 then s else Advance(sha512, AdvanceBy(sha512, s, n - 1))
  }

  /** The reader's invariant holds however many bytes it hands out: the
      digest is always that of everything written into the hash. */
  lemma {:induction false} AdvanceKeepsInv(sha512: Bytes -> Bytes64, s: ReaderState, n: nat)
    requires ReaderInv(sha512, s)
    ensures ReaderInv(sha512, AdvanceBy(sha512, s, n))
    decreases n
  {
    if n > 0 {
      AdvanceKeepsInv(sha512, s, n - 1);
    }
  }

  /** The `n` bytes a reader in state `s` hands out next: at each turn the
      byte at the position, then one `Advance`. */
  function Stream(sha512: Bytes -> Bytes64, s: ReaderState, n: nat): (b: Bytes)
    requires s.i < |s.a|
    ensures |b| == n
    decreases n
  {
    if n == 0 then []
    else
      var t := AdvanceBy(sha512, s, n - 1);
      Stream(sha512, s, n - 1) + [t.a[t.i]]
  }

  /** Handing out `m` bytes and then `n` leaves the reader where handing
      out `m + n` at once does. */
  lemma {:induction false} AdvanceSplit(sha512: Bytes -> Bytes64, s: ReaderState, m: nat, n: nat)
    requires s.i < |s.a|
    ensures AdvanceBy(sha512, s, m + n) == AdvanceBy(sha512, AdvanceBy(sha512, s, m), n)
    decreases n
  {
    if n > 0 {
      AdvanceSplit(sha512, s, m, n - 1);
    }
  }

  /** The stream does not depend on how it is cut into reads: reading `m`
      bytes and then `n` hands out the same bytes as reading `m + n` at once
      (and, by AdvanceSplit, leaves the reader in the same state). */
  lemma {:induction false} StreamSplit(sha512: Bytes -> Bytes64, s: ReaderState, m: nat, n: nat)
    requires s.i < |s.a|
    ensures Stream(sha512, s, m + n) == Stream(sha512, s, m) + Stream(sha512, AdvanceBy(sha512, s, m), n)
    decreases n
  {
    var x, u := Stream(sha512, s, m), AdvanceBy(sha512, s, m);
    if n == 0 {
      assert x + [] == x;
    } else {
      var k := n - 1;
      StreamSplit(sha512, s, m, k);
      AdvanceSplit(sha512, s, m, k);
      var y, t := Stream(sha512, u, k), AdvanceBy(sha512, u, k);
      assert Stream(sha512, s, m + n) == (x + y) + [t.a[t.i]];
      assert Stream(sha512, u, n) == y + [t.a[t.i]];
      assert (x + y) + [t.a[t.i]] == x + (y + [t.a[t.i]]);
    }
  }

  /** `stupidReader`, with its running hash `h` represented by the bytes written to it. */
  class StupidReader {
    const sha512: Bytes -> Bytes64
    var absorbed: Bytes
    var a: Bytes
    var i: nat

    function State(): ReaderState
      reads this
    {
      ReaderState(absorbed, a, i)
    }

    ghost predicate Valid()
      reads this
    {
      ReaderInv(sha512, State())
    }

    /** `newStupidReader(key)`: write the key into a fresh SHA-512 and start
        at the beginning of its digest. */
    constructor (sha512: Bytes -> Bytes64, key: Bytes)
      ensures Valid()
      ensures this.sha512 == sha512 && State() == ReaderState(key, sha512(key), 0)
    {
      this.sha512 := sha512;
      absorbed := key;
      a := sha512(key);
      i := 0;
    }

    /** The end of one turn of `Read`'s loop, once `a[i]` is handed out:
        advance the position, re-hashing when it reaches the end of `a`. */
    method Turn()
      requires i < |a|
      modifies this
      ensures State() == Advance(sha512, old(State()))
    {
      i := i + 1;
      if i == |a| {
        i := 0;
        absorbed := absorbed + a;
        a := sha512(absorbed);
      }
    }

    /** `Read(p)`: fills all of `p` from the stream and never fails. */
    method Read(p: array<Byte>) returns (n: nat, err: Option<Error>)
      requires Valid()
      modifies this, p
      ensures Valid()
      ensures n == p.Length && err == None
      ensures p[..] == Stream(sha512, old(State()), p.Length)
      ensures State() == AdvanceBy(sha512, old(State()), p.Length)
    {
      ghost var start := State();
      var k := 0;
      while k < p.Length
        invariant 0 <= k <= p.Length
        invariant p[..k] == Stream(sha512, start, k)
        invariant State() == AdvanceBy(sha512, start, k)
      {
        ghost var before := State();
        p[k] := a[i];
        Turn();
        assert p[..k + 1] == p[..k] + [before.a[before.i]];
        k := k + 1;
      }
      assert p[..] == p[..p.Length];
      AdvanceKeepsInv(sha512, start, p.Length);
      return p.Length, None;
    }
  }

  // ---------------------------------------------------------------------
  // The hash chain

  /** The link hash of rdb/rdb.go: SHA-256 of the hex of the previous
      record's hash followed by the hex of the new bits; for the first
      record, SHA-256 of the hex of the bits alone. */
  function Link(p: Primitives, prev: Option<Record>, bits: Bytes): (h: Bytes32)
    ensures prev.None? ==> h == p.sha256(p.hex(bits))
    ensures prev.Some? ==> h == p.sha256(p.hex(prev.value.hash) + p.hex(bits))
  {
    match prev
    case None => p.sha256(p.hex(bits))
    case Some(r0) => p.sha256(p.hex(r0.hash) + p.hex(bits))
  }

  /** The table is the chain: ids 1, 2, 3, ... without gaps, and each row's
      hash is the link from the row before it (from nothing for the first). */
  ghost predicate Chained(p: Primitives, rows: seq<Record>) {
    forall i :: 0 <= i < |rows| ==> LinkedAt(p, rows, i)
  }

  /** Row `i` has id `i + 1` and the link hash from the row before it. */
  ghost predicate LinkedAt(p: Primitives, rows: seq<Record>, i: nat)
    requires i < |rows|
  {
    rows[i].id == i + 1 && rows[i].hash == Link(p, Previous(rows, i), rows[i].bits)
  }

  /** What `New` takes from the tip read (lines 208-216 of rdb/rdb.go): the ID
      the inserted row must follow, `r0.ID`, and the link hash. Any failure of
      the read other than "no rows" leaves `r0` the zero Record. */
  function Prepare(p: Primitives, tip: Result<Record>, bits: Bytes): (r: Prepared)
    ensures tip.Ok? ==> r == Prepared(tip.value.id, Link(p, Some(tip.value), bits))
    ensures tip == Fail(NoRows) ==> r == Prepared(0, Link(p, None, bits))
    ensures tip.Fail? && tip != Fail(NoRows) ==> r == Prepared(0, p.sha256(p.hex([]) + p.hex(bits)))
  {
    var r0 := tip.GetOr(Zero);
    Prepared(r0.id, if tip == Fail(NoRows) then p.sha256(p.hex(bits)) else p.sha256(p.hex(r0.hash) + p.hex(bits)))
  }

  /** Whatever the tip read returns, what `New` commits extends the chain:
      a read of the table links to its last row; a failed read links as the
      first record does and asks for id 1, which only an empty table gives. */
  lemma PrepareLinksToTip(p: Primitives, db: Database, tipFault: Option<string>, bits: Bytes)
    requires db.Valid() && !db.closed && Chained(p, db.rows) && p.hex([]) == []
    ensures var Prepared(prevId, hash) := Prepare(p, db.TipRead(tipFault), bits);
            prevId + 1 == |db.rows| + 1 ==>
              prevId == LastId(db.rows) &&
              hash == Link(p, Previous(db.rows, |db.rows|), bits)
  {
    var rows := db.rows;
    if rows != [] && tipFault.None? {
      var last := rows[|rows| - 1];
      assert last in rows;
      var tip := db.Latest().value;
      var j :| 0 <= j < |rows| && rows[j] == tip;
      assert LinkedAt(p, rows, j) && LinkedAt(p, rows, |rows| - 1);
      assert tip.id == j + 1 && last.id == |rows|;
      assert j == |rows| - 1;
    }
    if tipFault.Some? {
      assert p.hex(Zero.hash) + p.hex(bits) == p.hex(bits);
    }
  }

  /** Extending a chain by a row with the next id and the link from the last row keeps it a chain. */
  lemma ChainExtends(p: Primitives, rows: seq<Record>, r: Record)
    requires Chained(p, rows)
    requires r.id == |rows| + 1
    requires r.hash == Link(p, Previous(rows, |rows|), r.bits)
    ensures Chained(p, rows + [r])
  {
    var rows' := rows + [r];
    forall i | 0 <= i < |rows'|
      ensures LinkedAt(p, rows', i)
    {
      if i < |rows| {
        assert LinkedAt(p, rows, i);
        assert rows'[i] == rows[i];
        assert Previous(rows', i) == Previous(rows, i);
      } else {
        assert rows'[i] == r;
        assert Previous(rows', i) == Previous(rows, |rows|);
      }
    }
    assert Chained(p, rows');
  }

  /** A row `New` commits keeps the table a chain: whatever the tip read
      returned, the id check lets through only the row with the next id and
      the link from the last row. */
  lemma CommitKeepsChain(p: Primitives, db: Database, tipFault: Option<string>, bits: Bytes, r: Record)
    requires db.Valid() && !db.closed && Chained(p, db.rows) && p.hex([]) == []
    requires r.id > LastId(db.rows) && r.bits == bits
    requires var prep := Prepare(p, db.TipRead(tipFault), bits); prep.prevId == r.id - 1 && prep.hash == r.hash
    ensures Chained(p, db.rows + [r])
  {
    var rows := db.rows;
    assert rows != [] ==> LastId(rows) == |rows| by {
      if rows != [] { assert LinkedAt(p, rows, |rows| - 1); }
    }
    PrepareLinksToTip(p, db, tipFault, bits);
    ChainExtends(p, rows, r);
  }

  /** The `RDB` value: the signing key and the database handle. */
  class RDB {
    const prims: Primitives
    const key: Signer
    var db: Database?

    /** The result of `Open` once the key has been derived and the table
        opened: both are given. */
    constructor (prims: Primitives, key: Signer, db: Database?)
      ensures this.prims == prims && this.key == key && this.db == db
    {
      this.prims := prims;
      this.key := key;
      this.db := db;
    }

    /** `New`: link fresh bits to the tip, sign `bits ++ hash`, and append the
        record if the engine gives it the id after the tip's. `bits` are the
        64 bytes crypto/rand supplies and `now` the Unix time. */
    method New(bits: Bytes64, now: int, replies: Replies) returns (r: Result<Record>)
      requires db != null && db.Valid()
      requires replies.assignedId > LastId(db.rows)
      modifies db
      ensures db.Valid() && db.closed == old(db.closed)
      ensures r.Fail? ==> db.rows == old(db.rows)
      ensures var Prepared(prevId, hash) := Prepare(prims, old(db.TipRead(replies.tipFault)), bits);
        && (key.sign(bits + hash).Fail? ==> r == Fail(key.sign(bits + hash).error))
        && (r.Ok? <==>
              key.sign(bits + hash).Ok? && !db.closed && replies.beginFault.None? &&
              replies.execFault.None? && replies.idFault.None? &&
              replies.assignedId == prevId + 1 && replies.commitFault.None?)
        && (r.Ok? ==>
              r.value == Record(prevId + 1, bits, now, hash, key.sign(bits + hash).value) &&
              db.rows == old(db.rows) + [r.value])
        && (key.sign(bits + hash).Ok? ==>
              (r == Fail(RaceDetected) <==>
                 !db.closed && replies.beginFault.None? && replies.execFault.None? && replies.idFault.None? &&
                 replies.assignedId != prevId + 1 && replies.rollbackFault.None?))
        && (key.sign(bits + hash).Ok? && !db.closed && replies.beginFault.None? && replies.execFault.None? &&
            replies.idFault.None? && replies.assignedId != prevId + 1 && replies.rollbackFault.Some? ==>
              r == Fail(FaultError(replies.rollbackFault)))
      ensures var Prepared(prevId, hash) := Prepare(prims, old(db.TipRead(replies.tipFault)), bits);
        key.sign(bits + hash).Ok? ==>
          && (db.closed ==> r == Fail(DatabaseClosed))
          && (!db.closed && replies.beginFault.Some? ==> r == Fail(FaultError(replies.beginFault)))
          && (!db.closed && replies.beginFault.None? && replies.execFault.Some? ==>
                r == Fail(FaultError(replies.execFault)))
          && (!db.closed && replies.beginFault.None? && replies.execFault.None? && replies.idFault.Some? ==>
                r == Fail(FaultError(replies.idFault)))
          && (!db.closed && replies.beginFault.None? && replies.execFault.None? && replies.idFault.None? &&
              replies.assignedId == prevId + 1 && replies.commitFault.Some? ==>
                r == Fail(FaultError(replies.commitFault)))
      ensures r.Ok? && !old(db.closed) && replies.tipFault.None? ==>
        r.value.hash == Link(prims, old(db.Latest()).ToOption(), bits)
      ensures prims.hex([]) == [] && Chained(prims, old(db.rows)) ==> Chained(prims, db.rows)
    {
      // link to the tip: hash the hex of its hash with the hex of the new bits
      var tip := db.TipRead(replies.tipFault);
      var Prepared(prevId, s) := Prepare(prims, tip, bits);
      var hash := CopyDigest(s);
      // the signature covers the bits followed by the link hash
      var signature := key.sign(bits + hash);
      if signature.Fail? {
        return Fail(signature.error);
      }
      var record := Record(0, bits, now, hash, signature.value);
      ghost var rows := db.rows;
      if prims.hex([]) == [] && Chained(prims, rows) && !db.closed && replies.assignedId == prevId + 1 {
        CommitKeepsChain(prims, db, replies.tipFault, bits, record.(id := prevId + 1));
      }
      // insert, committing only when the engine assigned the id after the tip's
      r := InsertChecked(db, record, prevId, replies);
    }
  }
}
