/** The Record of the two RecordStore implementations, store/store.go and
    store.go, and the chain rule they share with beacon.go: the link hash
    of a record covers the base64 of the previous record's bits, or the
    base64 of the signer's PKIX-encoded public key for the first record. */
module StoreRecords {
  import opened Binary
  import opened Outcomes
  import opened Crypto
  import opened Selection
  import SqlTable
  import Beacon

  /** A record of the store: 32 bits, the link hash, a time and a signature,
      and the unsigned ID the store assigns. */
  datatype Record = Record(id: nat, bits: Bytes32, time: int, hash: Bytes32, signature: Bytes)

  /** The link hash `New` computes. At genesis it needs the PKIX encoding
      of the public key, whose error `New` returns. */
  function Link(p: Primitives, pub: PublicKey, prev: Option<Record>, bits: Bytes32): (h: Result<Bytes32>)
    ensures h.Fail? <==> prev.None? && p.pkix(pub).Fail?
  {
    match prev
    case Some(last) => Ok(p.sha256(p.base64(last.bits) + p.base64(bits)))
    case None =>
      match p.pkix(pub)
      case Ok(b) => Ok(p.sha256(p.base64(b) + p.base64(bits)))
      case Fail(e) => Fail(e)
  }

  /** The link hash `New` computes from what the tip read returned: on
      `ErrNoRecords` the genesis link, on a record the link from it, and on
      any other error that error. */
  function LinkFromTip(p: Primitives, pub: PublicKey, tip: Result<Record>, bits: Bytes32): (h: Result<Bytes32>)
    ensures tip.Ok? ==> h == Link(p, pub, Some(tip.value), bits)
    ensures tip == Fail(NoRecords) ==> h == Link(p, pub, None, bits)
    ensures tip.Fail? && tip != Fail(NoRecords) ==> h == Fail(tip.error)
  {
    match tip
    case Ok(last) => Link(p, pub, Some(last), bits)
    case Fail(NoRecords) => Link(p, pub, None, bits)
    case Fail(e) => Fail(e)
  }

  /** The same record seen as a row of beacon.go's table. */
  function AsBeaconRecord(r: Record): (b: SqlTable.Record)
    ensures b.id == r.id && b.bits == r.bits && b.time == r.time && b.hash == r.hash && b.signature == r.signature
  {
    SqlTable.Record(r.id, r.bits, r.time, r.hash, r.signature)
  }

  /** The stores keep beacon.go's chain rule: wherever the public key
      encodes, their link hash is beacon.go's, with the encoded public key
      `Open` computes; where it does not, only the first link fails. */
  lemma SameRuleAsBeacon(p: Primitives, pub: PublicKey, prev: Option<Record>, bits: Bytes32)
    ensures p.pkix(pub).Ok? || prev.Some? ==>
      Link(p, pub, prev, bits) ==
        Ok(Beacon.Link(p, Beacon.EncodePublicKey(p, pub), if prev.Some? then Some(AsBeaconRecord(prev.value)) else None, bits))
    ensures p.pkix(pub).Fail? && prev.None? ==> Link(p, pub, prev, bits) == Fail(p.pkix(pub).error)
  {
  }

  /** Row `i` has ID `i + 1` and the link hash from the row before it. */
  ghost predicate LinkedAt(p: Primitives, pub: PublicKey, rows: seq<Record>, i: nat)
    requires i < |rows|
  {
    rows[i].id == i + 1 && Link(p, pub, Previous(rows, i), rows[i].bits) == Ok(rows[i].hash)
  }

  /** The records, in order, form the chain. */
  ghost predicate Chained(p: Primitives, pub: PublicKey, rows: seq<Record>) {
    forall i :: 0 <= i < |rows| ==> LinkedAt(p, pub, rows, i)
  }

  /** On a chain, the ID of the last record is the number of records. */
  lemma ChainLength(p: Primitives, pub: PublicKey, rows: seq<Record>)
    requires Chained(p, pub, rows) && rows != []
    ensures rows[|rows| - 1].id == |rows|
  {
    assert LinkedAt(p, pub, rows, |rows| - 1);
  }

  /** Extending a chain by a record with the next ID and the link from the last record keeps it a chain. */
  lemma ChainExtends(p: Primitives, pub: PublicKey, rows: seq<Record>, r: Record)
    requires Chained(p, pub, rows)
    requires r.id == |rows| + 1
    requires Link(p, pub, Previous(rows, |rows|), r.bits) == Ok(r.hash)
    ensures Chained(p, pub, rows + [r])
  {
    var rows' := rows + [r];
    forall i | 0 <= i < |rows'|
      ensures LinkedAt(p, pub, rows', i)
    {
      if i < |rows| {
        assert LinkedAt(p, pub, rows, i);
        assert rows'[i] == rows[i];
        assert Previous(rows', i) == Previous(rows, i);
      } else {
        assert rows'[i] == r;
        assert Previous(rows', i) == Previous(rows, |rows|);
      }
    }
  }
}
