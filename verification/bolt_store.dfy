/** store.go: the RecordStore over BoltDB. Records live in one bucket, keyed
    by the JSON encoding of their time; a bucket keeps its keys sorted by
    `bytes.Compare` and is searched with a cursor. IDs come from the
    bucket's sequence. */
module BoltStore {
  import opened Binary
  import opened Outcomes
  import opened Crypto
  import opened Selection
  import opened StoreRecords

  /** Keys in strictly increasing `bytes.Compare` order, as a bucket holds them. */
  ghost predicate Sorted(keys: seq<Bytes>) {
    forall i, j :: 0 <= i < j < |keys| ==> Less(keys[i], keys[j])
  }

  // ---------------------------------------------------------------------
  // The cursor

  /** `Cursor.Seek(q)`: the position of the first key at or after `q`;
      `|keys|`, where the cursor reports nil, when every key sorts before `q`. */
  function Seek(keys: seq<Bytes>, q: Bytes): (pos: nat)
    ensures pos <= |keys|
    ensures forall j :: 0 <= j < pos ==> Less(keys[j], q)
    ensures pos < |keys| ==> LessEq(q, keys[pos])
    decreases |keys|
  {
    if keys == [] then 0
    else if LessEq(q, keys[0]) then 0
    else
      LessTotal(keys[0], q);
      1 + Seek(keys[1..], q)
  }

  /** The key the cursor reports at `pos`: nil past the last key. */
  function At(keys: seq<Bytes>, pos: nat): (r: Option<nat>)
    ensures r.Some? <==> pos < |keys|
    ensures r.Some? ==> r.value == pos
  {
    if pos < |keys| then Some(pos) else None
  }

  /** `Cursor.Prev()` from `pos`: the key before it, nil before the first. */
  function Prev(pos: nat): (r: Option<nat>)
    ensures r.None? <==> pos == 0
    ensures r.Some? ==> r.value + 1 == pos
  {
    if pos == 0 then None else Some(pos - 1)
  }

  /** The key `After(q)` settles on, as written: seek; if that ran off the
      end, step back; give up if there is no key or it sorts before `q`.
      It is the smallest key at or after `q`. */
  function AfterIndex(keys: seq<Bytes>, q: Bytes): (r: Option<nat>)
    requires Sorted(keys)
    ensures r.None? <==> forall j :: 0 <= j < |keys| ==> Less(keys[j], q)
    ensures r.Some? ==> r.value < |keys| && LessEq(q, keys[r.value])
    ensures r.Some? ==> forall j :: 0 <= j < |keys| && LessEq(q, keys[j]) ==> LessEq(keys[r.value], keys[j])
  {
    var pos := Seek(keys, q);
    var k := if At(keys, pos).None? then Prev(pos) else At(keys, pos);
    assert k.Some? ==> k.value < |keys|;
    var r := if k.None? || Compare(keys[k.value], q) == -1 then None else k;
    AfterIndexCorrect(keys, q, pos, r);
    r
  }

  /** The proof of AfterIndex, by the position the seek stopped at. */
  lemma AfterIndexCorrect(keys: seq<Bytes>, q: Bytes, pos: nat, r: Option<nat>)
    requires Sorted(keys) && pos == Seek(keys, q)
    requires var k := if At(keys, pos).None? then Prev(pos) else At(keys, pos);
             k.Some? ==> k.value < |keys|
    requires var k := if At(keys, pos).None? then Prev(pos) else At(keys, pos);
             r == if k.None? || Compare(keys[k.value], q) == -1 then None else k
    ensures r.None? <==> forall j :: 0 <= j < |keys| ==> Less(keys[j], q)
    ensures r.Some? ==> r.value < |keys| && LessEq(q, keys[r.value])
    ensures r.Some? ==> forall j :: 0 <= j < |keys| && LessEq(q, keys[j]) ==> LessEq(keys[r.value], keys[j])
  {
    if pos < |keys| {
      // the seek found a key at or after `q`
      LessTotal(keys[pos], q);
      assert r == Some(pos);
      forall j | 0 <= j < |keys| && LessEq(q, keys[j])
        ensures LessEq(keys[pos], keys[j])
      {
        LessTotal(keys[j], q);
        assert pos <= j;
      }
    } else if keys != [] {
      // the seek ran off the end and the step back lands on a key before `q`
      assert Less(keys[|keys| - 1], q);
    }
  }

  /** The key `Before(q)` settles on, as written: seek; if that ran off the
      end or passed `q`, step back; give up if there is no key or it sorts
      after `q`. It is the largest key at or before `q`. */
  function BeforeIndex(keys: seq<Bytes>, q: Bytes): (r: Option<nat>)
    requires Sorted(keys)
    ensures r.None? <==> forall j :: 0 <= j < |keys| ==> Less(q, keys[j])
    ensures r.Some? ==> r.value < |keys| && LessEq(keys[r.value], q)
    ensures r.Some? ==> forall j :: 0 <= j < |keys| && LessEq(keys[j], q) ==> LessEq(keys[j], keys[r.value])
  {
    var pos := Seek(keys, q);
    var k := if At(keys, pos).None? || Compare(keys[pos], q) == 1 then Prev(pos) else At(keys, pos);
    assert k.Some? ==> k.value < |keys|;
    var r := if k.None? || Compare(keys[k.value], q) == 1 then None else k;
    BeforeIndexCorrect(keys, q, pos, r);
    r
  }

  /** The proof of BeforeIndex, by the position the seek stopped at. */
  lemma BeforeIndexCorrect(keys: seq<Bytes>, q: Bytes, pos: nat, r: Option<nat>)
    requires Sorted(keys) && pos == Seek(keys, q)
    requires var k := if At(keys, pos).None? || Compare(keys[pos], q) == 1 then Prev(pos) else At(keys, pos);
             k.Some? ==> k.value < |keys|
    requires var k := if At(keys, pos).None? || Compare(keys[pos], q) == 1 then Prev(pos) else At(keys, pos);
             r == if k.None? || Compare(keys[k.value], q) == 1 then None else k
    ensures r.None? <==> forall j :: 0 <= j < |keys| ==> Less(q, keys[j])
    ensures r.Some? ==> r.value < |keys| && LessEq(keys[r.value], q)
    ensures r.Some? ==> forall j :: 0 <= j < |keys| && LessEq(keys[j], q) ==> LessEq(keys[j], keys[r.value])
  {
    if pos < |keys| && keys[pos] == q {
      // the seek found `q` itself
      forall j | 0 <= j < |keys| && LessEq(keys[j], q)
        ensures LessEq(keys[j], keys[pos])
      {
      }
    } else if pos > 0 {
      // the key before the seek position is the last one before `q`
      var i := pos - 1;
      if pos < |keys| {
        LessTotal(keys[pos], q);
      }
      assert r == Some(i);
      forall j | 0 <= j < |keys| && LessEq(keys[j], q)
        ensures LessEq(keys[j], keys[i])
      {
        if j > i {
          LessTotal(keys[j], q);
          LessMixed(q, keys[pos], keys[j]);
          if j > pos { assert Less(keys[pos], keys[j]); }
          LessTotal(q, keys[j]);
        }
      }
    } else {
      // every key sorts after `q`
      if keys != [] {
        LessTotal(keys[0], q);
        forall j | 0 <= j < |keys|
          ensures Less(q, keys[j])
        {
          if j > 0 { LessTransitive(q, keys[0], keys[j]); }
        }
      }
    }
  }

  // ---------------------------------------------------------------------
  // The store

  /** The records in key order. */
  function Values(keys: seq<Bytes>, entries: map<Bytes, Record>): (vs: seq<Record>)
    requires forall i :: 0 <= i < |keys| ==> keys[i] in entries
    ensures |vs| == |keys| && forall i :: 0 <= i < |keys| ==> vs[i] == entries[keys[i]]
  {
    seq(|keys|, i requires 0 <= i < |keys| => entries[keys[i]])
  }

  /** What can fail in `New`'s `Update`: opening the writable transaction,
      each step inside it, and the commit that ends it. */
  datatype Replies = Replies(
    beginFault: Option<string>,      // DB.Begin of the writable transaction
    tipFault: Option<string>,        // the read of the latest record fails other than by finding none
    encodeFault: Option<string>,     // gob encoding of the record
    putFault: Option<string>,        // Bucket.Put
    commitFault: Option<string>)     // Tx.Commit once the function returns nil

  /** `recordStore` of store.go: the records bucket and the signer. The bucket
      is its sorted keys, the record stored under each, and its sequence. */
  class Store {
    const prims: Primitives
    const signer: Signer
    var keys: seq<Bytes>
    var entries: map<Bytes, Record>
    var sequence: nat

    ghost predicate Valid()
      reads this
    {
      Sorted(keys) && forall k :: k in entries <==> k in keys
    }

    /** `Open`, once the bucket exists: the signer is kept. */
    constructor (prims: Primitives, signer: Signer)
      ensures Valid() && this.prims == prims && this.signer == signer
      ensures keys == [] && entries == map[] && sequence == 0
    {
      this.prims := prims;
      this.signer := signer;
      keys := [];
      entries := map[];
      sequence := 0;
    }

    /** The bucket's records in key order. */
    function Records(): (rs: seq<Record>)
      reads this
      requires Valid()
      ensures |rs| == |keys| && forall i :: 0 <= i < |keys| ==> rs[i] == entries[keys[i]]
    {
      Values(keys, entries)
    }

    /** `Latest`: the record under the cursor's `Last()` key, the greatest. */
    function Latest(): (r: Result<Record>)
      reads this
      requires Valid()
      ensures r.Ok? || r == Fail(NoRecords)
      ensures r == Fail(NoRecords) <==> entries == map[]
      ensures r.Ok? ==> exists k :: k in entries && entries[k] == r.value && forall k' :: k' in entries ==> LessEq(k', k)
    {
      if keys == [] then
        assert forall k :: k !in entries;
        Fail(NoRecords)
      else
        var last := keys[|keys| - 1];
        assert last in entries;
        assert forall k' :: k' in entries ==> LessEq(k', last) by {
          forall k' | k' in entries ensures LessEq(k', last) {
            var j :| 0 <= j < |keys| && keys[j] == k';
          }
        }
        Ok(entries[last])
    }

    /** `After(q)`, `q` being the encoded query time: the record under the
        smallest key at or after `q`, `ErrNoRecords` when every key sorts before it. */
    function After(q: Bytes): (r: Result<Record>)
      reads this
      requires Valid()
      ensures r.Ok? || r == Fail(NoRecords)
      ensures r == Fail(NoRecords) <==> forall k :: k in entries ==> Less(k, q)
      ensures r.Ok? ==> exists k :: k in entries && entries[k] == r.value && LessEq(q, k) &&
                          forall k' :: k' in entries && LessEq(q, k') ==> LessEq(k, k')
    {
      var i := AfterIndex(keys, q);
      assert i.None? ==> forall k :: k in entries ==> Less(k, q) by {
        if i.None? {
          forall k | k in entries ensures Less(k, q) { var j :| 0 <= j < |keys| && keys[j] == k; }
        }
      }
      if i.None? then Fail(NoRecords)
      else
        var k := keys[i.value];
        assert k in entries;
        assert forall k' :: k' in entries && LessEq(q, k') ==> LessEq(k, k') by {
          forall k' | k' in entries && LessEq(q, k') ensures LessEq(k, k') {
            var j :| 0 <= j < |keys| && keys[j] == k';
          }
        }
        LessTotal(k, q);
        Ok(entries[k])
    }

    /** `Before(q)`: the record under the largest key at or before `q`,
        `ErrNoRecords` when every key sorts after it. */
    function Before(q: Bytes): (r: Result<Record>)
      reads this
      requires Valid()
      ensures r.Ok? || r == Fail(NoRecords)
      ensures r == Fail(NoRecords) <==> forall k :: k in entries ==> Less(q, k)
      ensures r.Ok? ==> exists k :: k in entries && entries[k] == r.value && LessEq(k, q) &&
                          forall k' :: k' in entries && LessEq(k', q) ==> LessEq(k', k)
    {
      var i := BeforeIndex(keys, q);
      assert i.None? ==> forall k :: k in entries ==> Less(q, k) by {
        if i.None? {
          forall k | k in entries ensures Less(q, k) { var j :| 0 <= j < |keys| && keys[j] == k; }
        }
      }
      if i.None? then Fail(NoRecords)
      else
        var k := keys[i.value];
        assert k in entries;
        assert forall k' :: k' in entries && LessEq(k', q) ==> LessEq(k', k) by {
          forall k' | k' in entries && LessEq(k', q) ensures LessEq(k', k) {
            var j :| 0 <= j < |keys| && keys[j] == k';
          }
        }
        LessTotal(k, q);
        Ok(entries[k])
    }

    /** `Bucket.Put(k, v)`: store `v` under `k`, replacing what was there; a
        new key goes in at its place in the order. */
    method Put(k: Bytes, v: Record)
      requires Valid()
      modifies this
      ensures Valid()
      ensures entries == old(entries)[k := v]
      ensures sequence == old(sequence)
      ensures k in old(entries) ==> keys == old(keys)
      ensures k !in old(entries) ==>
        var pos := Seek(old(keys), k);
        keys == old(keys)[..pos] + [k] + old(keys)[pos..]
    {
      var pos := Seek(keys, k);
      if pos < |keys| && keys[pos] == k {
        entries := entries[k := v];
        return;
      }
      if pos < |keys| {
        LessTotal(keys[pos], k);
      }
      var keys' := keys[..pos] + [k] + keys[pos..];
      forall i, j | 0 <= i < j < |keys'|
        ensures Less(keys'[i], keys'[j])
      {
        if j > pos {
          assert keys'[j] == keys[j - 1];
          if j > pos + 1 {
            LessTransitive(k, keys[pos], keys[j - 1]);
          }
          assert Less(k, keys'[j]);
          if i < pos {
            LessTransitive(keys'[i], k, keys'[j]);
          }
        }
      }
      keys := keys';
      entries := entries[k := v];
    }

    /** The tip read inside `New`. */
    function TipRead(tipFault: Option<string>): (r: Result<Record>)
      reads this
      requires Valid()
      ensures tipFault.Some? ==> r == Fail(External(tipFault.value))
      ensures tipFault.None? ==> r == Latest()
    {
      if tipFault.Some? then Fail(External(tipFault.value)) else Latest()
    }

    /** `New(bits)` inside one `Update`: read the tip, link the bits to it (to
        the public key on an empty bucket), sign `bits ++ hash`, take the next
        sequence number as the ID and put the record under `key`, the
        encoding of its time `now`. An error rolls the whole update back. */
    method New(bits: Bytes32, now: int, key: Bytes, replies: Replies) returns (r: Result<Record>)
      requires Valid()
      modifies this
      ensures Valid()
      ensures r.Fail? ==> keys == old(keys) && entries == old(entries) && sequence == old(sequence)
      ensures replies.beginFault.Some? ==> r == Fail(External(replies.beginFault.value))
      ensures replies.beginFault.None? ==>
        var link := LinkFromTip(prims, signer.publicKey, old(TipRead(replies.tipFault)), bits);
        && (link.Fail? ==> r == Fail(link.error))
        && (link.Ok? && signer.sign(bits + link.value).Fail? ==> r == Fail(signer.sign(bits + link.value).error))
        && (r.Ok? <==> link.Ok? && signer.sign(bits + link.value).Ok? && replies.encodeFault.None? &&
                       replies.putFault.None? && replies.commitFault.None?)
        && (r.Ok? ==> r.value == Record(old(sequence) + 1, bits, now, link.value, signer.sign(bits + link.value).value))
      ensures replies.beginFault.None? ==>
        var link := LinkFromTip(prims, signer.publicKey, old(TipRead(replies.tipFault)), bits);
        link.Ok? && signer.sign(bits + link.value).Ok? ==>
          && (replies.encodeFault.Some? ==> r == Fail(External(replies.encodeFault.value)))
          && (replies.encodeFault.None? && replies.putFault.Some? ==> r == Fail(External(replies.putFault.value)))
          && (replies.encodeFault.None? && replies.putFault.None? && replies.commitFault.Some? ==>
                r == Fail(External(replies.commitFault.value)))
      ensures r.Ok? ==> sequence == old(sequence) + 1 && entries == old(entries)[key := r.value]
      ensures r.Ok? ==> Link(prims, signer.publicKey, Previous(old(Records()), |old(keys)|), bits) == Ok(r.value.hash)
      ensures r.Ok? && (forall k :: k in old(entries) ==> Less(k, key)) ==>
        keys == old(keys) + [key] && Records() == old(Records()) + [r.value] && Latest() == Ok(r.value)
      ensures r.Ok? && (forall k :: k in old(entries) ==> Less(k, key)) &&
              Chained(prims, signer.publicKey, old(Records())) && old(sequence) == |old(keys)| ==>
        Chained(prims, signer.publicKey, Records()) && sequence == |keys|
    {
      // open the writable transaction
      if replies.beginFault.Some? {
        return Fail(External(replies.beginFault.value));
      }
      // read the latest record
      var tip := TipRead(replies.tipFault);
      if tip.Fail? && tip.error != NoRecords {
        return Fail(tip.error);
      }
      var link := LinkFromTip(prims, signer.publicKey, tip, bits);
      if link.Fail? {
        return Fail(link.error);
      }
      var hash := link.value;
      // the signature covers the bits followed by the link hash
      var signature := signer.sign(bits + hash);
      if signature.Fail? {
        return Fail(signature.error);
      }
      // the next sequence number
      var record := Record(sequence + 1, bits, now, hash, signature.value);
      TipIsLast(this, bits);
      r := Append(key, record, replies);
    }

    /** The end of `New`'s update: encode the record, put it under `key` and
        commit. The sequence advances to the record's ID only when all three
        succeed; any error rolls the update back. */
    method Append(key: Bytes, record: Record, replies: Replies) returns (r: Result<Record>)
      requires Valid() && record.id == sequence + 1
      modifies this
      ensures Valid()
      ensures r.Ok? <==> replies.encodeFault.None? && replies.putFault.None? && replies.commitFault.None?
      ensures replies.encodeFault.Some? ==> r == Fail(External(replies.encodeFault.value))
      ensures replies.encodeFault.None? && replies.putFault.Some? ==> r == Fail(External(replies.putFault.value))
      ensures replies.encodeFault.None? && replies.putFault.None? && replies.commitFault.Some? ==>
        r == Fail(External(replies.commitFault.value))
      ensures r.Fail? ==> keys == old(keys) && entries == old(entries) && sequence == old(sequence)
      ensures r.Ok? ==> r.value == record && sequence == old(sequence) + 1 && entries == old(entries)[key := record]
      ensures r.Ok? && (forall k :: k in old(entries) ==> Less(k, key)) ==>
        keys == old(keys) + [key] && Records() == old(Records()) + [record] && Latest() == Ok(record)
      ensures r.Ok? && (forall k :: k in old(entries) ==> Less(k, key)) &&
              Link(prims, signer.publicKey, Previous(old(Records()), |old(keys)|), record.bits) == Ok(record.hash) &&
              Chained(prims, signer.publicKey, old(Records())) && old(sequence) == |old(keys)| ==>
        Chained(prims, signer.publicKey, Records()) && sequence == |keys|
    {
      if replies.encodeFault.Some? {
        return Fail(External(replies.encodeFault.value));
      }
      if replies.putFault.Some? {
        return Fail(External(replies.putFault.value));
      }
      // a failed commit leaves the bucket as it was
      if replies.commitFault.Some? {
        return Fail(External(replies.commitFault.value));
      }
      r := Ok(record);
      ghost var before, chain := keys, Records();
      sequence := record.id;
      Put(key, record);
      if forall k :: k in old(entries) ==> Less(k, key) {
        PutAbove(before, old(entries), key, record, keys);
        assert keys[|keys| - 1] == key;
        if Chained(prims, signer.publicKey, chain) && old(sequence) == |before| &&
           Link(prims, signer.publicKey, Previous(chain, |before|), record.bits) == Ok(record.hash) {
          ChainExtends(prims, signer.publicKey, chain, record);
        }
      }
    }
  }

  /** The tip `New` reads is the last record in key order. */
  lemma TipIsLast(s: Store, bits: Bytes32)
    requires s.Valid()
    ensures LinkFromTip(s.prims, s.signer.publicKey, s.Latest(), bits) ==
            Link(s.prims, s.signer.publicKey, Previous(s.Records(), |s.keys|), bits)
  {
  }

  /** Putting a key above every key of the bucket appends it, and its record, at the end. */
  lemma PutAbove(before: seq<Bytes>, entries: map<Bytes, Record>, key: Bytes, v: Record, after: seq<Bytes>)
    requires forall i :: 0 <= i < |before| ==> before[i] in entries
    requires forall k :: k in entries ==> Less(k, key)
    requires after == before[..Seek(before, key)] + [key] + before[Seek(before, key)..]
    ensures key !in entries
    ensures after == before + [key]
    ensures Values(after, entries[key := v]) == Values(before, entries) + [v]
  {
    assert !Less(key, key);
    SeekAbove(before, key);
    assert before[..|before|] == before;
  }

  /** A key above all others is sought past the end. */
  lemma {:induction false} SeekAbove(keys: seq<Bytes>, q: Bytes)
    requires forall i :: 0 <= i < |keys| ==> Less(keys[i], q)
    ensures Seek(keys, q) == |keys|
    decreases |keys|
  {
    if keys != [] {
      LessTotal(keys[0], q);
      SeekAbove(keys[1..], q);
    }
  }

  /** The search test of beacon_test.go: three records put under the
      encoded times `k0 < k1 < k2`, each taken after the query time before
      it, `t0 < k0 < t1 < k1 < t2 < k2 < t3`. After the first query time
      comes the first record, before the third query time the second, and
      nothing lies after `t3` or before `t0`. */
  lemma SearchScenario(s: Store, t0: Bytes, t1: Bytes, t2: Bytes, t3: Bytes,
                       k0: Bytes, k1: Bytes, k2: Bytes, r0: Record, r1: Record, r2: Record)
    requires s.Valid() && s.keys == [k0, k1, k2] && s.entries == map[k0 := r0, k1 := r1, k2 := r2]
    requires Less(t0, k0) && Less(k0, t1) && Less(t1, k1) && Less(k1, t2) && Less(t2, k2) && Less(k2, t3)
    ensures s.After(t0) == Ok(r0)
    ensures s.After(t3) == Fail(NoRecords)
    ensures s.Before(t2) == Ok(r1)
    ensures s.Before(t0) == Fail(NoRecords)
  {
    LessTransitive(k0, t1, k1);
    LessTransitive(k1, t2, k2);
    LessTransitive(t0, k0, k1);
    LessTransitive(t0, k1, k2);
    LessTransitive(k1, k2, t3);
    LessTransitive(k0, k1, t3);
    AfterIndexAt(s.keys, t0, 0);
    BeforeIndexAt(s.keys, t2, 1);
  }

  /** A seek for `q` settles on key `i` when that key is at or after `q`
      and the key before it, if any, sorts before `q`. */
  lemma AfterIndexAt(keys: seq<Bytes>, q: Bytes, i: nat)
    requires Sorted(keys) && i < |keys| && LessEq(q, keys[i]) && (i > 0 ==> Less(keys[i - 1], q))
    ensures AfterIndex(keys, q) == Some(i)
  {
    LessTotal(keys[i], q);
    var r := AfterIndex(keys, q).value;
    forall j | 0 <= j < i
      ensures Less(keys[j], q)
    {
      if j < i - 1 { LessTransitive(keys[j], keys[i - 1], q); }
    }
    forall j | i < j < |keys|
      ensures !LessEq(keys[j], keys[i])
    {
      LessTotal(keys[i], keys[j]);
    }
    LessTotal(keys[r], q);
  }

  /** `Before(q)` settles on key `i` when that key is at or before `q` and
      the key after it, if any, sorts after `q`. */
  lemma BeforeIndexAt(keys: seq<Bytes>, q: Bytes, i: nat)
    requires Sorted(keys) && i < |keys| && LessEq(keys[i], q) && (i + 1 < |keys| ==> Less(q, keys[i + 1]))
    ensures BeforeIndex(keys, q) == Some(i)
  {
    LessTotal(q, keys[i]);
    var r := BeforeIndex(keys, q).value;
    forall j | i < j < |keys|
      ensures Less(q, keys[j])
    {
      if j > i + 1 { LessTransitive(q, keys[i + 1], keys[j]); }
    }
    forall j | 0 <= j < i
      ensures !LessEq(keys[i], keys[j])
    {
      LessTotal(keys[j], keys[i]);
    }
    LessTotal(q, keys[r]);
  }
}
