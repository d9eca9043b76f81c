# beacon: a model of the hash-chained, signed record ledger

The beacon repository publishes random bits as a ledger of signed records.
Each record holds 64 (or 32) random bytes, a time, a link hash and a
signature over `bits ++ hash`. The link hash chains each record to the one
before it, so the records form a hash chain. The repository has four
variants of the ledger, and this project models each one in Dafny:

- `rdb/rdb.go` (module `Rdb`). SQLite with an optimistic "id must be
  previous + 1, else roll back" check. A record links to the previous
  record's hash. Keys come from a passphrase through `stupidReader`.
- `beacon.go` (module `Beacon`). The same table and check. A record links to
  the previous record's bits, and the first record links to the
  base64-encoded PKIX public key.
- `store/store.go` (module `SqlStore`). SQLite. The tip is read and the row
  inserted in one transaction. Queries pick rows by `MIN(id)`/`MAX(id)` and
  decode them with `extractRecord`.
- `store.go` (module `BoltStore`). A BoltDB bucket keyed by the encoded
  time, searched with a cursor. IDs come from the bucket's sequence.

Modules shared by the variants:

- `SqlTable`: the table, the four SELECT statements, `Close` and the insert
  transaction. beacon.go repeats these from rdb/rdb.go line for line:
  `Record` (beacon.go:37-43) and `Equals` (beacon.go:63-67), the statements and queries
  (beacon.go:117-133, 151-174), `Close` (beacon.go:142-147) and the
  transaction (beacon.go:213-242).
- `StoreRecords`: the record and chain rule of the two stores.
- `Selection`: SQL's `ORDER BY … LIMIT 1`, `MIN` and `MAX` as
  least/greatest-key selections.
- `Binary`: bytes and `bytes.Compare`.
- `Crypto`: the primitives.
- `Outcomes`: `Option`, `Result` and the error values.

Inputs the model takes as parameters:

- SHA-256, SHA-512, hex, base64, PKIX encoding and signing are given functions, in the `Primitives` and `Signer` values.
- The clock is a `now` argument.
- The random bits are an argument. In beacon.go they are what `io.ReadFull` reported.
- A BoltDB key is an argument: the JSON encoding of a time.
- Each step of `New` that can fail is an argument of type `Option<string>`, bundled in that variant's `Replies` value. In rdb/rdb.go and beacon.go these steps are the tip query, `Begin`, the insert, `LastInsertId`, the rollback after a race and `Commit`. In store/store.go they are `Begin`, the tip query and the insert. In store.go they are the `Update`'s begin, the tip read, the gob encoding, `Put` and the `Update`'s commit. Closing an rdb/beacon handle takes its close error the same way.
- In the rdb/beacon check, the id the engine assigns is an argument, so a concurrent writer shows up as an unexpected id.

Every store is a class whose methods update its state. SQLite tables are
`seq<Record>`. The Bolt bucket is a sorted key sequence, a key→record map
and a sequence counter.

Each variant's `New` is proved against its own chain predicate, `Chained`.
`Chained` says the IDs run 1, 2, 3, … and every record's hash is the link
from the record before it. What `New` is proved to keep differs by variant:

- `SqlStore.Store.New` keeps `Chained` whenever it commits.
- `Rdb.RDB.New` keeps it whenever it commits, provided the hex of no bytes is empty.
- `Beacon.RDB.New` keeps it whenever it commits. This is the corrected `New`,
  which returns a failed tip read. The code as written can break the chain:
  see "## Findings".
- `BoltStore.Store.New` keeps it when the new time key sorts above every key
  in the bucket and the sequence equals the number of records.

## Model

| member | source | states |
|---|---|---|
| Binary.Compare | store.go:64-79 | `bytes.Compare`: -1, 0 or 1, and 0 exactly when the byte strings are equal |
| Binary.LessTransitive | store.go:64-79 | the key order of `bytes.Compare` is transitive |
| Binary.LessTotal | store.go:64-79 | two byte strings are equal or ordered one way, never both ways; `a < b` iff not `b <= a` |
| Binary.CopyDigest | rdb/rdb.go:217-220 | the copy loop makes `r.Hash` exactly the 32 digest bytes, in order (the same loop is at beacon.go:201-204) |
| Selection.ArgMin | rdb/rdb.go:146-148 | `WHERE keep ORDER BY key ASC LIMIT 1`: none exactly when no row is kept; otherwise a kept row of least key |
| Selection.ArgMax | rdb/rdb.go:141-142 | `ORDER BY key DESC LIMIT 1` / `MAX`: none exactly when no row is kept; otherwise a kept row of greatest key |
| SqlTable.Equals | rdb/rdb.go:61-63 | two records are equal exactly when they agree on every field once bits, time, hash and signature are set aside, that is, on the ID |
| SqlTable.EqualsComparesIdsOnly | rdb/rdb.go:59-63 | `Equals` holds exactly when the IDs are equal, whatever the bits, time, hash and signature |
| SqlTable.Database.Latest | rdb/rdb.go:194-198 | the row of greatest id; `NoRows` exactly on an empty table; `DatabaseClosed` once closed |
| SqlTable.Database.Select | rdb/rdb.go:173-178 | the row with exactly that id; `NoRows` exactly when no row has it |
| SqlTable.Database.After | rdb/rdb.go:180-185 | a row of least timestamp among those `>= t`; `NoRows` exactly when every timestamp is `< t` |
| SqlTable.Database.Before | rdb/rdb.go:187-192 | a row of greatest timestamp among those `<= t`; `NoRows` exactly when every timestamp is `> t` |
| SqlTable.Database.TipRead | rdb/rdb.go:208-209 | the tip read of `New`: the query's own failure, or `Latest` |
| SqlTable.ExactTimeFindsRow | rdb/rdb_test.go:90-103 | with strictly increasing timestamps, `After` and `Before` at a row's own time return that row |
| SqlTable.LatestIsLast | rdb/rdb.go:141-142 | with increasing ids, the `latest` statement returns the last row appended |
| SqlTable.Close | rdb/rdb.go:166-171 | a nil handle gives "already closed"; otherwise the handle is closed, the rows are unchanged, and the error is exactly the one closing the handle reports (none when it reports none) |
| SqlTable.Database.constructor | rdb/rdb.go:122-133 | the table as `Open` leaves it: the given rows, with increasing ids, behind an open handle |
| SqlTable.Database.Shut | rdb/rdb.go:170 | `sql.DB.Close`: the handle ends closed with the rows unchanged, and the driver's close error, if any, is returned |
| SqlTable.InsertChecked | rdb/rdb.go:234-257 | commits, appending the row with the assigned id, exactly when every step succeeds and the id is `prev.ID + 1`; a wrong id returns the race error exactly when the rollback succeeds, and the rollback's error otherwise; a closed handle, then a begin, insert or `LastInsertId` error, then a commit error is each returned as it is, in that order; every failure leaves the table unchanged |
| Rdb.Advance | rdb/rdb.go:81-86 | after a turn the position is still inside the current digest |
| Rdb.AdvanceBy | rdb/rdb.go:80-87 | after any number of turns the position is inside the current digest |
| Rdb.AdvanceKeepsInv | rdb/rdb.go:79-90 | however many bytes are handed out, `a` is the SHA-512 digest of everything written into `h` (the key, then each digest used up), and `i` lies inside it |
| Rdb.Stream | rdb/rdb.go:79-90 | the reader hands out exactly the requested number of bytes |
| Rdb.AdvanceSplit | rdb/rdb.go:79-90 | reading `m` bytes and then `n` leaves the reader in the state that reading `m + n` at once does |
| Rdb.StreamSplit | rdb/rdb.go:79-90 | the byte stream does not depend on how it is cut into reads: `m` bytes then `n` bytes are the first `m + n` bytes |
| Rdb.StupidReader.constructor | rdb/rdb.go:71-77 | a fresh reader: the key written into SHA-512, position 0 in its digest |
| Rdb.StupidReader.Turn | rdb/rdb.go:81-86 | one turn of the loop moves the reader to the next state of the stream, re-hashing when the digest is used up |
| Rdb.StupidReader.Read | rdb/rdb.go:79-90 | fills all of `p`, returns `len(p)` and no error, keeps the reader invariant; `p` receives exactly the next `len(p)` bytes of the stream and the reader moves past them |
| Rdb.Prepare | rdb/rdb.go:208-216 | as written: a tip gives its id and `H(hex(prev.Hash) ++ hex(bits))`; no rows gives id 0 and `H(hex(bits))`; any other read error is dropped, giving id 0 and `H(hex(nil) ++ hex(bits))` |
| Rdb.PrepareLinksToTip | rdb/rdb.go:208-216 | on a chained table any tip read that can pass the id check yields the link hash to the last row; a failed read links like the first record, which only an empty table accepts |
| Rdb.CommitKeepsChain | rdb/rdb.go:208-257 | whatever the tip read returned, a row that passes the id check, with the link the tip step computed, extends a chain to a chain |
| Rdb.RDB.constructor | rdb/rdb.go:94-135 | the fields `Open` sets: the derived key and the database handle |
| Rdb.ChainExtends | rdb/rdb.go:211-216 | appending a record with the next id and the link from the last row keeps the table a chain |
| Rdb.Link | rdb/rdb.go:211-216 | the genesis link is `H(hex(bits))`; any later link is `H(hex(prev.Hash) ++ hex(bits))`, the previous record's HASH |
| Rdb.RDB.New | rdb/rdb.go:202-258 | links `H(hex(bits))` at genesis and `H(hex(prev.Hash) ++ hex(bits))` otherwise; signs exactly `bits ++ hash`; returns a signing error before any transaction; commits only when the assigned id is `prev.ID + 1`; a wrong id returns "Detected race" exactly when the rollback succeeds, and the rollback's error otherwise; once signed, a closed handle, then a begin, insert, `LastInsertId` or commit error is returned as it is; keeps the table a chain |
| Beacon.ReadFull | beacon.go:180-188 | `io.ReadFull` fills all 64 bytes without error or reports EOF (nothing read) or UnexpectedEOF (part read). No other member uses it. `io.ReadFull` reports a nil error exactly when it filled the buffer, for every reader, so the short-read branch of `New` (beacon.go:185-188) is dead code in beacon.go. This function shows that fact only for readers that end with EOF; `Beacon.RDB.New` still accepts `Fill` values that `io.ReadFull` never produces and returns `ShortRead` for them |
| Beacon.EncodePublicKey | beacon.go:76-77 | base64 of the PKIX encoding; a PKIX error leaves the encoding of no bytes |
| Beacon.PrepareAsWritten | beacon.go:191-200 | as written: a tip gives `H(b64(prev.Bits) ++ b64(bits))`, no rows the genesis link, and any other error is dropped, with previous id 0 and no public key |
| Beacon.Prepare | beacon.go:191-200 | corrected: the same links for a tip and for no rows; any other read error is returned |
| Beacon.PrepareRefinesAsWritten | beacon.go:191-200 | wherever the corrected step succeeds it agrees with the code as written |
| Beacon.TipFaultBreaksGenesis | beacon.go:191-200 | on an empty table a failed tip read passes the id check for id 1, but the committed table is not a chain; the corrected step returns the error |
| Beacon.PrepareLinksToTip | beacon.go:194-199 | the corrected step links to the last row and asks for the id after it |
| Beacon.ChainExtends | beacon.go:194-199 | appending the next id with the link from the last row keeps the chain |
| Beacon.RDB.constructor | beacon.go:73-77 | `Open` keeps the signer and sets `EncodedPublicKey` from its public key |
| Beacon.Link | beacon.go:194-199 | the genesis link is `H(EncodedPublicKey ++ b64(bits))`; any later link is `H(b64(prev.Bits) ++ b64(bits))`, the previous record's BITS |
| Beacon.RDB.New | beacon.go:178-243 | the CORRECTED `New`, which returns a failed tip read (see "## Findings"): a reader error or a short fill aborts before the store is touched; genesis `H(EncodedPublicKey ++ b64(bits))`, otherwise `H(b64(prev.Bits) ++ b64(bits))`; signs `bits ++ hash`; commits only for id `prev.ID + 1`; a wrong id returns "Detected race" exactly when the rollback succeeds, and the rollback's error otherwise; once signed, a closed handle, then a begin, insert, `LastInsertId` or commit error is returned as it is; keeps the chain |
| StoreRecords.SameRuleAsBeacon | store/store.go:107-118 | the stores' link hash is beacon.go's with the encoded public key; only the first link can fail, with the PKIX error |
| StoreRecords.Link | store/store.go:107-118 | the link hash fails only for the first record, and then exactly when the PKIX encoding of the public key fails |
| StoreRecords.LinkFromTip | store/store.go:99-118 | a tip record gives the link from it, `ErrNoRecords` the genesis link, and any other read error is returned |
| StoreRecords.ChainLength | store/store.go:127-134 | on a chain the last ID is the number of records |
| StoreRecords.ChainExtends | store/store.go:106-118 | appending the next ID with the link from the last record keeps the chain |
| SqlStore.Extracted | store/store.go:60-70 | `ErrNoRows` becomes `ErrNoRecords`, other errors pass through; the first `min(32, len b, len h)` bytes of bits and hash are copied, later ones stay zero |
| SqlStore.ExtractRecord | store/store.go:60-70 | the copy loop over the record's arrays produces exactly `Extracted` |
| SqlStore.ExtractRoundTrip | store/store.go:60-70 | a stored record scans back unchanged |
| SqlStore.Store.constructor | store/store.go:30-47 | `Open` keeps the signer; the table holds the given rows, with increasing ids |
| SqlStore.Store.Latest | store/store.go:72-77 | the `MAX(id)` record; `ErrNoRecords` exactly on an empty table |
| SqlStore.Store.After | store/store.go:79-84 | the lowest-id record with `time >= min`; `ErrNoRecords` exactly when none has |
| SqlStore.Store.Before | store/store.go:86-91 | the highest-id record with `time <= max`; `ErrNoRecords` exactly when none has |
| SqlStore.Store.TipRead | store/store.go:99-102 | the tip read inside the transaction: its own failure, or `Latest` |
| SqlStore.Store.New | store/store.go:93-135 | a begin, tip-read (other than no records), PKIX, signing or insert error is returned as it is, with nothing inserted; otherwise the record with the given bits, the next rowid and the link hash is appended, `Latest` returns it, and the chain is kept |
| SqlStore.LatestIsLast | store/store.go:72-77 | with increasing ids the `MAX(id)` row is the last appended |
| SqlStore.NearestByTime | store/store.go:79-91 | with times non-decreasing along the table, `After` gives a least time `>= min` and `Before` a greatest time `<= max` |
| BoltStore.Seek | store.go:60 | the cursor's seek: every key before the position sorts before `q`, the key at it does not |
| BoltStore.AfterIndex | store.go:56-69 | seek, step back when past the end, reject a key before `q`: the smallest key `>= q`, none exactly when every key is `< q` |
| BoltStore.BeforeIndex | store.go:71-84 | seek, step back when past the end or past `q`, reject a key after `q`: the largest key `<= q`, none exactly when every key is `> q` |
| BoltStore.AfterIndexAt | store.go:56-69 | the seek settles on the first key at or after `q` |
| BoltStore.BeforeIndexAt | store.go:71-84 | the search settles on the last key at or before `q` |
| BoltStore.Store.constructor | store.go:30-40 | `Open` on a file without the bucket: no keys, no records, sequence 0 (reopening a file whose bucket already holds records is not modelled; every method is proved for any valid bucket) |
| BoltStore.Store.Latest | store.go:46-54 | the record under the greatest key; `ErrNoRecords` exactly when the bucket is empty |
| BoltStore.Store.After | store.go:56-69 | the record under the smallest key `>= q`; `ErrNoRecords` exactly when every key is `< q` |
| BoltStore.Store.Before | store.go:71-84 | the record under the largest key `<= q`; `ErrNoRecords` exactly when every key is `> q` |
| BoltStore.Store.Put | store.go:122 | `Put` sets exactly one key, keeps the keys sorted, and leaves the sequence alone |
| BoltStore.Store.TipRead | store.go:89-92 | the tip read inside the update: its own failure, or `Latest` |
| BoltStore.Store.New | store.go:86-125 | an error of the update's begin, the tip read (other than no records), PKIX, signing, encoding, `Put` or the update's commit is returned as it is, in that order, and changes nothing; otherwise the ID is the next sequence number and exactly the time key is written; the link hash comes from the last record, and an appended key keeps the chain and is what `Latest` returns |
| BoltStore.Store.Append | store.go:114-123 | an encoding, `Put` or commit error is returned in that order and changes nothing; otherwise the sequence advances to the ID, one key is written, and a key above every other key extends the records and the chain |
| BoltStore.TipIsLast | store.go:89-105 | the tip `New` reads is the last record in key order |
| BoltStore.PutAbove | store.go:121-122 | a key above every other key is appended at the end, with its record |
| BoltStore.SearchScenario | beacon_test.go:86-121 | a bucket with three keys `k0 < k1 < k2` and queries `t0 < k0 < t1 < k1 < t2 < k2 < t3`, all in `bytes.Compare` order: `After(t0)` is the record under `k0`, `Before(t2)` the one under `k1`, and `After(t3)` and `Before(t0)` give `ErrNoRecords`. These are the answers the test expects when the keys are its encoded record times |

## Left out

- Cryptography and encodings. SHA-256/512, ECDSA signing and key generation, x509 PKIX, hex, base64, gob and JSON are given functions with only their types. Nothing is assumed about collisions. The one exception is that hex and base64 of no bytes are empty, and that fact appears as a hypothesis where it is used.
- `MarshalJSON` (rdb/rdb.go:43-57, beacon.go:47-61): JSON output only, with no state.
- `Open` file and engine handling: `os.Stat`/`os.Create`, `sql.Open`, `CREATE TABLE`, prepared statements and `bolt.Open`. Only the fields `Open` sets are modelled. rdb/rdb.go's key derivation `ecdsa.GenerateKey(…, newStupidReader(key))` is library code. The reader it consumes is modelled, the key derivation is not.
- `Close` of store/store.go and store.go: it only delegates to the engine.
- BoltStore.Store.constructor: reopening a file whose bucket already holds records and a sequence (`CreateBucketIfNotExists`, store.go:30-40) is not modelled. The constructor gives the empty bucket; every method is proved for any valid bucket state.
- The `io.Reader` of beacon.go is not kept as a field. `New` takes what `io.ReadFull` reported. `Beacon.ReadFull` models that call on a reader that ends with EOF. Other reader errors appear as an arbitrary `err`.
- Time: `time.Now()` is the `now` argument, in whole units. The BoltDB key is the JSON encoding of the time. It is an argument compared byte by byte, because RFC 3339 text order need not be time order.
- Concurrency and isolation. A race between writers in rdb/beacon is only the assigned id. The nested read transaction store.go opens inside `Update` (store.go:89) is treated as a read of the current bucket.
- The deferred `tx.Commit()` of store/store.go (store/store.go:98) is not modelled. Neither is its error, nor what it commits on an error path, nor the ignored `LastInsertId` error (store/store.go:133). A successful insert is taken as committed with rowid `max(id) + 1`.
- BoltDB rollback: `NextSequence` and `Put` take effect only after every check in `New`, the commit's included, has passed. The model takes this as equivalent to the rollback `Update` does on an error.
- `Latest`/`After`/`Before` of store.go return `r, rs.db.View(…)`. The model returns the record the closure decodes. Go leaves unspecified whether the named result `r` is read before or after the call.
- Scan and decode failures of well-formed rows, and a nil value under a key (a nested bucket), are not modelled.
- Go's partially filled `r` returned beside an error is not modelled. The model returns only the error.
- Integer widths: IDs and times are unbounded. int64/uint64 overflow is not modelled.
- SQL tie-breaking among rows with equal timestamps is unspecified. The model picks the first (ASC) or the last (DESC) in table order.
- An `Exec` error in `New` of rdb/rdb.go and beacon.go (rdb/rdb.go:238-241, beacon.go:223-226) returns without `tx.Rollback()`, which leaves the transaction open. The model leaves the rows unchanged and does not model the open transaction or the connection it holds.
- BoltStore.Store.New: a time key that is already present overwrites that record. The contract then states only the new map. The chain and `Latest` are stated only for a key above all existing keys.
- SqlStore.Store.Latest: assumes the query does not fail. A query or scan error other than no rows is not modelled.
- SqlStore.Store.After: assumes the query does not fail, as `Latest` does.
- SqlStore.Store.Before: assumes the query does not fail, as `Latest` does.
- BoltStore.Store.Latest: assumes the `View` transaction opens and the decode succeeds. Their errors are not modelled.
- BoltStore.Store.After: assumes the `View` does not fail, as `Latest` does.
- BoltStore.Store.Before: assumes the `View` does not fail, as `Latest` does.

## Findings

| source | as written | input that shows it | evidently intended | confidence | as-written member | corrected member |
|---|---|---|---|---|---|---|
| beacon.go:191-200 | a tip read that fails with any error other than `sql.ErrNoRows` is ignored. `r0` stays the zero Record, so the hash is `H(b64(nil) ++ b64(bits))` and the id check expects 1 | an empty table whose `latest` query fails (for example `database is locked`) while the insert succeeds. The record commits with id 1 and a genesis hash without the public key, so the chain rule fails at its first link. In rdb/rdb.go the same fall-through is harmless, because there the genesis link has no key and `Rdb.PrepareLinksToTip` proves it. | return the read error, as store/store.go:103-105 does | not executed; medium | Beacon.PrepareAsWritten, Beacon.TipFaultBreaksGenesis | Beacon.Prepare, Beacon.RDB.New |
