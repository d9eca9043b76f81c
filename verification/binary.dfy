/** Byte strings: Go's `[]byte`, the fixed-size `[32]byte` and `[64]byte`
    arrays, and the lexicographic order of `bytes.Compare` that BoltDB uses
    to sort the keys of a bucket. */
module Binary {

  type Byte = b: int | 0 <= b < 256
  type Bytes = seq<Byte>
  type Bytes32 = s: Bytes | |s| == 32 witness Zeros(32)
  type Bytes64 = s: Bytes | |s| == 64 witness Zeros(64)

  function Zeros(n: nat): (z: Bytes)
    ensures |z| == n && forall i :: 0 <= i < n ==> z[i] == 0
  {
    seq(n, _ => 0)
  }

  /** `bytes.Compare(a, b)`: -1, 0 or 1 as `a` sorts before, equal to or after
      `b`, byte by byte, a proper prefix sorting first. */
  function Compare(a: Bytes, b: Bytes): (c: int)
    ensures -1 <= c <= 1
    ensures c == 0 <==> a == b
    decreases |a|
  {
    if a == [] && b == [] then 0
    else if a == [] then -1
    else if b == [] then 1
    else if a[0] < b[0] then -1
    else if a[0] > b[0] then 1
    else
      var c := Compare(a[1..], b[1..]);
      assert c == 0 ==> a == [a[0]] + a[1..] == [b[0]] + b[1..] == b;
      c
  }

  predicate Less(a: Bytes, b: Bytes) {
    Compare(a, b) == -1
  }

  predicate LessEq(a: Bytes, b: Bytes) {
    Compare(a, b) <= 0
  }

  /** Swapping the arguments of `bytes.Compare` negates its answer. */
  lemma {:induction false} CompareFlip(a: Bytes, b: Bytes)
    ensures Compare(b, a) == -Compare(a, b)
    decreases |a|
  {
    if a != [] && b != [] && a[0] == b[0] {
      CompareFlip(a[1..], b[1..]);
    }
  }

  /** The order of `bytes.Compare` is transitive. */
  lemma {:induction false} LessTransitive(a: Bytes, b: Bytes, c: Bytes)
    requires Less(a, b) && Less(b, c)
    ensures Less(a, c)
    decreases |a|
  {
    if a != [] && b != [] && c != [] && a[0] == b[0] == c[0] {
      LessTransitive(a[1..], b[1..], c[1..]);
    }
  }

  /** Any two distinct byte strings are ordered one way or the other, never both. */
  lemma LessTotal(a: Bytes, b: Bytes)
    ensures a == b || Less(a, b) || Less(b, a)
    ensures !(Less(a, b) && Less(b, a))
    ensures Less(a, b) <==> !LessEq(b, a)
  {
    CompareFlip(a, b);
  }

  /** `a < b <= c` and `a <= b < c` both give `a < c`. */
  lemma LessMixed(a: Bytes, b: Bytes, c: Bytes)
    ensures Less(a, b) && LessEq(b, c) ==> Less(a, c)
    ensures LessEq(a, b) && Less(b, c) ==> Less(a, c)
  {
    if Less(a, b) && LessEq(b, c) && b != c {
      LessTransitive(a, b, c);
    }
    if LessEq(a, b) && Less(b, c) && a != b {
      LessTransitive(a, b, c);
    }
  }

  /** `r.Hash = make([]byte, 32)` followed by the loop that copies the
      SHA-256 digest `s` into it byte by byte: the copy is the digest. */
  method CopyDigest(s: Bytes32) returns (h: Bytes)
    ensures h == s
  {
    var buf := new Byte[|s|](_ => 0);
    for i := 0 to |s|
      invariant buf[..i] == s[..i]
    {
      buf[i] := s[i];
    }
    h := buf[..];
  }
}
