/** The cryptographic and encoding primitives the ledgers call. They are
    library code, so the model takes them as given functions and assumes
    only what their types say: SHA-256 gives 32 bytes and SHA-512 gives 64. */
module Crypto {
  import opened Binary
  import opened Outcomes

  /** A signer's public key, as an opaque value. */
  type PublicKey = Bytes

  datatype Primitives = Primitives(
    sha256: Bytes -> Bytes32,             // crypto/sha256.Sum256
    sha512: Bytes -> Bytes64,             // the SHA-512 of everything written to a hash.Hash
    hex: Bytes -> Bytes,                  // hex.EncodeToString, as the bytes of the string
    base64: Bytes -> Bytes,               // base64.StdEncoding.EncodeToString, likewise
    pkix: PublicKey -> Result<Bytes>)     // x509.MarshalPKIXPublicKey

  /** A property every real hex or base64 encoder has: nothing encodes as nothing. */
  predicate EmptyEncodesEmpty(p: Primitives) {
    p.hex([]) == [] && p.base64([]) == []
  }

  /** A `crypto.Signer`: its public key and its `Sign` operation. The randomness
      `Sign` draws is folded into the function. */
  datatype Signer = Signer(publicKey: PublicKey, sign: Bytes -> Result<Bytes>)
}
