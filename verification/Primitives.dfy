/**
 The cryptographic primitives, as functions the code calls without looking inside. A `Suite` is any
 choice of them; what a theorem needs of the choice is a predicate it requires by name.
 */
module Primitives {
  import opened Bytes

  const TAG_LEN := 16
  const HMAC_LEN := 32
  const WRAP_NONCE_LEN := 24

  /** Argon2id cost parameters, as the header stores them. */
  datatype Costs = Costs(m: u32, t: u32, p: u32)

  datatype Suite = Suite(
    hkdf: (Bytes, Bytes, Bytes) -> Bytes,              // input key material, salt, info
    hmac: (Bytes, Bytes) -> Bytes,                     // key, message
    hmacVerify: (Bytes, Bytes, Bytes) -> bool,         // key, message, tag
    seal: (Bytes, Bytes, Bytes) -> Bytes,              // ChaCha20-Poly1305: key, nonce, plaintext
    open: (Bytes, Bytes, Bytes) -> Option<Bytes>,      // key, nonce, ciphertext and tag
    xseal: (Bytes, Bytes, Bytes) -> Bytes,             // XChaCha20-Poly1305
    xopen: (Bytes, Bytes, Bytes) -> Option<Bytes>,
    sha256: Bytes -> Bytes,
    utf8: Bytes -> bool,                               // is the string valid UTF-8
    nfc: Bytes -> Bytes,                               // Unicode NFC, identity on non-UTF-8 input
    argon2id: (Bytes, Bytes, Costs) -> Result<Bytes>,  // normalised password, salt, costs
    keystream: (Bytes, nat) -> byte)                   // ChaCha20: inner key, position

  /** Output sizes, true of the real primitives. */
  ghost predicate Sized(s: Suite) {
    && (forall k, m :: |s.hmac(k, m)| == HMAC_LEN)
    && (forall k, n, p :: |s.seal(k, n, p)| == |p| + TAG_LEN)
    && (forall k, n, p :: |s.xseal(k, n, p)| == |p| + TAG_LEN)
    && (forall b :: |s.sha256(b)| == 32)
    && (forall pw, salt, c :: s.argon2id(pw, salt, c).Ok? ==> |s.argon2id(pw, salt, c).value| == 32)
  }

  /** What an honest party made, an honest party accepts. */
  ghost predicate Correct(s: Suite) {
    && (forall k, m :: s.hmacVerify(k, m, s.hmac(k, m)))
    && (forall k, n, p :: s.open(k, n, s.seal(k, n, p)) == Some(p))
    && Unwraps(s)
  }

  /** A key sealed in a stanza opens under the key it was sealed under. */
  ghost predicate Unwraps(s: Suite) {
    forall k, n, p :: s.xopen(k, n, s.xseal(k, n, p)) == Some(p)
  }
}
