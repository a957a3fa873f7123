/**
 * The foreign primitives the field is built on, kept abstract: SHA-256 from
 * `node:crypto` and the four curve operations of `tiny-secp256k1`. A model
 * of the field takes them as parameters, so every property proved about it
 * holds for any hash with 32-byte digests and any curve library.
 */
module Primitives {
  import opened Wrappers
  import opened Bytes

  /** A SHA-256 digest. */
  type Digest = s: Bytes | |s| == 32 witness seq(32, _ => 0)

  /** `createHash("sha256").update(m).digest()`. */
  type Sha256 = Bytes -> Digest

  /**
   * The `tiny-secp256k1` calls the field makes, each with compressed output
   * (the `true` argument). A `null` result, or a thrown error, is `None`.
   */
  datatype Curve = Curve(
    isPoint: Bytes -> bool,
    pointFromScalar: Bytes -> Option<Bytes>,
    pointAdd: (Bytes, Bytes) -> Option<Bytes>,
    pointMultiply: (Bytes, Bytes) -> Option<Bytes>)
}
