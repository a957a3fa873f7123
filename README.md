# secp256k1 field for tsnut, modelled in Dafny

This project models `src/Secp256k1Field.ts` of `tsnut-secp256k1`. That file
holds the secp256k1 instantiation of tsnut's field, point and scalar interfaces:

- `Secp256k1Scalar` and `Secp256k1Point` wrap a byte encoding that this
  file never changes. Each is tagged with the `Secp256k1Field` that made it.
- `Secp256k1Field` parses hex into points and scalars.
- It also maps arbitrary bytes to a curve point by try-and-increment
  (`hashToField`). This is not the method of RFC 9380.

The two foreign libraries are parameters of the model (module `Primitives`):

- SHA-256 from `node:crypto` is any function `Sha256 = Bytes -> Digest` with
  32-byte digests.
- The `tiny-secp256k1` calls (`isPoint`, `pointFromScalar`, `pointAdd`,
  `pointMultiply`, all with compressed output) are the fields of a `Curve`
  record. A `null` result, or a thrown error, is `None`.

So every property below holds for every hash and every curve library with
those signatures.

Modules:

- `Bytes`: octets, little-endian layout, and Node's `writeUint32LE` as a
  method over an `array<byte>`.
- `Hex`: Node's `toString("hex")` / `Buffer.from(…, "hex")`.
- `Primitives`: the foreign oracles.
- `Secp256k1`:
  - datatypes `Field`, `Point`, `Scalar` with their members;
  - the `hashToField` method and its specification `HashToCurve`;
  - the lemmas.

The rest of the file is pure, so it is modelled as functions. `hashToField`
is imperative (a counter loop with an early return, writing into a fresh
4-byte buffer), so it is a method with a loop invariant. `Field(id)` stands
for a `Secp256k1Field` object. The class has no state, so its identity is all
that a `field` tag records. `getField()` is the datatype's `field`
destructor.

Two behaviours of the code are easy to miss:

- Malformed hex does not fail. `Buffer.from(h, "hex")` decodes digit pairs
  up to the first pair that is not two hex digits, drops a trailing odd
  digit, and accepts either case. This is Node's documented behaviour, and
  `Hex.DecodeHex` models exactly that.
- `equals` is a prefix test, not byte equality (see Findings).

## Model

| member | source | states |
|---|---|---|
| `Bytes.LittleEndianByte` | src/Secp256k1Field.ts:71-72 | byte k of the little-endian encoding of n is (n / 256^k) % 256 |
| `Bytes.FromLittleEndianInverse` | src/Secp256k1Field.ts:71-72 | decoding the little-endian encoding of any n < 256^width gives n back |
| `Bytes.LittleEndianInverse` | src/Secp256k1Field.ts:71-72 | re-encoding the value of any byte string at its own width gives the string back |
| `Bytes.LittleEndianInjective` | src/Secp256k1Field.ts:71-72 | distinct numbers that fit in width bytes have distinct encodings |
| `Bytes.WriteUint32LE` | src/Secp256k1Field.ts:72 | the buffer afterwards is its old bytes before the offset, the 4-byte little-endian value, then its old bytes after |
| `Secp256k1.CounterLayout` | src/Secp256k1Field.ts:71-72 | for every counter i < 0xFFFFFFFF the counter block has 4 bytes, byte k is (i / 256^k) % 256, it decodes to i, and distinct counters give distinct blocks |
| `Secp256k1.AsciiBytes` | src/Secp256k1Field.ts:64 | `Buffer.from` of an ASCII string has one byte per character, equal to its code |
| `Secp256k1.DomainSeparator` | src/Secp256k1Field.ts:64 | the domain separator is exactly the 28 bytes of "Secp256k1_HashToCurve_Cashu_" |
| `Secp256k1.MsgHash` | src/Secp256k1Field.ts:69 | the digest is SHA-256 of a 28 + n byte message: the domain separator, then the n input bytes unchanged |
| `Secp256k1.Candidate` | src/Secp256k1Field.ts:73-74 | every candidate is 33 bytes and starts with 0x02 |
| `Secp256k1.CandidateLayout` | src/Secp256k1Field.ts:73-74 | the digest input is 36 bytes (msgHash, then the counter block), and candidate bytes 1..33 are its digest |
| `Secp256k1.FirstMember` | src/Secp256k1Field.ts:70-76 | a found counter is in [from, 0xFFFFFFFF), its candidate is on the curve and every earlier counter's is not; no counter found means no candidate from `from` on is on the curve |
| `Secp256k1.Field.HashToField` | src/Secp256k1Field.ts:68-78 | the result is `HashToCurve` of the field and input, so it is determined by the input bytes; a result is a 33-byte encoding on the curve; the loop makes i + 1 membership tests for first member i, and 0xFFFFFFFF tests when it runs out |
| `Secp256k1.FirstMemberUnique` | src/Secp256k1Field.ts:70-75 | at most one counter is the first whose candidate is on the curve |
| `Secp256k1.HashToCurveIsFirstMember` | src/Secp256k1Field.ts:69-77 | the result is Some(p) iff p is tagged with the field and holds the candidate of the first counter on the curve, for msgHash = SHA-256(separator ++ input); it is None iff no counter in 0..0xFFFFFFFE gives a candidate on the curve |
| `Secp256k1.HashToCurveFirstCounters` | src/Secp256k1Field.ts:70-75 | counter 0 is chosen when its candidate is on the curve; otherwise counter 1 is chosen when its candidate is |
| `Secp256k1.HashToCurve` | src/Secp256k1Field.ts:68-78 | a result is tagged with the field, passes `isMember`, has 33 bytes and starts with 0x02; the result is None iff no counter in 0..0xFFFFFFFE gives a candidate on the curve |
| `Hex.EncodeHex` | src/Secp256k1Field.ts:58-60 | the hex of b has two characters per byte of b, all lowercase hex digits |
| `Hex.EncodeHexAt` | src/Secp256k1Field.ts:27-29 | characters 2i and 2i+1 are the high and low nibble digits of byte i |
| `Hex.DecodeHex` | src/Secp256k1Field.ts:80-86 | byte i is the value of the digit pair at 2i, 2i+1; decoding stops only at the end or at the first pair that is not two hex digits |
| `Hex.DecodeEncodeHex` | src/Secp256k1Field.ts:58-60 | decoding the hex of any bytes gives the bytes back |
| `Hex.EncodeDecodeHex` | src/Secp256k1Field.ts:80-82 | encoding the decoding of any even-length lowercase hex string gives the string back |
| `Hex.DecodeLowerHexFull` | src/Secp256k1Field.ts:80-86 | an even-length lowercase hex string decodes to half as many bytes |
| `Hex.DecodeHexFull` | src/Secp256k1Field.ts:80-86 | an even-length string of hex digits of either case decodes to half as many bytes |
| `Secp256k1.Point.ToHex` | src/Secp256k1Field.ts:58-60 | the hex has two lowercase digits per byte and decodes back to the point's bytes |
| `Secp256k1.Scalar.ToHex` | src/Secp256k1Field.ts:27-29 | the hex has two lowercase digits per byte and decodes back to the scalar's bytes |
| `Secp256k1.Field.HexToPoint` | src/Secp256k1Field.ts:80-82 | the point is tagged with this field and has at most half as many bytes as the text has characters, with no validation; for well-formed lowercase hex it has exactly half and its `toHex` is the text |
| `Secp256k1.Field.HexToScalar` | src/Secp256k1Field.ts:84-86 | the scalar is tagged with this field and has at most half as many bytes as the text has characters, with no validation; for well-formed lowercase hex it has exactly half and its `toHex` is the text |
| `Secp256k1.PointHexRoundTrip` | src/Secp256k1Field.ts:80-82 | `hexToPoint(p.toHex())` has p's bytes and the reading field's tag; the hex is two lowercase digits per byte |
| `Secp256k1.ScalarHexRoundTrip` | src/Secp256k1Field.ts:84-86 | `hexToScalar(s.toHex())` has s's bytes and the reading field's tag; the hex is two lowercase digits per byte |
| `Secp256k1.HexPointRoundTrip` | src/Secp256k1Field.ts:80-86 | for well-formed lowercase h, `hexToPoint(h).toHex()` and `hexToScalar(h).toHex()` are h |
| `Secp256k1.Point.IsMember` | src/Secp256k1Field.ts:55-57 | membership is the library's `isPoint` on the encoding and nothing else |
| `Secp256k1.Scalar.IsMember` | src/Secp256k1Field.ts:24-26 | membership holds iff the library's `pointFromScalar` gives a point |
| `Secp256k1.Field.IsValidPoint` | src/Secp256k1Field.ts:88-90 | the text is valid iff its hex decoding, truncated as `Buffer.from` truncates, passes the library's `isPoint` |
| `Secp256k1.Field.IsValidScalar` | src/Secp256k1Field.ts:92-94 | the text is valid iff the library's `pointFromScalar` gives a point for its hex decoding, truncated as `Buffer.from` truncates |
| `Secp256k1.IsValidPointOfHex` | src/Secp256k1Field.ts:88-90 | `isValidPoint(p.toHex())` equals `p.isMember()` |
| `Secp256k1.IsValidScalarOfHex` | src/Secp256k1Field.ts:92-94 | `isValidScalar(s.toHex())` equals `s.isMember()` |
| `Secp256k1.Scalar.ToPoint` | src/Secp256k1Field.ts:21-26 | `toPoint` gives a point iff `isMember` holds; that point is the library's derivation, tagged with the scalar's field |
| `Secp256k1.Scalar.Sign` | src/Secp256k1Field.ts:18-20 | a signature is tagged with the signed point's field, not the scalar's |
| `Secp256k1.SignIsMul` | src/Secp256k1Field.ts:18-20 | `s.sign(p)` is `p.mul(s)` |
| `Secp256k1.Point.Add` | src/Secp256k1Field.ts:46-48 | the sum exists iff the library's does, is its bytes, and is tagged with the left operand's field |
| `Secp256k1.Point.Mul` | src/Secp256k1Field.ts:49-51 | the product exists iff the library's does, is its bytes, and is tagged with the point's field |
| `Secp256k1.Point.Equals` | src/Secp256k1Field.ts:52-54 | `a.equals(b)` holds iff a's bytes are a prefix of b's; fields are ignored |
| `Secp256k1.EveryIndexMatchesIsPrefix` | src/Secp256k1Field.ts:53 | matching at every index of a is being a prefix of b |
| `Secp256k1.EqualsReflexive` | src/Secp256k1Field.ts:52-54 | every point equals itself |
| `Secp256k1.EqualsSameLength` | src/Secp256k1Field.ts:52-54 | for encodings of one length, `equals` is exact byte equality |
| `Secp256k1.EqualsNotSymmetric` | src/Secp256k1Field.ts:52-54 | for encodings of different lengths, `equals` holds in at most one direction |
| `Secp256k1.EqualsAcceptsPrefix` | src/Secp256k1Field.ts:52-54 | the empty encoding and the encoding [0x02] both `equals` any 33-byte point starting with 0x02, though the bytes differ |
| `Secp256k1.Point.SameEncoding` | src/Secp256k1Field.ts:52-54 | the corrected comparison holds iff the bytes are equal, iff `equals` holds both ways |
| `Secp256k1.SameEncodingIsEquivalence` | src/Secp256k1Field.ts:52-54 | the corrected comparison is reflexive, symmetric and transitive |

## Left out

- SHA-256 internals (`node:crypto`): only the 32-byte digest length is assumed.
- Collision resistance and random-oracle behaviour: these are probabilistic claims and are not stated.
- The curve arithmetic and membership tests of `tiny-secp256k1` are abstract. So group laws, `toPoint == G.mul(s)`, and the non-membership of 33 zero bytes or an all-`ff` scalar are not proved.
- Secp256k1.Scalar.ToPoint: where `pointFromScalar` gives `null`, the source still returns a `Secp256k1Point` whose `data` is `null`, and a later `toHex`, `equals` or `isMember` on it throws a TypeError. The model returns `None` instead, so it does not capture that deferred failure.
- Secp256k1.Point.Add: the same holds for a `null` from `pointAdd`: the source returns a point wrapping `null`, and the model returns `None`.
- Secp256k1.Point.Mul: the same holds for a `null` from `pointMultiply`. `Secp256k1.Scalar.Sign` inherits this through `mul`.
- Aliasing and outside mutation: the constructors keep the caller's `Uint8Array` by reference, and `field` and `data` are public and mutable. The model treats the bytes as values, so it does not capture a change made through another reference to the same array.
- `tiny-secp256k1` errors: an error thrown for an invalid argument is folded into `None`, the same as a `null` result.
- `Bytes.WriteUint32LE`: it requires the value to be below 2^32 and the offset to leave room for 4 bytes. Node throws a RangeError otherwise. `hashToField` only passes counters below 0xFFFFFFFF at offset 0.
- `Secp256k1.Field.HashToField`: its `iterations` output is ghost. It counts membership tests and exists only to state the loop bound.
- The `tsnut` interface types (`IField`, `IPoint`, `IScalar`) are not modelled. Nothing checks that two operands come from the same field, and neither does the source.
- `Buffer.from` of a string: it is modelled for ASCII text only, which is all the domain separator needs.
- Node's `Buffer` implementation is not part of this model. The hex codec follows its documented behaviour.

## Findings

| source | as written | input that shows it | evidently intended | confidence | as-written member | corrected member |
|---|---|---|---|---|---|---|
| src/Secp256k1Field.ts:52-54 | `equals` compares only the indices of `this.data`, so it tests whether `this` is a prefix of `b` | `hexToPoint("").equals(q)` and `hexToPoint("02").equals(q)` are true for any 33-byte point q starting with 0x02 | exact byte equality of the compressed encodings | not executed | `Secp256k1.EqualsAcceptsPrefix` | `Secp256k1.Point.SameEncoding` |
