/**
 * `Secp256k1Scalar`, `Secp256k1Point` and `Secp256k1Field`: immutable byte
 * encodings tagged with the field that made them, their delegations to the
 * curve library, the hex codec and the try-and-increment hash to the curve.
 */
module Secp256k1 {
  import opened Wrappers
  import opened Bytes
  import opened Hex
  import opened Primitives

  /**
   * The bytes of an ASCII string, which are also its UTF-8 encoding, as
   * `Buffer.from(text)` produces it.
   */
  function AsciiBytes(s: string): (b: Bytes)
    requires forall i :: 0 <= i < |s| ==> s[i] < 128 as char
    ensures |b| == |s| && forall i :: 0 <= i < |s| ==> b[i] == s[i] as int
  {
    seq(|s|, i requires 0 <= i < |s| => s[i] as int)
  }

  /**
   * The domain separator hashed in front of every input: the 28 ASCII bytes
   * of "Secp256k1_HashToCurve_Cashu_".
   */
  function DomainSeparator(): (d: Bytes)
    ensures d == [
      0x53, 0x65, 0x63, 0x70, 0x32, 0x35, 0x36, 0x6b, 0x31, 0x5f,
      0x48, 0x61, 0x73, 0x68, 0x54, 0x6f, 0x43, 0x75, 0x72, 0x76, 0x65, 0x5f,
      0x43, 0x61, 0x73, 0x68, 0x75, 0x5f]
  {
    AsciiBytes("Secp256k1_HashToCurve_Cashu_")
  }

  /** The loop of `hashToField` tries the counters 0 .. CounterLimit - 1. */
  const CounterLimit: nat := 0xFFFF_FFFF

  /** The digest that all candidates of an input are derived from. */
  function MsgHash(sha: Sha256, bytes: Bytes): (h: Digest)
    ensures |DomainSeparator() + bytes| == 28 + |bytes|
    ensures (DomainSeparator() + bytes)[..28] == DomainSeparator() && (DomainSeparator() + bytes)[28..] == bytes
    ensures h == sha(DomainSeparator() + bytes)
  {
    sha(DomainSeparator() + bytes)
  }

  /** The compressed even-y encoding tried for counter i. */
  function Candidate(sha: Sha256, msgHash: Digest, i: nat): (c: Bytes)
    requires i < CounterLimit
    ensures |c| == 33 && c[0] == 0x02
  {
    [0x02] + sha(msgHash + LittleEndian(i, 4))
  }

  /** Counter i is the first one whose candidate is on the curve. */
  predicate IsFirstMember(curve: Curve, sha: Sha256, msgHash: Digest, i: nat) {
    i < CounterLimit && curve.isPoint(Candidate(sha, msgHash, i)) &&
    forall j :: 0 <= j < i ==> !curve.isPoint(Candidate(sha, msgHash, j))
  }

  /** The least counter from `from` on whose candidate is on the curve, if any. */
  function FirstMember(curve: Curve, sha: Sha256, msgHash: Digest, from: nat): (r: Option<nat>)
    requires from <= CounterLimit
    ensures r.Some? ==>
      from <= r.value < CounterLimit && curve.isPoint(Candidate(sha, msgHash, r.value)) &&
      forall j :: from <= j < r.value ==> !curve.isPoint(Candidate(sha, msgHash, j))
    ensures r.None? ==> forall j :: from <= j < CounterLimit ==> !curve.isPoint(Candidate(sha, msgHash, j))
    decreases CounterLimit - from
  {
    if from == CounterLimit then None
    else if curve.isPoint(Candidate(sha, msgHash, from)) then Some(from)
    else FirstMember(curve, sha, msgHash, from + 1)
  }

  /** What `hashToField` returns from a field instance for `bytes`. */
  function HashToCurve(field: Field, curve: Curve, sha: Sha256, bytes: Bytes): (r: Option<Point>)
    ensures r.Some? ==>
      r.value.field == field && r.value.IsMember(curve) && |r.value.data| == 33 && r.value.data[0] == 0x02
    ensures r.None? <==>
      forall i :: 0 <= i < CounterLimit ==> !curve.isPoint(Candidate(sha, MsgHash(sha, bytes), i))
  {
    var msgHash := MsgHash(sha, bytes);
    match FirstMember(curve, sha, msgHash, 0)
    case Some(i) => Some(Point(field, Candidate(sha, msgHash, i)))
    case None => None
  }

  /**
   * A `Secp256k1Field` object. The class has no state; `id` stands for its
   * object identity, which is all that the `field` tag of a point or scalar
   * records.
   */
  datatype Field = Field(id: nat) {

    /** `Secp256k1Field.hexToPoint`: decodes without any validation. */
    function HexToPoint(hex: string): (p: Point)
      ensures p.field == this && 2 * |p.data| <= |hex|
      ensures IsLowerHex(hex) ==> 2 * |p.data| == |hex| && p.ToHex() == hex
    {
      EncodeDecodeHexIfLower(hex);
      Point(this, DecodeHex(hex))
    }

    /** `Secp256k1Field.hexToScalar`: decodes without any validation. */
    function HexToScalar(hex: string): (s: Scalar)
      ensures s.field == this && 2 * |s.data| <= |hex|
      ensures IsLowerHex(hex) ==> 2 * |s.data| == |hex| && s.ToHex() == hex
    {
      EncodeDecodeHexIfLower(hex);
      Scalar(this, DecodeHex(hex))
    }

    /** `Secp256k1Field.isValidPoint`. */
    predicate IsValidPoint(curve: Curve, hex: string)
      ensures IsValidPoint(curve, hex) <==> curve.isPoint(DecodeHex(hex))
    {
      HexToPoint(hex).IsMember(curve)
    }

    /** `Secp256k1Field.isValidScalar`. */
    predicate IsValidScalar(curve: Curve, hex: string)
      ensures IsValidScalar(curve, hex) <==> curve.pointFromScalar(DecodeHex(hex)).Some?
    {
      HexToScalar(hex).IsMember(curve)
    }

    /**
     * `Secp256k1Field.hashToField`: tries the counters in order and returns
     * the first candidate on the curve, or `None` (the source's `null`) once
     * the counters run out. `iterations` counts the membership tests made.
     */
    method HashToField(curve: Curve, sha: Sha256, bytes: Bytes) returns (r: Option<Point>, ghost iterations: nat)
      ensures r == HashToCurve(this, curve, sha, bytes)
      ensures r.Some? ==> r.value.IsMember(curve) && |r.value.data| == 33
      ensures iterations == match FirstMember(curve, sha, MsgHash(sha, bytes), 0)
                            case Some(i) => i + 1
                            case None => CounterLimit
    {
      var msgHash := sha(DomainSeparator() + bytes);
      iterations := 0;
      for i := 0 to CounterLimit
        invariant FirstMember(curve, sha, msgHash, i) == FirstMember(curve, sha, msgHash, 0)
        invariant iterations == i
      {
        var counterBuffer := new byte[4](_ => 0);
        WriteUint32LE(counterBuffer, i, 0);
        assert counterBuffer[..] == LittleEndian(i, 4);
        var hash := sha(msgHash + counterBuffer[..]);
        var point := Point(this, [0x02] + hash);
        assert point.data == Candidate(sha, msgHash, i);
        iterations := iterations + 1;
        if point.IsMember(curve) {
          return Some(point), iterations;
        }
      }
      return None, iterations;
    }
  }

  /** `Secp256k1Scalar`: a scalar encoding tagged with its field. */
  datatype Scalar = Scalar(field: Field, data: Bytes) {

    /** `isMember`: the curve library derives a public point from it. */
    predicate IsMember(curve: Curve)
      ensures IsMember(curve) <==> curve.pointFromScalar(data) != None
    {
      curve.pointFromScalar(data).Some?
    }

    /** `toPoint`: the public point, `None` where the library gives `null`. */
    function ToPoint(curve: Curve): (r: Option<Point>)
      ensures r.Some? <==> IsMember(curve)
      ensures r.Some? ==> r.value.field == field && r.value.data == curve.pointFromScalar(data).value
    {
      match curve.pointFromScalar(data)
      case Some(d) => Some(Point(field, d))
      case None => None
    }

    /** `sign`: multiplies the given point by this scalar. */
    function Sign(curve: Curve, point: Point): (r: Option<Point>)
      ensures r.Some? ==> r.value.field == point.field
    {
      point.Mul(curve, this)
    }

    /** `toHex`: lowercase hex that decodes back to the encoding. */
    function ToHex(): (h: string)
      ensures |h| == 2 * |data| && IsLowerHex(h)
      ensures DecodeHex(h) == data
    {
      DecodeEncodeHex(data);
      EncodeHex(data)
    }
  }

  /** `Secp256k1Point`: a compressed point encoding tagged with its field. */
  datatype Point = Point(field: Field, data: Bytes) {

    /** `isMember`: the curve library's `isPoint` on the encoding. */
    predicate IsMember(curve: Curve)
      ensures IsMember(curve) <==> curve.isPoint(data)
    {
      curve.isPoint(data)
    }

    /** `add`: the library's sum, tagged with this point's field. */
    function Add(curve: Curve, b: Point): (r: Option<Point>)
      ensures r.Some? <==> curve.pointAdd(data, b.data).Some?
      ensures r.Some? ==> r.value.field == field && r.value.data == curve.pointAdd(data, b.data).value
    {
      match curve.pointAdd(data, b.data)
      case Some(d) => Some(Point(field, d))
      case None => None
    }

    /** `mul`: the library's product by `s`, tagged with this point's field. */
    function Mul(curve: Curve, s: Scalar): (r: Option<Point>)
      ensures r.Some? <==> curve.pointMultiply(data, s.data).Some?
      ensures r.Some? ==> r.value.field == field && r.value.data == curve.pointMultiply(data, s.data).value
    {
      match curve.pointMultiply(data, s.data)
      case Some(d) => Some(Point(field, d))
      case None => None
    }

    /**
     * `equals`: every byte of this encoding matches `b`'s byte at the same
     * index; an index past the end of `b` reads `undefined`, which matches
     * no byte. The fields are not compared.
     */
    predicate Equals(b: Point)
      ensures Equals(b) <==> data <= b.data
    {
      EveryIndexMatchesIsPrefix(data, b.data);
      EveryIndexMatches(data, b.data)
    }

    /**
     * Byte equality of the encodings, the comparison `equals` is meant to
     * make: `equals` with the missing length check added.
     */
    predicate SameEncoding(b: Point)
      ensures SameEncoding(b) <==> data == b.data
      ensures SameEncoding(b) <==> Equals(b) && b.Equals(this)
    {
      |data| == |b.data| && EveryIndexMatches(data, b.data)
    }

    /** `toHex`: lowercase hex that decodes back to the encoding. */
    function ToHex(): (h: string)
      ensures |h| == 2 * |data| && IsLowerHex(h)
      ensures DecodeHex(h) == data
    {
      DecodeEncodeHex(data);
      EncodeHex(data)
    }
  }

  // ---------------------------------------------------------------------
  // Hash to the curve

  /** The counter block is byte k = (i / 256^k) % 256, and it determines i. */
  lemma CounterLayout(i: nat, j: nat)
    requires i < CounterLimit && j < CounterLimit
    ensures |LittleEndian(i, 4)| == 4
    ensures forall k :: 0 <= k < 4 ==> LittleEndian(i, 4)[k] == (i / Pow256(k)) % 256
    ensures FromLittleEndian(LittleEndian(i, 4)) == i
    ensures LittleEndian(i, 4) == LittleEndian(j, 4) ==> i == j
  {
    forall k | 0 <= k < 4 ensures LittleEndian(i, 4)[k] == (i / Pow256(k)) % 256 {
      LittleEndianByte(i, 4, k);
    }
    FromLittleEndianInverse(i, 4);
    if LittleEndian(i, 4) == LittleEndian(j, 4) {
      LittleEndianInjective(i, j, 4);
    }
  }

  /** Candidate i is 0x02 followed by the digest of msgHash followed by the counter block. */
  lemma CandidateLayout(sha: Sha256, msgHash: Digest, i: nat)
    requires i < CounterLimit
    ensures |msgHash + LittleEndian(i, 4)| == 36
    ensures Candidate(sha, msgHash, i)[1..] == sha(msgHash + LittleEndian(i, 4))
  {
  }

  /** At most one counter is the first member. */
  lemma FirstMemberUnique(curve: Curve, sha: Sha256, msgHash: Digest, i: nat, j: nat)
    requires IsFirstMember(curve, sha, msgHash, i) && IsFirstMember(curve, sha, msgHash, j)
    ensures i == j
  {
  }

  /**
   * `hashToField` returns the candidate of the first counter on the curve,
   * tagged with the field, and `None` exactly when no counter below
   * CounterLimit gives a candidate on the curve.
   */
  lemma HashToCurveIsFirstMember(field: Field, curve: Curve, sha: Sha256, bytes: Bytes, p: Point)
    ensures HashToCurve(field, curve, sha, bytes) == Some(p) <==>
      p.field == field && exists i :: IsFirstMember(curve, sha, MsgHash(sha, bytes), i) &&
                                      p.data == Candidate(sha, MsgHash(sha, bytes), i)
    ensures HashToCurve(field, curve, sha, bytes).None? <==>
      forall i :: 0 <= i < CounterLimit ==> !curve.isPoint(Candidate(sha, MsgHash(sha, bytes), i))
  {
    var msgHash := MsgHash(sha, bytes);
    var first := FirstMember(curve, sha, msgHash, 0);
    if first.Some? {
      assert IsFirstMember(curve, sha, msgHash, first.value);
    }
    if p.field == field && exists i :: IsFirstMember(curve, sha, msgHash, i) && p.data == Candidate(sha, msgHash, i) {
      var i :| IsFirstMember(curve, sha, msgHash, i) && p.data == Candidate(sha, msgHash, i);
      if first.Some? {
        FirstMemberUnique(curve, sha, msgHash, i, first.value);
      }
    }
  }

  /**
   * The search starts at counter 0 and moves to counter 1 only when
   * candidate 0 is off the curve.
   */
  lemma HashToCurveFirstCounters(field: Field, curve: Curve, sha: Sha256, bytes: Bytes)
    ensures curve.isPoint(Candidate(sha, MsgHash(sha, bytes), 0)) ==>
      HashToCurve(field, curve, sha, bytes) == Some(Point(field, Candidate(sha, MsgHash(sha, bytes), 0)))
    ensures !curve.isPoint(Candidate(sha, MsgHash(sha, bytes), 0)) && curve.isPoint(Candidate(sha, MsgHash(sha, bytes), 1)) ==>
      HashToCurve(field, curve, sha, bytes) == Some(Point(field, Candidate(sha, MsgHash(sha, bytes), 1)))
  {
    var msgHash := MsgHash(sha, bytes);
    assert FirstMember(curve, sha, msgHash, 0) ==
      if curve.isPoint(Candidate(sha, msgHash, 0)) then Some(0) else FirstMember(curve, sha, msgHash, 1);
    assert FirstMember(curve, sha, msgHash, 1) ==
      if curve.isPoint(Candidate(sha, msgHash, 1)) then Some(1) else FirstMember(curve, sha, msgHash, 2);
  }

  // ---------------------------------------------------------------------
  // Equality

  /** A prefix agrees with the longer sequence at each of its indices. */
  lemma PrefixAt(a: Bytes, b: Bytes, i: nat)
    requires a <= b && i < |a|
    ensures i < |b| && b[i] == a[i]
  {
    assert a == b[..|a|];
    assert b[..|a|][i] == b[i];
  }

  /** `value === b[index]` for every index of `a`. */
  predicate EveryIndexMatches(a: Bytes, b: Bytes) {
    forall i :: 0 <= i < |a| ==> i < |b| && b[i] == a[i]
  }

  /** Matching `b` at every index of `a` is being a prefix of `b`. */
  lemma EveryIndexMatchesIsPrefix(a: Bytes, b: Bytes)
    ensures EveryIndexMatches(a, b) <==> a <= b
  {
    if EveryIndexMatches(a, b) {
      if |a| > 0 {
        // Naming a's last element instantiates EveryIndexMatches at index |a| - 1.
        var last := a[|a| - 1];
        assert |a| - 1 < |b| && b[|a| - 1] == last;
      }
      assert a == b[..|a|];
    }
    if a <= b {
      forall i | 0 <= i < |a| ensures i < |b| && b[i] == a[i] {
        PrefixAt(a, b, i);
      }
    }
  }

  /** `equals` is reflexive. */
  lemma EqualsReflexive(p: Point)
    ensures p.Equals(p)
  {
  }

  /** Between encodings of one length, `equals` is exact byte equality. */
  lemma EqualsSameLength(a: Point, b: Point)
    requires |a.data| == |b.data|
    ensures a.Equals(b) <==> a.data == b.data
  {
  }

  /** Between encodings of different lengths, `equals` holds in at most one direction. */
  lemma EqualsNotSymmetric(a: Point, b: Point)
    requires |a.data| != |b.data|
    ensures !(a.Equals(b) && b.Equals(a))
  {
  }

  /**
   * `equals` accepts a shorter encoding that is a prefix of the other: an
   * empty encoding, or the 1-byte encoding [0x02], equals a 33-byte point
   * starting with 0x02.
   */
  lemma EqualsAcceptsPrefix(field: Field, x: Digest)
    ensures Point(field, []).Equals(Point(field, [0x02] + x))
    ensures Point(field, [0x02]).Equals(Point(field, [0x02] + x))
    ensures !Point(field, [0x02]).SameEncoding(Point(field, [0x02] + x))
  {
    assert [0x02] <= [0x02] + x;
  }

  /** The corrected comparison is an equivalence relation. */
  lemma SameEncodingIsEquivalence(a: Point, b: Point, c: Point)
    ensures a.SameEncoding(a)
    ensures a.SameEncoding(b) ==> b.SameEncoding(a)
    ensures a.SameEncoding(b) && b.SameEncoding(c) ==> a.SameEncoding(c)
  {
  }

  // ---------------------------------------------------------------------
  // Hex

  /** A point read back from its hex is the same encoding, tagged with the reading field. */
  lemma PointHexRoundTrip(field: Field, p: Point)
    ensures field.HexToPoint(p.ToHex()) == Point(field, p.data)
    ensures |p.ToHex()| == 2 * |p.data| && IsLowerHex(p.ToHex())
  {
    DecodeEncodeHex(p.data);
  }

  /** A scalar read back from its hex is the same encoding, tagged with the reading field. */
  lemma ScalarHexRoundTrip(field: Field, s: Scalar)
    ensures field.HexToScalar(s.ToHex()) == Scalar(field, s.data)
    ensures |s.ToHex()| == 2 * |s.data| && IsLowerHex(s.ToHex())
  {
    DecodeEncodeHex(s.data);
  }

  /** Well-formed lowercase hex survives a trip through a point or a scalar. */
  lemma HexPointRoundTrip(field: Field, hex: string)
    requires IsLowerHex(hex)
    ensures field.HexToPoint(hex).ToHex() == hex
    ensures field.HexToScalar(hex).ToHex() == hex
  {
    EncodeDecodeHex(hex);
  }

  // ---------------------------------------------------------------------
  // Delegations

  /** `isValidPoint` of a point's hex is the point's own membership test. */
  lemma IsValidPointOfHex(field: Field, curve: Curve, p: Point)
    ensures field.IsValidPoint(curve, p.ToHex()) == p.IsMember(curve)
  {
    DecodeEncodeHex(p.data);
  }

  /** `isValidScalar` of a scalar's hex is the scalar's own membership test. */
  lemma IsValidScalarOfHex(field: Field, curve: Curve, s: Scalar)
    ensures field.IsValidScalar(curve, s.ToHex()) == s.IsMember(curve)
  {
    DecodeEncodeHex(s.data);
  }

  /** `s.sign(p)` is `p.mul(s)`. */
  lemma SignIsMul(curve: Curve, s: Scalar, p: Point)
    ensures s.Sign(curve, p) == p.Mul(curve, s)
  {
  }
}
