/**
 * The hex codec of Node's `Buffer`: `buf.toString("hex")` and
 * `Buffer.from(text, "hex")`.
 */
module Hex {
  import opened Wrappers
  import opened Bytes

  /** A digit that `toString("hex")` may produce. */
  predicate IsLowerHexDigit(c: char) {
    '0' <= c <= '9' || 'a' <= c <= 'f'
  }

  /** Even length and lowercase hex digits only: the shape of every encoding. */
  predicate IsLowerHex(h: string) {
    |h| % 2 == 0 && forall i :: 0 <= i < |h| ==> IsLowerHexDigit(h[i])
  }

  /** The value of a hex digit of either case; `None` for any other character. */
  function DigitValue(c: char): (v: Option<nat>)
    ensures v.Some? ==> v.value < 16
    ensures IsLowerHexDigit(c) ==> v.Some?
  {
    if '0' <= c <= '9' then Some(c as int - '0' as int)
    else if 'a' <= c <= 'f' then Some(c as int - 'a' as int + 10)
    else if 'A' <= c <= 'F' then Some(c as int - 'A' as int + 10)
    else None
  }

  /** The lowercase digit for a nibble. */
  function DigitChar(d: nat): (c: char)
    requires d < 16
    ensures IsLowerHexDigit(c) && DigitValue(c) == Some(d)
  {
    if d < 10 then ('0' as int + d) as char else ('a' as int + d - 10) as char
  }

  /** `buf.toString("hex")`: two lowercase digits per byte, high nibble first. */
  function EncodeHex(b: Bytes): (h: string)
    ensures |h| == 2 * |b|
    ensures IsLowerHex(h)
  {
    if b == [] then "" else [DigitChar(b[0] / 16), DigitChar(b[0] % 16)] + EncodeHex(b[1..])
  }

  /** The two digits that `EncodeHex` writes for byte i. */
  lemma {:induction false} EncodeHexAt(b: Bytes, i: nat)
    requires i < |b|
    ensures EncodeHex(b)[2 * i] == DigitChar(b[i] / 16)
    ensures EncodeHex(b)[2 * i + 1] == DigitChar(b[i] % 16)
  {
    if i > 0 {
      EncodeHexAt(b[1..], i - 1);
    }
  }

  /** The byte spelled by the digit pair at characters 2k and 2k + 1, if both are hex digits. */
  function PairValue(h: string, k: nat): (v: Option<byte>)
    requires 2 * k + 1 < |h|
  {
    match (DigitValue(h[2 * k]), DigitValue(h[2 * k + 1]))
    case (Some(hi), Some(lo)) => Some(16 * hi + lo)
    case _ => None
  }

  /** The pairs from pair k on, up to the first one that is not two hex digits. */
  function DecodeFrom(h: string, k: nat): (b: Bytes)
    requires 2 * k <= |h|
    ensures 2 * (k + |b|) <= |h|
    ensures forall i :: 0 <= i < |b| ==> PairValue(h, k + i) == Some(b[i])
    ensures 2 * (k + |b|) + 1 < |h| ==> PairValue(h, k + |b|).None?
    decreases |h| - 2 * k
  {
    if 2 * k + 1 >= |h| then []
    else match PairValue(h, k)
      case Some(v) => [v] + DecodeFrom(h, k + 1)
      case None => []
  }

  /**
   * `Buffer.from(h, "hex")`: decodes digit pairs from the front and stops,
   * without any error, at the first pair that is not two hex digits. A
   * trailing odd digit is dropped.
   */
  function DecodeHex(h: string): (b: Bytes)
    ensures 2 * |b| <= |h|
    ensures forall i :: 0 <= i < |b| ==> PairValue(h, i) == Some(b[i])
    ensures 2 * |b| + 1 < |h| ==> PairValue(h, |b|).None?
  {
    DecodeFrom(h, 0)
  }

  /** Decoding an encoding gives the bytes back. */
  lemma DecodeEncodeHex(b: Bytes)
    ensures DecodeHex(EncodeHex(b)) == b
  {
    var h := EncodeHex(b);
    var r := DecodeHex(h);
    forall i | 0 <= i < |b|
      ensures PairValue(h, i) == Some(b[i])
    {
      EncodeHexAt(b, i);
    }
    if |r| < |b| {
      assert false;
    }
  }

  /** A lowercase digit is the digit of its own value. */
  lemma DigitCharOfValue(c: char)
    requires IsLowerHexDigit(c)
    ensures DigitChar(DigitValue(c).value) == c
  {
  }

  /** A well-formed lowercase hex string decodes in full. */
  lemma DecodeLowerHexFull(h: string)
    requires IsLowerHex(h)
    ensures 2 * |DecodeHex(h)| == |h|
  {
    var r := DecodeHex(h);
    if 2 * |r| < |h| {
      assert false;
    }
  }

  /** Re-encoding byte i of a decoded lowercase string gives back its digit pair. */
  lemma EncodeDecodeHexAt(h: string, i: nat)
    requires IsLowerHex(h) && 2 * |DecodeHex(h)| == |h| && i < |DecodeHex(h)|
    ensures EncodeHex(DecodeHex(h))[2 * i] == h[2 * i]
    ensures EncodeHex(DecodeHex(h))[2 * i + 1] == h[2 * i + 1]
  {
    var r := DecodeHex(h);
    assert IsLowerHexDigit(h[2 * i]) && IsLowerHexDigit(h[2 * i + 1]);
    var hi, lo := DigitValue(h[2 * i]).value, DigitValue(h[2 * i + 1]).value;
    assert PairValue(h, i) == Some(r[i]);
    assert r[i] / 16 == hi && r[i] % 16 == lo;
    EncodeHexAt(r, i);
    DigitCharOfValue(h[2 * i]);
    DigitCharOfValue(h[2 * i + 1]);
  }

  /** Encoding the decoding of a well-formed lowercase hex string gives the string back. */
  lemma EncodeDecodeHex(h: string)
    requires IsLowerHex(h)
    ensures EncodeHex(DecodeHex(h)) == h
  {
    DecodeLowerHexFull(h);
    var e := EncodeHex(DecodeHex(h));
    forall j | 0 <= j < |h|
      ensures e[j] == h[j]
    {
      EncodeDecodeHexAt(h, j / 2);
      assert j == 2 * (j / 2) || j == 2 * (j / 2) + 1;
    }
  }

  /** The round trip of a string, for strings that are well-formed lowercase hex. */
  lemma EncodeDecodeHexIfLower(h: string)
    ensures IsLowerHex(h) ==> 2 * |DecodeHex(h)| == |h| && EncodeHex(DecodeHex(h)) == h
  {
    if IsLowerHex(h) {
      DecodeLowerHexFull(h);
      EncodeDecodeHex(h);
    }
  }

  /** A string of hex digits of even length decodes in full, to half as many bytes. */
  lemma DecodeHexFull(h: string)
    requires |h| % 2 == 0 && forall i :: 0 <= i < |h| ==> DigitValue(h[i]).Some?
    ensures |DecodeHex(h)| == |h| / 2
  {
    var r := DecodeHex(h);
    if 2 * |r| < |h| {
      assert false;
    }
  }
}
