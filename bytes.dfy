/**
 * Octets and the little-endian integer layout that Node's
 * `Buffer.writeUint32LE` produces.
 */
module Bytes {

  /** One element of a `Uint8Array` / Node `Buffer`. */
  type byte = b: int | 0 <= b < 0x100

  type Bytes = seq<byte>

  /** 256 to the power k: the weight of byte k in a little-endian number. */
  function Pow256(k: nat): (r: nat)
    ensures r > 0
  {
    if k == 0 then 1 else 256 * Pow256(k - 1)
  }

  /** The `width` low-order bytes of `n`, least significant first. */
  function LittleEndian(n: nat, width: nat): (r: Bytes)
    ensures |r| == width
  {
    if width == 0 then [] else [n % 256] + LittleEndian(n / 256, width - 1)
  }

  /** The number whose little-endian encoding is `s`. */
  function FromLittleEndian(s: Bytes): (n: nat)
    ensures n < Pow256(|s|)
  {
    if s == [] then 0 else s[0] + 256 * FromLittleEndian(s[1..])
  }

  /** A positive multiple of a natural number is at least that number. */
  lemma {:induction false} MulAtLeast(d: nat, k: nat)
    requires k >= 1
    ensures d * k >= d
  {
    if k > 1 {
      MulAtLeast(d, k - 1);
      assert d * k == d * (k - 1) + d;
    }
  }

  /** Euclidean division is determined by a quotient and an in-range remainder. */
  lemma DivUnique(n: int, d: nat, q: int, r: int)
    requires d > 0 && 0 <= r < d && n == d * q + r
    ensures n / d == q
  {
    var q', r' := n / d, n % d;
    assert n == d * q' + r';
    if q' < q {
      MulAtLeast(d, q - q');
      assert false;
    } else if q' > q {
      MulAtLeast(d, q' - q);
      assert false;
    }
  }

  /** Dividing by 256 and then by `b` is dividing by 256 * b. */
  lemma DivDiv256(n: nat, b: nat)
    requires b > 0
    ensures (n / 256) / b == n / (256 * b)
  {
    var q := n / 256;
    var q2, r2 := q / b, q % b;
    assert q == b * q2 + r2;
    assert n == (256 * b) * q2 + (256 * r2 + n % 256);
    assert 256 * r2 <= 256 * (b - 1);
    DivUnique(n, 256 * b, q2, 256 * r2 + n % 256);
  }

  /** Byte k of the encoding is the k-th base-256 digit of `n`. */
  lemma {:induction false} LittleEndianByte(n: nat, width: nat, k: nat)
    requires k < width
    ensures LittleEndian(n, width)[k] == (n / Pow256(k)) % 256
  {
    if k > 0 {
      LittleEndianByte(n / 256, width - 1, k - 1);
      DivDiv256(n, Pow256(k - 1));
    }
  }

  /** Decoding the encoding of a number that fits gives the number back. */
  lemma {:induction false} FromLittleEndianInverse(n: nat, width: nat)
    requires n < Pow256(width)
    ensures FromLittleEndian(LittleEndian(n, width)) == n
  {
    if width > 0 {
      var s := LittleEndian(n, width);
      assert s[1..] == LittleEndian(n / 256, width - 1);
      FromLittleEndianInverse(n / 256, width - 1);
    }
  }

  /** Encoding the value of a byte string at its own width gives the string back. */
  lemma {:induction false} LittleEndianInverse(s: Bytes)
    ensures LittleEndian(FromLittleEndian(s), |s|) == s
  {
    if s != [] {
      var n := FromLittleEndian(s);
      assert n % 256 == s[0] && n / 256 == FromLittleEndian(s[1..]);
      LittleEndianInverse(s[1..]);
    }
  }

  /** Two numbers that fit in `width` bytes have the same encoding only if they are equal. */
  lemma LittleEndianInjective(m: nat, n: nat, width: nat)
    requires m < Pow256(width) && n < Pow256(width)
    requires LittleEndian(m, width) == LittleEndian(n, width)
    ensures m == n
  {
    FromLittleEndianInverse(m, width);
    FromLittleEndianInverse(n, width);
  }

  /** The four-byte encoding written out digit by digit. */
  lemma LittleEndian4(n: nat)
    ensures LittleEndian(n, 4) == [n % 256, (n / 256) % 256, (n / 256 / 256) % 256, (n / 256 / 256 / 256) % 256]
  {
    var n1, n2, n3 := n / 256, n / 256 / 256, n / 256 / 256 / 256;
    assert LittleEndian(n3, 1) == [n3 % 256] + LittleEndian(n3 / 256, 0);
    assert LittleEndian(n2, 2) == [n2 % 256] + LittleEndian(n3, 1);
    assert LittleEndian(n1, 3) == [n1 % 256] + LittleEndian(n2, 2);
  }

  /**
   * Node's `buf.writeUint32LE(value, offset)`: stores the four bytes of
   * `value`, least significant first, at `offset`, leaving the rest of the
   * buffer alone. Node throws a RangeError for a value outside [0, 2^32 - 1]
   * or an offset past `buf.length - 4`; callers here never do either.
   */
  method WriteUint32LE(buf: array<byte>, value: nat, offset: nat)
    requires value < Pow256(4)
    requires offset + 4 <= buf.Length
    modifies buf
    ensures buf[..] == old(buf[..offset]) + LittleEndian(value, 4) + old(buf[offset + 4..])
  {
    var v := value;
    buf[offset] := v % 256;
    v := v / 256;
    buf[offset + 1] := v % 256;
    v := v / 256;
    buf[offset + 2] := v % 256;
    v := v / 256;
    buf[offset + 3] := v % 256;
    LittleEndian4(value);
  }
}
