/** Bytes and the little-endian integers that `memcpy` of a machine integer produces. */
module Bytes {
  import opened Bits

  type byte = n: nat | n < 256

  function Pow256(n: nat): (p: nat)
    ensures p > 0
  {
    if n == 0 then 1 else 256 * Pow256(n - 1)
  }

  /** The n low bytes of v, lowest first. */
  function LittleEndian(v: nat, n: nat): (b: seq<byte>)
    ensures |b| == n
  {
    if n == 0 then [] else [v % 256] + LittleEndian(v / 256, n - 1)
  }

  function FromLittleEndian(b: seq<byte>): nat {
    if b == [] then 0 else b[0] + 256 * FromLittleEndian(b[1..])
  }

  lemma {:induction false} DecodeEncode(v: nat, n: nat)
    requires v < Pow256(n)
    ensures FromLittleEndian(LittleEndian(v, n)) == v
  {
    if n == 0 {
    } else {
      DecodeEncode(v / 256, n - 1);
      assert LittleEndian(v, n)[1..] == LittleEndian(v / 256, n - 1);
    }
  }

  lemma {:induction false} EncodeDecode(b: seq<byte>)
    ensures FromLittleEndian(b) < Pow256(|b|)
    ensures LittleEndian(FromLittleEndian(b), |b|) == b
  {
    if b == [] {
    } else {
      EncodeDecode(b[1..]);
      LowDigit(b[0], FromLittleEndian(b[1..]), Pow256(|b| - 1));
    }
  }

  lemma LowDigit(d: byte, rest: nat, limit: nat)
    requires rest < limit
    ensures (d + 256 * rest) % 256 == d && (d + 256 * rest) / 256 == rest
    ensures d + 256 * rest < 256 * limit
  {
  }

  lemma DivideTwice(v: nat, p: nat)
    requires p > 0
    ensures v / 256 / p == v / (256 * p)
  {
    var q, r := v / 256 / p, v / 256 % p;
    assert v / 256 == q * p + r;
    assert v == 256 * (q * p + r) + v % 256;
    var m := 256 * r + v % 256;
    assert v == q * (256 * p) + m && 0 <= m < 256 * p;
    QuotientUnique(v, 256 * p, q, m);
  }

  /** Byte i holds bits 8 i to 8 i + 7. */
  lemma {:induction false} ByteAt(v: nat, n: nat, i: nat)
    requires i < n
    ensures LittleEndian(v, n)[i] == v / Pow256(i) % 256
  {
    if i == 0 {
    } else {
      ByteAt(v / 256, n - 1, i - 1);
      DivideTwice(v, Pow256(i - 1));
    }
  }

  /** An unsigned 32-bit field. */
  function Uint32(b: seq<byte>): (u: nat)
    requires |b| == 4
    ensures u < 0x1_0000_0000
  {
    EncodeDecode(b);
    Pow256Of4();
    FromLittleEndian(b)
  }

  lemma Pow256Of4()
    ensures Pow256(4) == 0x1_0000_0000
  {
    assert Pow256(2) == 0x1_0000;
    assert Pow256(4) == 256 * (256 * Pow256(2));
  }

  lemma Pow256Of8()
    ensures Pow256(8) == 0x1_0000_0000_0000_0000
  {
    Pow256Of4();
    assert Pow256(6) == 256 * (256 * Pow256(4));
    assert Pow256(8) == 256 * (256 * Pow256(6));
  }

  /** Two's complement for a type of `limit` values. */
  function ToUnsigned(v: int, limit: nat): nat
    requires 0 <= v + limit && v < limit
  {
    if v < 0 then v + limit else v
  }

  function ToSigned(u: nat, limit: nat): int
    requires u < limit
  {
    if 2 * u < limit then u else u - limit
  }

  /** The conversions `static_cast<int>(x)` of a 64-bit length and `static_cast<size_t>(x)` of an int. */
  function ToInt32(size: nat): (length: int)
    ensures -0x8000_0000 <= length < 0x8000_0000
  {
    ToSigned(size % 0x1_0000_0000, 0x1_0000_0000)
  }

  function ToSizeT(length: int): nat
    requires -0x8000_0000 <= length < 0x8000_0000
  {
    if length < 0 then length + 0x1_0000_0000_0000_0000 else length
  }
}
