/** Byte buffers: little-endian fixed-width fields as Java's ByteBuffer reads and writes them. */
module Bytes {

  /** One byte of a buffer, as an unsigned value. */
  type byte = x: int | 0 <= x < 256

  function Pow256(n: nat): (r: nat)
    ensures r >= 1
  {
    if n == 0 then 1 else 256 * Pow256(n - 1)
  }

  /** The `n` little-endian bytes of the unsigned value `x`. */
  function EncodeLE(x: nat, n: nat): (r: seq<byte>)
    requires x < Pow256(n)
    ensures |r| == n
  {
    if n == 0 then [] else [x % 256] + EncodeLE(x / 256, n - 1)
  }

  /** The unsigned value of little-endian bytes; it fits in as many bytes as were read. */
  function DecodeLE(s: seq<byte>): (r: nat)
    ensures r < Pow256(|s|)
  {
    if |s| == 0 then 0 else s[0] + 256 * DecodeLE(s[1..])
  }

  lemma {:induction false} DecodeEncodeLE(x: nat, n: nat)
    requires x < Pow256(n)
    ensures DecodeLE(EncodeLE(x, n)) == x
  {
    if n > 0 {
      var s := EncodeLE(x, n);
      assert s[1..] == EncodeLE(x / 256, n - 1);
      DecodeEncodeLE(x / 256, n - 1);
    }
  }

  lemma {:induction false} EncodeDecodeLE(s: seq<byte>)
    ensures EncodeLE(DecodeLE(s), |s|) == s
  {
    if |s| > 0 {
      var x := DecodeLE(s);
      assert x % 256 == s[0];
      assert x / 256 == DecodeLE(s[1..]);
      EncodeDecodeLE(s[1..]);
    }
  }

  /** Two's-complement reading of an `n`-byte unsigned value. */
  function ToSigned(u: nat, n: nat): int
    requires n > 0
  {
    if u < Pow256(n) / 2 then u else u - Pow256(n)
  }

  /** Two's-complement bits of a signed value in `n` bytes. */
  function FromSigned(x: int, n: nat): nat
    requires n > 0
    requires -(Pow256(n) / 2) <= x < Pow256(n) / 2
  {
    if x >= 0 then x else x + Pow256(n)
  }

  predicate FitsSigned(x: int, n: nat)
    requires n > 0
  {
    -(Pow256(n) / 2) <= x < Pow256(n) / 2
  }

  /** `putShort`, `putInt`, `putLong` on a little-endian buffer (n = 2, 4, 8). */
  function EncodeSigned(x: int, n: nat): (r: seq<byte>)
    requires n > 0 && FitsSigned(x, n)
    ensures |r| == n
  {
    assert Pow256(n) == 256 * Pow256(n - 1);
    EncodeLE(FromSigned(x, n), n)
  }

  /** `get`, `getShort`, `getInt`, `getLong` on a little-endian buffer: the signed value of the bytes. */
  function DecodeSigned(s: seq<byte>): (r: int)
    requires |s| > 0
    ensures FitsSigned(r, |s|)
  {
    assert Pow256(|s|) == 256 * Pow256(|s| - 1);
    ToSigned(DecodeLE(s), |s|)
  }

  /** Writing a field and reading it back gives the value written. */
  lemma {:induction false} DecodeEncodeSigned(x: int, n: nat)
    requires n > 0 && FitsSigned(x, n)
    ensures DecodeSigned(EncodeSigned(x, n)) == x
  {
    assert Pow256(n) == 256 * Pow256(n - 1);
    DecodeEncodeLE(FromSigned(x, n), n);
  }

  /** Reading a field and writing it back gives the bytes read. */
  lemma {:induction false} EncodeDecodeSigned(s: seq<byte>)
    requires |s| > 0
    ensures EncodeSigned(DecodeSigned(s), |s|) == s
  {
    assert Pow256(|s|) == 256 * Pow256(|s| - 1);
    EncodeDecodeLE(s);
  }

  function Zeros(n: nat): (r: seq<byte>)
    ensures |r| == n && forall i :: 0 <= i < n ==> r[i] == 0
  {
    seq(n, _ => 0)
  }
}
