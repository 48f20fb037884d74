/** `ByteBuffer` field access, little-endian, at an index of a byte sequence. */
module Fields {
  import opened Bytes
  import opened JavaInt

  lemma {:induction false} Pow256Values()
    ensures Pow256(1) == 0x100 && Pow256(2) == 0x1_0000 && Pow256(4) == 0x1_0000_0000
    ensures Pow256(8) == 0x1_0000_0000_0000_0000
  {
    assert Pow256(3) == 0x100_0000;
    assert Pow256(5) == 0x100_0000_0000;
    assert Pow256(6) == 0x1_0000_0000_0000;
    assert Pow256(7) == 0x100_0000_0000_0000;
  }

  /** `get()`: one signed byte. */
  function GetByte(s: seq<byte>, at: nat): int8
    requires at + 1 <= |s|
  {
    Pow256Values();
    DecodeSigned(s[at..at + 1])
  }

  /** `getShort()`. */
  function GetShort(s: seq<byte>, at: nat): int16
    requires at + 2 <= |s|
  {
    Pow256Values();
    DecodeSigned(s[at..at + 2])
  }

  /** `getInt()`. */
  function GetInt(s: seq<byte>, at: nat): int32
    requires at + 4 <= |s|
  {
    Pow256Values();
    DecodeSigned(s[at..at + 4])
  }

  /** `getLong()`. */
  function GetLong(s: seq<byte>, at: nat): int64
    requires at + 8 <= |s|
  {
    Pow256Values();
    DecodeSigned(s[at..at + 8])
  }

  /** `putShort(x)`. */
  function PutShort(x: int16): (r: seq<byte>)
    ensures |r| == 2
  {
    Pow256Values();
    EncodeSigned(x, 2)
  }

  /** `putInt(x)`. */
  function PutInt(x: int32): (r: seq<byte>)
    ensures |r| == 4
  {
    Pow256Values();
    EncodeSigned(x, 4)
  }

  /** `putLong(x)`. */
  function PutLong(x: int64): (r: seq<byte>)
    ensures |r| == 8
  {
    Pow256Values();
    EncodeSigned(x, 8)
  }

  lemma {:induction false} Slice(prefix: seq<byte>, field: seq<byte>, suffix: seq<byte>)
    ensures (prefix + field + suffix)[|prefix|..|prefix| + |field|] == field
  {
  }

  /** A short written at an index reads back, whatever surrounds it. */
  lemma {:induction false} GetPutShort(x: int16, prefix: seq<byte>, suffix: seq<byte>)
    ensures GetShort(prefix + PutShort(x) + suffix, |prefix|) == x
  {
    Pow256Values();
    Slice(prefix, PutShort(x), suffix);
    DecodeEncodeSigned(x, 2);
  }

  /** An int written at an index reads back, whatever surrounds it. */
  lemma {:induction false} GetPutInt(x: int32, prefix: seq<byte>, suffix: seq<byte>)
    ensures GetInt(prefix + PutInt(x) + suffix, |prefix|) == x
  {
    Pow256Values();
    Slice(prefix, PutInt(x), suffix);
    DecodeEncodeSigned(x, 4);
  }

  /** A long written at an index reads back, whatever surrounds it. */
  lemma {:induction false} GetPutLong(x: int64, prefix: seq<byte>, suffix: seq<byte>)
    ensures GetLong(prefix + PutLong(x) + suffix, |prefix|) == x
  {
    Pow256Values();
    Slice(prefix, PutLong(x), suffix);
    DecodeEncodeSigned(x, 8);
  }

  /** Bytes that hold a written short read back as that short. */
  lemma {:induction false} GetShortOf(s: seq<byte>, at: nat, x: int16)
    requires at + 2 <= |s| && s[at..at + 2] == PutShort(x)
    ensures GetShort(s, at) == x
  {
    Pow256Values();
    DecodeEncodeSigned(x, 2);
  }

  /** Bytes that hold a written int read back as that int. */
  lemma {:induction false} GetIntOf(s: seq<byte>, at: nat, x: int32)
    requires at + 4 <= |s| && s[at..at + 4] == PutInt(x)
    ensures GetInt(s, at) == x
  {
    Pow256Values();
    DecodeEncodeSigned(x, 4);
  }

  /** Bytes that hold a written long read back as that long. */
  lemma {:induction false} GetLongOf(s: seq<byte>, at: nat, x: int64)
    requires at + 8 <= |s| && s[at..at + 8] == PutLong(x)
    ensures GetLong(s, at) == x
  {
    Pow256Values();
    DecodeEncodeSigned(x, 8);
  }

  /** An int read at an index and written back gives the bytes read. */
  lemma {:induction false} PutGetInt(s: seq<byte>, at: nat)
    requires at + 4 <= |s|
    ensures PutInt(GetInt(s, at)) == s[at..at + 4]
  {
    Pow256Values();
    EncodeDecodeSigned(s[at..at + 4]);
  }

  /** A long read at an index and written back gives the bytes read. */
  lemma {:induction false} PutGetLong(s: seq<byte>, at: nat)
    requires at + 8 <= |s|
    ensures PutLong(GetLong(s, at)) == s[at..at + 8]
  {
    Pow256Values();
    EncodeDecodeSigned(s[at..at + 8]);
  }
}
