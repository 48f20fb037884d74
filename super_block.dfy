/** The superblock: the file-system geometry stored at the head of block 0. */
module SuperBlock {
  import opened JavaInt
  import opened Bytes
  import opened Wrappers
  import Block
  import D = Disk

  /** Bytes the superblock occupies: magic, a reserved short and five ints. */
  const LENGTH: nat := 2 + 2 + 4 + 4 + 4 + 4 + 4

  /** `(short) 0xEF54`, as the signed short the source compares. */
  const MAGIC: int := 0xEF54 - 0x1_0000

  datatype Geometry = Geometry(
    blockSize: int32,
    inodeSize: int32,
    numberOfBlockBitmaps: int32,
    numberOfInodeBitmaps: int32,
    numberOfInodeTables: int32)

  /** What `flush` writes: magic, a zero short, then the five fields, little-endian. */
  function Encode(g: Geometry): (r: seq<byte>)
    ensures |r| == LENGTH
  {
    EncodeSigned(MAGIC, 2) + EncodeSigned(0, 2)
    + EncodeSigned(g.blockSize, 4) + EncodeSigned(g.inodeSize, 4)
    + EncodeSigned(g.numberOfBlockBitmaps, 4) + EncodeSigned(g.numberOfInodeBitmaps, 4)
    + EncodeSigned(g.numberOfInodeTables, 4)
  }

  function Int32At(s: seq<byte>, at: nat): int32
    requires at + 4 <= |s|
  {
    assert Pow256(4) == 0x1_0000_0000 by {
      assert Pow256(1) == 256;
      assert Pow256(2) == 0x1_0000;
      assert Pow256(3) == 0x100_0000;
    }
    DecodeSigned(s[at..at + 4])
  }

  /** `SuperBlock.read`: a wrong magic is rejected before anything else is read; the reserved short is skipped
      whatever it holds; the buffer must end exactly after the last field. */
  function Read(s: seq<byte>): (r: Result<Geometry>)
    ensures |s| >= 2 && DecodeSigned(s[..2]) != MAGIC ==> r == Err(IllegalArgument)
    ensures r.Ok? <==> |s| == LENGTH && DecodeSigned(s[..2]) == MAGIC
    ensures r.Ok? ==> r.value.blockSize == DecodeSigned(s[4..8])
  {
    if |s| < 2 then Err(BufferUnderflow)
    else if DecodeSigned(s[..2]) != MAGIC then Err(IllegalArgument)
    else if |s| < LENGTH then Err(BufferUnderflow)
    else if |s| > LENGTH then Err(AssertionFailure)
    else Ok(Geometry(Int32At(s, 4), Int32At(s, 8), Int32At(s, 12), Int32At(s, 16), Int32At(s, 20)))
  }

  lemma {:induction false} Pow256Four()
    ensures Pow256(2) == 0x1_0000 && Pow256(4) == 0x1_0000_0000
  {
    assert Pow256(1) == 256;
    assert Pow256(3) == 0x100_0000;
  }

  /** Flushing a geometry and reading the block back gives the same geometry. */
  lemma {:induction false} ReadEncode(g: Geometry)
    ensures Read(Encode(g)) == Ok(g)
  {
    Pow256Four();
    var s := Encode(g);
    var parts := [EncodeSigned(MAGIC, 2), EncodeSigned(0, 2),
                  EncodeSigned(g.blockSize, 4), EncodeSigned(g.inodeSize, 4),
                  EncodeSigned(g.numberOfBlockBitmaps, 4), EncodeSigned(g.numberOfInodeBitmaps, 4),
                  EncodeSigned(g.numberOfInodeTables, 4)];
    assert s[..2] == parts[0];
    assert s[4..8] == parts[2];
    assert s[8..12] == parts[3];
    assert s[12..16] == parts[4];
    assert s[16..20] == parts[5];
    assert s[20..24] == parts[6];
    DecodeEncodeSigned(MAGIC, 2);
    DecodeEncodeSigned(g.blockSize, 4);
    DecodeEncodeSigned(g.inodeSize, 4);
    DecodeEncodeSigned(g.numberOfBlockBitmaps, 4);
    DecodeEncodeSigned(g.numberOfInodeBitmaps, 4);
    DecodeEncodeSigned(g.numberOfInodeTables, 4);
  }

  /** Reading a superblock and flushing it back gives the bytes read, except that the reserved short is
      written as zero. */
  lemma {:induction false} EncodeRead(s: seq<byte>)
    requires Read(s).Ok?
    ensures Encode(Read(s).value) == s[..2] + EncodeSigned(0, 2) + s[4..]
  {
    Pow256Four();
    var g := Read(s).value;
    EncodeDecodeSigned(s[..2]);
    EncodeDecodeSigned(s[4..8]);
    EncodeDecodeSigned(s[8..12]);
    EncodeDecodeSigned(s[12..16]);
    EncodeDecodeSigned(s[16..20]);
    EncodeDecodeSigned(s[20..24]);
    assert s[4..] == s[4..8] + s[8..12] + s[12..16] + s[16..20] + s[20..24];
  }

  /** Where each region starts: block bitmaps right after the superblock, then inode bitmaps, inode tables and
      data, each `plus` being Java `int` addition. */
  function FirstBlockOfBlockBitmap(g: Geometry): Block.Id { Block.Id(1) }
  function FirstBlockOfInodeBitmap(g: Geometry): Block.Id { FirstBlockOfBlockBitmap(g).Plus(g.numberOfBlockBitmaps) }
  function FirstBlockOfInodeTables(g: Geometry): Block.Id { FirstBlockOfInodeBitmap(g).Plus(g.numberOfInodeBitmaps) }
  function FirstBlockOfData(g: Geometry): Block.Id { FirstBlockOfInodeTables(g).Plus(g.numberOfInodeTables) }

  /** With non-negative region sizes that fit the block numbering, the regions follow the superblock in order,
      each one starting where the previous one ends, so no two overlap. */
  lemma {:induction false} LayoutContiguous(g: Geometry)
    requires g.numberOfBlockBitmaps >= 0 && g.numberOfInodeBitmaps >= 0 && g.numberOfInodeTables >= 0
    requires 1 + g.numberOfBlockBitmaps + g.numberOfInodeBitmaps + g.numberOfInodeTables < 0x8000_0000
    ensures FirstBlockOfBlockBitmap(g).value == 1
    ensures FirstBlockOfInodeBitmap(g).value == 1 + g.numberOfBlockBitmaps
    ensures FirstBlockOfInodeTables(g).value == FirstBlockOfInodeBitmap(g).value + g.numberOfInodeBitmaps
    ensures FirstBlockOfData(g).value == FirstBlockOfInodeTables(g).value + g.numberOfInodeTables
    ensures 0 < FirstBlockOfBlockBitmap(g).value <= FirstBlockOfInodeBitmap(g).value
              <= FirstBlockOfInodeTables(g).value <= FirstBlockOfData(g).value
  {
  }

  /** The superblock held in memory, with the flag telling whether it differs from block 0. */
  class SuperBlock {
    var geometry: Geometry
    var dirty: bool

    /** `SuperBlock.init`: a new superblock from the configuration, not yet written. */
    constructor Init(g: Geometry)
      ensures geometry == g && dirty
    {
      geometry := g;
      dirty := true;
    }

    /** `SuperBlock.read`: a superblock decoded from block 0 is clean. */
    constructor FromBytes(s: seq<byte>)
      requires Read(s).Ok?
      ensures geometry == Read(s).value && !dirty
    {
      geometry := Read(s).value;
      dirty := false;
    }

    /** The superblock always lives in block 0. */
    function Id(): Block.Id { Block.ZERO }

    /** `flush`: a clean superblock writes nothing; a dirty one writes its encoding to block 0 and becomes clean. */
    method Flush(disk: D.Disk)
      modifies this, disk
      ensures !dirty && geometry == old(geometry)
      ensures old(dirty) ==> disk.blocks == old(disk.blocks)[0 := Encode(geometry)]
      ensures !old(dirty) ==> disk.blocks == old(disk.blocks)
    {
      if !dirty {
        return;
      }
      disk.WriteBlock(Id().value, Encode(geometry));
      dirty := false;
    }
  }
}
