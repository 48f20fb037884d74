/** An inode: the fixed-size record holding a file's size, its block count, the layout of its i-block area,
    and the i-block itself; and the inode's own bookkeeping around the operations its i-block carries out. */
module Inode {
  import opened Wrappers
  import opened JavaInt
  import opened Bytes
  import opened Fields
  import Block
  import FT = FileType
  import IBT = IBlockType

  /** An inode number. */
  datatype Id = Id(value: int32) {

    function Minus(k: int32): (r: Id)
      ensures -0x8000_0000 <= value - k < 0x8000_0000 ==> r.value == value - k
    {
      Id(Wrap32(value - k))
    }

    function MinusId(other: Id): (r: Id)
      ensures r == Minus(other.value)
    {
      Id(Wrap32(value - other.value))
    }
  }

  /** Bytes an inode number occupies in a directory entry. */
  const ID_LENGTH: nat := 4

  /** Inode 0 stands for "no inode". */
  const NULL: Id := Id(0)

  /** Inode 1 is the root directory. */
  const ROOT: Id := Id(1)

  /** A run of consecutive inode numbers. */
  datatype Range = Range(from: Id, length: int32)

  /** `Range.of`: the assertions of the source (assertions enabled) reject a negative start or an empty run. */
  function RangeOf(from: Id, length: int32): (r: Result<Range>)
    ensures r.Ok? <==> from.value >= 0 && length > 0
    ensures r.Ok? ==> r.value.from == from && r.value.length == length
    ensures r.Err? ==> r.error == AssertionFailure
  {
    if from.value < 0 || length <= 0 then Err(AssertionFailure) else Ok(Range(from, length))
  }

  /** The fixed part of the record: size (8), blocks count (4), layout code (1) and three padding bytes. */
  const MIN_LENGTH: nat := 8 + 4 + IBT.LENGTH + 3

  /** `iBlockLength`: what is left of an inode of `inodeSize` bytes for the i-block, in `int` arithmetic. */
  function IBlockLength(inodeSize: int32): (r: int32)
    ensures inodeSize >= MIN_LENGTH ==> 0 <= r == inodeSize - MIN_LENGTH
  {
    Wrap32(inodeSize - MIN_LENGTH)
  }

  /** The contents of an inode record. The i-block is kept as the bytes its layout reads and writes; how each
      layout interprets them is the business of the modules for inline data, entry lists and block mappings. */
  datatype Record = Record(size: int64, blocksCount: int32, iBlockType: IBT.IBlockType, iBlock: seq<byte>)

  /** The bytes `write` puts: size, blocks count, layout code, three zero bytes, then the i-block. */
  function Encode(rec: Record): (b: seq<byte>)
    ensures |b| == MIN_LENGTH + |rec.iBlock|
  {
    PutLong(rec.size) + PutInt(rec.blocksCount) + IBT.Write(rec.iBlockType) + [0, 0, 0] + rec.iBlock
  }

  /** `Inode.write` into a buffer of `inodeSize` bytes: the record must fill the buffer exactly; a longer one
      overflows it and a shorter one fails the closing assertion. */
  function Write(rec: Record, inodeSize: int): (r: Result<seq<byte>>)
    ensures r.Ok? <==> MIN_LENGTH + |rec.iBlock| == inodeSize
    ensures r.Ok? ==> |r.value| == inodeSize
    ensures r.Err? ==> r.error == (if MIN_LENGTH + |rec.iBlock| > inodeSize then BufferOverflow else AssertionFailure)
  {
    if MIN_LENGTH + |rec.iBlock| > inodeSize then Err(BufferOverflow)
    else if MIN_LENGTH + |rec.iBlock| < inodeSize then Err(AssertionFailure)
    else Ok(Encode(rec))
  }

  /** `Inode.read` of a buffer that should hold exactly `inodeSize` bytes. The layout code is read at byte 12;
      an unknown code is rejected; the padding is skipped whatever it holds; the extent-tree layout has no
      reader, so its `create` dereferences null; every other layout takes the rest of the record. */
  function Read(s: seq<byte>, inodeSize: int): (r: Result<Record>)
    ensures |s| != inodeSize ==> r == Err(AssertionFailure)
    ensures |s| == inodeSize && |s| > 12 && !(1 <= s[12] <= 6) ==> r == Err(IllegalArgument)
    ensures r.Ok? <==> |s| == inodeSize >= MIN_LENGTH && 1 <= s[12] <= 6 && s[12] != 3
    ensures r.Ok? ==> r.value.iBlockType.Code() == s[12] && r.value.iBlock == s[MIN_LENGTH..]
  {
    if |s| != inodeSize then Err(AssertionFailure)
    else if |s| < 13 then Err(BufferUnderflow)
    else
      match IBT.Read(s[12..])
      case Err(e) => Err(e)
      case Ok(t) =>
        if |s| < MIN_LENGTH then Err(BufferUnderflow)
        else if t == IBT.FileExtentTree then Err(NullArgument)
        else Ok(Record(GetLong(s, 0), GetInt(s, 8), t, s[MIN_LENGTH..]))
  }

  /** A record fits an inode exactly when its i-block is `iBlockLength` bytes long. */
  lemma {:induction false} WriteFits(rec: Record, inodeSize: int32)
    requires inodeSize >= MIN_LENGTH
    ensures Write(rec, inodeSize).Ok? <==> |rec.iBlock| == IBlockLength(inodeSize)
  {
  }

  /** Reading a written record gives it back, for every layout that has a reader. */
  lemma {:induction false} ReadWrite(rec: Record, inodeSize: int)
    requires Write(rec, inodeSize).Ok? && rec.iBlockType != IBT.FileExtentTree
    ensures Read(Write(rec, inodeSize).value, inodeSize) == Ok(rec)
  {
    var s := Encode(rec);
    EncodeFields(rec);
    GetLongOf(s, 0, rec.size);
    GetIntOf(s, 8, rec.blocksCount);
    IBT.ReadWrite(rec.iBlockType, s[13..]);
    assert s[12..] == IBT.Write(rec.iBlockType) + s[13..];
  }

  /** Where each field of a record lies in its bytes. */
  lemma {:induction false} EncodeFields(rec: Record)
    ensures var s := Encode(rec);
      && s[0..8] == PutLong(rec.size) && s[8..12] == PutInt(rec.blocksCount)
      && s[12..13] == IBT.Write(rec.iBlockType) && s[MIN_LENGTH..] == rec.iBlock
  {
    var s := Encode(rec);
    var a, b, c := PutLong(rec.size), PutInt(rec.blocksCount), IBT.Write(rec.iBlockType);
    assert s == a + b + c + [0, 0, 0] + rec.iBlock;
    assert s[0..8] == a;
    assert s[8..12] == b;
    assert s[12..13] == c;
  }

  /** Writing a record that was read reproduces the bytes read, except that the padding comes back as zeros. */
  lemma {:induction false} WriteRead(s: seq<byte>, inodeSize: int)
    requires Read(s, inodeSize).Ok?
    ensures Write(Read(s, inodeSize).value, inodeSize) == Ok(s[..13] + [0, 0, 0] + s[MIN_LENGTH..])
  {
    var rec := Read(s, inodeSize).value;
    PutGetLong(s, 0);
    PutGetInt(s, 8);
    IBT.WriteRead(s[12..]);
    assert s[..13] == s[0..8] + s[8..12] + s[12..][..1];
  }

  /** The header of a record, as the file system last stored it for an inode. */
  datatype Header = Header(size: int64, blocksCount: int32, iBlockType: IBT.IBlockType)

  /** `Math.max(size, position + initial + written)`, in `long` arithmetic: the size after a write of `written`
      bytes at file offset `position + initial`. */
  function GrownSize(size: int64, position: int64, initial: int32, written: int32): (r: int64)
    ensures r >= size
    ensures r == size || r == Wrap64(position + initial + written)
    ensures position + initial + written < 0x8000_0000_0000_0000 ==> r >= position + initial + written
  {
    var end := Wrap64(position + initial + written);
    if size >= end then size else end
  }

  /** An inode in memory. The operations of its i-block (entry lists, block mappings, inline data) are modelled
      in their own modules; here their outcomes are parameters, and what is modelled is the inode's own part:
      the type guards, the one upgrade from an inline layout and the retry, the size and blocks count, and the
      write-back of the record after a change. */
  class Inode {
    const id: Id
    var size: int64
    var blocksCount: int32
    var iBlockType: IBT.IBlockType
    var dirty: bool
    /** The header of the record the file system last wrote for this inode, if any. */
    var stored: Option<Header>

    function Current(): Header
      reads this
    {
      Header(size, blocksCount, iBlockType)
    }

    /** `createRegularFile`: an empty file with inline data. */
    constructor CreateRegularFile(id: Id)
      ensures this.id == id && size == 0 && blocksCount == 0 && iBlockType == IBT.FileInlineData
      ensures !dirty && stored == None
    {
      this.id := id;
      size, blocksCount, iBlockType := 0, 0, IBT.FileInlineData;
      dirty, stored := false, None;
    }

    /** `createDirectory`: an empty directory with an inline entry list. */
    constructor CreateDirectory(id: Id)
      ensures this.id == id && size == 0 && blocksCount == 0 && iBlockType == IBT.DirInlineList
      ensures !dirty && stored == None
    {
      this.id := id;
      size, blocksCount, iBlockType := 0, 0, IBT.DirInlineList;
      dirty, stored := false, None;
    }

    /** `isDirectory`: the layout belongs to a directory. */
    predicate IsDirectory()
      reads this
    {
      iBlockType.FileType() == FT.Directory
    }

    /** `isRegularFile`: the layout belongs to a regular file. */
    predicate IsRegularFile()
      reads this
    {
      iBlockType.FileType() == FT.RegularFile
    }

    /** `ensureDirectory`: directory operations on anything else are an illegal state. */
    function EnsureDirectory(): (r: Result<()>)
      reads this
      ensures r.Ok? <==> IsDirectory()
      ensures r.Err? ==> r.error == IllegalState && IsRegularFile()
    {
      if IsDirectory() then Ok(()) else Err(IllegalState)
    }

    /** `ensureRegularFile`: file operations on anything else are an illegal state. */
    function EnsureRegularFile(): (r: Result<()>)
      reads this
      ensures r.Ok? <==> IsRegularFile()
      ensures r.Err? ==> r.error == IllegalState && IsDirectory()
    {
      if IsRegularFile() then Ok(()) else Err(IllegalState)
    }

    /** `flush`: the file system writes the whole record back. */
    method Flush()
      modifies this
      ensures stored == Some(Current())
      ensures size == old(size) && blocksCount == old(blocksCount) && iBlockType == old(iBlockType)
      ensures dirty == old(dirty)
    {
      stored := Some(Current());
    }

    /** `reserveBlock`: a block from the file system's allocator (`grant`); the count grows by one. */
    method ReserveBlock(grant: Result<Block.Id>) returns (r: Result<Block.Id>)
      modifies this
      ensures r == grant
      ensures blocksCount == if grant.Ok? then Wrap32(old(blocksCount) + 1) else old(blocksCount)
      ensures size == old(size) && iBlockType == old(iBlockType) && dirty == old(dirty) && stored == old(stored)
    {
      if grant.Err? {
        return Err(grant.error);
      }
      blocksCount := Wrap32(blocksCount + 1);
      return grant;
    }

    /** `reserveBlocks(n)`: ranges from the allocator (`grant`); the count grows by ONE whatever `n` is, as the
        source documents (only one data block is accounted for). */
    method ReserveBlocks(n: int32, grant: Result<seq<Block.Range>>) returns (r: Result<seq<Block.Range>>)
      modifies this
      ensures r == grant
      ensures blocksCount == if grant.Ok? then Wrap32(old(blocksCount) + 1) else old(blocksCount)
      ensures size == old(size) && iBlockType == old(iBlockType) && dirty == old(dirty) && stored == old(stored)
    {
      if grant.Err? {
        return Err(grant.error);
      }
      blocksCount := Wrap32(blocksCount + 1);
      return grant;
    }

    /** `upgradeInlineData`: only an inline file with a non-negative size and no blocks may be upgraded (the
        source's assertions); `init` is the outcome of building the block mapping around the inline data. */
    method UpgradeInlineData(init: Result<()>) returns (r: Result<()>)
      modifies this
      ensures old(iBlockType) != IBT.FileInlineData || old(size) < 0 || old(blocksCount) != 0 ==>
        r == Err(AssertionFailure)
      ensures old(iBlockType) == IBT.FileInlineData && old(size) >= 0 && old(blocksCount) == 0 ==> r == init
      ensures r.Ok? ==> iBlockType == IBT.FileBlockMapping && dirty
      ensures r.Err? ==> iBlockType == old(iBlockType) && dirty == old(dirty)
      ensures size == old(size) && blocksCount == old(blocksCount) && stored == old(stored)
    {
      if iBlockType != IBT.FileInlineData || size < 0 || blocksCount != 0 {
        return Err(AssertionFailure);
      }
      if init.Err? {
        return init;
      }
      iBlockType := IBT.FileBlockMapping;
      dirty := true;
      return init;
    }

    /** `upgradeInlineDirList`: only an inline directory with no blocks may be upgraded; the size becomes
        `blocksCount * blockSize` in `long` arithmetic, which is zero since the count is zero. */
    method UpgradeInlineDirList(blockSize: int32, init: Result<()>) returns (r: Result<()>)
      modifies this
      ensures old(iBlockType) != IBT.DirInlineList || old(blocksCount) != 0 ==> r == Err(AssertionFailure)
      ensures old(iBlockType) == IBT.DirInlineList && old(blocksCount) == 0 ==> r == init
      ensures r.Ok? ==> iBlockType == IBT.DirBlockMapping && dirty && size == 0
      ensures r.Err? ==> iBlockType == old(iBlockType) && dirty == old(dirty) && size == old(size)
      ensures blocksCount == old(blocksCount) && stored == old(stored)
    {
      if iBlockType != IBT.DirInlineList || blocksCount != 0 {
        return Err(AssertionFailure);
      }
      if init.Err? {
        return init;
      }
      iBlockType := IBT.DirBlockMapping;
      size := Wrap64(blocksCount as int * blockSize as int);
      dirty := true;
      return init;
    }

    /** `write(position, buffer)`: on a regular file, the i-block writes (`first`); when inline data runs out
        of room the inode upgrades once (`init`) and the block mapping writes instead (`retry`). After a
        successful write the size grows to cover the written bytes and the record is written back. */
    method Write(position: int64, initial: int32, first: Result<int32>, init: Result<()>, retry: Result<int32>)
      returns (r: Result<int32>)
      modifies this
      ensures !old(IsRegularFile()) ==> r == Err(IllegalState)
      ensures old(IsRegularFile()) && first != Err(DataOutOfMemory) ==> r == first
      ensures old(IsRegularFile()) && first == Err(DataOutOfMemory) && r.Ok? ==>
        r == retry && old(iBlockType) == IBT.FileInlineData && iBlockType == IBT.FileBlockMapping
      ensures r.Ok? ==> size == GrownSize(old(size), position, initial, r.value) && stored == Some(Current())
      ensures r.Err? ==> size == old(size) && stored == old(stored)
      ensures blocksCount == old(blocksCount)
    {
      if !IsRegularFile() {
        return Err(IllegalState);
      }
      var written := first;
      if first == Err(DataOutOfMemory) {
        var upgraded := UpgradeInlineData(init);
        if upgraded.Err? {
          return Err(upgraded.error);
        }
        written := retry;
      }
      if written.Err? {
        return written;
      }
      size := GrownSize(size, position, initial, written.value);
      Flush();
      return written;
    }

    /** `read(position, buffer)`: a file operation, so a directory is an illegal state; otherwise the i-block's
        outcome. */
    function Read<T>(outcome: Result<T>): (r: Result<T>)
      reads this
      ensures IsRegularFile() ==> r == outcome
      ensures !IsRegularFile() ==> r == Err(IllegalState)
    {
      if IsRegularFile() then outcome else Err(IllegalState)
    }

    /** `get(name)`: a directory operation, so a regular file is an illegal state; otherwise the i-block's
        answer. */
    function Get<T>(outcome: Result<T>): (r: Result<T>)
      reads this
      ensures IsDirectory() ==> r == outcome
      ensures !IsDirectory() ==> r == Err(IllegalState)
    {
      if IsDirectory() then outcome else Err(IllegalState)
    }

    /** `add` and `rename` on a directory: the i-block tries (`first`); when the inline list runs out of room
        the inode upgrades once (`init`) and the block mapping tries again (`retry`); a success is written
        back. */
    method UpdateDirectory<T>(blockSize: int32, first: Result<T>, init: Result<()>, retry: Result<T>)
      returns (r: Result<T>)
      modifies this
      ensures !old(IsDirectory()) ==> r == Err(IllegalState)
      ensures old(IsDirectory()) && first != Err(DirEntryListOutOfMemory) ==> r == first
      ensures old(IsDirectory()) && first == Err(DirEntryListOutOfMemory) && r.Ok? ==>
        r == retry && old(iBlockType) == IBT.DirInlineList && iBlockType == IBT.DirBlockMapping
      ensures r.Ok? ==> stored == Some(Current())
      ensures r.Err? ==> stored == old(stored)
      ensures blocksCount == old(blocksCount)
    {
      if !IsDirectory() {
        return Err(IllegalState);
      }
      var outcome := first;
      if first == Err(DirEntryListOutOfMemory) {
        var upgraded := UpgradeInlineDirList(blockSize, init);
        if upgraded.Err? {
          return Err(upgraded.error);
        }
        outcome := retry;
      }
      if outcome.Err? {
        return outcome;
      }
      Flush();
      return outcome;
    }

    /** `delete(name)`: a directory operation with no upgrade; a success is written back. */
    method DeleteName(outcome: Result<()>) returns (r: Result<()>)
      modifies this
      ensures r == if old(IsDirectory()) then outcome else Err(IllegalState)
      ensures r.Ok? ==> stored == Some(Current())
      ensures r.Err? ==> stored == old(stored)
      ensures Current() == old(Current()) && dirty == old(dirty)
    {
      if !IsDirectory() {
        return Err(IllegalState);
      }
      if outcome.Err? {
        return outcome;
      }
      Flush();
      return outcome;
    }
  }

  /** Every layout belongs to exactly one kind of file, so the two guards never both fail. */
  lemma {:induction false} GuardsExclusive(t: IBT.IBlockType)
    ensures t.FileType() == FT.Directory <==> t.FileType() != FT.RegularFile
    ensures t.FileType() != FT.Unknown
  {
  }
}
