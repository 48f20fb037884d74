/** The block mapping object (`AbstractBlockMapping`, and its earlier revision `BlockMapping`): the direct ids,
    the indirect trees, the count of mapped blocks, and the ids of the blocks changed since the last `flush`. */
module AbstractBlockMapping {
  import opened Wrappers
  import opened JavaInt
  import opened Bytes
  import opened Fields
  import Block
  import opened IndirectBlock
  import opened IndirectBlockStore
  import opened BlockMapping
  import opened BlockMappingStore

  /** A block mapping as the inode holds it. `Valid()` is the shape `add` keeps; `Mapped()` lists the data
      blocks in logical order. */
  class Mapping {
    const bs: BlockSize
    const inodeSize: int
    var directs: seq<Id>
    var indirects: seq<Node>
    var blocksCount: int
    var dirtyBlocks: seq<Id>

    ghost predicate Valid()
      reads this
    {
      Shaped(bs, inodeSize, directs, indirects, blocksCount)
    }

    /** The data blocks in logical order. */
    function Mapped(): seq<Id>
      reads this
    {
      directs + LeavesOf(indirects)
    }

    /** A new, empty mapping. */
    constructor (bs: BlockSize, inodeSize: int)
      ensures this.bs == bs && this.inodeSize == inodeSize
      ensures directs == [] && indirects == [] && blocksCount == 0 && dirtyBlocks == []
      ensures Valid() && Mapped() == []
    {
      this.bs, this.inodeSize := bs, inodeSize;
      directs, indirects, blocksCount, dirtyBlocks := [], [], 0, [];
    }

    /** `read(fileSystem, buffer, factory)`: a mapping built from an i-block, its trees read from the disk.
        No block is dirty afterwards. */
    static method Read(bs: BlockSize, inodeSize: int, disk: Parsed, buf: seq<byte>) returns (r: Result<Mapping>)
      ensures r.Err? <==> ReadTable(bs, inodeSize, disk, buf).Err?
      ensures r.Err? ==> r.error == ReadTable(bs, inodeSize, disk, buf).error
      ensures r.Ok? ==>
        && fresh(r.value) && r.value.bs == bs && r.value.inodeSize == inodeSize
        && var t := ReadTable(bs, inodeSize, disk, buf).value;
        && r.value.directs == t.directs && r.value.indirects == t.indirects
        && r.value.blocksCount == t.blocksCount && r.value.dirtyBlocks == []
    {
      var ids := ReadIds(inodeSize, buf);
      if ids.Err? {
        return Err(ids.error);
      }
      var directs, roots := ids.value.0, ids.value.1;
      var trees := ReadTrees(bs, disk, roots);
      if trees.Err? {
        return Err(trees.error);
      }
      var ts, sum := trees.value.0, trees.value.1;
      if |buf| < IblockSize(inodeSize) {
        return Err(IllegalArgument);
      }
      var count := Wrap32(|directs| + sum);
      Wrap32AddWrapped(SumSizes(ts), |directs|);
      ghost var all := IblockIds(buf).value;
      assert ReadTable(bs, inodeSize, disk, buf) == Ok(Table(directs, ts, count)) by {
        assert DirectCount(inodeSize, |all|) == |directs|;
      }
      var m := new Mapping(bs, inodeSize);
      m.directs, m.indirects, m.blocksCount := directs, ts, count;
      return Ok(m);
    }

    /** The first loop of `read`: the ids of the i-block, the first ones filling the direct slots and the
        rest naming the roots of the indirect levels. */
    static method ReadIds(inodeSize: int, buf: seq<byte>) returns (r: Result<(seq<Id>, seq<Id>)>)
      ensures r.Err? <==> IblockIds(buf).Err?
      ensures r.Err? ==> r.error == IblockIds(buf).error
      ensures r.Ok? ==>
        var ids := IblockIds(buf).value;
        var k := DirectCount(inodeSize, |ids|);
        r.value.0 == ids[..k] && r.value.1 == ids[k..]
    {
      var directs: seq<Id>, roots: seq<Id>, pos := [], [], 0;
      var numberOfDirectBlocks := NumberOfDirectBlocks(inodeSize);
      assert buf[pos..] == buf && directs + roots == [];
      PrependNil(IblockIds(buf));
      while pos < |buf|
        invariant 0 <= pos <= |buf|
        invariant IblockIds(buf) == Prepend(directs + roots, IblockIds(buf[pos..]))
        invariant |directs| <= Slots(inodeSize) && (roots != [] ==> |directs| == Slots(inodeSize))
        decreases |buf| - pos
      {
        IblockIdsAt(buf, pos);
        if |buf| - pos < ID_LENGTH {
          return Err(BufferUnderflow);
        }
        var value := GetInt(buf, pos);
        if value == 0 {
          break;
        }
        PrependPrepend(directs + roots, [Block.Id(value)], IblockIds(buf[pos + ID_LENGTH..]));
        ghost var ids := directs + roots + [Block.Id(value)];
        if |directs| < numberOfDirectBlocks {
          directs := directs + [Block.Id(value)];
        } else {
          roots := roots + [Block.Id(value)];
        }
        assert directs + roots == ids;
        pos := pos + ID_LENGTH;
      }
      IblockIdsAt(buf, pos);
      assert IblockIds(buf[pos..]) == Ok([]);
      assert directs + roots + [] == directs + roots;
      assert DirectCount(inodeSize, |directs + roots|) == |directs|;
      assert (directs + roots)[..|directs|] == directs && (directs + roots)[|directs|..] == roots;
      return Ok((directs, roots));
    }

    /** The second loop of `read`: the tree of each root, root `j` at depth `j`, and the sum of their sizes
        in `int` arithmetic. */
    static method ReadTrees(bs: BlockSize, disk: Parsed, roots: seq<Id>) returns (r: Result<(seq<Node>, int32)>)
      ensures r.Err? <==> ReadLevels(bs, disk, roots, 0).Err?
      ensures r.Err? ==> r.error == ReadLevels(bs, disk, roots, 0).error
      ensures r.Ok? ==> r.value.0 == ReadLevels(bs, disk, roots, 0).value && r.value.1 == Wrap32(SumSizes(r.value.0))
    {
      var ts: seq<Node>, sum: int32, j := [], 0, 0;
      assert roots[j..] == roots;
      PrependNil(ReadLevels(bs, disk, roots, 0));
      while j < |roots|
        invariant 0 <= j <= |roots| && |ts| == j
        invariant ReadLevels(bs, disk, roots, 0) == Prepend(ts, ReadLevels(bs, disk, roots[j..], j))
        invariant sum == Wrap32(SumSizes(ts))
      {
        ReadLevelsStep(bs, disk, roots, j, ts);
        var t := ReadNode(bs, disk, roots[j], j);
        if t.Err? {
          return Err(t.error);
        }
        assert (ts + [t.value])[..j] == ts;
        Wrap32AddWrapped(SumSizes(ts), t.value.size);
        ts, sum, j := ts + [t.value], Wrap32(sum + t.value.size), j + 1;
      }
      assert roots[j..] == [];
      return Ok((ts, sum));
    }

    /** `flush(buffer)`: the ids of the directs and of the indirect roots written over the i-block, then an id 0
        when bytes remain; the blocks changed since the last flush are handed over to be written, and none is
        dirty afterwards. An id that does not fit overflows the buffer and leaves the dirty blocks as they
        were. */
    method Flush(buf: seq<byte>) returns (r: Result<seq<byte>>, flushed: seq<Id>)
      modifies this
      ensures r == IblockFlush(inodeSize, MappingIds(directs, indirects), buf)
      ensures directs == old(directs) && indirects == old(indirects) && blocksCount == old(blocksCount)
      ensures r.Ok? ==> flushed == old(dirtyBlocks) && dirtyBlocks == []
      ensures r.Err? ==> flushed == [] && dirtyBlocks == old(dirtyBlocks)
    {
      r := WriteIblock(inodeSize, MappingIds(directs, indirects), buf);
      if r.Err? {
        return r, [];
      }
      flushed := dirtyBlocks;
      dirtyBlocks := [];
    }

    /** The writing part of `flush`: the ids one after the other, then the terminator. */
    static method WriteIblock(inodeSize: int, ids: seq<Id>, buf: seq<byte>) returns (r: Result<seq<byte>>)
      ensures r == IblockFlush(inodeSize, ids, buf)
    {
      if |buf| < IblockSize(inodeSize) {
        return Err(AssertionFailure);
      }
      var out, j := buf, 0;
      while j < |ids|
        invariant 0 <= j <= |ids| && ID_LENGTH * j <= |buf|
        invariant out == EncodeIds(ids[..j]) + buf[ID_LENGTH * j..]
      {
        var pos := ID_LENGTH * j;
        if |out| - pos < ID_LENGTH {
          return Err(BufferOverflow);
        }
        assert ids[..j + 1] == ids[..j] + [ids[j]];
        EncodeIdsAppend(ids[..j], [ids[j]]);
        out := out[..pos] + PutInt(ids[j].value) + out[pos + ID_LENGTH..];
        j := j + 1;
      }
      assert ids[..j] == ids;
      var pos := ID_LENGTH * j;
      assert |out| == |buf| && |EncodeIds(ids)| == pos;
      if pos < |out| {
        if |out| - pos < ID_LENGTH {
          return Err(BufferOverflow);
        }
        assert out[..pos] == EncodeIds(ids) && out[pos + ID_LENGTH..] == buf[pos + ID_LENGTH..];
        out := out[..pos] + PutInt(0) + out[pos + ID_LENGTH..];
        assert out == EncodeIds(ids) + PutInt(0) + buf[pos + ID_LENGTH..];
      } else {
        assert out == EncodeIds(ids);
      }
      return Ok(out);
    }

    /** `size()`: the bytes of the mapped blocks. */
    method Size() returns (r: int)
      requires Valid()
      ensures r == |Mapped()| * bs
    {
      MappedCount(bs, inodeSize, directs, indirects, blocksCount);
      return blocksCount * bs;
    }

    /** `delete()`: the blocks handed back to the allocator, the directs first, then every block of each tree
        with the leaves below it. Together they are the mapped blocks and the pointer blocks. */
    method Delete() returns (freed: seq<Id>)
      ensures freed == directs + FreedOf(indirects)
      ensures multiset(freed) == multiset(Mapped()) + multiset(BlocksOf(indirects))
    {
      freed := FreeLevels(directs, indirects);
      FreedOfAll(indirects);
    }

    /** The loop of `delete`: the directs, then each tree freed in turn. */
    static method FreeLevels(directs: seq<Id>, indirects: seq<Node>) returns (freed: seq<Id>)
      ensures freed == directs + FreedOf(indirects)
    {
      freed := directs;
      var j := 0;
      while j < |indirects|
        invariant 0 <= j <= |indirects| && freed == directs + FreedOf(indirects[..j])
      {
        FreedOfStep(indirects, j);
        freed := freed + Freed(indirects[j]);
        j := j + 1;
      }
      assert indirects[..j] == indirects;
    }

    /** `get(blockNumber)`: the id of a logical block; IndexOutOfBoundsException outside `0..blocksCount`. */
    method Get(blockNumber: int) returns (r: Result<Id>)
      requires Valid()
      ensures |Mapped()| == blocksCount
      ensures r == if 0 <= blockNumber < blocksCount then Ok(Mapped()[blockNumber]) else Err(IndexOutOfBounds)
    {
      LookupMapped(bs, inodeSize, directs, indirects, blocksCount, blockNumber);
      if blockNumber < |directs| {
        if blockNumber < 0 {
          return Err(IndexOutOfBounds);
        }
        return Ok(directs[blockNumber]);
      }
      var index := blockNumber - |directs|;
      var i := 0;
      while i < |indirects|
        invariant 0 <= i <= |indirects|
        invariant LookupFrom(bs, indirects, i, index) == LookupFrom(bs, indirects, 0, blockNumber - |directs|)
      {
        var t := indirects[i];
        if index < MaxSize(bs, t.Depth()) {
          return IndirectBlock.Get(bs, t, index);
        }
        index := index - MaxSize(bs, t.Depth());
        i := i + 1;
      }
      return Err(IndexOutOfBounds);
    }

    /**
     * `add(block)`: appends a data block at position `blocksCount`, in a direct slot while there is one, else in
     * the first indirect level with room, creating the level when it does not exist yet; `free` is what the
     * allocator hands out and `rest` what it still holds.
     */
    method Add(b: Id, free: seq<Id>) returns (r: Result<()>, rest: seq<Id>)
      requires Valid()
      modifies this
      ensures Valid()
      ensures r.Ok? ==> Mapped() == old(Mapped()) + [b] && blocksCount == old(blocksCount) + 1
      ensures r.Ok? && old(blocksCount) < NumberOfDirectBlocks(inodeSize) ==>
        indirects == old(indirects) && dirtyBlocks == old(dirtyBlocks) + [b]
      ensures r.Ok? && old(blocksCount) >= NumberOfDirectBlocks(inodeSize) ==>
        directs == old(directs) && |indirects| > 0 && dirtyBlocks == old(dirtyBlocks) + [indirects[|indirects| - 1].id]
      ensures r.Err? ==>
        && directs == old(directs) && indirects == old(indirects) && blocksCount == old(blocksCount)
        && dirtyBlocks == old(dirtyBlocks) && rest == free
      ensures r == Err(IndexOutOfBounds) <==> old(blocksCount) == Capacity(bs, inodeSize)
      ensures r.Err? && r.error != IndexOutOfBounds ==> r.error == BitmapRegionOutOfMemory
    {
      if blocksCount < NumberOfDirectBlocks(inodeSize) {
        AddDirect(b);
        return Ok(()), free;
      }
      r, rest := AddIndirect(b, free);
    }

    /** `add` while the direct slots are not all used: the block goes into the next direct slot. */
    method AddDirect(b: Id)
      requires Valid() && blocksCount < NumberOfDirectBlocks(inodeSize)
      modifies this
      ensures Valid() && old(blocksCount) < Capacity(bs, inodeSize)
      ensures Mapped() == old(Mapped()) + [b] && blocksCount == old(blocksCount) + 1
      ensures indirects == old(indirects) && dirtyBlocks == old(dirtyBlocks) + [b]
    {
      DirectSpot(bs, inodeSize, directs, indirects, blocksCount);
      PushDirect(bs, inodeSize, directs, blocksCount, b);
      directs, dirtyBlocks, blocksCount := directs + [b], dirtyBlocks + [b], blocksCount + 1;
      assert indirects == [];
    }

    /** `add` once the direct slots are used: the block goes into the first level with room, a new level, or
        nowhere when every level is full. */
    method AddIndirect(b: Id, free: seq<Id>) returns (r: Result<()>, rest: seq<Id>)
      requires Valid() && blocksCount >= NumberOfDirectBlocks(inodeSize)
      modifies this
      ensures Valid() && directs == old(directs)
      ensures r.Ok? ==>
        && Mapped() == old(Mapped()) + [b] && blocksCount == old(blocksCount) + 1
        && |indirects| > 0 && dirtyBlocks == old(dirtyBlocks) + [indirects[|indirects| - 1].id]
      ensures r.Err? ==>
        && indirects == old(indirects) && blocksCount == old(blocksCount)
        && dirtyBlocks == old(dirtyBlocks) && rest == free
      ensures r == Err(IndexOutOfBounds) <==> old(blocksCount) == Capacity(bs, inodeSize)
      ensures r.Err? && r.error != IndexOutOfBounds ==> r.error == BitmapRegionOutOfMemory
    {
      var i, index := FindLevel();
      if i == INDIRECT_LEVELS {
        AddFull(bs, inodeSize, directs, indirects, blocksCount, index);
        return Err(IndexOutOfBounds), free;
      } else if |indirects| <= i {
        r, rest := AddLevel(b, free, index);
      } else {
        r, rest := AddToLevel(b, free, i, index);
      }
    }

    /** The search of `add` through the levels: the first level that does not exist yet or whose capacity covers
        the position of the next block, with what is left of the position there. */
    method FindLevel() returns (i: nat, index: int)
      requires Valid() && blocksCount >= NumberOfDirectBlocks(inodeSize)
      ensures Spot(i, index) == Seek(bs, indirects, 0, blocksCount - |directs|)
      ensures i <= |indirects| && i <= INDIRECT_LEVELS && |directs| == Slots(inodeSize)
      ensures index == blocksCount - |directs| - SumMax(bs, i) && index >= 0
      ensures i < |indirects| ==> index < MaxSize(bs, i)
    {
      IndirectStart(bs, inodeSize, directs, indirects, blocksCount);
      index := blocksCount - |directs|;
      SeekSpot(bs, indirects, blocksCount - |directs|, 0, index);
      i := 0;
      while i < INDIRECT_LEVELS && i < |indirects| && MaxSize(bs, indirects[i].Depth()) <= index
        invariant i <= INDIRECT_LEVELS && Seek(bs, indirects, i, index) == Seek(bs, indirects, 0, blocksCount - |directs|)
      {
        index := index - MaxSize(bs, indirects[i].Depth());
        i := i + 1;
      }
    }

    /** The branch of `add` that starts a new level holding the block; the source asserts the position fits it. */
    method AddLevel(b: Id, free: seq<Id>, index: int) returns (r: Result<()>, rest: seq<Id>)
      requires Valid() && |directs| == Slots(inodeSize) && |indirects| < INDIRECT_LEVELS
      requires index == blocksCount - |directs| - SumMax(bs, |indirects|) && index >= 0
      modifies this
      ensures Valid() && old(blocksCount) < Capacity(bs, inodeSize) && directs == old(directs)
      ensures r.Ok? ==>
        && Mapped() == old(Mapped()) + [b] && blocksCount == old(blocksCount) + 1
        && |indirects| > 0 && dirtyBlocks == old(dirtyBlocks) + [indirects[|indirects| - 1].id]
      ensures r.Err? ==>
        && r.error == BitmapRegionOutOfMemory && indirects == old(indirects) && blocksCount == old(blocksCount)
        && dirtyBlocks == old(dirtyBlocks) && rest == free
    {
      var built := Init(|indirects|, b, free);
      if built.Err? {
        assert blocksCount < Capacity(bs, inodeSize) && built.error == BitmapRegionOutOfMemory by {
          AddNewLevel(bs, inodeSize, directs, indirects, blocksCount, b, free, index);
        }
        return Err(built.error), free;
      }
      var t := built.value.node;
      var grown := indirects + [t];
      assert && blocksCount < Capacity(bs, inodeSize)
             && Shaped(bs, inodeSize, directs, grown, blocksCount + 1)
             && directs + LeavesOf(grown) == Mapped() + [b] by {
        AddNewLevel(bs, inodeSize, directs, indirects, blocksCount, b, free, index);
        AppendAfter(directs, LeavesOf(indirects), LeavesOf(grown), b);
      }
      indirects, dirtyBlocks, blocksCount := grown, dirtyBlocks + [t.id], blocksCount + 1;
      return Ok(()), built.value.free;
    }

    /** The branch of `add` that appends the block to level `i`, whose capacity covers the position. */
    method AddToLevel(b: Id, free: seq<Id>, i: nat, index: int) returns (r: Result<()>, rest: seq<Id>)
      requires Valid() && i < |indirects| && 0 <= index < MaxSize(bs, i)
      requires index == blocksCount - |directs| - SumMax(bs, i)
      modifies this
      ensures Valid() && old(blocksCount) < Capacity(bs, inodeSize) && directs == old(directs)
      ensures r.Ok? ==>
        && Mapped() == old(Mapped()) + [b] && blocksCount == old(blocksCount) + 1
        && |indirects| > 0 && dirtyBlocks == old(dirtyBlocks) + [indirects[|indirects| - 1].id]
      ensures r.Err? ==>
        && r.error == BitmapRegionOutOfMemory && indirects == old(indirects) && blocksCount == old(blocksCount)
        && dirtyBlocks == old(dirtyBlocks) && rest == free
    {
      assert indirects[i].Depth() == i;
      var added := IndirectBlock.Add(bs, indirects[i], b, free);
      if added.Err? {
        assert blocksCount < Capacity(bs, inodeSize) && added.error == BitmapRegionOutOfMemory by {
          AddLastLevel(bs, inodeSize, directs, indirects, blocksCount, b, free, i, index);
        }
        return Err(added.error), free;
      }
      var t := added.value.node;
      var grown := indirects[i := t];
      assert && blocksCount < Capacity(bs, inodeSize) && i == |indirects| - 1
             && Shaped(bs, inodeSize, directs, grown, blocksCount + 1)
             && directs + LeavesOf(grown) == Mapped() + [b] by {
        AddLastLevel(bs, inodeSize, directs, indirects, blocksCount, b, free, i, index);
        AppendAfter(directs, LeavesOf(indirects), LeavesOf(grown), b);
      }
      indirects, dirtyBlocks, blocksCount := grown, dirtyBlocks + [t.id], blocksCount + 1;
      return Ok(()), added.value.free;
    }
  }
}
