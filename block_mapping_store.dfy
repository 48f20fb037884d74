/** How a block mapping is kept in its inode's i-block. `flush` writes the ids of the directs, then the ids of
    the indirect roots, then an id 0 when bytes remain; `read` takes ids up to the first 0, the first
    `numberOfDirectBlocks` of them as directs and the rest as roots of depths 0, 1, 2, ... */
module BlockMappingStore {
  import opened Wrappers
  import opened JavaInt
  import opened Bytes
  import opened Fields
  import Block
  import opened IndirectBlock
  import opened IndirectBlockStore
  import opened BlockMapping

  /** `iblockSize()`: the bytes of an inode record after its header. */
  function IblockSize(inodeSize: int): int
  {
    inodeSize - INODE_HEADER
  }

  // ---------------------------------------------------------------------------------------------------------
  // flush

  /** `flush` into the bytes from the buffer's position to its limit: the ids, then an id 0 when bytes remain;
      the other bytes are kept. The source asserts the buffer holds a whole i-block; an id that does not fit
      overflows the buffer. The position then moves on by `iblockSize`. */
  function IblockFlush(inodeSize: int, ids: seq<Id>, buf: seq<byte>): Result<seq<byte>>
  {
    var body := EncodeIds(ids);
    if |buf| < IblockSize(inodeSize) then Err(AssertionFailure)
    else if |body| > |buf| then Err(BufferOverflow)
    else if |body| == |buf| then Ok(body)
    else if |buf| - |body| < ID_LENGTH then Err(BufferOverflow)
    else Ok(body + PutInt(0) + buf[|body| + ID_LENGTH..])
  }

  /** The ids of a mapping in the order `flush` writes them. */
  function MappingIds(directs: seq<Id>, indirects: seq<Node>): seq<Id>
  {
    directs + IdsOf(indirects)
  }

  // ---------------------------------------------------------------------------------------------------------
  // read

  /** The ids the loop of `read` takes: 4-byte ids while bytes remain, up to an id 0; a partial id at the end
      underflows the buffer. */
  function IblockIds(buf: seq<byte>): Result<seq<Id>>
    decreases |buf|
  {
    if |buf| == 0 then Ok([])
    else if |buf| < ID_LENGTH then Err(BufferUnderflow)
    else if GetInt(buf, 0) == 0 then Ok([])
    else
      match IblockIds(buf[ID_LENGTH..])
      case Err(e) => Err(e)
      case Ok(ids) => Ok([Block.Id(GetInt(buf, 0))] + ids)
  }

  /** How many of the ids read are directs: as many as there are direct slots. */
  function DirectCount(inodeSize: int, n: nat): nat
  {
    if n < Slots(inodeSize) then n else Slots(inodeSize)
  }

  /** The indirect trees of the roots, root `k` read at depth `depth + k`. */
  function ReadLevels(bs: BlockSize, disk: Parsed, roots: seq<Id>, depth: nat): Result<seq<Node>>
    decreases |roots|
  {
    if roots == [] then Ok([])
    else
      match ReadNode(bs, disk, roots[0], depth)
      case Err(e) => Err(e)
      case Ok(t) =>
        match ReadLevels(bs, disk, roots[1..], depth + 1)
        case Err(e) => Err(e)
        case Ok(ts) => Ok([t] + ts)
  }

  /** A list read so far, followed by the rest of a read. */
  function Prepend<T>(done: seq<T>, rest: Result<seq<T>>): Result<seq<T>>
  {
    match rest
    case Err(e) => Err(e)
    case Ok(xs) => Ok(done + xs)
  }

  lemma {:induction false} PrependNil<T>(rest: Result<seq<T>>)
    ensures Prepend([], rest) == rest
  {
    if rest.Ok? {
      assert [] + rest.value == rest.value;
    }
  }

  lemma {:induction false} PrependPrepend<T>(a: seq<T>, b: seq<T>, rest: Result<seq<T>>)
    ensures Prepend(a, Prepend(b, rest)) == Prepend(a + b, rest)
  {
    if rest.Ok? {
      assert a + (b + rest.value) == a + b + rest.value;
    }
  }

  /** A mapping as `read` builds it. */
  datatype Table = Table(directs: seq<Id>, indirects: seq<Node>, blocksCount: int32)

  /** `read`: the ids of the i-block split into directs and roots, the trees read from the disk, and
      `blocksCount` the number of directs plus the trees' sizes in `int` arithmetic. Moving the position by
      `iblockSize` past the limit fails. */
  function ReadTable(bs: BlockSize, inodeSize: int, disk: Parsed, buf: seq<byte>): Result<Table>
  {
    match IblockIds(buf)
    case Err(e) => Err(e)
    case Ok(ids) =>
      var k := DirectCount(inodeSize, |ids|);
      match ReadLevels(bs, disk, ids[k..], 0)
      case Err(e) => Err(e)
      case Ok(ts) =>
        if |buf| < IblockSize(inodeSize) then Err(IllegalArgument)
        else Ok(Table(ids[..k], ts, Wrap32(k + SumSizes(ts))))
  }

  // ---------------------------------------------------------------------------------------------------------
  // Properties

  /** On a buffer of whole ids, `read` takes the ids a pointer block's `read` would. */
  lemma {:induction false} IblockIdsAligned(buf: seq<byte>)
    requires |buf| % ID_LENGTH == 0
    ensures IblockIds(buf) == Ok(IdsFrom(buf))
    decreases |buf|
  {
    if |buf| >= ID_LENGTH && GetInt(buf, 0) != 0 {
      IblockIdsAligned(buf[ID_LENGTH..]);
    }
  }

  /** `flush` then the loop of `read`: on an i-block of whole ids with room for the ids, `flush` succeeds, keeps
      the length, writes the ids first and keeps the bytes after the terminator, and `read` takes the ids
      back. */
  lemma {:induction false} FlushThenReadIds(inodeSize: int, ids: seq<Id>, buf: seq<byte>)
    requires NonZero(ids) && |buf| == IblockSize(inodeSize) && |buf| % ID_LENGTH == 0
    requires ID_LENGTH * |ids| <= |buf|
    ensures IblockFlush(inodeSize, ids, buf).Ok?
    ensures var out := IblockFlush(inodeSize, ids, buf).value;
      && |out| == |buf| && out[..ID_LENGTH * |ids|] == EncodeIds(ids)
      && out[ID_LENGTH * |ids|..] == (if ID_LENGTH * |ids| == |buf| then []
                                      else PutInt(0) + buf[ID_LENGTH * |ids| + ID_LENGTH..])
      && IblockIds(out) == Ok(ids)
  {
    if ID_LENGTH * |ids| == |buf| {
      FlushFullIds(inodeSize, ids, buf);
    } else {
      FlushTerminatedIds(inodeSize, ids, buf);
    }
  }

  /** `flush` of ids that fill the i-block exactly writes just the ids. */
  lemma FlushFullIds(inodeSize: int, ids: seq<Id>, buf: seq<byte>)
    requires NonZero(ids) && |buf| == IblockSize(inodeSize) && |buf| % ID_LENGTH == 0
    requires ID_LENGTH * |ids| == |buf|
    ensures IblockFlush(inodeSize, ids, buf) == Ok(EncodeIds(ids)) && IblockIds(EncodeIds(ids)) == Ok(ids)
  {
    var body := EncodeIds(ids);
    assert IdsFrom(body) == ids by {
      IdsFromEncode(ids, []);
      assert body + [] == body;
    }
    IblockIdsAligned(body);
  }

  /** `flush` of ids that leave room writes the ids, a zero terminator and the bytes after it. */
  lemma FlushTerminatedIds(inodeSize: int, ids: seq<Id>, buf: seq<byte>)
    requires NonZero(ids) && |buf| == IblockSize(inodeSize) && |buf| % ID_LENGTH == 0
    requires ID_LENGTH * |ids| < |buf|
    ensures var out := EncodeIds(ids) + (PutInt(0) + buf[ID_LENGTH * |ids| + ID_LENGTH..]);
      && IblockFlush(inodeSize, ids, buf) == Ok(out)
      && |out| == |buf| && out[..ID_LENGTH * |ids|] == EncodeIds(ids)
      && out[ID_LENGTH * |ids|..] == PutInt(0) + buf[ID_LENGTH * |ids| + ID_LENGTH..]
      && IblockIds(out) == Ok(ids)
  {
    var body := EncodeIds(ids);
    var rest := buf[|body| + ID_LENGTH..];
    var out := body + (PutInt(0) + rest);
    assert body + PutInt(0) + rest == out;
    assert out[..|body|] == body && out[|body|..] == PutInt(0) + rest;
    IblockIdsAligned(out);
    IdsFromCons(0, rest);
    IdsFromEncode(ids, PutInt(0) + rest);
  }

  lemma {:induction false} CleanOfAt(ts: seq<Node>)
    ensures |CleanOf(ts)| == |ts|
    ensures forall i :: 0 <= i < |ts| ==> CleanOf(ts)[i] == Clean(ts[i])
    decreases ts
  {
    if ts != [] {
      CleanOfAt(ts[1..]);
    }
  }

  /** The count of leaves depends only on the sizes of the trees. */
  lemma {:induction false} SumSizesAgree(a: seq<Node>, b: seq<Node>)
    requires |a| == |b| && forall i :: 0 <= i < |a| ==> a[i].size == b[i].size
    ensures SumSizes(a) == SumSizes(b)
    decreases |a|
  {
    if a != [] {
      SumSizesAgree(a[..|a| - 1], b[..|b| - 1]);
    }
  }

  /** Reading the roots of stored well-formed trees, root `k` at depth `depth + k`, gives the trees back
      clean. */
  lemma {:induction false} ReadLevelsStored(bs: BlockSize, disk: Parsed, ts: seq<Node>, depth: nat)
    requires forall i :: 0 <= i < |ts| ==> WF(bs, ts[i]) && ts[i].Depth() == depth + i && Stored(disk, ts[i])
    ensures ReadLevels(bs, disk, IdsOf(ts), depth) == Ok(CleanOf(ts))
    decreases ts
  {
    if ts != [] {
      var roots := IdsOf(ts);
      assert roots[0] == ts[0].id && roots[1..] == IdsOf(ts[1..]);
      assert ReadLevels(bs, disk, roots[1..], depth + 1) == Ok(CleanOf(ts[1..])) by {
        ReadLevelsStored(bs, disk, ts[1..], depth + 1);
      }
      assert ReadNode(bs, disk, roots[0], depth) == Ok(Clean(ts[0])) by {
        ReadStored(bs, disk, ts[0]);
      }
      ReadLevelsCons(bs, disk, roots, depth, Clean(ts[0]), CleanOf(ts[1..]));
    }
  }

  lemma {:induction false} ReadLevelsCons(bs: BlockSize, disk: Parsed, roots: seq<Id>, depth: nat, t: Node, ts: seq<Node>)
    requires roots != [] && ReadNode(bs, disk, roots[0], depth) == Ok(t)
    requires ReadLevels(bs, disk, roots[1..], depth + 1) == Ok(ts)
    ensures ReadLevels(bs, disk, roots, depth) == Ok([t] + ts)
  {
  }

  /** The trees `read` builds sit at the depths of their levels. */
  lemma {:induction false} ReadLevelsDepths(bs: BlockSize, disk: Parsed, roots: seq<Id>, depth: nat)
    requires ReadLevels(bs, disk, roots, depth).Ok?
    ensures var ts := ReadLevels(bs, disk, roots, depth).value;
      |ts| == |roots| && forall i :: 0 <= i < |ts| ==> ts[i].Depth() == depth + i && ts[i].id == roots[i]
    decreases |roots|
  {
    if roots != [] {
      ReadLevelsDepths(bs, disk, roots[1..], depth + 1);
    }
  }

  /** On an i-block of an inode with direct slots, what `read` builds has the shape `add` keeps, except that
      the sizes of the trees are whatever the disk says: directs fill up before the first level, at most three
      levels, level `k` at depth `k`. */
  lemma {:induction false} ReadTableShape(bs: BlockSize, inodeSize: int, disk: Parsed, buf: seq<byte>)
    requires NumberOfDirectBlocks(inodeSize) >= 0 && |buf| == IblockSize(inodeSize)
    requires ReadTable(bs, inodeSize, disk, buf).Ok?
    ensures var t := ReadTable(bs, inodeSize, disk, buf).value;
      && |t.directs| <= Slots(inodeSize) && (t.indirects != [] ==> |t.directs| == Slots(inodeSize))
      && |t.indirects| <= INDIRECT_LEVELS
      && forall i :: 0 <= i < |t.indirects| ==> t.indirects[i].Depth() == i
  {
    var ids := IblockIds(buf).value;
    var k := DirectCount(inodeSize, |ids|);
    ReadLevelsDepths(bs, disk, ids[k..], 0);
    IblockIdsLength(buf);
  }

  /** The loop of `read` takes at most one id per four bytes. */
  lemma {:induction false} IblockIdsLength(buf: seq<byte>)
    requires IblockIds(buf).Ok?
    ensures ID_LENGTH * |IblockIds(buf).value| <= |buf|
    decreases |buf|
  {
    if |buf| >= ID_LENGTH && GetInt(buf, 0) != 0 {
      IblockIdsLength(buf[ID_LENGTH..]);
    }
  }

  /** `flush` then `read` of a mapping: on an inode with direct slots and a size that is a whole number of
      ids, a well-shaped mapping whose trees are on disk and whose count fits an `int` is read back as it was,
      with its trees clean. */
  lemma {:induction false} FlushThenReadMapping(bs: BlockSize, inodeSize: int, directs: seq<Id>, indirects: seq<Node>,
                             blocksCount: int, disk: Parsed, buf: seq<byte>)
    requires Shaped(bs, inodeSize, directs, indirects, blocksCount) && 0 <= blocksCount <= INT_MAX
    requires NonZero(MappingIds(directs, indirects))
    requires forall i :: 0 <= i < |indirects| ==> Stored(disk, indirects[i])
    requires NumberOfDirectBlocks(inodeSize) >= 0 && inodeSize % ID_LENGTH == 0
    requires |buf| == IblockSize(inodeSize)
    ensures IblockFlush(inodeSize, MappingIds(directs, indirects), buf).Ok?
    ensures ReadTable(bs, inodeSize, disk, IblockFlush(inodeSize, MappingIds(directs, indirects), buf).value)
         == Ok(Table(directs, CleanOf(indirects), blocksCount))
  {
    var ids := MappingIds(directs, indirects);
    IdsFit(inodeSize, |directs|, |indirects|);
    FlushThenReadIds(inodeSize, ids, buf);
    var out := IblockFlush(inodeSize, ids, buf).value;
    var ts := CleanOf(indirects);
    assert ReadLevels(bs, disk, IdsOf(indirects), 0) == Ok(ts) by {
      ReadLevelsStored(bs, disk, indirects, 0);
    }
    assert |directs| + SumSizes(ts) == blocksCount by {
      CleanOfAt(indirects);
      SumSizesAgree(ts, indirects);
    }
    ReadBack(bs, inodeSize, disk, out, directs, IdsOf(indirects), ts, blocksCount);
  }

  /** `read` of an i-block whose ids are the directs then the roots. */
  lemma {:induction false} ReadBack(bs: BlockSize, inodeSize: int, disk: Parsed, buf: seq<byte>, directs: seq<Id>, roots: seq<Id>,
                 ts: seq<Node>, count: int32)
    requires IblockIds(buf) == Ok(directs + roots) && |buf| >= IblockSize(inodeSize)
    requires |directs| <= Slots(inodeSize) && (roots != [] ==> |directs| == Slots(inodeSize))
    requires ReadLevels(bs, disk, roots, 0) == Ok(ts) && |directs| + SumSizes(ts) == count
    ensures ReadTable(bs, inodeSize, disk, buf) == Ok(Table(directs, ts, count))
  {
    var ids := directs + roots;
    assert DirectCount(inodeSize, |ids|) == |directs|;
    assert ids[..|directs|] == directs && ids[|directs|..] == roots;
  }

  /** The ids of a mapping fit the i-block of an inode with direct slots, which holds whole ids. */
  lemma {:induction false} IdsFit(inodeSize: int, directs: nat, levels: nat)
    requires NumberOfDirectBlocks(inodeSize) >= 0 && inodeSize % ID_LENGTH == 0
    requires directs <= Slots(inodeSize) && levels <= INDIRECT_LEVELS
    ensures ID_LENGTH * (directs + levels) <= IblockSize(inodeSize) && IblockSize(inodeSize) % ID_LENGTH == 0
  {
    JDivRem(inodeSize - INODE_HEADER, ID_LENGTH);
  }

  /** The ids `flush` writes for a longer list start with those of a shorter one. */
  lemma {:induction false} EncodeIdsAppend(a: seq<Id>, b: seq<Id>)
    ensures EncodeIds(a + b) == EncodeIds(a) + EncodeIds(b)
    decreases a
  {
    if a == [] {
      assert a + b == b;
    } else {
      assert (a + b)[1..] == a[1..] + b;
      EncodeIdsAppend(a[1..], b);
    }
  }

  /** One step of the loop of `read` at a position of the buffer. */
  lemma {:induction false} IblockIdsAt(buf: seq<byte>, pos: nat)
    requires pos <= |buf|
    ensures pos == |buf| ==> IblockIds(buf[pos..]) == Ok([])
    ensures 0 < |buf| - pos < ID_LENGTH ==> IblockIds(buf[pos..]) == Err(BufferUnderflow)
    ensures pos + ID_LENGTH <= |buf| ==>
      IblockIds(buf[pos..]) == if GetInt(buf, pos) == 0 then Ok([])
                               else Prepend([Block.Id(GetInt(buf, pos))], IblockIds(buf[pos + ID_LENGTH..]))
  {
    if pos + ID_LENGTH <= |buf| {
      GetIntAt(buf, pos);
    }
  }

  /** One step of reading the trees: root `j` at depth `j`, then the rest. */
  lemma {:induction false} ReadLevelsAt(bs: BlockSize, disk: Parsed, roots: seq<Id>, j: nat)
    requires j < |roots|
    ensures ReadLevels(bs, disk, roots[j..], j)
         == match ReadNode(bs, disk, roots[j], j)
            case Err(e) => Err(e)
            case Ok(t) => Prepend([t], ReadLevels(bs, disk, roots[j + 1..], j + 1))
  {
    assert roots[j..][1..] == roots[j + 1..];
  }

  /** One more level read: the levels read so far, extended by the one at `j`, still prefix what `read` builds;
      a level that cannot be read makes `read` fail with its error. */
  lemma {:induction false} ReadLevelsStep(bs: BlockSize, disk: Parsed, roots: seq<Id>, j: nat, ts: seq<Node>)
    requires j < |roots|
    requires ReadLevels(bs, disk, roots, 0) == Prepend(ts, ReadLevels(bs, disk, roots[j..], j))
    ensures ReadNode(bs, disk, roots[j], j).Err? ==>
      ReadLevels(bs, disk, roots, 0) == Err(ReadNode(bs, disk, roots[j], j).error)
    ensures ReadNode(bs, disk, roots[j], j).Ok? ==>
      ReadLevels(bs, disk, roots, 0)
        == Prepend(ts + [ReadNode(bs, disk, roots[j], j).value], ReadLevels(bs, disk, roots[j + 1..], j + 1))
  {
    ReadLevelsAt(bs, disk, roots, j);
    var t := ReadNode(bs, disk, roots[j], j);
    if t.Ok? {
      PrependPrepend(ts, [t.value], ReadLevels(bs, disk, roots[j + 1..], j + 1));
    }
  }
}
