/** How an indirect block is kept on disk: `read`, `readSize` and `flush`. A pointer block holds its ids as
    4-byte ints, followed by an id 0 when room remains; reading stops at the first 0. */
module IndirectBlockStore {
  import opened Wrappers
  import opened JavaInt
  import opened Bytes
  import opened Fields
  import Block
  import opened IndirectBlock

  // ---------------------------------------------------------------------------------------------------------
  // One pointer block

  /** The pointers `read` collects from a block: ids up to the first id 0 or the end of the buffer. */
  function IdsFrom(buf: seq<byte>): seq<Id>
    decreases |buf|
  {
    if |buf| < ID_LENGTH then []
    else if GetInt(buf, 0) == 0 then []
    else [Block.Id(GetInt(buf, 0))] + IdsFrom(buf[ID_LENGTH..])
  }

  /** `read`'s parse of a block: the buffer must hold a whole number of ids (a Java `assert`). */
  function ReadIds(buf: seq<byte>): Result<seq<Id>>
  {
    if |buf| % ID_LENGTH != 0 then Err(AssertionFailure) else Ok(IdsFrom(buf))
  }

  /** The loop of `read`: `Id.read` while the buffer has bytes left, until an id 0. */
  method ReadPointers(buf: seq<byte>) returns (r: Result<seq<Id>>)
    ensures r == ReadIds(buf)
  {
    if |buf| % ID_LENGTH != 0 {
      return Err(AssertionFailure);
    }
    var ids: seq<Id> := [];
    var pos := 0;
    while pos < |buf|
      invariant 0 <= pos <= |buf| && pos % ID_LENGTH == 0
      invariant ids + IdsFrom(buf[pos..]) == IdsFrom(buf)
      decreases |buf| - pos
    {
      assert pos + ID_LENGTH <= |buf|;
      GetIntAt(buf, pos);
      var value := GetInt(buf, pos);
      if value == 0 {
        assert IdsFrom(buf[pos..]) == [];
        assert ids == IdsFrom(buf);
        return Ok(ids);
      }
      ids := ids + [Block.Id(value)];
      pos := pos + ID_LENGTH;
    }
    assert buf[pos..] == [];
    assert ids == IdsFrom(buf);
    return Ok(ids);
  }

  /** The ids as `Pointer.flush` writes them, one 4-byte int each. */
  function EncodeIds(ids: seq<Id>): (r: seq<byte>)
    ensures |r| == ID_LENGTH * |ids|
  {
    if ids == [] then [] else PutInt(ids[0].value) + EncodeIds(ids[1..])
  }

  /** The block `flush` writes: the ids, then an id 0 if room remains. Bytes after the terminator are zero.
      More ids than the block holds overflow its buffer. */
  function WritePointers(bs: BlockSize, ids: seq<Id>): Result<seq<byte>>
  {
    var body := EncodeIds(ids);
    if |body| > bs then Err(BufferOverflow)
    else if |body| == bs then Ok(body)
    else Ok(body + PutInt(0) + Zeros(bs - |body| - ID_LENGTH))
  }

  /** Every id is a real block: id 0 is the terminator and cannot be stored. */
  predicate NonZero(ids: seq<Id>)
  {
    forall i :: 0 <= i < |ids| ==> ids[i].value != 0
  }

  /** The ids read back from what was written, whatever follows them, provided it is the end of the buffer or
      an id 0. */
  lemma {:induction false} IdsFromEncode(ids: seq<Id>, tail: seq<byte>)
    requires NonZero(ids)
    requires IdsFrom(tail) == []
    ensures IdsFrom(EncodeIds(ids) + tail) == ids
    decreases ids
  {
    if ids == [] {
      assert EncodeIds(ids) + tail == tail;
    } else {
      assert EncodeIds(ids) + tail == PutInt(ids[0].value) + (EncodeIds(ids[1..]) + tail);
      IdsFromCons(ids[0].value, EncodeIds(ids[1..]) + tail);
      IdsFromEncode(ids[1..], tail);
    }
  }

  lemma {:induction false} IdsFromCons(x: int32, rest: seq<byte>)
    ensures IdsFrom(PutInt(x) + rest) == if x == 0 then [] else [Block.Id(x)] + IdsFrom(rest)
  {
    assert [] + PutInt(x) + rest == PutInt(x) + rest;
    GetPutInt(x, [], rest);
    assert (PutInt(x) + rest)[ID_LENGTH..] == rest;
  }

  /** The id `read` takes at a position of the buffer. */
  lemma {:induction false} GetIntAt(buf: seq<byte>, pos: nat)
    requires pos + ID_LENGTH <= |buf|
    ensures GetInt(buf[pos..], 0) == GetInt(buf, pos)
    ensures buf[pos..][ID_LENGTH..] == buf[pos + ID_LENGTH..]
  {
    assert buf[pos..][0..ID_LENGTH] == buf[pos..pos + ID_LENGTH];
  }

  /** Conversely, a buffer starts with the encoding of the ids read from it; what follows is the end of the
      buffer or an id 0, and no id read is 0. */
  lemma {:induction false} EncodeIdsFrom(buf: seq<byte>)
    requires |buf| % ID_LENGTH == 0
    ensures var ids := IdsFrom(buf);
      var n := ID_LENGTH * |ids|;
      && NonZero(ids) && n <= |buf| && buf[..n] == EncodeIds(ids)
      && (n == |buf| || GetInt(buf[n..], 0) == 0)
    decreases |buf|
  {
    if |buf| >= ID_LENGTH && GetInt(buf, 0) != 0 {
      var rest := buf[ID_LENGTH..];
      EncodeIdsFrom(rest);
      PutGetInt(buf, 0);
      var k := ID_LENGTH * |IdsFrom(rest)|;
      assert buf[..ID_LENGTH + k] == buf[..ID_LENGTH] + rest[..k];
      assert buf[ID_LENGTH + k..] == rest[k..];
    }
  }

  /** `flush` then `read` of one block: up to `idsPerBlock` non-zero ids fill exactly one block and read back;
      more overflow the buffer. */
  lemma {:induction false} WriteThenRead(bs: BlockSize, ids: seq<Id>)
    requires NonZero(ids)
    ensures WritePointers(bs, ids).Err? <==> |ids| > IdsPerBlock(bs)
    ensures WritePointers(bs, ids).Err? ==> WritePointers(bs, ids).error == BufferOverflow
    ensures WritePointers(bs, ids).Ok? ==>
      |WritePointers(bs, ids).value| == bs && ReadIds(WritePointers(bs, ids).value) == Ok(ids)
  {
    var body := EncodeIds(ids);
    if |body| == bs {
      IdsFromEncode(ids, []);
      assert body + [] == body;
    } else if |body| < bs {
      var tail := PutInt(0) + Zeros(bs - |body| - ID_LENGTH);
      IdsFromCons(0, Zeros(bs - |body| - ID_LENGTH));
      IdsFromEncode(ids, tail);
      assert body + PutInt(0) + Zeros(bs - |body| - ID_LENGTH) == body + tail;
    }
  }

  // ---------------------------------------------------------------------------------------------------------
  // A whole tree

  /** The blocks of the backing file as `readBlock` returns them; a block never written reads as zeros. */
  type Image = map<Id, seq<byte>>

  function BlockAt(bs: BlockSize, img: Image, id: Id): seq<byte>
  {
    if id in img then img[id] else Zeros(bs)
  }

  /** What `read` parses from each block. The tree-level read below is stated for any such view of the disk;
      `Parse` gives the one of an image of bytes. */
  type Parsed = Id -> Result<seq<Id>>

  function Parse(bs: BlockSize, img: Image): Parsed
  {
    id => ReadIds(BlockAt(bs, img, id))
  }

  /** A tree as it is after being read: no block dirty. */
  function Clean(n: Node): Node
  {
    match n
    case Bottom(_, _, _, _, _) => n.(dirty := false, dirtyBlocks := [])
    case Inner(_, _, cs, _, _, _) => n.(children := CleanOf(cs), dirty := false, dirtyBlocks := [])
  }

  function CleanOf(cs: seq<Node>): seq<Node>
  {
    if cs == [] then [] else [Clean(cs[0])] + CleanOf(cs[1..])
  }

  /** `read(blockId, depth)` with `readSize`: the block's ids become its pointers; a block of depth 0 counts
      them, a deeper one reads its children and counts `(pointers - 1) * maxSize(depth - 1)` plus the size of
      its last child, in `int` arithmetic. A deeper block without pointers fails `readSize`'s `assert`. */
  function ReadNode(bs: BlockSize, disk: Parsed, id: Id, depth: nat): Result<Node>
    decreases depth, 0
  {
    match disk(id)
    case Err(e) => Err(e)
    case Ok(ids) =>
      if depth == 0 then Ok(Bottom(id, ids, |ids|, false, []))
      else
        match ReadChildren(bs, disk, ids, depth - 1)
        case Err(e) => Err(e)
        case Ok(cs) =>
          if cs == [] then Err(AssertionFailure)
          else
            var full := Wrap32(Times(|cs| - 1, MaxSize(bs, depth - 1)));
            Ok(Inner(id, depth, cs, Wrap32(full + cs[|cs| - 1].size), false, []))
  }

  /** The children of a block, each read at the depth below. */
  function ReadChildren(bs: BlockSize, disk: Parsed, ids: seq<Id>, depth: nat): Result<seq<Node>>
    decreases depth, 1, |ids|
  {
    if ids == [] then Ok([])
    else
      match ReadNode(bs, disk, ids[0], depth)
      case Err(e) => Err(e)
      case Ok(c) =>
        match ReadChildren(bs, disk, ids[1..], depth)
        case Err(e) => Err(e)
        case Ok(cs) => Ok([c] + cs)
  }

  /** Every block of the tree is on disk with exactly its pointers. */
  ghost predicate Stored(disk: Parsed, n: Node)
  {
    && disk(n.id) == Ok(n.Pointers())
    && (n.Inner? ==> forall i :: 0 <= i < |n.children| ==> Stored(disk, n.children[i]))
  }

  /** Reading a stored well-formed tree gives the tree back, clean, with its size recomputed by `readSize`. */
  lemma {:induction false} ReadStored(bs: BlockSize, disk: Parsed, n: Node)
    requires WF(bs, n) && Stored(disk, n)
    ensures ReadNode(bs, disk, n.id, n.Depth()) == Ok(Clean(n))
    decreases n, 0
  {
    if n.Inner? {
      var cs := n.children;
      assert ReadChildren(bs, disk, n.Pointers(), n.depth - 1) == Ok(CleanOf(cs)) by {
        assert forall i :: 0 <= i < |cs| ==> WF(bs, cs[i]) && cs[i].Depth() == n.depth - 1 && Stored(disk, cs[i]);
        ReadChildrenStored(bs, disk, cs, n.depth - 1);
        assert n.Pointers() == IdsOf(cs);
      }
      CleanInner(bs, n);
      ReadInner(bs, disk, n);
    }
  }

  /** The step of `read` for a deeper block whose children read back. */
  lemma {:induction false} ReadInner(bs: BlockSize, disk: Parsed, n: Node)
    requires n.Inner? && n.depth > 0
    requires var ccs := CleanOf(n.children);
      && ccs != []
      && Wrap32(Wrap32(Times(|ccs| - 1, MaxSize(bs, n.depth - 1))) + ccs[|ccs| - 1].size) == n.size
      && Clean(n) == Inner(n.id, n.depth, ccs, n.size, false, [])
    requires disk(n.id) == Ok(n.Pointers())
    requires ReadChildren(bs, disk, n.Pointers(), n.depth - 1) == Ok(CleanOf(n.children))
    ensures ReadNode(bs, disk, n.id, n.depth) == Ok(Clean(n))
  {
    ReadInnerStep(bs, disk, n.id, n.depth, n.Pointers(), CleanOf(n.children), n.size);
  }

  /** The clean copy of a well-formed block has the size `readSize` computes. */
  lemma {:induction false} CleanInner(bs: BlockSize, n: Node)
    requires WF(bs, n) && n.Inner?
    ensures var ccs := CleanOf(n.children);
      && ccs != []
      && Wrap32(Wrap32(Times(|ccs| - 1, MaxSize(bs, n.depth - 1))) + ccs[|ccs| - 1].size) == n.size
      && Clean(n) == Inner(n.id, n.depth, ccs, n.size, false, [])
  {
    var cs := n.children;
    var m := MaxSize(bs, n.depth - 1);
    var last := cs[|cs| - 1];
    CleanOfLast(cs);
    assert 0 <= Times(|cs| - 1, m) <= n.size <= INT_MAX && CleanOf(cs)[|cs| - 1].size == n.size - Times(|cs| - 1, m)
    by {
      assert WF(bs, last) && last.Depth() == n.depth - 1;
      ChildBound(bs, last, n.depth - 1);
      ChildBound(bs, n, n.depth);
    }
  }

  lemma {:induction false} ReadInnerStep(bs: BlockSize, disk: Parsed, id: Id, depth: nat, ids: seq<Id>, cs: seq<Node>,
                                         size: int)
    requires depth > 0 && disk(id) == Ok(ids)
    requires ReadChildren(bs, disk, ids, depth - 1) == Ok(cs) && cs != []
    requires size == Wrap32(Wrap32(Times(|cs| - 1, MaxSize(bs, depth - 1))) + cs[|cs| - 1].size)
    ensures ReadNode(bs, disk, id, depth) == Ok(Inner(id, depth, cs, size, false, []))
  {
  }

  lemma {:induction false} ReadChildrenStored(bs: BlockSize, disk: Parsed, cs: seq<Node>, depth: nat)
    requires forall i :: 0 <= i < |cs| ==> WF(bs, cs[i]) && cs[i].Depth() == depth && Stored(disk, cs[i])
    ensures ReadChildren(bs, disk, IdsOf(cs), depth) == Ok(CleanOf(cs))
    decreases cs
  {
    if cs != [] {
      assert IdsOf(cs)[1..] == IdsOf(cs[1..]);
      ReadStored(bs, disk, cs[0]);
      ReadChildrenStored(bs, disk, cs[1..], depth);
    }
  }

  lemma {:induction false} CleanOfLast(cs: seq<Node>)
    ensures |CleanOf(cs)| == |cs|
    ensures cs != [] ==> CleanOf(cs)[|cs| - 1].size == cs[|cs| - 1].size
    decreases cs
  {
    if cs != [] {
      CleanOfLast(cs[1..]);
    }
  }

  /** What `flush` did: the bytes written to the block, if any, and the block afterwards. */
  datatype Flushed = Flushed(written: Option<seq<byte>>, node: Node)

  /** `flush`: a block that is not dirty writes nothing; otherwise its pointers are written and `dirtyBlocks`
      is cleared. The `dirty` flag is never reset. */
  function Flush(bs: BlockSize, n: Node): Result<Flushed>
  {
    if !n.IsDirty() then Ok(Flushed(None, n))
    else
      match WritePointers(bs, n.Pointers())
      case Err(e) => Err(e)
      case Ok(b) => Ok(Flushed(Some(b), n.(dirtyBlocks := [])))
  }

  /** `flush` of a well-formed dirty block writes one block from which `read` gets its pointers back; the
      block then has no dirty blocks below it, but stays dirty if it was created or changed itself. */
  lemma {:induction false} FlushThenRead(bs: BlockSize, n: Node, img: Image)
    requires WF(bs, n) && NonZero(n.Pointers())
    ensures Flush(bs, n).Ok?
    ensures var f := Flush(bs, n).value;
      && (f.written.Some? <==> n.IsDirty())
      && (f.written.Some? ==> |f.written.value| == bs && Parse(bs, img[n.id := f.written.value])(n.id) == Ok(n.Pointers()))
      && f.node.dirtyBlocks == (if n.IsDirty() then [] else n.dirtyBlocks)
      && f.node.IsDirty() == n.dirty
      && Leaves(f.node) == Leaves(n) && f.node.Pointers() == n.Pointers()
  {
    assert |n.Pointers()| <= IdsPerBlock(bs);
    WriteThenRead(bs, n.Pointers());
  }
}
