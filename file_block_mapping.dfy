/** `FileBlockMapping`: the bytes of a regular file laid over its data blocks. A write first zero-fills the
    stretch between the old end of the file and the write position, appending blocks as needed, then copies
    the buffer block by block; a read copies block by block until the buffer is full or the position reaches
    the file size. The data blocks are held in logical order as values; `add` is the block mapping's append,
    which fails once the mapping is full. */
module FileBlockMapping {
  import opened Wrappers
  import opened Bytes
  import IndirectBlock

  /** The block size of the file system: a positive multiple of four. */
  type BlockSize = IndirectBlock.BlockSize

  function Min(a: int, b: int): int { if a <= b then a else b }
  function Max(a: int, b: int): int { if a <= b then b else a }

  // ---------------------------------------------------------------------------------------------------------
  // Data blocks

  /** A data block (`DataBlock` over `Data`): its `bs` bytes, and how many of them from the start have been
      written (`Data.size`). */
  datatype Data = Data(bytes: seq<byte>, size: nat)

  /** `DataBlock.init(fileSystem)`: a block of zeros with nothing written. */
  function Fresh(bs: BlockSize): Data
  {
    Data(Zeros(bs), 0)
  }

  /** `hasData()`. */
  predicate HasData(d: Data)
  {
    d.size > 0
  }

  /** `f` with `src` written over it at `at`. */
  function Splice(f: seq<byte>, at: nat, src: seq<byte>): (r: seq<byte>)
    requires at + |src| <= |f|
    ensures |r| == |f| && r[at..at + |src|] == src
    ensures forall i :: 0 <= i < |f| && !(at <= i < at + |src|) ==> r[i] == f[i]
  {
    f[..at] + src + f[at + |src|..]
  }

  /** `Data.write(offset, buffer)` of bytes that fit before the end of the block: they are written at
      `offset`, and the written part now reaches at least their end. */
  function Put(d: Data, offset: nat, src: seq<byte>): Data
    requires offset + |src| <= |d.bytes|
  {
    Data(Splice(d.bytes, offset, src), Max(d.size, offset + |src|))
  }

  /** Every block holds `bs` bytes. */
  ghost predicate Shaped(bs: BlockSize, blocks: seq<Data>)
  {
    forall k :: 0 <= k < |blocks| ==> |blocks[k].bytes| == bs && blocks[k].size <= bs
  }

  /** The bytes of the blocks one after the other. */
  function Flat(blocks: seq<Data>): seq<byte>
  {
    if blocks == [] then [] else Flat(blocks[..|blocks| - 1]) + blocks[|blocks| - 1].bytes
  }

  // ---------------------------------------------------------------------------------------------------------
  // Specification of write and read

  /** The image after writing `src` at `off` over `img`, grown with zeros to `len` bytes. */
  function Written(img: seq<byte>, off: nat, src: seq<byte>, len: nat): (r: seq<byte>)
    requires |img| <= len && off + |src| <= len
  {
    seq(len, i => if off <= i < off + |src| then src[i - off] else if 0 <= i < |img| then img[i] else 0)
  }

  /** The offset of block `k`: `k * bs`, counted block by block. */
  function Times(k: nat, bs: BlockSize): nat
  {
    if k == 0 then 0 else Times(k - 1, bs) + bs
  }

  /** The end of the block that holds byte `x`: `x - x % bs + bs`, counted block by block. */
  function BlockEnd(bs: BlockSize, x: nat): (r: nat)
    ensures x < r <= x + bs
    decreases x
  {
    if x < bs then bs else BlockEnd(bs, x - bs) + bs
  }

  /** The length of the image after a write of `count` bytes at `off` over an image of `len` bytes: the
      zero-fill reaches the end of the block of `off`, and the copy the end of the block of its last byte. */
  function NewLength(bs: BlockSize, len: nat, off: nat, count: nat): nat
  {
    var filled := Max(len, BlockEnd(bs, off));
    if count == 0 then filled else Max(filled, BlockEnd(bs, off + count - 1))
  }

  /** How many bytes `read` copies from `off`: block by block, each block to its end, to the end of the
      file or until the buffer is full, while the position is below the file size. */
  function ReadCount(bs: BlockSize, size: int, off: nat, remaining: nat): nat
    decreases remaining
  {
    if remaining == 0 || off >= size then 0
    else
      var n := Min(remaining, Min(BlockEnd(bs, off), size) - off);
      n + ReadCount(bs, size, off + n, remaining - n)
  }

  /** How many bytes `read` copies from `off`, as a closed form: none at or past the size, else up to the
      end of the file, bounded by the room in the buffer. */
  function ReadLength(bs: BlockSize, size: int, off: nat, remaining: nat): nat
  {
    if remaining == 0 || off >= size then 0 else Min(remaining, size - off)
  }

  /** No byte from `size` on is set. */
  ghost predicate TailZero(img: seq<byte>, size: int)
  {
    forall i :: 0 <= i < |img| && size <= i ==> img[i] == 0
  }

  // ---------------------------------------------------------------------------------------------------------
  // The zero-fill of the last block when the write starts in it (lines 43-57)

  /** The fill of the last block as written: the zeros start at the offset of the last byte of the file. */
  function FillLastAsWritten(bs: BlockSize, last: Data, size: int, off: nat): Data
    requires |last.bytes| == bs && size > 0
  {
    var required := off % bs;
    var offset := (size - 1) % bs;
    var length := required - offset;
    if length > 0 then Put(last, offset, Zeros(length)) else last
  }

  /** The fill of the last block as intended: the zeros start just after the last byte of the file. */
  function FillLast(bs: BlockSize, last: Data, size: int, off: nat): Data
    requires |last.bytes| == bs && size > 0
  {
    var required := off % bs;
    var offset := (size - 1) % bs + 1;
    var length := required - offset;
    if length > 0 then Put(last, offset, Zeros(length)) else last
  }

  /** Appending one byte to a file of two bytes, all in one block: the fill as written zeroes the second byte
      of the file. */
  lemma {:induction false} AppendZeroesLastByte()
    ensures var bs: BlockSize := 8;
            var last := Data([65, 66] + Zeros(6), 2);
            FillLastAsWritten(bs, last, 2, 2).bytes[1] == 0 && last.bytes[1] == 66
  {
    var last := Data([65, 66] + Zeros(6), 2);
    assert (2 - 1) % 8 == 1 && 2 % 8 == 2;
    var r := FillLastAsWritten(8, last, 2, 2);
    assert r == Put(last, 1, Zeros(1));
    assert r.bytes[1] == Zeros(1)[0];
  }

  /** The intended fill of the last block, which starts at image offset `base`, only zeroes bytes between
      the end of the file and the write position. */
  lemma {:induction false} FillLastKeepsFile(bs: BlockSize, base: nat, q: nat, last: Data, size: int, off: nat)
    requires |last.bytes| == bs && base == Times(q, bs) && base <= size <= base + bs && size > 0
    requires base <= off < base + bs
    ensures var r := FillLast(bs, last, size, off);
      && |r.bytes| == bs
      && forall j :: 0 <= j < bs ==> r.bytes[j] == last.bytes[j] || (size <= base + j < off && r.bytes[j] == 0)
  {
    ModAt(off, bs, q);
    LastOffset(bs, base, q, size);
  }

  // ---------------------------------------------------------------------------------------------------------
  // Arithmetic

  /** The block number and the offset in it of position `x` (`x / blockSize` and `x % blockSize`). */
  method BlockPosition(bs: BlockSize, x: nat) returns (k: nat, o: nat)
    ensures x == Times(k, bs) + o && o < bs
  {
    DivMod(x, bs);
    k := x / bs;
    o := x % bs;
    TimesIsMul(k, bs);
  }

  /** Block number and offset in the block of byte `x` (`x / bs` and `x % bs`), counted block by block. */
  function Position(bs: BlockSize, x: nat): (r: (nat, nat))
    ensures x == Times(r.0, bs) + r.1 && r.1 < bs
    decreases x
  {
    if x < bs then (0, x) else var p := Position(bs, x - bs); (p.0 + 1, p.1)
  }

  /** A block number and an offset that add up to `x` are its position. */
  lemma {:induction false} PositionUnique(bs: BlockSize, x: nat, k: nat, o: nat)
    requires x == Times(k, bs) + o && o < bs
    ensures Position(bs, x) == (k, o)
    decreases x
  {
    if x >= bs {
      PositionUnique(bs, x - bs, k - 1, o);
    } else if k > 0 {
      assert false;
    }
  }

  lemma {:induction false} DivMod(x: nat, b: int)
    requires b > 0
    ensures 0 <= x / b && 0 <= x % b < b && x == (x / b) * b + x % b
  {
  }

  lemma {:induction false} TimesIsMul(k: nat, bs: BlockSize)
    ensures Times(k, bs) == k * bs
  {
    if k > 0 {
      TimesIsMul(k - 1, bs);
    }
  }

  /** Later blocks start later, a whole block later. */
  lemma {:induction false} TimesMono(a: nat, b: nat, bs: BlockSize)
    requires a <= b
    ensures Times(a, bs) <= Times(b, bs)
    ensures a < b ==> Times(a, bs) + bs <= Times(b, bs)
    decreases b
  {
    if a < b {
      TimesMono(a, b - 1, bs);
    }
  }

  /** A position lies in exactly one block, at exactly one offset. */
  lemma {:induction false} SameBlock(bs: BlockSize, x: nat, q: nat, o: nat, k: nat)
    requires x == Times(q, bs) + o && o < bs && Times(k, bs) <= x < Times(k, bs) + bs
    ensures q == k && o == x - Times(k, bs)
  {
    if q < k {
      TimesMono(q, k, bs);
    } else if k < q {
      TimesMono(k, q, bs);
    }
  }

  lemma {:induction false} MulLe(a: int, b: int, d: nat)
    requires a <= b
    ensures a * d <= b * d
    decreases b - a
  {
    if a < b {
      MulLe(a + 1, b, d);
      assert (a + 1) * d == a * d + d;
    }
  }

  /** Java's `%` on a position in block `q`. */
  lemma {:induction false} ModAt(x: nat, bs: BlockSize, q: nat)
    requires Times(q, bs) <= x < Times(q, bs) + bs
    ensures x % bs == x - Times(q, bs)
  {
    TimesIsMul(q, bs);
    DivUnique(x, bs, q);
  }

  lemma {:induction false} DivUnique(x: nat, b: int, q: int)
    requires b > 0 && q * b <= x < q * b + b
    ensures x / b == q && x % b == x - q * b
  {
    DivMod(x, b);
    var q0 := x / b;
    if q0 < q {
      MulLe(q0 + 1, q, b);
    } else if q < q0 {
      MulLe(q + 1, q0, b);
    }
  }

  /** The end of block `q`. */
  lemma {:induction false} BlockEndAt(bs: BlockSize, x: nat, q: nat)
    requires Times(q, bs) <= x < Times(q, bs) + bs
    ensures BlockEnd(bs, x) == Times(q, bs) + bs
    decreases q
  {
    if q > 0 {
      BlockEndAt(bs, x - bs, q - 1);
    }
  }

  /** Positions from `x` up to the end of its block share that end; later positions end later. */
  lemma {:induction false} BlockEndOrder(bs: BlockSize, x: nat, y: nat)
    requires x <= y
    ensures y < BlockEnd(bs, x) ==> BlockEnd(bs, y) == BlockEnd(bs, x)
    ensures BlockEnd(bs, x) <= BlockEnd(bs, y)
    decreases x
  {
    if x >= bs {
      BlockEndOrder(bs, x - bs, y - bs);
    }
  }

  // ---------------------------------------------------------------------------------------------------------
  // Lemmas about the image of the blocks

  lemma {:induction false} FlatLength(bs: BlockSize, blocks: seq<Data>)
    requires Shaped(bs, blocks)
    ensures |Flat(blocks)| == Times(|blocks|, bs)
  {
    if blocks != [] {
      FlatLength(bs, blocks[..|blocks| - 1]);
    }
  }

  /** Replacing block `k`, at image offset `at`, replaces its `bs` bytes in the image; those bytes are the
      block's. */
  lemma {:induction false} FlatUpdate(bs: BlockSize, blocks: seq<Data>, k: nat, at: nat, d: Data)
    requires Shaped(bs, blocks) && k < |blocks| && at == Times(k, bs) && |d.bytes| == bs
    ensures at + bs <= |Flat(blocks)|
    ensures Flat(blocks)[at..at + bs] == blocks[k].bytes
    ensures Flat(blocks[k := d]) == Flat(blocks)[..at] + d.bytes + Flat(blocks)[at + bs..]
  {
    var pre, post := blocks[..k], blocks[k + 1..];
    assert blocks == pre + [blocks[k]] + post;
    assert blocks[k := d] == pre + [d] + post;
    FlatSplit(pre, blocks[k], post);
    FlatSplit(pre, d, post);
    FlatLength(bs, pre);
    var f := Flat(blocks);
    assert f == Flat(pre) + blocks[k].bytes + Flat(post);
    assert f[..at] == Flat(pre);
    assert f[at..at + bs] == blocks[k].bytes;
    assert f[at + bs..] == Flat(post);
  }

  /** The image of blocks around one block. */
  lemma {:induction false} FlatSplit(pre: seq<Data>, x: Data, post: seq<Data>)
    ensures Flat(pre + [x] + post) == Flat(pre) + x.bytes + Flat(post)
  {
    FlatConcat(pre + [x], post);
    FlatAppend(pre, x);
  }

  /** The image of two runs of blocks is the two images one after the other. */
  lemma {:induction false} FlatConcat(a: seq<Data>, b: seq<Data>)
    ensures Flat(a + b) == Flat(a) + Flat(b)
    decreases |b|
  {
    if b == [] {
      assert a + b == a;
    } else {
      var m := |b| - 1;
      var ab := a + b;
      assert ab[..|ab| - 1] == a + b[..m] && ab[|ab| - 1] == b[m];
      assert Flat(ab) == Flat(a + b[..m]) + b[m].bytes;
      FlatConcat(a, b[..m]);
      assert Flat(b) == Flat(b[..m]) + b[m].bytes;
    }
  }

  /** Writing into block `k` at `offset` writes into the image at `at + offset`. */
  lemma {:induction false} FlatPut(bs: BlockSize, blocks: seq<Data>, k: nat, at: nat, offset: nat, src: seq<byte>)
    requires Shaped(bs, blocks) && k < |blocks| && at == Times(k, bs) && offset + |src| <= bs
    ensures at + bs <= |Flat(blocks)|
    ensures Flat(blocks[k := Put(blocks[k], offset, src)]) == Splice(Flat(blocks), at + offset, src)
  {
    var d := Put(blocks[k], offset, src);
    FlatUpdate(bs, blocks, k, at, d);
    SpliceInside(Flat(blocks), at, blocks[k].bytes, offset, src);
  }

  /** Writing into a stretch of a sequence writes into the sequence. */
  lemma {:induction false} SpliceInside(f: seq<byte>, at: nat, b: seq<byte>, offset: nat, src: seq<byte>)
    requires at + |b| <= |f| && f[at..at + |b|] == b && offset + |src| <= |b|
    ensures f[..at] + Splice(b, offset, src) + f[at + |b|..] == Splice(f, at + offset, src)
  {
    var l := f[..at] + Splice(b, offset, src) + f[at + |b|..];
    var r := Splice(f, at + offset, src);
    forall i | 0 <= i < |f|
      ensures l[i] == r[i]
    {
      if at <= i < at + |b| {
        assert l[i] == Splice(b, offset, src)[i - at];
        assert b[i - at] == f[i];
        if at + offset <= i < at + offset + |src| {
          assert Splice(b, offset, src)[offset..offset + |src|][i - at - offset] == src[i - at - offset];
          assert r[at + offset..at + offset + |src|][i - at - offset] == src[i - at - offset];
        }
      }
    }
  }

  /** Rewriting a block with the bytes it holds leaves the image as it was. */
  lemma {:induction false} FlatSameBytes(bs: BlockSize, blocks: seq<Data>, k: nat, d: Data)
    requires Shaped(bs, blocks) && k < |blocks| && d.bytes == blocks[k].bytes
    ensures Flat(blocks[k := d]) == Flat(blocks)
  {
    FlatUpdate(bs, blocks, k, Times(k, bs), d);
  }

  /** A block appended at the end of the image. */
  lemma {:induction false} FlatAppend(blocks: seq<Data>, d: Data)
    ensures Flat(blocks + [d]) == Flat(blocks) + d.bytes
  {
    assert (blocks + [d])[..|blocks|] == blocks;
  }

  /** Zeros written over zeros change nothing. */
  lemma {:induction false} SpliceZeros(f: seq<byte>, at: nat, n: nat)
    requires at + n <= |f| && forall j :: at <= j < at + n ==> f[j] == 0
    ensures Splice(f, at, Zeros(n)) == f
  {
    var r := Splice(f, at, Zeros(n));
    assert forall j :: 0 <= j < |f| ==> r[j] == f[j];
  }

  /** The zero-filled blocks do not change what a write produces. */
  lemma {:induction false} WrittenPadded(img: seq<byte>, n: nat, off: nat, src: seq<byte>, len: nat)
    requires |img| + n <= len && off + |src| <= len
    ensures Written(img + Zeros(n), off, src, len) == Written(img, off, src, len)
  {
  }

  // ---------------------------------------------------------------------------------------------------------
  // Properties

  /** What a write produces: the buffer at `off`, the file before it unchanged, zeros between the old end of
      the file and `off`, the old bytes after the buffer unchanged, and nothing set past the new end. */
  lemma {:induction false} WrittenContents(img: seq<byte>, size: int, off: nat, src: seq<byte>, len: nat)
    requires |img| <= len && off + |src| <= len && TailZero(img, size)
    ensures var w := Written(img, off, src, len);
      && w[off..off + |src|] == src
      && (forall i :: 0 <= i < off && i < |img| ==> w[i] == img[i])
      && (forall i :: 0 <= i < off && size <= i ==> w[i] == 0)
      && (forall i :: off + |src| <= i < |img| ==> w[i] == img[i])
      && TailZero(w, Max(size, off + |src|))
  {
    var w := Written(img, off, src, len);
    assert forall i :: off <= i < off + |src| ==> w[i] == src[i - off];
  }

  /** Counting block by block as `read` does gives the closed form. */
  lemma {:induction false} ReadCountClosed(bs: BlockSize, size: int, off: nat, remaining: nat)
    ensures ReadCount(bs, size, off, remaining) == ReadLength(bs, size, off, remaining)
    decreases remaining
  {
    if remaining > 0 && off < size {
      var n := Min(remaining, Min(BlockEnd(bs, off), size) - off);
      assert off < BlockEnd(bs, off);
      ReadCountClosed(bs, size, off + n, remaining - n);
    }
  }

  /** Reading back what was just written: once the size covers the written bytes, `read` at `off` with room
      for `|src|` bytes copies exactly the `|src|` bytes written. */
  lemma {:induction false} WriteThenRead(bs: BlockSize, img: seq<byte>, size: nat, off: nat, src: seq<byte>, len: nat)
    requires |img| <= len && off + |src| <= len
    ensures var newSize := Max(size, off + |src|);
      && ReadLength(bs, newSize, off, |src|) == |src|
      && Written(img, off, src, len)[off..off + ReadLength(bs, newSize, off, |src|)] == src
  {
    var w := Written(img, off, src, len);
    assert forall i :: off <= i < off + |src| ==> w[i] == src[i - off];
  }

  // ---------------------------------------------------------------------------------------------------------
  // The mapping

  class FileMapping {
    const bs: BlockSize
    /** How many blocks the block mapping can hold; `add` fails with IndexOutOfBounds beyond it. */
    const capacity: nat
    var blocks: seq<Data>

    /** The image of the file: the blocks' bytes in logical order. */
    function Image(): seq<byte>
      reads this
    {
      Flat(blocks)
    }

    /** The mapping of a file of `size` bytes: at least one block, the last one holding the end of the file,
        nothing but zeros past the end, and a last block with nothing written all zero. */
    ghost predicate Valid(size: int)
      reads this
    {
      && Shaped(bs, blocks) && 1 <= |blocks| <= capacity
      && |Flat(blocks)| - bs <= size <= |Flat(blocks)|
      && (HasData(blocks[|blocks| - 1]) ==> size > 0)
      && (!HasData(blocks[|blocks| - 1]) ==> AllZero(blocks[|blocks| - 1].bytes))
      && TailZero(Flat(blocks), size)
    }

    /** `init(inode, data)`: one block holding the inline data, with as many bytes written as the file
        has. */
    constructor Init(bs: BlockSize, capacity: nat, inline: seq<byte>, size: nat)
      requires |inline| <= bs && size <= |inline| && capacity >= 1
      ensures this.bs == bs && this.capacity == capacity
      ensures blocks == [Data(inline + Zeros(bs - |inline|), size)]
      ensures Image()[..size] == inline[..size]
      ensures TailZero(inline, size) ==> Valid(size)
    {
      this.bs, this.capacity := bs, capacity;
      blocks := [Data(inline + Zeros(bs - |inline|), size)];
      new;
      assert blocks[..0] == [];
      assert Flat(blocks) == inline + Zeros(bs - |inline|);
    }

    /** `add(dataBlock)`: a block appended at the end, unless the mapping is full. */
    method Add(d: Data) returns (r: Result<()>)
      modifies this
      ensures r == if old(|blocks|) < capacity then Ok(()) else Err(IndexOutOfBounds)
      ensures blocks == if r.Ok? then old(blocks) + [d] else old(blocks)
    {
      if |blocks| >= capacity {
        return Err(IndexOutOfBounds);
      }
      blocks := blocks + [d];
      return Ok(());
    }

    /** `read(position, buffer)` with `remaining` bytes of room after the buffer's position `start`: the
        bytes of the image from `position + start`, as many as `ReadCount` says. A block beyond the mapping
        fails with IndexOutOfBounds. */
    method Read(size: int, position: nat, start: nat, remaining: nat) returns (r: Result<seq<byte>>)
      requires Shaped(bs, blocks)
      ensures var off := position + start;
        var count := ReadLength(bs, size, off, remaining);
        && (count == 0 ==> r == Ok([]))
        && (count > 0 ==> (r.Ok? <==> off + count <= |Image()|))
        && (count > 0 && r.Ok? ==> r.value == Image()[off..off + count])
      ensures r.Err? ==> r.error == IndexOutOfBounds
    {
      r := ReadBlocks(bs, blocks, size, position + start, remaining);
    }

    /** `write(position, buffer)` of the bytes `src` after the buffer's position `start`, into a file of
        `size` bytes: the whole buffer is written at `position + start`, the gap before it reads as zeros,
        the image grows to the end of the block of the last byte written (or of the write position), and
        the mapping stays valid for the new size. Running out of room in the mapping fails with
        IndexOutOfBounds, with the blocks appended so far kept. */
    method Write(size: int, position: nat, start: nat, src: seq<byte>) returns (r: Result<int>)
      requires Valid(size)
      modifies this
      ensures var off := position + start;
        r.Ok? ==>
        && r.value == |src|
        && |Image()| == NewLength(bs, old(|Image()|), off, |src|)
        && Image() == Written(old(Image()), off, src, |Image()|)
        && Valid(Max(size, off + |src|))
      ensures r.Err? ==> r.error == IndexOutOfBounds && |blocks| == capacity && Shaped(bs, blocks)
    {
      var off := position + start;
      ghost var img := Image();
      var filled := FillGap(size, position, off);
      if filled.Err? {
        return Err(filled.error);
      }
      ghost var img1 := Image();
      var copied := CopyIn(off, src);
      if copied.Err? {
        return Err(copied.error);
      }
      ghost var newSize := Max(size, off + |src|);
      assert Image() == Written(img, off, src, |Image()|) by {
        WrittenPadded(img, |img1| - |img|, off, src, |Image()|);
      }
      assert TailZero(Image(), newSize) by {
        WrittenContents(img, size, off, src, |Image()|);
      }
      assert |Image()| == NewLength(bs, |img|, off, |src|) && |Image()| - bs <= newSize <= |Image()| by {
        LengthsAfterWrite(bs, |img|, size, off, |src|);
      }
      return Ok(|src|);
    }

    /** Lines 38-83 of `write`: when the write starts in the last block, the stretch of it between the end
        of the file and the write position is zero-filled; when it starts further on, the last block is
        zero-filled to its end, empty blocks are appended, and a block zero-filled up to `position` (the
        buffer's position left out) is appended. The image only grows, by zeros, to the end of the block of
        the write position. */
    method FillGap(size: int, position: nat, off: nat) returns (r: Result<()>)
      requires Valid(size) && position <= off
      modifies this
      ensures Shaped(bs, blocks) && old(|blocks|) <= |blocks| <= capacity
      ensures r.Err? ==> r.error == IndexOutOfBounds && |blocks| == capacity
      ensures r.Ok? ==>
        && |Image()| == Max(old(|Image()|), BlockEnd(bs, off))
        && Image() == old(Image()) + Zeros(|Image()| - old(|Image()|))
        && (HasData(blocks[|blocks| - 1]) ==> size > 0 || off > 0)
        && (!HasData(blocks[|blocks| - 1]) ==> AllZero(blocks[|blocks| - 1].bytes))
    {
      var first, inBlock := BlockPosition(bs, off);
      FlatLength(bs, blocks);
      BlockEndAt(bs, off, first);
      if |blocks| - 1 >= first {
        TimesMono(first, |blocks|, bs);
        if |blocks| - 1 == first {
          FillLastBlock(size, off);
        }
        assert Image() == old(Image()) + Zeros(0);
        return Ok(());
      }
      TimesMono(|blocks|, first, bs);
      r := FillPast(size, position, first);
    }

    /** Lines 61-83: the write starts in block `first`, past the last block. The last block is zero-filled
        to its end, empty blocks are appended up to block `first`, and then a block zero-filled up to the
        offset of `position` in its block. */
    method FillPast(size: int, position: nat, first: nat) returns (r: Result<()>)
      requires Valid(size) && |blocks| <= first
      modifies this
      ensures Shaped(bs, blocks) && old(|blocks|) <= |blocks| <= capacity
      ensures r.Err? ==> r.error == IndexOutOfBounds && |blocks| == capacity
      ensures r.Ok? ==>
        && |blocks| == first + 1 && |Image()| == Times(first + 1, bs) && old(|Image()|) <= |Image()|
        && Image() == old(Image()) + Zeros(|Image()| - old(|Image()|))
        && blocks[|blocks| - 1] == Data(Zeros(bs), Position(bs, position).1)
    {
      EndLastBlock(size);
      r := AppendEmpty(first - |blocks|);
      if r.Err? {
        return;
      }
      var d := GapBlock(bs, position);
      ghost var before := blocks;
      r := Add(d);
      if r.Ok? {
        FlatAppend(before, d);
        FlatLength(bs, blocks);
      }
    }

    /** `count` empty blocks appended one by one (lines 72-74); the image grows by zeros. */
    method AppendEmpty(count: nat) returns (r: Result<()>)
      requires Shaped(bs, blocks) && |blocks| <= capacity
      modifies this
      ensures Shaped(bs, blocks) && old(|blocks|) <= |blocks| <= capacity
      ensures |Image()| >= old(|Image()|) && Image() == old(Image()) + Zeros(|Image()| - old(|Image()|))
      ensures r.Err? ==> r.error == IndexOutOfBounds && |blocks| == capacity
      ensures r.Ok? ==> |blocks| == old(|blocks|) + count
    {
      var i := 0;
      while i < count
        invariant 0 <= i <= count
        invariant Shaped(bs, blocks) && |blocks| == old(|blocks|) + i && |blocks| <= capacity
        invariant |Image()| >= old(|Image()|) && Image() == old(Image()) + Zeros(|Image()| - old(|Image()|))
      {
        ghost var before := blocks;
        r := Add(Fresh(bs));
        if r.Err? {
          return;
        }
        FlatAppend(before, Fresh(bs));
        i := i + 1;
      }
      r := Ok(());
    }

    /** Lines 43-57: the write starts in the last block. Without data the block is zero-filled up to the
        write position; with data, from just after the last byte of the file (the intended `FillLast`). */
    method FillLastBlock(size: int, off: nat)
      requires Valid(size) && |Image()| - bs <= off < |Image()|
      modifies this
      ensures |blocks| == old(|blocks|) && Shaped(bs, blocks) && Image() == old(Image())
      ensures HasData(blocks[|blocks| - 1]) ==> size > 0 || off > 0
      ensures !HasData(blocks[|blocks| - 1]) ==> AllZero(blocks[|blocks| - 1].bytes)
    {
      var k := |blocks| - 1;
      var last := blocks[k];
      var at := |Image()| - bs;
      FlatLength(bs, blocks);
      FlatUpdate(bs, blocks, k, at, last);
      if !HasData(last) {
        var blockNumber, required := BlockPosition(bs, off);
        SameBlock(bs, off, blockNumber, required, k);
        if required > 0 {
          SpliceZeros(last.bytes, 0, required);
          FlatSameBytes(bs, blocks, k, Put(last, 0, Zeros(required)));
          blocks := blocks[k := Put(last, 0, Zeros(required))];
        }
      } else {
        FillLastKeepsFile(bs, at, k, last, size, off);
        var filled := FillLast(bs, last, size, off);
        assert filled.bytes == last.bytes by {
          forall j | 0 <= j < bs
            ensures filled.bytes[j] == last.bytes[j]
          {
            assert last.bytes[j] == Image()[at..at + bs][j] == Image()[at + j];
          }
        }
        FlatSameBytes(bs, blocks, k, filled);
        blocks := blocks[k := filled];
      }
    }

    /** Lines 61-71: the write starts past the last block, which is zero-filled to its end (all of it when it
        holds no data); the image does not change. */
    method EndLastBlock(size: int)
      requires Valid(size)
      modifies this
      ensures |blocks| == old(|blocks|) && Shaped(bs, blocks) && Image() == old(Image()) && |blocks| <= capacity
    {
      var k := |blocks| - 1;
      var last := blocks[k];
      var at := |Image()| - bs;
      FlatLength(bs, blocks);
      FlatUpdate(bs, blocks, k, at, last);
      if !HasData(last) {
        SpliceZeros(last.bytes, 0, bs);
        FlatSameBytes(bs, blocks, k, Put(last, 0, Zeros(bs)));
        blocks := blocks[k := Put(last, 0, Zeros(bs))];
      } else {
        var blockNumber, lastOffset := BlockPosition(bs, size - 1);
        var offset := lastOffset + 1;
        var length := bs - offset;
        if length > 0 {
          LastOffset(bs, at, k, size);
          ModAt(size - 1, bs, blockNumber);
          ZeroAfter(Image(), at, last.bytes, size);
          SpliceZeros(last.bytes, offset, length);
          FlatSameBytes(bs, blocks, k, Put(last, offset, Zeros(length)));
          blocks := blocks[k := Put(last, offset, Zeros(length))];
        }
      }
    }

    /** Lines 84-104 of `write`: the buffer copied block by block from `off`, appending a block whenever the
        position passes the last one; the image grows to the end of the block of the last byte copied. */
    method CopyIn(off: nat, src: seq<byte>) returns (r: Result<()>)
      requires Shaped(bs, blocks) && 1 <= |blocks| <= capacity && off < |Image()|
      modifies this
      ensures Shaped(bs, blocks) && old(|blocks|) <= |blocks| <= capacity
      ensures r.Err? ==> r.error == IndexOutOfBounds && |blocks| == capacity
      ensures r.Ok? ==>
        && |Image()| == CopyLength(bs, old(|Image()|), off, |src|)
        && Image() == Written(old(Image()), off, src, |Image()|)
        && (HasData(blocks[|blocks| - 1]) ==> HasData(old(blocks[|blocks| - 1])) || |src| > 0)
        && (!HasData(blocks[|blocks| - 1]) ==> |blocks| == old(|blocks|) && blocks[|blocks| - 1] == old(blocks[|blocks| - 1]))
    {
      CopyFromWrites(bs, capacity, blocks, off, src, 0);
      assert src[0..] == src;
      var res, copied := CopyBlocks(bs, capacity, blocks, off, src);
      r, blocks := res, copied;
    }
  }

  /** The block appended at the write position when the write starts past the last block (lines 75-82):
      zero-filled, with the bytes before the offset of `position` in its block counted as written. */
  method GapBlock(bs: BlockSize, position: nat) returns (d: Data)
    ensures d == Data(Zeros(bs), Position(bs, position).1)
  {
    var k, offset := BlockPosition(bs, position);
    PositionUnique(bs, position, k, offset);
    d := Fresh(bs);
    if offset > 0 {
      SpliceZeros(d.bytes, 0, offset);
      d := Put(d, 0, Zeros(offset));
    }
  }

  /** The copy loop of `write` (lines 86-104) over the blocks `blocks0`, returning the blocks it leaves; `add`
      fails at `capacity` blocks. */
  method CopyBlocks(bs: BlockSize, capacity: nat, blocks0: seq<Data>, off: nat, src: seq<byte>)
      returns (r: Result<()>, blocks: seq<Data>)
    requires Shaped(bs, blocks0) && |blocks0| <= capacity
    ensures (r, blocks) == CopyFrom(bs, capacity, blocks0, off, src, 0)
  {
    blocks := blocks0;
    var c := 0;
    while c < |src|
      invariant c <= |src| && Shaped(bs, blocks) && |blocks| <= capacity
      invariant CopyFrom(bs, capacity, blocks, off, src, c) == CopyFrom(bs, capacity, blocks0, off, src, 0)
      decreases |src| - c
    {
      var full, next, c2 := CopyTurn(bs, capacity, blocks, off, src, c);
      if full {
        return Err(IndexOutOfBounds), blocks;
      }
      blocks, c := next, c2;
    }
    r := Ok(());
  }

  /** One turn of the copy loop (lines 87-103): the block holding position `off + c` is fetched, or added
      when it lies past the last block, and the bytes of `src` from `c` up to its end are written into it.
      `full` when `add` fails. */
  method CopyTurn(bs: BlockSize, capacity: nat, blocks: seq<Data>, off: nat, src: seq<byte>, c: nat)
      returns (full: bool, next: seq<Data>, c2: nat)
    requires Shaped(bs, blocks) && |blocks| <= capacity && c < |src|
    ensures full ==> CopyFrom(bs, capacity, blocks, off, src, c) == (Err(IndexOutOfBounds), blocks)
    ensures !full ==> c < c2 <= |src| && Shaped(bs, next) && |next| <= capacity
    ensures !full ==> CopyFrom(bs, capacity, next, off, src, c2) == CopyFrom(bs, capacity, blocks, off, src, c)
  {
    var k, o := BlockPosition(bs, off + c);
    PositionUnique(bs, off + c, k, o);
    var len := Min(bs - o, |src| - c);
    CopyFromTurn(bs, capacity, blocks, off, src, c, k, o, len);
    if k > |blocks| - 1 {
      if |blocks| >= capacity {
        return true, blocks, c;
      }
      next := blocks + [Put(Fresh(bs), o, src[c..c + len])];
    } else {
      next := blocks[k := Put(blocks[k], o, src[c..c + len])];
    }
    return false, next, c + len;
  }

  /** The copy loop of `write` (lines 84-104) as a recursion, from byte `c` of `src` on: the bytes up to the
      end of the block holding position `off + c` go into that block; `add` fails when a block past the last
      one is needed and the mapping is full. */
  function CopyFrom(bs: BlockSize, capacity: nat, blocks: seq<Data>, off: nat, src: seq<byte>, c: nat): (Result<()>, seq<Data>)
    requires Shaped(bs, blocks) && |blocks| <= capacity && c <= |src|
    decreases |src| - c
  {
    if c == |src| then (Ok(()), blocks)
    else
      var (k, o) := Position(bs, off + c);
      var len := Min(bs - o, |src| - c);
      if k > |blocks| - 1 && |blocks| >= capacity then (Err(IndexOutOfBounds), blocks)
      else CopyFrom(bs, capacity, Turn(bs, blocks, k, o, src[c..c + len]), off, src, c + len)
  }

  /** One turn of the copy loop: `piece` written at offset `o` of block `k`, into a fresh block appended at
      the end when `k` lies past the last block. */
  function Turn(bs: BlockSize, blocks: seq<Data>, k: nat, o: nat, piece: seq<byte>): (r: seq<Data>)
    requires Shaped(bs, blocks) && o + |piece| <= bs
    ensures Shaped(bs, r) && |r| == if k > |blocks| - 1 then |blocks| + 1 else |blocks|
  {
    if k > |blocks| - 1 then blocks + [Put(Fresh(bs), o, piece)] else blocks[k := Put(blocks[k], o, piece)]
  }

  /** One turn of the copy, unfolded. */
  lemma {:induction false} CopyFromTurn(bs: BlockSize, capacity: nat, blocks: seq<Data>, off: nat, src: seq<byte>, c: nat, k: nat, o: nat, len: nat)
    requires Shaped(bs, blocks) && |blocks| <= capacity && c < |src|
    requires (k, o) == Position(bs, off + c) && len == Min(bs - o, |src| - c)
    ensures k > |blocks| - 1 && |blocks| >= capacity ==>
      CopyFrom(bs, capacity, blocks, off, src, c) == (Err(IndexOutOfBounds), blocks)
    ensures k > |blocks| - 1 && |blocks| < capacity ==>
      && Shaped(bs, blocks + [Put(Fresh(bs), o, src[c..c + len])])
      && CopyFrom(bs, capacity, blocks, off, src, c)
         == CopyFrom(bs, capacity, blocks + [Put(Fresh(bs), o, src[c..c + len])], off, src, c + len)
    ensures k <= |blocks| - 1 ==>
      && Shaped(bs, blocks[k := Put(blocks[k], o, src[c..c + len])])
      && CopyFrom(bs, capacity, blocks, off, src, c)
         == CopyFrom(bs, capacity, blocks[k := Put(blocks[k], o, src[c..c + len])], off, src, c + len)
  {
    var next := Turn(bs, blocks, k, o, src[c..c + len]);
    assert CopyFrom(bs, capacity, blocks, off, src, c) == if k > |blocks| - 1 && |blocks| >= capacity then (Err(IndexOutOfBounds), blocks)
      else CopyFrom(bs, capacity, next, off, src, c + len);
  }

  /** What a copy of `src[c..]` from `off + c` that left `res` promises: it writes those bytes over the image
      and grows it to the end of the block holding the last of them; it fails only when the mapping is full;
      and the last block is left untouched only when it is empty and no block was appended. */
  ghost predicate CopyResult(bs: BlockSize, capacity: nat, blocks: seq<Data>, off: nat, src: seq<byte>, c: nat,
                             res: (Result<()>, seq<Data>))
    requires 1 <= |blocks| && c <= |src| && off + c <= |Flat(blocks)|
  {
    && Shaped(bs, res.1) && |blocks| <= |res.1| <= capacity
    && (res.0.Err? ==> res.0.error == IndexOutOfBounds && |res.1| == capacity)
    && (res.0.Ok? ==>
      && CopyDone(bs, blocks, off, src, c, res.1)
      && (HasData(res.1[|res.1| - 1]) ==> HasData(blocks[|blocks| - 1]) || c < |src|))
  }

  /** The blocks `out` hold the image of `blocks` with `src[c..]` written from `off + c`, grown to the end of the
      block holding the last of those bytes; their last block is the old one when it holds no data. */
  ghost predicate CopyDone(bs: BlockSize, blocks: seq<Data>, off: nat, src: seq<byte>, c: nat, out: seq<Data>)
    requires 1 <= |blocks| && 1 <= |out| && c <= |src| && off + c <= |Flat(blocks)|
  {
    && |Flat(out)| == CopyLength(bs, |Flat(blocks)|, off + c, |src| - c)
    && Flat(out) == Written(Flat(blocks), off + c, src[c..], |Flat(out)|)
    && (!HasData(out[|out| - 1]) ==> |out| == |blocks| && out[|out| - 1] == blocks[|blocks| - 1])
  }

  /** The first `len` bytes of `src[c..]` written from `off + c` turned `blocks` into `next`. */
  ghost predicate FirstTurn(bs: BlockSize, blocks: seq<Data>, next: seq<Data>, off: nat, src: seq<byte>, c: nat, len: nat)
    requires 1 <= |blocks| && 1 <= |next| && c + len <= |src| && off + c <= |Flat(blocks)|
  {
    && |Flat(next)| == CopyLength(bs, |Flat(blocks)|, off + c, len) && off + c + len <= |Flat(next)|
    && Flat(next) == Written(Flat(blocks), off + c, src[c..c + len], |Flat(next)|)
    && (HasData(next[|next| - 1]) || (|next| == |blocks| && next[|next| - 1] == blocks[|blocks| - 1]))
  }

  /** The copy keeps the promise of `CopyResult`. */
  lemma {:induction false} CopyFromWrites(bs: BlockSize, capacity: nat, blocks: seq<Data>, off: nat, src: seq<byte>, c: nat)
    requires Shaped(bs, blocks) && 1 <= |blocks| <= capacity && c <= |src| && off + c <= |Flat(blocks)|
    ensures CopyResult(bs, capacity, blocks, off, src, c, CopyFrom(bs, capacity, blocks, off, src, c))
    decreases |src| - c, 2
  {
    if c == |src| {
      assert Written(Flat(blocks), off + c, src[c..], |Flat(blocks)|) == Flat(blocks);
    } else {
      var (k, o) := Position(bs, off + c);
      var len := Min(bs - o, |src| - c);
      CopyFromTurn(bs, capacity, blocks, off, src, c, k, o, len);
      if k > |blocks| - 1 {
        if |blocks| < capacity {
          CopyGrowWrites(bs, capacity, blocks, off, src, c, k, o, len);
        }
      } else {
        CopyPutWrites(bs, capacity, blocks, off, src, c, k, o, len);
      }
    }
  }

  /** A copy whose first piece goes into a fresh block. */
  lemma {:induction false} CopyGrowWrites(bs: BlockSize, capacity: nat, blocks: seq<Data>, off: nat, src: seq<byte>, c: nat,
                                          k: nat, o: nat, len: nat)
    requires Shaped(bs, blocks) && 1 <= |blocks| < capacity && c < |src| && off + c <= |Flat(blocks)|
    requires (k, o) == Position(bs, off + c) && len == Min(bs - o, |src| - c) && k > |blocks| - 1
    ensures Shaped(bs, blocks + [Put(Fresh(bs), o, src[c..c + len])])
    ensures CopyResult(bs, capacity, blocks, off, src, c,
                       CopyFrom(bs, capacity, blocks + [Put(Fresh(bs), o, src[c..c + len])], off, src, c + len))
    decreases |src| - c, 1
  {
    GrowTurn(bs, blocks, off, src, c, len, k, o);
    CopyRestWrites(bs, capacity, blocks, blocks + [Put(Fresh(bs), o, src[c..c + len])], off, src, c, len);
  }

  /** A copy whose first piece goes into block `k`. */
  lemma {:induction false} CopyPutWrites(bs: BlockSize, capacity: nat, blocks: seq<Data>, off: nat, src: seq<byte>, c: nat,
                                         k: nat, o: nat, len: nat)
    requires Shaped(bs, blocks) && 1 <= |blocks| <= capacity && c < |src| && off + c <= |Flat(blocks)|
    requires (k, o) == Position(bs, off + c) && len == Min(bs - o, |src| - c) && k <= |blocks| - 1
    ensures Shaped(bs, blocks[k := Put(blocks[k], o, src[c..c + len])])
    ensures CopyResult(bs, capacity, blocks, off, src, c,
                       CopyFrom(bs, capacity, blocks[k := Put(blocks[k], o, src[c..c + len])], off, src, c + len))
    decreases |src| - c, 1
  {
    PutTurn(bs, blocks, off, src, c, len, k, o);
    CopyRestWrites(bs, capacity, blocks, blocks[k := Put(blocks[k], o, src[c..c + len])], off, src, c, len);
  }

  /** Once the first `len` bytes have gone into `next`, the rest of the copy completes the promise. */
  lemma {:induction false} CopyRestWrites(bs: BlockSize, capacity: nat, blocks: seq<Data>, next: seq<Data>, off: nat,
                                          src: seq<byte>, c: nat, len: nat)
    requires 1 <= |blocks| <= |next| <= capacity && Shaped(bs, next) && 0 < len && c + len <= |src|
    requires off + c <= |Flat(blocks)| && FirstTurn(bs, blocks, next, off, src, c, len)
    ensures CopyResult(bs, capacity, blocks, off, src, c, CopyFrom(bs, capacity, next, off, src, c + len))
    decreases |src| - c, 0
  {
    CopyFromWrites(bs, capacity, next, off, src, c + len);
    var res := CopyFrom(bs, capacity, next, off, src, c + len);
    CopyCompose(bs, blocks, next, res.1, res.0.Ok?, off, src, c, len);
  }

  /** The first turn of a copy that appends a block. */
  lemma {:induction false} GrowTurn(bs: BlockSize, blocks: seq<Data>, off: nat, src: seq<byte>, c: nat, len: nat,
                                    k: nat, o: nat)
    requires Shaped(bs, blocks) && 1 <= |blocks| && off + c <= |Flat(blocks)| && off + c == Times(k, bs) + o
    requires k > |blocks| - 1 && 0 < len && c + len <= |src| && o + len <= bs
    ensures Shaped(bs, blocks + [Put(Fresh(bs), o, src[c..c + len])])
    ensures FirstTurn(bs, blocks, blocks + [Put(Fresh(bs), o, src[c..c + len])], off, src, c, len)
  {
    GrowFirst(bs, blocks, off + c, k, o, src[c..c + len]);
  }

  /** The first turn of a copy that writes into block `k`. */
  lemma {:induction false} PutTurn(bs: BlockSize, blocks: seq<Data>, off: nat, src: seq<byte>, c: nat, len: nat,
                                   k: nat, o: nat)
    requires Shaped(bs, blocks) && 1 <= |blocks| && off + c <= |Flat(blocks)| && off + c == Times(k, bs) + o
    requires k < |blocks| && 0 < len && c + len <= |src| && o + len <= bs
    ensures Shaped(bs, blocks[k := Put(blocks[k], o, src[c..c + len])])
    ensures FirstTurn(bs, blocks, blocks[k := Put(blocks[k], o, src[c..c + len])], off, src, c, len)
  {
    PutFirst(bs, blocks, off + c, k, o, src[c..c + len]);
  }

  /** The first piece of a copy written into a fresh block: it lands in the image and grows it by a block. */
  lemma {:induction false} GrowFirst(bs: BlockSize, blocks: seq<Data>, at: nat, k: nat, o: nat, piece: seq<byte>)
    requires Shaped(bs, blocks) && at <= |Flat(blocks)| && at == Times(k, bs) + o && k > |blocks| - 1
    requires 0 < |piece| && o + |piece| <= bs
    ensures var next := blocks + [Put(Fresh(bs), o, piece)];
      && Shaped(bs, next)
      && |Flat(next)| == CopyLength(bs, |Flat(blocks)|, at, |piece|) && at + |piece| <= |Flat(next)|
      && Flat(next) == Written(Flat(blocks), at, piece, |Flat(next)|)
      && HasData(next[|next| - 1])
  {
    var m := |Flat(blocks)|;
    assert at == m + o && CopyLength(bs, m, at, |piece|) == m + bs by {
      FlatLength(bs, blocks);
      ChunkLength(bs, |blocks|, at, k, o, |piece|);
    }
    CopyFirstGrow(bs, blocks, at, o, piece);
  }

  /** The first piece of a copy written inside block `k`: it lands in the image, which keeps its length. */
  lemma {:induction false} PutFirst(bs: BlockSize, blocks: seq<Data>, at: nat, k: nat, o: nat, piece: seq<byte>)
    requires Shaped(bs, blocks) && k < |blocks| && at == Times(k, bs) + o && 0 < |piece| && o + |piece| <= bs
    ensures var next := blocks[k := Put(blocks[k], o, piece)];
      && Shaped(bs, next)
      && |Flat(next)| == CopyLength(bs, |Flat(blocks)|, at, |piece|) && at + |piece| <= |Flat(next)|
      && Flat(next) == Written(Flat(blocks), at, piece, |Flat(next)|)
      && (HasData(next[|next| - 1]) || next[|next| - 1] == blocks[|blocks| - 1])
  {
    assert |Flat(blocks)| == Times(|blocks|, bs) by {
      FlatLength(bs, blocks);
    }
    TimesMono(k, |blocks|, bs);
    ChunkLength(bs, |blocks|, at, k, o, |piece|);
    CopyFirstPut(bs, blocks, at, k, o, piece);
  }

  /** A first turn followed by the rest of the copy is the whole copy. */
  lemma {:induction false} CopyCompose(bs: BlockSize, blocks: seq<Data>, next: seq<Data>, out: seq<Data>, ok: bool, off: nat,
                    src: seq<byte>, c: nat, len: nat)
    requires 1 <= |blocks| && 1 <= |next| <= |out| && 0 < len && c + len <= |src| && off + c <= |Flat(blocks)|
    requires FirstTurn(bs, blocks, next, off, src, c, len)
    requires ok ==> CopyDone(bs, next, off, src, c + len, out)
    ensures ok ==> CopyDone(bs, blocks, off, src, c, out)
  {
    if ok {
      var img := Flat(blocks);
      CopyLengthCompose(bs, |img|, off + c, len, |src| - c - len);
      assert src[c..c + len] + src[c + len..] == src[c..];
      WrittenCompose(img, off + c, src[c..c + len], src[c + len..], |Flat(next)|, |Flat(out)|);
    }
  }

  /** Where the first piece of a copy lands: in block `k` of the `m` blocks, or in the next one to append,
      which starts at the end of the image; the image grows to the end of that block. */
  lemma {:induction false} ChunkLength(bs: BlockSize, m: nat, off: nat, k: nat, o: nat, len: nat)
    requires off == Times(k, bs) + o && 0 < len && o + len <= bs && off <= Times(m, bs)
    ensures k <= m
    ensures k == m ==> off == Times(m, bs) + o && CopyLength(bs, Times(m, bs), off, len) == Times(m, bs) + bs
    ensures k < m ==> off + len <= Times(m, bs) && CopyLength(bs, Times(m, bs), off, len) == Times(m, bs)
  {
    if k > m {
      TimesMono(m, k, bs);
    } else if k < m {
      TimesMono(k, m, bs);
    }
    BlockEndAt(bs, off + len - 1, k);
  }

  /** The first piece of a copy written inside block `k`. */
  lemma {:induction false} CopyFirstPut(bs: BlockSize, blocks: seq<Data>, off: nat, k: nat, o: nat, piece: seq<byte>)
    requires Shaped(bs, blocks) && k < |blocks| && off == Times(k, bs) + o && o + |piece| <= bs
    ensures var next := blocks[k := Put(blocks[k], o, piece)];
      && Shaped(bs, next) && |Flat(next)| == |Flat(blocks)| && off + |piece| <= |Flat(blocks)|
      && Flat(next) == Written(Flat(blocks), off, piece, |Flat(blocks)|)
  {
    FlatPut(bs, blocks, k, Times(k, bs), o, piece);
    SpliceWritten(Flat(blocks), off, piece);
  }

  /** The first piece of a copy written into a fresh block appended after the image. */
  lemma {:induction false} CopyFirstGrow(bs: BlockSize, blocks: seq<Data>, off: nat, o: nat, piece: seq<byte>)
    requires Shaped(bs, blocks) && off == |Flat(blocks)| + o && o + |piece| <= bs
    ensures var next := blocks + [Put(Fresh(bs), o, piece)];
      && Shaped(bs, next) && |Flat(next)| == |Flat(blocks)| + bs
      && Flat(next) == Written(Flat(blocks), off, piece, |Flat(blocks)| + bs)
  {
    var d := Put(Fresh(bs), o, piece);
    FlatAppend(blocks, d);
    var f := Flat(blocks);
    var w := Written(f, off, piece, |f| + bs);
    forall i | 0 <= i < |f| + bs
      ensures (f + d.bytes)[i] == w[i]
    {
      if off <= i < off + |piece| {
        assert d.bytes[o..o + |piece|] == piece;
        assert d.bytes[i - |f|] == d.bytes[o..o + |piece|][i - off];
      }
    }
  }

  /** Splicing bytes into an image is writing them without growing it. */
  lemma {:induction false} SpliceWritten(f: seq<byte>, at: nat, src: seq<byte>)
    requires at + |src| <= |f|
    ensures Splice(f, at, src) == Written(f, at, src, |f|)
  {
    var s := Splice(f, at, src);
    forall i | at <= i < at + |src|
      ensures s[i] == src[i - at]
    {
      assert s[i] == s[at..at + |src|][i - at];
    }
  }

  /** Two copies in a row, the second starting where the first ended, grow the image as one copy does. */
  lemma {:induction false} CopyLengthCompose(bs: BlockSize, len0: nat, off: nat, n1: nat, n2: nat)
    requires 0 < n1
    ensures CopyLength(bs, CopyLength(bs, len0, off, n1), off + n1, n2) == CopyLength(bs, len0, off, n1 + n2)
  {
    if n2 > 0 {
      BlockEndOrder(bs, off + n1 - 1, off + n1 + n2 - 1);
    }
  }

  /** Two writes in a row, the second starting where the first ended, are one write of both. */
  lemma {:induction false} WrittenCompose(img: seq<byte>, off: nat, a: seq<byte>, b: seq<byte>, m: nat, len: nat)
    requires |img| <= m <= len && off + |a| <= m && off + |a| + |b| <= len
    ensures Written(Written(img, off, a, m), off + |a|, b, len) == Written(img, off, a + b, len)
  {
    var x := Written(Written(img, off, a, m), off + |a|, b, len);
    var y := Written(img, off, a + b, len);
    forall i | 0 <= i < len
      ensures x[i] == y[i]
    {
      if off <= i < off + |a| {
        assert (a + b)[i - off] == a[i - off];
      } else if off + |a| <= i < off + |a| + |b| {
        assert (a + b)[i - off] == b[i - off - |a|];
      }
    }
  }

  /** The length of the image after copying `count` bytes from `off` into an image of `len` bytes. */
  function CopyLength(bs: BlockSize, len: nat, off: nat, count: nat): nat
  {
    if count == 0 then len else Max(len, BlockEnd(bs, off + count - 1))
  }

  /** Every byte is zero. */
  ghost predicate AllZero(s: seq<byte>)
  {
    forall j :: 0 <= j < |s| ==> s[j] == 0
  }

  /** The offset just after the last byte of a file of `size` bytes whose last block starts at `base`. */
  /** A stretch of an image whose tail is zero from `size` on is itself zero from `size` on. */
  lemma {:induction false} ZeroAfter(img: seq<byte>, at: nat, b: seq<byte>, size: int)
    requires at + |b| <= |img| && img[at..at + |b|] == b && TailZero(img, size)
    ensures forall j :: 0 <= j < |b| && size - at <= j ==> b[j] == 0
  {
    forall j | 0 <= j < |b| && size - at <= j
      ensures b[j] == 0
    {
      assert b[j] == img[at + j];
    }
  }

  lemma {:induction false} LastOffset(bs: BlockSize, base: nat, q: nat, size: int)
    requires base == Times(q, bs) && base <= size <= base + bs && size > 0
    ensures (size - 1) % bs + 1 == if size > base then size - base else bs
  {
    if size > base {
      ModAt(size - 1, bs, q);
    } else {
      ModAt(size - 1, bs, q - 1);
    }
  }

  /** The piece of block `k`, which starts at image offset `at`, that `read` copies is the matching stretch
      of the image. */
  lemma {:induction false} ReadPiece(bs: BlockSize, blocks: seq<Data>, k: nat, at: nat, o: nat, n: nat)
    requires Shaped(bs, blocks) && k < |blocks| && at == Times(k, bs) && o + n <= bs
    ensures at + o + n <= |Flat(blocks)|
    ensures blocks[k].bytes[o..o + n] == Flat(blocks)[at + o..at + o + n]
  {
    FlatUpdate(bs, blocks, k, at, blocks[k]);
    var f := Flat(blocks);
    var a, b := blocks[k].bytes[o..o + n], f[at + o..at + o + n];
    forall i | 0 <= i < n
      ensures a[i] == b[i]
    {
      assert f[at..at + bs][o + i] == f[at + o + i];
    }
  }

  /** What `read` returns from image `f`: the `ReadLength` bytes from `off`, or IndexOutOfBounds when they
      run past the image. */
  ghost predicate ReadResult(bs: BlockSize, f: seq<byte>, size: int, off: nat, remaining: nat, r: Result<seq<byte>>)
  {
    var count := ReadLength(bs, size, off, remaining);
    && (count == 0 ==> r == Ok([]))
    && (count > 0 ==> (r.Ok? <==> off + count <= |f|))
    && (count > 0 && r.Ok? ==> r.value == f[off..off + count])
    && (r.Err? ==> r.error == IndexOutOfBounds)
  }

  /** The bytes `out` copied so far are the image from `off`, and what is left to copy is the rest of the
      `ReadLength` bytes. */
  ghost predicate ReadSoFar(bs: BlockSize, f: seq<byte>, size: int, off: nat, remaining: nat, out: seq<byte>)
  {
    && |out| <= remaining
    && (|out| > 0 ==> off + |out| <= |f|)
    && ReadLength(bs, size, off, remaining) == |out| + ReadLength(bs, size, off + |out|, remaining - |out|)
    && (forall i :: 0 <= i < |out| ==> off + i < |f| && out[i] == f[off + i])
  }

  /** The loop of `read` over the blocks, from image offset `off`. */
  method ReadBlocks(bs: BlockSize, blocks: seq<Data>, size: int, off: nat, remaining: nat) returns (r: Result<seq<byte>>)
    requires Shaped(bs, blocks)
    ensures var count := ReadLength(bs, size, off, remaining);
      && (count == 0 ==> r == Ok([]))
      && (count > 0 ==> (r.Ok? <==> off + count <= |Flat(blocks)|))
      && (count > 0 && r.Ok? ==> r.value == Flat(blocks)[off..off + count])
    ensures r.Err? ==> r.error == IndexOutOfBounds
  {
    var out: seq<byte> := [];
    while |out| < remaining
      invariant ReadSoFar(bs, Flat(blocks), size, off, remaining, out)
      decreases remaining - |out|
    {
      var done, res, next := ReadTurn(bs, blocks, size, off, remaining, out);
      if done {
        return res;
      }
      out := next;
    }
    SameAsSlice(out, Flat(blocks), off);
    return Ok(out);
  }

  /** One turn of the read loop: stop at the file size, fail past the last block, or copy the next piece of
      the block holding the position. */
  method ReadTurn(bs: BlockSize, blocks: seq<Data>, size: int, off: nat, remaining: nat, out: seq<byte>)
      returns (done: bool, r: Result<seq<byte>>, next: seq<byte>)
    requires Shaped(bs, blocks) && |out| < remaining && ReadSoFar(bs, Flat(blocks), size, off, remaining, out)
    ensures done ==> ReadResult(bs, Flat(blocks), size, off, remaining, r)
    ensures !done ==> |out| < |next| && ReadSoFar(bs, Flat(blocks), size, off, remaining, next)
  {
    ghost var f := Flat(blocks);
    var p := off + |out|;
    if p >= size {
      SameAsSlice(out, f, off);
      return true, Ok(out), out;
    }
    var k, o := BlockPosition(bs, p);
    if k >= |blocks| {
      assert p >= |f| by {
        FlatLength(bs, blocks);
        TimesMono(|blocks|, k, bs);
      }
      return true, Err(IndexOutOfBounds), out;
    }
    var n := Min(remaining - |out|, Min(bs - o, size - p));
    next := out + blocks[k].bytes[o..o + n];
    ReadStep(bs, blocks, size, off, remaining, out, k, o, n);
    return false, Ok(out), next;
  }

  /** The piece of block `k` from offset `o` that a turn of the read loop copies extends what was read. */
  lemma {:induction false} ReadStep(bs: BlockSize, blocks: seq<Data>, size: int, off: nat, remaining: nat, out: seq<byte>,
                                    k: nat, o: nat, n: nat)
    requires Shaped(bs, blocks) && |out| < remaining && ReadSoFar(bs, Flat(blocks), size, off, remaining, out)
    requires off + |out| < size && off + |out| == Times(k, bs) + o && o < bs && k < |blocks|
    requires n == Min(remaining - |out|, Min(bs - o, size - (off + |out|)))
    ensures ReadSoFar(bs, Flat(blocks), size, off, remaining, out + blocks[k].bytes[o..o + n])
  {
    var f := Flat(blocks);
    var p := off + |out|;
    var piece := blocks[k].bytes[o..o + n];
    assert ReadLength(bs, size, p, remaining - |out|) == n + ReadLength(bs, size, p + n, remaining - |out| - n) by {
      BlockEndAt(bs, p, k);
      ReadLengthStep(bs, size, p, remaining - |out|, n);
    }
    ReadPiece(bs, blocks, k, p - o, o, n);
    AppendAgrees(out, piece, f, off);
  }

  /** A piece that is the next stretch of `f` extends the agreement. */
  lemma {:induction false} AppendAgrees(out: seq<byte>, piece: seq<byte>, f: seq<byte>, off: nat)
    requires off + |out| + |piece| <= |f| && piece == f[off + |out|..off + |out| + |piece|]
    ensures forall i :: |out| <= i < |out + piece| ==> (out + piece)[i] == f[off + i]
  {
  }

  /** A sequence that agrees with a stretch of another is that stretch. */
  lemma {:induction false} SameAsSlice(out: seq<byte>, f: seq<byte>, off: nat)
    requires |out| > 0 ==> off + |out| <= |f|
    requires forall i :: 0 <= i < |out| ==> out[i] == f[off + i]
    ensures |out| > 0 ==> out == f[off..off + |out|]
  {
  }

  /** One step of the read loop: the piece up to the end of the block, or up to the room left. */
  lemma {:induction false} ReadLengthStep(bs: BlockSize, size: int, p: nat, rem: nat, n: nat)
    requires p < size && 0 < rem && n == Min(rem, Min(BlockEnd(bs, p), size) - p)
    ensures ReadLength(bs, size, p, rem) == n + ReadLength(bs, size, p + n, rem - n)
  {
    assert p < BlockEnd(bs, p);
  }

  /** The image lengths of a write: the new size lies in the last block of the new image. */
  lemma {:induction false} LengthsAfterWrite(bs: BlockSize, len: nat, size: int, off: nat, count: nat)
    requires len - bs <= size <= len
    ensures var last := CopyLength(bs, Max(len, BlockEnd(bs, off)), off, count);
      && last == NewLength(bs, len, off, count)
      && last - bs <= Max(size, off + count) <= last
  {
  }
}
