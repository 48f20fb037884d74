/** The inode table region: where each inode record lives, the limit on inode numbers, and the cache of inodes
    in memory. */
module InodeTableRegion {
  import opened Wrappers
  import opened JavaInt
  import Block
  import I = Inode
  import IBT = IBlockType

  /** `calcBlock`: the block of the table holding record `id`, `firstBlock + (id - 1) * inodeSize / blockSize`
      in `int` arithmetic (the division truncates toward zero). */
  function CalcBlock(id: I.Id, inodeSize: int32, blockSize: int32, firstBlock: Block.Id): Block.Id
    requires blockSize > 0
  {
    Block.Id(Wrap32(firstBlock.value + JDiv(Wrap32(Wrap32(id.value - 1) * inodeSize), blockSize)))
  }

  /** `calcPosition`: the offset of record `id` in that block, `(id - 1) * inodeSize % blockSize` in `int`
      arithmetic (the remainder takes the sign of the dividend). */
  function CalcPosition(id: I.Id, inodeSize: int32, blockSize: int32): int
    requires blockSize > 0
  {
    JRem(Wrap32(Wrap32(id.value - 1) * inodeSize), blockSize)
  }

  /** Block and offset together address byte `(id - 1) * inodeSize` of the table, and the offset lies inside the
      block, as long as nothing overflows. */
  lemma {:induction false} RecordAddress(id: I.Id, inodeSize: int32, blockSize: int32, firstBlock: Block.Id)
    requires blockSize > 0 && inodeSize >= 0 && id.value >= 1 && firstBlock.value >= 0
    requires (id.value - 1) * inodeSize < 0x8000_0000
    requires firstBlock.value + (id.value - 1) * inodeSize / blockSize < 0x8000_0000
    ensures (CalcBlock(id, inodeSize, blockSize, firstBlock).value - firstBlock.value) * blockSize
            + CalcPosition(id, inodeSize, blockSize) == (id.value - 1) * inodeSize
    ensures 0 <= CalcPosition(id, inodeSize, blockSize) < blockSize
  {
    var off := Offset(id, inodeSize);
    JDivRem(off, blockSize);
    var quot := JDiv(off, blockSize);
    assert 0 <= quot == off / blockSize;
    var sum := firstBlock.value + quot;
    assert 0 <= sum < 0x8000_0000;
    assert Wrap32(sum) == sum;
    assert CalcBlock(id, inodeSize, blockSize, firstBlock) == Block.Id(Wrap32(sum));
    assert CalcPosition(id, inodeSize, blockSize) == JRem(off, blockSize);
  }

  /** The byte offset of record `id` in the table, when it does not overflow. */
  function Offset(id: I.Id, inodeSize: int32): (off: nat)
    requires inodeSize >= 0 && id.value >= 1 && (id.value - 1) * inodeSize < 0x8000_0000
    ensures off == (id.value - 1) * inodeSize == Wrap32(Wrap32(id.value - 1) * inodeSize)
  {
    NonNegProduct(id.value - 1, inodeSize);
    (id.value - 1) * inodeSize
  }

  lemma {:induction false} NonNegProduct(x: nat, y: nat)
    ensures x * y >= 0
  {
  }

  lemma {:induction false} ProductSign(x: int, y: int)
    ensures x >= 0 && y >= 0 ==> x * y >= 0
  {
  }

  /** The examples of the source's tests: record 4 with 128-byte inodes in 256-byte blocks from block 1 is in
      block 2; record 32 with 128-byte inodes in 4096-byte blocks is at offset 3968. */
  lemma {:induction false} CalcExamples()
    ensures CalcBlock(I.Id(4), 128, 256, Block.Id(1)) == Block.Id(2)
    ensures CalcPosition(I.Id(32), 128, 4096) == 3968
  {
    DivModUnique(384, 256, 1, 128);
    DivModUnique(3968, 4096, 0, 3968);
  }

  /** Record 0 (`NULL`) is not rejected by the id limit, and its address is the first block at a NEGATIVE
      offset: Java's remainder keeps the sign of `-inodeSize`. */
  lemma {:induction false} NullAddress(inodeSize: int32, blockSize: int32, firstBlock: Block.Id)
    requires 0 < inodeSize < blockSize && firstBlock.value >= 0
    ensures CalcBlock(I.NULL, inodeSize, blockSize, firstBlock) == firstBlock
    ensures CalcPosition(I.NULL, inodeSize, blockSize) == -inodeSize
  {
    assert Wrap32(I.NULL.value - 1) == -1;
    assert Wrap32(-1 * inodeSize) == -inodeSize;
    DivModUnique(inodeSize, blockSize, 0, inodeSize);
  }

  /** `maxInodeCount`: `numberOfBlocks * (blockSize / inodeSize)` in `int` arithmetic. */
  function MaxInodeCount(numberOfBlocks: int32, blockSize: int32, inodeSize: int32): (r: int32)
    requires inodeSize > 0
    ensures numberOfBlocks >= 0 && blockSize >= 0 && numberOfBlocks * (blockSize / inodeSize) < 0x8000_0000 ==>
      r == numberOfBlocks * (blockSize / inodeSize) && r >= 0
  {
    ProductSign(numberOfBlocks, blockSize / inodeSize);
    Wrap32(numberOfBlocks * JDiv(blockSize, inodeSize))
  }

  /** When records divide blocks evenly, every id up to the limit has its whole record inside the table: in
      one of its `numberOfBlocks` blocks, not straddling the end of that block. */
  lemma {:induction false} RecordInTable(id: I.Id, numberOfBlocks: int32, inodeSize: int32, blockSize: int32,
                                         firstBlock: Block.Id)
    requires inodeSize > 0 && blockSize > 0 && blockSize % inodeSize == 0 && numberOfBlocks >= 0
    requires numberOfBlocks * blockSize < 0x8000_0000 && firstBlock.value >= 0
    requires firstBlock.value + numberOfBlocks < 0x8000_0000
    requires 1 <= id.value <= MaxInodeCount(numberOfBlocks, blockSize, inodeSize)
    ensures firstBlock.value <= CalcBlock(id, inodeSize, blockSize, firstBlock).value < firstBlock.value + numberOfBlocks
    ensures 0 <= CalcPosition(id, inodeSize, blockSize) <= blockSize - inodeSize
  {
    var q := blockSize / inodeSize;
    RecordsPerBlock(numberOfBlocks, blockSize, inodeSize, q);
    var a, row := Decompose(id.value - 1, q, inodeSize, numberOfBlocks);
    AddressOf(id, inodeSize, blockSize, firstBlock, a, row);
  }

  /** With `q` whole records per block, the limit is `numberOfBlocks * q` and does not overflow. */
  lemma {:induction false} RecordsPerBlock(numberOfBlocks: nat, blockSize: int32, inodeSize: int32, q: int)
    requires inodeSize > 0 && blockSize > 0 && blockSize % inodeSize == 0 && q == blockSize / inodeSize
    requires numberOfBlocks * blockSize < 0x8000_0000
    ensures blockSize == q * inodeSize && q >= 1
    ensures MaxInodeCount(numberOfBlocks, blockSize, inodeSize) == numberOfBlocks * q
  {
    assert blockSize == q * inodeSize;
    MulMono(q, 1, inodeSize);
    MulMono(numberOfBlocks, q, blockSize);
  }

  /** Record `k` (counted from 0) with `q` records per block is record `row / s` of block `a`, and `a` is one of
      the `n` blocks when `k < n * q`. */
  lemma {:induction false} Decompose(k: nat, q: int, s: int, n: nat) returns (a: nat, row: nat)
    requires q >= 1 && s > 0 && k < n * q
    ensures k * s == a * (q * s) + row && a < n && row <= q * s - s
  {
    a, row := k / q, (k % q) * s;
    Split(k, q, s, a, k % q);
    assert k == a * q + k % q;
    NonPosProduct(n - a, q);
    assert (n - a) * q == n * q - a * q;
    MulMono(s, k % q, q - 1);
    assert s * (q - 1) == q * s - s;
    NonNegProduct(k % q, s);
  }

  /** The address functions applied to a record whose offset is `a` blocks and `row` bytes. */
  lemma {:induction false} AddressOf(id: I.Id, inodeSize: int32, blockSize: int32, firstBlock: Block.Id, a: nat,
                                     row: nat)
    requires inodeSize > 0 && blockSize > 0 && id.value >= 1 && firstBlock.value >= 0
    requires (id.value - 1) * inodeSize == a * blockSize + row && row <= blockSize - inodeSize
    requires (a + 1) * blockSize < 0x8000_0000 && firstBlock.value + a < 0x8000_0000
    ensures CalcBlock(id, inodeSize, blockSize, firstBlock).value == firstBlock.value + a
    ensures CalcPosition(id, inodeSize, blockSize) == row
  {
    DivModUnique(a * blockSize + row, blockSize, a, row);
    Distrib(a, 1, blockSize);
    var off := Offset(id, inodeSize);
    assert JDiv(off, blockSize) == a && JRem(off, blockSize) == row;
  }

  /** Splitting `k = a * q + b` splits the byte offset `k * s` the same way, with `q * s` per block. */
  lemma {:induction false} Split(k: int, q: int, s: int, a: int, b: int)
    requires q > 0 && a == k / q && b == k % q
    ensures k * s == a * (q * s) + b * s
  {
    assert k == a * q + b;
    calc {
      k * s;
      (a * q + b) * s;
      { Distrib(a * q, b, s); }
      (a * q) * s + b * s;
      { assert (a * q) * s == a * (q * s); }
      a * (q * s) + b * s;
    }
  }

  lemma {:induction false} Distrib(x: int, y: int, z: int)
    ensures (x + y) * z == x * z + y * z
  {
  }

  lemma {:induction false} MulMono(n: nat, x: int, y: int)
    requires x <= y
    ensures n * x <= n * y
  {
    assert n * y - n * x == n * (y - x);
    NonNegProduct(n, y - x);
  }

  lemma {:induction false} NonPosProduct(x: int, y: nat)
    ensures x <= 0 ==> x * y <= 0
  {
    if x <= 0 {
      NonNegProduct(-x, y);
      assert x * y == -((-x) * y);
    }
  }

  /** Quotient and remainder are the only pair that recombines to the dividend. */
  lemma {:induction false} DivModUnique(x: int, d: int, a: int, b: int)
    requires d > 0 && x == a * d + b && 0 <= b < d
    ensures x / d == a && x % d == b
  {
    var a', b' := x / d, x % d;
    assert x == a' * d + b' && 0 <= b' < d;
    assert (a - a') * d == b' - b by {
      Distrib(a, -a', d);
    }
    if a > a' {
      MulMono(d, 1, a - a');
    } else if a < a' {
      MulMono(d, 1, a' - a);
    }
  }

  /** The inode table region of a file system: its geometry, the inodes cached in memory, and a log of the
      calls it makes into the file system (records read, inodes freed). */
  class Region {
    const numberOfBlocks: int32
    const blockSize: int32
    const inodeSize: int32
    const firstBlock: Block.Id
    var cache: map<I.Id, I.Inode>
    /** The root directory, once created or read. */
    var root: Option<I.Inode>
    /** The inode numbers whose records were read from disk, in order (`fileSystem.readInode`). */
    var loads: seq<I.Id>
    /** The inode numbers handed back to the inode bitmap, in order (`fileSystem.freeInode`). */
    var freed: seq<I.Id>

    /** `maxInodeCount` of this region. */
    function MaxCount(): int32
      requires inodeSize > 0
    {
      MaxInodeCount(numberOfBlocks, blockSize, inodeSize)
    }

    /** `checkInodeIdLimit`: an id above the limit is out of bounds. */
    function CheckInodeIdLimit(id: I.Id): (r: Result<()>)
      requires inodeSize > 0
      ensures r.Ok? <==> id.value <= MaxCount()
      ensures r.Err? ==> r.error == IndexOutOfBounds
    {
      if id.value > MaxCount() then Err(IndexOutOfBounds) else Ok(())
    }

    /** `InodeTableRegion.read`: a region around the root read from disk. */
    constructor Read(numberOfBlocks: int32, blockSize: int32, inodeSize: int32, firstBlock: Block.Id,
                     root: I.Inode)
      ensures this.numberOfBlocks == numberOfBlocks && this.blockSize == blockSize
      ensures this.inodeSize == inodeSize && this.firstBlock == firstBlock
      ensures cache == map[] && this.root == Some(root) && loads == [] && freed == []
    {
      this.numberOfBlocks, this.blockSize, this.inodeSize := numberOfBlocks, blockSize, inodeSize;
      this.firstBlock := firstBlock;
      cache, this.root, loads, freed := map[], Some(root), [], [];
    }

    /** A region before its root exists; `New` completes it. */
    constructor Empty(numberOfBlocks: int32, blockSize: int32, inodeSize: int32, firstBlock: Block.Id)
      ensures this.numberOfBlocks == numberOfBlocks && this.blockSize == blockSize
      ensures this.inodeSize == inodeSize && this.firstBlock == firstBlock
      ensures cache == map[] && root == None && loads == [] && freed == []
    {
      this.numberOfBlocks, this.blockSize, this.inodeSize := numberOfBlocks, blockSize, inodeSize;
      this.firstBlock := firstBlock;
      cache, root, loads, freed := map[], None, [], [];
    }

    /** `get(id)`: ids above the limit are out of bounds; a cached inode is returned as is, without touching
        the disk; otherwise the record read from disk (`loaded`) is cached and returned. */
    method Get(id: I.Id, loaded: I.Inode) returns (r: Result<I.Inode>)
      requires inodeSize > 0
      modifies this
      ensures id.value > MaxCount() ==> r == Err(IndexOutOfBounds) && cache == old(cache) && loads == old(loads)
      ensures id.value <= MaxCount() && id in old(cache) ==>
        r == Ok(old(cache)[id]) && cache == old(cache) && loads == old(loads)
      ensures id.value <= MaxCount() && id !in old(cache) ==>
        r == Ok(loaded) && cache == old(cache)[id := loaded] && loads == old(loads) + [id]
      ensures root == old(root) && freed == old(freed)
    {
      var checked := CheckInodeIdLimit(id);
      if checked.Err? {
        return Err(checked.error);
      }
      if id in cache {
        return Ok(cache[id]);
      }
      cache := cache[id := loaded];
      loads := loads + [id];
      return Ok(loaded);
    }

    /** `createInode`: the inode bitmap hands out `reserved` (or fails); an id above the limit is out of bounds
        (the reserved id is NOT handed back); otherwise a new empty file or directory is written to disk and
        cached. */
    method CreateInode(reserved: Result<I.Id>, directory: bool) returns (r: Result<I.Inode>)
      requires inodeSize > 0
      modifies this
      ensures reserved.Err? ==> r == Err(reserved.error)
      ensures reserved.Ok? && reserved.value.value > MaxCount() ==> r == Err(IndexOutOfBounds)
      ensures r.Err? ==> cache == old(cache)
      ensures reserved.Ok? && reserved.value.value <= MaxCount() ==> r.Ok?
      ensures r.Ok? ==>
        && fresh(r.value) && r.value.id == reserved.value && cache == old(cache)[r.value.id := r.value]
        && r.value.size == 0 && r.value.blocksCount == 0
        && r.value.iBlockType == (if directory then IBT.DirInlineList else IBT.FileInlineData)
        && r.value.stored == Some(r.value.Current())
      ensures root == old(root) && loads == old(loads) && freed == old(freed)
    {
      if reserved.Err? {
        return Err(reserved.error);
      }
      var id := reserved.value;
      var checked := CheckInodeIdLimit(id);
      if checked.Err? {
        return Err(checked.error);
      }
      var inode: I.Inode;
      if directory {
        inode := new I.Inode.CreateDirectory(id);
      } else {
        inode := new I.Inode.CreateRegularFile(id);
      }
      inode.Flush();
      cache := cache[id := inode];
      return Ok(inode);
    }

    /** `createFile`. */
    method CreateFile(reserved: Result<I.Id>) returns (r: Result<I.Inode>)
      requires inodeSize > 0
      modifies this
      ensures r.Ok? <==> reserved.Ok? && reserved.value.value <= MaxCount()
      ensures r.Ok? ==> fresh(r.value) && r.value.id == reserved.value && r.value.IsRegularFile()
      ensures r.Ok? ==> cache == old(cache)[r.value.id := r.value]
      ensures r.Err? ==> cache == old(cache)
    {
      r := CreateInode(reserved, false);
    }

    /** `createDirectory`. */
    method CreateDirectory(reserved: Result<I.Id>) returns (r: Result<I.Inode>)
      requires inodeSize > 0
      modifies this
      ensures r.Ok? <==> reserved.Ok? && reserved.value.value <= MaxCount()
      ensures r.Ok? ==> fresh(r.value) && r.value.id == reserved.value && r.value.IsDirectory()
      ensures r.Ok? ==> cache == old(cache)[r.value.id := r.value]
      ensures r.Err? ==> cache == old(cache)
      ensures root == old(root)
    {
      r := CreateInode(reserved, true);
    }

    /** `delete(id)`: ids above the limit are out of bounds; otherwise the id goes back to the inode bitmap and
        leaves the cache. */
    method Delete(id: I.Id) returns (r: Result<()>)
      requires inodeSize > 0
      modifies this
      ensures r.Ok? <==> id.value <= MaxCount()
      ensures r.Ok? ==> freed == old(freed) + [id] && cache == old(cache) - {id}
      ensures r.Err? ==> r.error == IndexOutOfBounds && freed == old(freed) && cache == old(cache)
      ensures root == old(root) && loads == old(loads)
    {
      var checked := CheckInodeIdLimit(id);
      if checked.Err? {
        return Err(checked.error);
      }
      freed := freed + [id];
      cache := cache - {id};
      return Ok(());
    }
  }

  /** The constructor without a root: it creates a directory from the inode bitmap's first reservation and
      asserts that it received `ROOT`; an exhausted bitmap is rethrown. */
  method New(numberOfBlocks: int32, blockSize: int32, inodeSize: int32, firstBlock: Block.Id,
             reserved: Result<I.Id>) returns (r: Result<Region>)
    requires inodeSize > 0
    ensures r.Ok? <==> reserved == Ok(I.ROOT) && 1 <= MaxInodeCount(numberOfBlocks, blockSize, inodeSize)
    ensures r.Ok? ==>
      && fresh(r.value) && r.value.root.Some? && r.value.root.value.id == I.ROOT
      && r.value.root.value.IsDirectory() && r.value.cache == map[I.ROOT := r.value.root.value]
  {
    var region := new Region.Empty(numberOfBlocks, blockSize, inodeSize, firstBlock);
    var created := region.CreateDirectory(reserved);
    if created.Err? {
      return Err(created.error);
    }
    if created.value.id != I.ROOT {
      return Err(AssertionFailure);
    }
    region.root := Some(created.value);
    return Ok(region);
  }
}
