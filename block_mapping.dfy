/** The block mapping of an inode: the i-block holds the ids of the first data blocks directly, then the roots
    of up to three indirect trees of depths 0, 1 and 2. Logical block `k` of a file is the `k`-th block of the
    directs followed by the leaves of the trees. */
module BlockMapping {
  import opened Wrappers
  import opened JavaInt
  import opened Bytes
  import opened Fields
  import Block
  import opened IndirectBlock
  import opened IndirectBlockStore

  /** `Inode.MIN_LENGTH`: the bytes of an inode record before its i-block. */
  const INODE_HEADER: int := 16

  /** `numberOfIndirectLevels()`. */
  const INDIRECT_LEVELS: nat := 3

  /** `numberOfDirectBlocks(inodeSize)`: the i-block's id slots less one per indirect level (Java division). */
  function NumberOfDirectBlocks(inodeSize: int): int
  {
    JDiv(inodeSize - INODE_HEADER, ID_LENGTH) - INDIRECT_LEVELS
  }

  /** The direct slots a mapping can fill: none when the formula is negative. */
  function Slots(inodeSize: int): (r: nat)
    ensures r == 0 || r == NumberOfDirectBlocks(inodeSize)
  {
    var n := NumberOfDirectBlocks(inodeSize);
    if n < 0 then 0 else n
  }

  /** The slot counts of the three usual inode sizes. */
  lemma {:induction false} DirectBlocksExamples()
    ensures NumberOfDirectBlocks(32) == 1 && NumberOfDirectBlocks(64) == 9 && NumberOfDirectBlocks(128) == 25
  {
  }

  /** Every direct slot and every indirect root fits in the i-block. */
  lemma {:induction false} SlotsFit(inodeSize: int)
    requires inodeSize >= INODE_HEADER
    ensures ID_LENGTH * (Slots(inodeSize) + INDIRECT_LEVELS) <= inodeSize - INODE_HEADER
      || NumberOfDirectBlocks(inodeSize) < 0
  {
  }

  /** The number of leaves of a row of trees. */
  function SumSizes(ts: seq<Node>): int
  {
    if ts == [] then 0 else SumSizes(ts[..|ts| - 1]) + ts[|ts| - 1].size
  }

  /** The capacity of the first `k` indirect levels: level `i` holds `maxSize(i)` blocks. */
  function SumMax(bs: BlockSize, k: nat): nat
  {
    if k == 0 then 0 else SumMax(bs, k - 1) + MaxSize(bs, k - 1)
  }

  /** How many blocks a mapping can hold: the direct slots and three full indirect levels. */
  function Capacity(bs: BlockSize, inodeSize: int): nat
  {
    Slots(inodeSize) + SumMax(bs, INDIRECT_LEVELS)
  }

  /** The shape `add` keeps: directs fill up before the first indirect level exists, level `i` has depth `i`,
      every level but the last is full, and `blocksCount` counts the directs and the leaves of the levels. */
  ghost predicate Shaped(bs: BlockSize, inodeSize: int, directs: seq<Id>, indirects: seq<Node>, blocksCount: int)
  {
    && |directs| <= Slots(inodeSize)
    && (indirects != [] ==> |directs| == Slots(inodeSize))
    && |indirects| <= INDIRECT_LEVELS
    && (forall i :: 0 <= i < |indirects| ==> indirects[i].Depth() == i && WF(bs, indirects[i]))
    && (forall i :: 0 <= i < |indirects| - 1 ==> indirects[i].size == MaxSize(bs, i))
    && blocksCount == |directs| + SumSizes(indirects)
  }

  // ---------------------------------------------------------------------------------------------------------
  // Lemmas on the shape

  lemma {:induction false} SumSizesStep(ts: seq<Node>, i: nat)
    requires i < |ts|
    ensures SumSizes(ts[..i + 1]) == SumSizes(ts[..i]) + ts[i].size
  {
    assert ts[..i + 1][..i] == ts[..i];
  }

  /** The leaves of well-formed trees number the sum of their sizes. */
  lemma {:induction false} LeavesOfSizes(bs: BlockSize, ts: seq<Node>)
    requires forall i :: 0 <= i < |ts| ==> WF(bs, ts[i])
    ensures |LeavesOf(ts)| == SumSizes(ts)
    decreases |ts|
  {
    if ts != [] {
      LeavesOfSizes(bs, ts[..|ts| - 1]);
      LeavesCount(bs, ts[|ts| - 1]);
    }
  }

  /** A mapping holds `blocksCount` blocks, at most its capacity. */
  lemma {:induction false} MappedCount(bs: BlockSize, inodeSize: int, directs: seq<Id>, indirects: seq<Node>,
                                       blocksCount: int)
    requires Shaped(bs, inodeSize, directs, indirects, blocksCount)
    ensures |directs + LeavesOf(indirects)| == blocksCount <= Capacity(bs, inodeSize)
  {
    LeavesOfSizes(bs, indirects);
    assert SumSizes(indirects) <= SumMax(bs, |indirects|) by {
      PrefixBound(bs, indirects, |indirects|);
      assert indirects[..|indirects|] == indirects;
    }
    SumMaxMono(bs, |indirects|, INDIRECT_LEVELS);
  }

  /** The first `k` levels hold at most their capacity, and exactly that when they are all full. */
  lemma {:induction false} PrefixBound(bs: BlockSize, ts: seq<Node>, k: nat)
    requires k <= |ts|
    requires forall i :: 0 <= i < |ts| ==> ts[i].Depth() == i && WF(bs, ts[i])
    ensures 0 <= SumSizes(ts[..k]) <= SumMax(bs, k)
    ensures (forall i :: 0 <= i < k ==> ts[i].size == MaxSize(bs, i)) ==> SumSizes(ts[..k]) == SumMax(bs, k)
  {
    if k > 0 {
      PrefixBound(bs, ts, k - 1);
      SumSizesStep(ts, k - 1);
      ChildBound(bs, ts[k - 1], k - 1);
    }
  }

  lemma {:induction false} SumMaxMono(bs: BlockSize, j: nat, k: nat)
    requires j <= k
    ensures SumMax(bs, j) <= SumMax(bs, k)
    decreases k
  {
    if j < k {
      SumMaxMono(bs, j, k - 1);
    }
  }

  /** Position `index` of level `i`, the levels before it being full, is block `directs + SumMax(i) + index` of
      the mapping, and it is mapped exactly when it is below that level's size. */
  lemma {:induction false} MappedAt(bs: BlockSize, inodeSize: int, directs: seq<Id>, indirects: seq<Node>,
                                    blocksCount: int, n: int, i: nat, index: int)
    requires Shaped(bs, inodeSize, directs, indirects, blocksCount)
    requires i < |indirects| && 0 <= index < MaxSize(bs, i) && index == n - |directs| - SumMax(bs, i)
    ensures |Leaves(indirects[i])| == indirects[i].size
    ensures && (n < blocksCount <==> index < indirects[i].size)
      && (index < indirects[i].size ==>
            n < |directs + LeavesOf(indirects)| && (directs + LeavesOf(indirects))[n] == Leaves(indirects[i])[index])
  {
    var pre, mid, post := LeavesOf(indirects[..i]), Leaves(indirects[i]), LeavesOf(indirects[i + 1..]);
    LevelLayout(bs, inodeSize, directs, indirects, blocksCount, i);
    if index < |mid| {
      IndexIn(directs, LeavesOf(indirects), pre, mid, post, index);
    }
  }

  /** Where the leaves of level `i` sit among the mapped blocks: after the directs and the full levels before it,
      and only followed by more leaves when level `i` is full. */
  lemma {:induction false} LevelLayout(bs: BlockSize, inodeSize: int, directs: seq<Id>, indirects: seq<Node>,
                                       blocksCount: int, i: nat)
    requires Shaped(bs, inodeSize, directs, indirects, blocksCount) && i < |indirects|
    ensures var pre, mid, post := LeavesOf(indirects[..i]), Leaves(indirects[i]), LeavesOf(indirects[i + 1..]);
      && LeavesOf(indirects) == pre + mid + post
      && |pre| == SumMax(bs, i) && |mid| == indirects[i].size
      && |directs| + |pre| + |mid| + |post| == blocksCount
      && (post != [] ==> indirects[i].size == MaxSize(bs, i))
  {
    var pre, mid, post := LeavesOf(indirects[..i]), Leaves(indirects[i]), LeavesOf(indirects[i + 1..]);
    assert LeavesOf(indirects) == pre + mid + post by {
      LevelSplit(indirects, i);
    }
    assert |pre| == SumMax(bs, i) by {
      PrefixBound(bs, indirects, i);
      LeavesOfSizes(bs, indirects[..i]);
    }
    assert |mid| == indirects[i].size by {
      LeavesCount(bs, indirects[i]);
    }
    assert |directs + LeavesOf(indirects)| == blocksCount by {
      MappedCount(bs, inodeSize, directs, indirects, blocksCount);
    }
    assert post != [] ==> indirects[i].size == MaxSize(bs, i) by {
      assert |post| > 0 ==> i < |indirects| - 1;
    }
  }

  /** The leaves of a row of trees split around tree `i`. */
  lemma {:induction false} LevelSplit(ts: seq<Node>, i: nat)
    requires i < |ts|
    ensures LeavesOf(ts) == LeavesOf(ts[..i]) + Leaves(ts[i]) + LeavesOf(ts[i + 1..])
  {
    var rest := ts[i..];
    assert LeavesOf(ts) == LeavesOf(ts[..i]) + LeavesOf(rest) by {
      LeavesOfSplit(ts, i);
    }
    assert LeavesOf(rest) == Leaves(ts[i]) + LeavesOf(ts[i + 1..]) by {
      LeavesOfSplit(rest, 1);
      assert rest[..1] == [ts[i]];
      assert rest[1..] == ts[i + 1..];
      assert LeavesOf([ts[i]]) == Leaves(ts[i]);
    }
  }

  lemma {:induction false} IndexIn(a: seq<Id>, all: seq<Id>, b: seq<Id>, c: seq<Id>, d: seq<Id>, k: nat)
    requires all == b + c + d && k < |c|
    ensures |a| + |b| + k < |a + all| && (a + all)[|a| + |b| + k] == c[k]
  {
  }

  /** Shorter than `numberOfDirectBlocks`, a mapping has no indirect level yet and its count is its directs. */
  lemma {:induction false} DirectSpot(bs: BlockSize, inodeSize: int, directs: seq<Id>, indirects: seq<Node>, blocksCount: int)
    requires Shaped(bs, inodeSize, directs, indirects, blocksCount)
    requires blocksCount < NumberOfDirectBlocks(inodeSize)
    ensures indirects == [] && |directs| == blocksCount && blocksCount < Capacity(bs, inodeSize)
  {
    PrefixBound(bs, indirects, |indirects|);
    assert indirects[..|indirects|] == indirects;
  }

  /** From `numberOfDirectBlocks` on, the directs are full and the indirect levels hold the rest. */
  lemma {:induction false} IndirectStart(bs: BlockSize, inodeSize: int, directs: seq<Id>, indirects: seq<Node>, blocksCount: int)
    requires Shaped(bs, inodeSize, directs, indirects, blocksCount)
    requires blocksCount >= NumberOfDirectBlocks(inodeSize)
    ensures |directs| == Slots(inodeSize) && blocksCount - |directs| >= 0
  {
    PrefixBound(bs, indirects, |indirects|);
    assert indirects[..|indirects|] == indirects;
  }

  /** Position `index` of level `i` is free exactly at the end of the last level: earlier levels are full. */
  lemma {:induction false} LastLevelSpot(bs: BlockSize, inodeSize: int, directs: seq<Id>, indirects: seq<Node>, blocksCount: int,
                      i: nat, index: int)
    requires Shaped(bs, inodeSize, directs, indirects, blocksCount)
    requires i < |indirects| && 0 <= index < MaxSize(bs, i)
    requires index == blocksCount - |directs| - SumMax(bs, i)
    ensures i == |indirects| - 1 && index == indirects[i].size
  {
    MappedAt(bs, inodeSize, directs, indirects, blocksCount, blocksCount, i, index);
    assert i + 1 == |indirects|;
    assert SumSizes(indirects[..i]) == SumMax(bs, i) by {
      PrefixBound(bs, indirects, i);
    }
    assert indirects[..i + 1] == indirects;
    SumSizesStep(indirects, i);
  }

  /** Past the last level, the levels are all full and the new level starts at position 0. */
  lemma {:induction false} NewLevelSpot(bs: BlockSize, inodeSize: int, directs: seq<Id>, indirects: seq<Node>, blocksCount: int,
                     index: int)
    requires Shaped(bs, inodeSize, directs, indirects, blocksCount)
    requires index == blocksCount - |directs| - SumMax(bs, |indirects|) && index >= 0
    ensures index == 0
    ensures indirects != [] ==> indirects[|indirects| - 1].size == MaxSize(bs, |indirects| - 1)
  {
    var n := |indirects|;
    PrefixBound(bs, indirects, n);
    assert indirects[..n] == indirects;
    assert SumSizes(indirects) == SumMax(bs, n);
    if n > 0 {
      var k := n - 1;
      PrefixBound(bs, indirects, k);
      assert SumSizes(indirects[..k]) == SumMax(bs, k);
      SumSizesStep(indirects, k);
      assert indirects[..k + 1] == indirects;
      assert SumSizes(indirects) == SumMax(bs, k) + indirects[k].size;
    }
  }

  /** Positions below the capacity of level `i` lie below the capacity of the three levels. */
  lemma {:induction false} BelowCapacity(bs: BlockSize, i: nat, index: int)
    requires i < INDIRECT_LEVELS && 0 <= index < MaxSize(bs, i)
    ensures SumMax(bs, i) + index < SumMax(bs, INDIRECT_LEVELS)
  {
    SumMaxMono(bs, i + 1, INDIRECT_LEVELS);
  }

  /** The step of `get` that answers from level `i`: the tree's own `get` gives the mapped block, or
      IndexOutOfBoundsException past the count. */
  lemma {:induction false} GetAt(bs: BlockSize, inodeSize: int, directs: seq<Id>, indirects: seq<Node>, blocksCount: int,
              n: int, i: nat, index: int)
    requires Shaped(bs, inodeSize, directs, indirects, blocksCount)
    requires i < |indirects| && 0 <= index < MaxSize(bs, indirects[i].Depth())
    requires index == n - |directs| - SumMax(bs, i)
    ensures |directs + LeavesOf(indirects)| == blocksCount
    ensures IndirectBlock.Get(bs, indirects[i], index)
         == if n < blocksCount then Ok((directs + LeavesOf(indirects))[n]) else Err(IndexOutOfBounds)
  {
    var t := indirects[i];
    assert t.Depth() == i && WF(bs, t);
    assert |directs + LeavesOf(indirects)| == blocksCount by {
      MappedCount(bs, inodeSize, directs, indirects, blocksCount);
    }
    assert (n < blocksCount <==> index < t.size)
      && (index < t.size ==> (directs + LeavesOf(indirects))[n] == Leaves(t)[index]) by {
      MappedAt(bs, inodeSize, directs, indirects, blocksCount, n, i, index);
    }
    GetLeaf(bs, t, index);
  }

  /** What `get` computes: a direct slot (IndexOutOfBoundsException below 0), or else the first level whose
      capacity covers what is left of the position. */
  function Lookup(bs: BlockSize, directs: seq<Id>, indirects: seq<Node>, n: int): Result<Id>
  {
    if n < |directs| then (if n < 0 then Err(IndexOutOfBounds) else Ok(directs[n]))
    else LookupFrom(bs, indirects, 0, n - |directs|)
  }

  function LookupFrom(bs: BlockSize, ts: seq<Node>, i: nat, index: int): Result<Id>
    decreases |ts| - i
  {
    if i >= |ts| then Err(IndexOutOfBounds)
    else if index < MaxSize(bs, ts[i].Depth()) then IndirectBlock.Get(bs, ts[i], index)
    else LookupFrom(bs, ts, i + 1, index - MaxSize(bs, ts[i].Depth()))
  }

  /** `get(n)` answers with block `n` of the mapping, and raises IndexOutOfBoundsException outside
      `0..blocksCount`. */
  lemma {:induction false} LookupMapped(bs: BlockSize, inodeSize: int, directs: seq<Id>, indirects: seq<Node>, blocksCount: int,
                     n: int)
    requires Shaped(bs, inodeSize, directs, indirects, blocksCount)
    ensures |directs + LeavesOf(indirects)| == blocksCount
    ensures Lookup(bs, directs, indirects, n)
      == if 0 <= n < blocksCount then Ok((directs + LeavesOf(indirects))[n]) else Err(IndexOutOfBounds)
  {
    MappedCount(bs, inodeSize, directs, indirects, blocksCount);
    if n >= |directs| {
      LookupLevels(bs, inodeSize, directs, indirects, blocksCount, n, 0, n - |directs|);
    }
  }

  lemma {:induction false} LookupLevels(bs: BlockSize, inodeSize: int, directs: seq<Id>, indirects: seq<Node>,
                                        blocksCount: int, n: int, i: nat, index: int)
    requires Shaped(bs, inodeSize, directs, indirects, blocksCount)
    requires i <= |indirects| && index == n - |directs| - SumMax(bs, i) && index >= 0
    ensures |directs + LeavesOf(indirects)| == blocksCount
    ensures LookupFrom(bs, indirects, i, index)
      == if n < blocksCount then Ok((directs + LeavesOf(indirects))[n]) else Err(IndexOutOfBounds)
    decreases |indirects| - i
  {
    MappedCount(bs, inodeSize, directs, indirects, blocksCount);
    if i == |indirects| {
      GetPast(bs, inodeSize, directs, indirects, blocksCount, index);
    } else {
      LookupStep(bs, indirects, i, index);
      assert indirects[i].Depth() == i;
      var m := MaxSize(bs, i);
      if index < m {
        GetAt(bs, inodeSize, directs, indirects, blocksCount, n, i, index);
      } else {
        LookupLevels(bs, inodeSize, directs, indirects, blocksCount, n, i + 1, index - m);
      }
    }
  }

  lemma {:induction false} LookupStep(bs: BlockSize, ts: seq<Node>, i: nat, index: int)
    requires i < |ts|
    ensures LookupFrom(bs, ts, i, index)
      == if index < MaxSize(bs, ts[i].Depth()) then IndirectBlock.Get(bs, ts[i], index)
         else LookupFrom(bs, ts, i + 1, index - MaxSize(bs, ts[i].Depth()))
  {
  }

  /** Past the capacity of every level there is, `get` finds no block. */
  lemma {:induction false} GetPast(bs: BlockSize, inodeSize: int, directs: seq<Id>, indirects: seq<Node>, blocksCount: int,
                index: int)
    requires Shaped(bs, inodeSize, directs, indirects, blocksCount)
    requires index >= 0
    ensures |directs| + SumMax(bs, |indirects|) + index >= blocksCount
  {
    PrefixBound(bs, indirects, |indirects|);
    assert indirects[..|indirects|] == indirects;
  }

  /** Where `add` puts the next block: the level it stops at and what is left of the position there. The
      search walks the levels as the source's loop does, stopping at the first level that does not exist yet
      or whose capacity covers the position; `Spot(INDIRECT_LEVELS, _)` means no level took it. */
  datatype Spot = Spot(level: nat, index: int)

  function Seek(bs: BlockSize, ts: seq<Node>, i: nat, index: int): Spot
    decreases INDIRECT_LEVELS - i
  {
    if i >= INDIRECT_LEVELS || |ts| <= i || index < MaxSize(bs, ts[i].Depth()) then Spot(i, index)
    else Seek(bs, ts, i + 1, index - MaxSize(bs, ts[i].Depth()))
  }

  /** When level `k` sits at depth `k`, the search stops at an existing level only if the position fits it, and
      what is left of the position is always `n` less the capacity of the levels before the one it stops at. */
  lemma {:induction false} SeekSpot(bs: BlockSize, ts: seq<Node>, n: int, i: nat, index: int)
    requires |ts| <= INDIRECT_LEVELS && forall k :: 0 <= k < |ts| ==> ts[k].Depth() == k
    requires i <= |ts| && index == n - SumMax(bs, i) && index >= 0
    ensures var s := Seek(bs, ts, i, index);
      && i <= s.level <= |ts| && s.level <= INDIRECT_LEVELS
      && s.index == n - SumMax(bs, s.level) && s.index >= 0
      && (s.level < |ts| ==> s.index < MaxSize(bs, s.level))
    decreases INDIRECT_LEVELS - i
  {
    if i < |ts| {
      assert ts[i].Depth() == i;
    }
    if i < INDIRECT_LEVELS && i < |ts| && MaxSize(bs, i) <= index {
      SeekSpot(bs, ts, n, i + 1, index - MaxSize(bs, i));
    }
  }

  /** When every level is passed, the mapping is at capacity. */
  lemma {:induction false} AddFull(bs: BlockSize, inodeSize: int, directs: seq<Id>, indirects: seq<Node>, blocksCount: int,
                index: int)
    requires Shaped(bs, inodeSize, directs, indirects, blocksCount) && |directs| == Slots(inodeSize)
    requires index == blocksCount - |directs| - SumMax(bs, INDIRECT_LEVELS) && index >= 0
    ensures blocksCount == Capacity(bs, inodeSize)
  {
    MappedCount(bs, inodeSize, directs, indirects, blocksCount);
  }

  /** When the search stops past the last level, a new level of one leaf is created: it fails only when the
      allocator runs out, the source's assertion that the position fits the new level holds, and the result
      is the mapping with the block appended. */
  lemma {:induction false} AddNewLevel(bs: BlockSize, inodeSize: int, directs: seq<Id>, indirects: seq<Node>, blocksCount: int,
                    b: Id, free: seq<Id>, index: int)
    requires Shaped(bs, inodeSize, directs, indirects, blocksCount) && |directs| == Slots(inodeSize)
    requires |indirects| < INDIRECT_LEVELS
    requires index == blocksCount - |directs| - SumMax(bs, |indirects|) && index >= 0
    ensures blocksCount < Capacity(bs, inodeSize)
    ensures var r := Init(|indirects|, b, free);
      && (r.Err? ==> r.error == BitmapRegionOutOfMemory)
      && (r.Ok? ==>
            && index < MaxSize(bs, r.value.node.Depth())
            && Shaped(bs, inodeSize, directs, indirects + [r.value.node], blocksCount + 1)
            && LeavesOf(indirects + [r.value.node]) == LeavesOf(indirects) + [b])
  {
    var i := |indirects|;
    NewLevelSpot(bs, inodeSize, directs, indirects, blocksCount, index);
    BelowCapacity(bs, i, index);
    InitChain(i, b, free);
    if Init(i, b, free).Ok? {
      var t := Init(i, b, free).value.node;
      InitShape(bs, i, b, free);
      PushLevel(bs, inodeSize, directs, indirects, blocksCount, t, b);
    }
  }

  /** When the search stops at an existing level, that level is the last one and the block is appended to it:
      this fails only when the allocator runs out. */
  lemma {:induction false} AddLastLevel(bs: BlockSize, inodeSize: int, directs: seq<Id>, indirects: seq<Node>, blocksCount: int,
                     b: Id, free: seq<Id>, i: nat, index: int)
    requires Shaped(bs, inodeSize, directs, indirects, blocksCount)
    requires i < |indirects| && 0 <= index < MaxSize(bs, i)
    requires index == blocksCount - |directs| - SumMax(bs, i)
    ensures blocksCount < Capacity(bs, inodeSize) && i == |indirects| - 1
    ensures var r := IndirectBlock.Add(bs, indirects[i], b, free);
      && (r.Err? ==> r.error == BitmapRegionOutOfMemory)
      && (r.Ok? ==>
            && Shaped(bs, inodeSize, directs, indirects[i := r.value.node], blocksCount + 1)
            && LeavesOf(indirects[i := r.value.node]) == LeavesOf(indirects) + [b])
  {
    var t := indirects[i];
    assert t.Depth() == i && WF(bs, t);
    LastLevelSpot(bs, inodeSize, directs, indirects, blocksCount, i, index);
    BelowCapacity(bs, i, index);
    AddAppends(bs, t, b, free);
    if IndirectBlock.Add(bs, t, b, free).Ok? {
      GrowLast(bs, inodeSize, directs, indirects, blocksCount, IndirectBlock.Add(bs, t, b, free).value.node, b);
    }
  }

  lemma {:induction false} AppendAfter<T>(directs: seq<T>, leaves: seq<T>, grown: seq<T>, b: T)
    requires grown == leaves + [b]
    ensures directs + grown == directs + leaves + [b]
  {
  }

  /** Appending a direct keeps the shape. */
  lemma {:induction false} PushDirect(bs: BlockSize, inodeSize: int, directs: seq<Id>, blocksCount: int, b: Id)
    requires Shaped(bs, inodeSize, directs, [], blocksCount) && blocksCount < NumberOfDirectBlocks(inodeSize)
    ensures Shaped(bs, inodeSize, directs + [b], [], blocksCount + 1)
  {
  }

  /** Appending a new level of one leaf after full levels keeps the shape and appends the leaf. */
  lemma {:induction false} PushLevel(bs: BlockSize, inodeSize: int, directs: seq<Id>, indirects: seq<Node>, blocksCount: int,
                  t: Node, b: Id)
    requires Shaped(bs, inodeSize, directs, indirects, blocksCount)
    requires |indirects| < INDIRECT_LEVELS && |directs| == Slots(inodeSize)
    requires indirects != [] ==> indirects[|indirects| - 1].size == MaxSize(bs, |indirects| - 1)
    requires WF(bs, t) && t.Depth() == |indirects| && t.size == 1 && Leaves(t) == [b]
    ensures Shaped(bs, inodeSize, directs, indirects + [t], blocksCount + 1)
    ensures LeavesOf(indirects + [t]) == LeavesOf(indirects) + [b]
  {
    assert (indirects + [t])[..|indirects|] == indirects;
  }

  /** Replacing the last level by one with a leaf appended keeps the shape and appends the leaf. */
  lemma {:induction false} GrowLast(bs: BlockSize, inodeSize: int, directs: seq<Id>, indirects: seq<Node>, blocksCount: int,
                 t: Node, b: Id)
    requires Shaped(bs, inodeSize, directs, indirects, blocksCount)
    requires indirects != [] && Appended(bs, indirects[|indirects| - 1], t, b)
    ensures Shaped(bs, inodeSize, directs, indirects[|indirects| - 1 := t], blocksCount + 1)
    ensures LeavesOf(indirects[|indirects| - 1 := t]) == LeavesOf(indirects) + [b]
  {
    var k := |indirects| - 1;
    var ind1 := indirects[k := t];
    assert ind1[..k] == indirects[..k];
    assert Leaves(t) == Leaves(indirects[k]) + [b];
  }
}
