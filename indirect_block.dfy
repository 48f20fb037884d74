/** Indirect blocks: trees of pointer blocks that extend a block mapping past its direct slots. A block of
    depth 0 points at leaf blocks (data or directory blocks); a block of depth d > 0 points at blocks of depth
    d - 1. The tree is filled from the left, so every child but the last is full. */
module IndirectBlock {
  import opened Wrappers
  import opened JavaInt
  import opened Bytes
  import opened Fields
  import Block

  type Id = Block.Id

  /** A block size of the file system: a Java `int` holding a whole number of block ids (the source asserts
      that every pointer block is aligned to the id size). */
  type BlockSize = bs: int | 4 <= bs < 0x8000_0000 && bs % 4 == 0 witness 4096

  /** `Block.Id.LENGTH`: an id takes four bytes. */
  const ID_LENGTH: nat := 4

  /** `Integer.MAX_VALUE`: where the `(int)` cast of a large `double` saturates. */
  const INT_MAX: nat := 0x7FFF_FFFF

  /** `idsPerBlock`: how many ids one pointer block holds. */
  function IdsPerBlock(bs: BlockSize): (r: nat)
    ensures 1 <= r && ID_LENGTH * r == bs
  {
    bs / ID_LENGTH
  }

  function Pow(b: nat, e: nat): (r: nat)
    ensures b >= 1 ==> r >= 1
  {
    if e == 0 then 1 else b * Pow(b, e - 1)
  }

  /** `maxSize(bs, depth)`: how many leaves a tree of this depth can reach, `idsPerBlock^(depth + 1)`. The
      source computes the power as a `double` and casts it to `int`, which saturates at `Integer.MAX_VALUE`. */
  function MaxSize(bs: BlockSize, depth: int): (r: nat)
    requires depth >= -1
    ensures 1 <= r <= INT_MAX
  {
    var p := Pow(IdsPerBlock(bs), depth + 1);
    if p > INT_MAX then INT_MAX else p
  }

  /** `a * m`, spelled out as repeated addition. */
  function Times(a: nat, m: int): (r: int)
    ensures m >= 0 ==> r >= 0
  {
    if a == 0 then 0 else Times(a - 1, m) + m
  }

  /** `Integer.divideUnsigned` / `Integer.remainderUnsigned` read a negative `int` as its unsigned value. */
  function Unsigned(x: int): nat { if x < 0 then x % TWO32 else x }

  /** An indirect block. `size` is the number of leaves it reaches; `dirty` and `dirtyBlocks` record what
      `flush` has to write: this block, and the blocks below it that changed. */
  datatype Node =
    | Bottom(id: Id, leaves: seq<Id>, size: int, dirty: bool, dirtyBlocks: seq<Id>)
    | Inner(id: Id, depth: nat, children: seq<Node>, size: int, dirty: bool, dirtyBlocks: seq<Id>)
  {
    function Depth(): nat { if Bottom? then 0 else depth }

    /** `isDirty`. */
    predicate IsDirty() { dirty || |dirtyBlocks| > 0 }

    /** The ids this block stores, in order. */
    function Pointers(): seq<Id>
    {
      match this
      case Bottom(_, ls, _, _, _) => ls
      case Inner(_, _, cs, _, _, _) => IdsOf(cs)
    }
  }

  /** The ids of a sequence of blocks. */
  function IdsOf(cs: seq<Node>): (r: seq<Id>)
    ensures |r| == |cs| && forall i :: 0 <= i < |cs| ==> r[i] == cs[i].id
  {
    seq(|cs|, i requires 0 <= i < |cs| => cs[i].id)
  }

  /** The shape every indirect block keeps: at most `idsPerBlock` pointers, children one level down, every
      child but the last full, and `size` the number of leaves reached, never above `maxSize`. */
  ghost predicate WF(bs: BlockSize, n: Node)
  {
    match n
    case Bottom(_, ls, size, _, _) => |ls| <= IdsPerBlock(bs) && size == |ls|
    case Inner(_, d, cs, size, _, _) =>
      && d >= 1 && 1 <= |cs| <= IdsPerBlock(bs)
      && (forall i :: 0 <= i < |cs| ==> cs[i].Depth() == d - 1 && WF(bs, cs[i]))
      && (forall i :: 0 <= i < |cs| - 1 ==> cs[i].size == MaxSize(bs, d - 1))
      && size == Times(|cs| - 1, MaxSize(bs, d - 1)) + cs[|cs| - 1].size
      && size <= MaxSize(bs, d)
  }

  /** The leaf ids a tree reaches, from left to right. */
  function Leaves(n: Node): seq<Id>
  {
    match n
    case Bottom(_, ls, _, _, _) => ls
    case Inner(_, _, cs, _, _, _) => LeavesOf(cs)
  }

  function LeavesOf(cs: seq<Node>): seq<Id>
  {
    if cs == [] then [] else LeavesOf(cs[..|cs| - 1]) + Leaves(cs[|cs| - 1])
  }

  /** The ids of the pointer blocks of a tree, each block before the blocks below it. */
  function Blocks(n: Node): seq<Id>
  {
    match n
    case Bottom(id, _, _, _, _) => [id]
    case Inner(id, _, cs, _, _, _) => [id] + BlocksOf(cs)
  }

  function BlocksOf(cs: seq<Node>): seq<Id>
  {
    if cs == [] then [] else BlocksOf(cs[..|cs| - 1]) + Blocks(cs[|cs| - 1])
  }

  /** A new block with what remains of the ids the allocator (`reserveBlock`) hands out, in order. */
  datatype Built = Built(node: Node, free: seq<Id>)

  /** `init(depth, leaf)`: a chain of `depth + 1` new blocks, each holding one pointer, the last one pointing
      at the leaf. The chain below is built first, so the deepest block takes the first free id. */
  function Init(depth: int, leaf: Id, free: seq<Id>): Result<Built>
    decreases depth
  {
    if depth < 0 then Err(IllegalArgument)
    else if depth == 0 then
      if free == [] then Err(BitmapRegionOutOfMemory)
      else Ok(Built(Bottom(free[0], [leaf], 1, true, [leaf]), free[1..]))
    else
      match Init(depth - 1, leaf, free)
      case Err(e) => Err(e)
      case Ok(below) =>
        if below.free == [] then Err(BitmapRegionOutOfMemory)
        else Ok(Built(Inner(below.free[0], depth, [below.node], 1, true, [below.node.id]), below.free[1..]))
  }

  /** `get(index)`: the leaf at a position, found by descending into child `index / maxSize(depth - 1)`. */
  function Get(bs: BlockSize, n: Node, index: int): Result<Id>
  {
    if index < 0 || index >= n.size then Err(IndexOutOfBounds)
    else
      match n
      case Bottom(_, ls, _, _, _) =>
        if index >= IdsPerBlock(bs) || index >= |ls| then Err(IndexOutOfBounds) else Ok(ls[index])
      case Inner(_, d, cs, _, _, _) =>
        var m := MaxSize(bs, d - 1);
        if index / m >= |cs| then Err(IndexOutOfBounds) else Get(bs, cs[index / m], index % m)
  }

  /** The result of `add(leaf)`: the position the leaf was added at and the new block. */
  datatype Added = Added(index: int, node: Node, free: seq<Id>)

  /** `add(leaf)`: refuses a full tree, otherwise appends the leaf at position `size`. */
  function Add(bs: BlockSize, n: Node, leaf: Id, free: seq<Id>): Result<Added>
  {
    if n.size + 1 > MaxSize(bs, n.Depth()) then Err(IndirectBlockNotEnoughSpace)
    else
      match AddAt(bs, n, n.size, leaf, free)
      case Err(e) => Err(e)
      case Ok(b) => Ok(Added(n.size, b.node, b.free))
  }

  /** The private `add(index, leaf)`: descends into the child that holds the position, or starts a new chain
      when there is no such child yet. */
  function AddAt(bs: BlockSize, n: Node, index: int, leaf: Id, free: seq<Id>): Result<Built>
  {
    match n
    case Bottom(_, ls, size, _, dbs) =>
      if index >= IdsPerBlock(bs) then Err(IndexOutOfBounds)
      else Ok(Built(n.(leaves := ls + [leaf], dirtyBlocks := dbs + [leaf], size := size + 1), free))
    case Inner(_, d, cs, size, _, dbs) =>
      var m := MaxSize(bs, d - 1);
      var offset := Unsigned(index) / m;
      if offset < |cs| then
        match AddAt(bs, cs[offset], Unsigned(index) % m, leaf, free)
        case Err(e) => Err(e)
        case Ok(b) =>
          Ok(Built(n.(children := cs[offset := b.node], dirtyBlocks := dbs + [b.node.id], size := size + 1), b.free))
      else
        match Init(d - 1, leaf, free)
        case Err(e) => Err(e)
        case Ok(b) =>
          Ok(Built(n.(children := cs + [b.node], dirtyBlocks := dbs + [b.node.id], size := size + 1), b.free))
  }

  /** What `addPointer` appends: a leaf id to a block of depth 0, a subtree to a deeper one. */
  datatype Pointer = LeafPointer(leaf: Id) | ChildPointer(child: Node)

  /** `addPointer(pointer)`: refuses a block that already holds `idsPerBlock` pointers, otherwise appends
      the pointer and counts the leaves it brings. */
  function AddPointer(bs: BlockSize, n: Node, p: Pointer): Result<Node>
    requires n.Bottom? <==> p.LeafPointer?
  {
    if |n.Pointers()| + 1 > IdsPerBlock(bs) then Err(IllegalState)
    else
      match p
      case LeafPointer(leaf) => Ok(n.(leaves := n.leaves + [leaf], size := n.size + 1))
      case ChildPointer(c) => Ok(n.(children := n.children + [c], size := n.size + c.size))
  }

  /** `delete`: the ids handed back to the allocator, in order. A block frees itself first; a block of depth
      0 then frees its leaves, a deeper one deletes its children from left to right. */
  function Freed(n: Node): seq<Id>
  {
    match n
    case Bottom(id, ls, _, _, _) => [id] + ls
    case Inner(id, _, cs, _, _, _) => [id] + FreedOf(cs)
  }

  function FreedOf(cs: seq<Node>): seq<Id>
  {
    if cs == [] then [] else FreedOf(cs[..|cs| - 1]) + Freed(cs[|cs| - 1])
  }

  /** One more level freed. */
  lemma {:induction false} FreedOfStep(cs: seq<Node>, j: nat)
    requires j < |cs|
    ensures FreedOf(cs[..j + 1]) == FreedOf(cs[..j]) + Freed(cs[j])
  {
    assert cs[..j + 1][..j] == cs[..j];
  }


  // ---------------------------------------------------------------------------------------------------------
  // Arithmetic of positions

  lemma {:induction false} TimesIsMul(a: nat, m: int)
    ensures Times(a, m) == a * m
  {
    if a > 0 {
      TimesIsMul(a - 1, m);
      assert a * m == (a - 1) * m + m;
    }
  }

  /** One more level multiplies the capacity by `idsPerBlock`, up to the saturation. */
  lemma {:induction false} MaxSizeStep(bs: BlockSize, d: nat)
    ensures MaxSize(bs, d - 1) <= MaxSize(bs, d) <= IdsPerBlock(bs) * MaxSize(bs, d - 1)
  {
    var p := IdsPerBlock(bs);
    var below := Pow(p, d);
    assert Pow(p, d + 1) == p * below;
    assert below <= p * below;
  }

  /** A tree one level deeper than one of capacity `m` that is still below its own capacity with `cnt` full
      children has room for another child. */
  lemma {:induction false} RoomForChild(bs: BlockSize, d: nat, cnt: nat)
    requires d >= 1 && Times(cnt, MaxSize(bs, d - 1)) < MaxSize(bs, d)
    ensures cnt < IdsPerBlock(bs)
  {
    MaxSizeStep(bs, d);
    TimesIsMul(cnt, MaxSize(bs, d - 1));
    LessFactor(cnt, IdsPerBlock(bs), MaxSize(bs, d - 1));
  }

  lemma {:induction false} LessFactor(a: int, b: int, m: int)
    requires m > 0 && a * m < b * m
    ensures a < b
  {
    if a >= b {
      MulLe(b, a, m);
    }
  }

  /** A position below `(cnt - 1) * m + last` lies in run `i / m` of length `m`, at offset `i % m`. */
  lemma {:induction false} Locate(i: int, m: int, cnt: nat, last: int)
    requires m > 0 && cnt >= 1 && 0 <= last <= m && 0 <= i < Times(cnt - 1, m) + last
    ensures 0 <= i / m < cnt && 0 <= i % m < m && i == Times(i / m, m) + i % m
    ensures i / m == cnt - 1 ==> i % m < last
  {
    var k := i / m;
    assert i == k * m + i % m;
    TimesIsMul(cnt - 1, m);
    TimesIsMul(k, m);
    if k >= cnt {
      MulLe(cnt - 1, k, m);
      MulLe(cnt, k, m);
      assert false;
    }
  }

  /** Where `add` puts the next leaf: after `cnt - 1` full runs and a last run of `last`, the next position is
      in the last run while it has room, and starts a new run when it is full. */
  lemma {:induction false} NextSpot(m: int, cnt: nat, last: int)
    requires m > 0 && cnt >= 1 && 0 <= last <= m
    ensures var size := Times(cnt - 1, m) + last;
      && 0 <= size && Unsigned(size) == size
      && (last < m ==> size / m == cnt - 1 && size % m == last)
      && (last == m ==> size / m == cnt && size == Times(cnt, m))
  {
    var size := Times(cnt - 1, m) + last;
    TimesIsMul(cnt - 1, m);
    if last < m {
      DivBetween(size, m, cnt - 1);
    } else {
      assert size == cnt * m;
      DivBetween(size, m, cnt);
    }
  }

  /** The quotient and remainder of a position that lies in the `k`-th run of `m`. */
  lemma {:induction false} DivBetween(i: int, m: int, k: int)
    requires m > 0 && k * m <= i < (k + 1) * m
    ensures i / m == k && i % m == i - k * m
  {
    var q := i / m;
    if q < k {
      MulLe(q + 1, k, m);
      assert false;
    } else if q > k {
      MulLe(k + 1, q, m);
      assert false;
    }
  }

  lemma {:induction false} MulLe(a: int, b: int, m: int)
    requires a <= b && m >= 0
    ensures a * m <= b * m && (a + 1) * m == a * m + m
  {
    assert b * m == a * m + (b - a) * m;
  }

  // ---------------------------------------------------------------------------------------------------------
  // Properties

  /** `init` fails for a negative depth, and when the allocator runs out before the chain is complete;
      otherwise it takes `depth + 1` ids, the last of them for the block it returns. */
  lemma {:induction false} InitChain(depth: int, leaf: Id, free: seq<Id>)
    ensures depth < 0 ==> Init(depth, leaf, free) == Err(IllegalArgument)
    ensures 0 <= depth && |free| <= depth ==> Init(depth, leaf, free) == Err(BitmapRegionOutOfMemory)
    ensures Init(depth, leaf, free).Ok? <==> 0 <= depth < |free|
    ensures Init(depth, leaf, free).Ok? ==>
      var b := Init(depth, leaf, free).value;
      b.node.id == free[depth] && b.free == free[depth + 1..]
    decreases depth
  {
    if depth > 0 {
      InitChain(depth - 1, leaf, free);
      if depth < |free| {
        assert free[depth..][1..] == free[depth + 1..];
      }
    }
  }

  /** The chain `init` builds is a well-formed tree of the requested depth, dirty, reaching exactly the leaf,
      and made of the ids it took from the allocator. */
  lemma {:induction false} InitShape(bs: BlockSize, depth: int, leaf: Id, free: seq<Id>)
    requires Init(depth, leaf, free).Ok?
    ensures var b := Init(depth, leaf, free).value;
      && WF(bs, b.node) && b.node.Depth() == depth && b.node.size == 1 && Leaves(b.node) == [leaf]
      && b.node.IsDirty()
    decreases depth
  {
    if depth > 0 {
      var below := Init(depth - 1, leaf, free).value;
      InitShape(bs, depth - 1, leaf, free);
      var node := Init(depth, leaf, free).value.node;
      assert node.children == [below.node];
      assert LeavesOf([below.node]) == Leaves(below.node);
      assert WF(bs, node) by {
        assert Times(0, MaxSize(bs, depth - 1)) == 0;
      }
    } else {
      assert Pow(IdsPerBlock(bs), 1) == IdsPerBlock(bs);
    }
  }

  /** The blocks of the chain `init` builds are the ids it took from the allocator. */
  lemma {:induction false} InitBlocks(depth: int, leaf: Id, free: seq<Id>)
    requires Init(depth, leaf, free).Ok?
    ensures depth < |free| && multiset(Blocks(Init(depth, leaf, free).value.node)) == multiset(free[..depth + 1])
    decreases depth
  {
    InitChain(depth, leaf, free);
    if depth > 0 {
      InitChain(depth - 1, leaf, free);
      InitBlocks(depth - 1, leaf, free);
      var below := Init(depth - 1, leaf, free).value;
      assert Init(depth, leaf, free).value.node == Inner(free[depth], depth, [below.node], 1, true, [below.node.id]);
      ParentBlocks(free, depth, below.node);
    } else {
      assert free[..1] == [free[0]];
    }
  }

  /** The blocks of a new parent `free[depth]` over a chain made of `free[..depth]`. */
  lemma ParentBlocks(free: seq<Id>, depth: nat, below: Node)
    requires depth < |free| && multiset(Blocks(below)) == multiset(free[..depth])
    ensures multiset(Blocks(Inner(free[depth], depth, [below], 1, true, [below.id]))) == multiset(free[..depth + 1])
  {
    var x, a, b := free[depth], free[..depth], Blocks(below);
    assert BlocksOf([below]) == b;
    assert Blocks(Inner(x, depth, [below], 1, true, [below.id])) == [x] + b;
    TakeOneMore(free, depth);
    assert multiset([x] + b) == multiset([x]) + multiset(b);
    assert multiset(a + [x]) == multiset(a) + multiset([x]);
  }

  /** The prefix of length `i + 1` is the prefix of length `i` followed by `s[i]`. */
  lemma TakeOneMore(s: seq<Id>, i: nat)
    requires i < |s|
    ensures s[..i + 1] == s[..i] + [s[i]]
  {
    assert forall j :: 0 <= j <= i ==> s[..i + 1][j] == (s[..i] + [s[i]])[j];
  }

  /** A well-formed tree of depth `d` reaches at most `maxSize(d)` leaves. */
  lemma {:induction false} ChildBound(bs: BlockSize, c: Node, d: nat)
    requires WF(bs, c) && c.Depth() == d
    ensures 0 <= c.size <= MaxSize(bs, d)
  {
    if c.Bottom? {
      assert Pow(IdsPerBlock(bs), 1) == IdsPerBlock(bs);
    } else {
      assert WF(bs, c.children[|c.children| - 1]);
      ChildBound(bs, c.children[|c.children| - 1], d - 1);
    }
  }

  /** The `size` of a well-formed tree counts its leaves. */
  lemma {:induction false} LeavesCount(bs: BlockSize, n: Node)
    requires WF(bs, n)
    ensures |Leaves(n)| == n.size
    decreases n
  {
    if n.Inner? {
      var cs := n.children;
      var k := |cs| - 1;
      assert WF(bs, cs[k]);
      LeavesCount(bs, cs[k]);
      LeavesOfFull(bs, cs[..k], MaxSize(bs, n.depth - 1));
    }
  }

  /** A row of full children reaches `m` leaves per child. */
  lemma {:induction false} LeavesOfFull(bs: BlockSize, cs: seq<Node>, m: int)
    requires forall i :: 0 <= i < |cs| ==> WF(bs, cs[i]) && cs[i].size == m
    ensures |LeavesOf(cs)| == Times(|cs|, m)
    decreases cs
  {
    if cs != [] {
      var k := |cs| - 1;
      LeavesCount(bs, cs[k]);
      LeavesOfFull(bs, cs[..k], m);
    }
  }

  /** The leaves of a row of children, split between the first `k` children and the rest. */
  lemma {:induction false} LeavesOfSplit(cs: seq<Node>, k: nat)
    requires k <= |cs|
    ensures LeavesOf(cs) == LeavesOf(cs[..k]) + LeavesOf(cs[k..])
    decreases |cs|
  {
    if k < |cs| {
      var j := |cs| - 1;
      LeavesOfSplit(cs[..j], k);
      assert cs[..j][..k] == cs[..k];
      assert cs[k..][..|cs[k..]| - 1] == cs[..j][k..];
    } else {
      assert cs[..k] == cs;
    }
  }

  /** Leaf `r` of child `k`, all children before it being full, is leaf `k * m + r` of the row. */
  lemma {:induction false} LeavesOfAt(bs: BlockSize, cs: seq<Node>, m: int, k: nat, r: nat)
    requires m >= 0 && k < |cs| && r < |Leaves(cs[k])|
    requires forall j :: 0 <= j < k ==> WF(bs, cs[j]) && cs[j].size == m
    ensures Times(k, m) + r < |LeavesOf(cs)| && LeavesOf(cs)[Times(k, m) + r] == Leaves(cs[k])[r]
  {
    LeavesOfSplit(cs, k);
    LeavesOfFull(bs, cs[..k], m);
    var rest := cs[k..];
    LeavesOfSplit(rest, 1);
    assert rest[..1] == [cs[k]];
    assert LeavesOf([cs[k]]) == Leaves(cs[k]);
  }

  /** Position `i` of an inner block lies in child `i / m` at `i % m`, `m` being a full child's size. */
  lemma ChildPosition(bs: BlockSize, n: Node, i: int)
    requires WF(bs, n) && n.Inner? && 0 <= i < n.size
    ensures var m, cs := MaxSize(bs, n.depth - 1), n.children;
            i / m < |cs| && i % m < cs[i / m].size && i == Times(i / m, m) + i % m
  {
    var m, cs := MaxSize(bs, n.depth - 1), n.children;
    var last := cs[|cs| - 1];
    assert WF(bs, last);
    ChildBound(bs, last, n.depth - 1);
    Locate(i, m, |cs|, last.size);
  }

  /** `get` answers with the leaf at the position, and raises IndexOutOfBoundsException outside `0..size`. */
  lemma {:induction false} GetLeaf(bs: BlockSize, n: Node, i: int)
    requires WF(bs, n)
    ensures |Leaves(n)| == n.size
    ensures Get(bs, n, i) == if 0 <= i < n.size then Ok(Leaves(n)[i]) else Err(IndexOutOfBounds)
    decreases n
  {
    LeavesCount(bs, n);
    if 0 <= i < n.size && n.Inner? {
      var k, r := GetStep(bs, n, i);
      GetLeaf(bs, n.children[k], r);
      assert Get(bs, n, i) == Get(bs, n.children[k], r);
    }
  }

  /** One step of `get` in an inner block: the child `k` it descends into and the position `r` there. */
  lemma GetStep(bs: BlockSize, n: Node, i: int) returns (k: nat, r: nat)
    requires WF(bs, n) && n.Inner? && 0 <= i < n.size
    ensures var m := MaxSize(bs, n.depth - 1); k == i / m && r == i % m
    ensures k < |n.children| && WF(bs, n.children[k]) && r < n.children[k].size
    ensures |Leaves(n)| == n.size && |Leaves(n.children[k])| == n.children[k].size && Leaves(n)[i] == Leaves(n.children[k])[r]
  {
    LeavesCount(bs, n);
    var m := MaxSize(bs, n.depth - 1);
    var cs := n.children;
    k, r := i / m, i % m;
    ChildPosition(bs, n, i);
    assert WF(bs, cs[k]);
    LeavesCount(bs, cs[k]);
    LeavesOfAt(bs, cs, m, k, r);
  }

  /** The new state of a tree `n1` that `add` made from `n` by appending `leaf`. */
  ghost predicate Appended(bs: BlockSize, n: Node, n1: Node, leaf: Id)
  {
    && WF(bs, n1) && Leaves(n1) == Leaves(n) + [leaf]
    && n1.size == n.size + 1 && n1.id == n.id && n1.Depth() == n.Depth() && n1.IsDirty()
  }

  /** `add` on a well-formed tree raises NotEnoughSpaceException exactly when the tree is full; otherwise it
      fails only when the allocator runs out, or it returns the old size and appends the leaf, keeping the
      shape. */
  lemma {:induction false} AddAppends(bs: BlockSize, n: Node, leaf: Id, free: seq<Id>)
    requires WF(bs, n)
    ensures Add(bs, n, leaf, free) == Err(IndirectBlockNotEnoughSpace) <==> n.size == MaxSize(bs, n.Depth())
    ensures Add(bs, n, leaf, free).Err? && n.size < MaxSize(bs, n.Depth()) ==>
      Add(bs, n, leaf, free).error == BitmapRegionOutOfMemory
    ensures Add(bs, n, leaf, free).Ok? ==>
      Add(bs, n, leaf, free).value.index == n.size && Appended(bs, n, Add(bs, n, leaf, free).value.node, leaf)
  {
    ChildBound(bs, n, n.Depth());
    if n.size < MaxSize(bs, n.Depth()) {
      AddAtAppends(bs, n, leaf, free);
    }
  }

  lemma {:induction false} AddAtAppends(bs: BlockSize, n: Node, leaf: Id, free: seq<Id>)
    requires WF(bs, n) && n.size < MaxSize(bs, n.Depth())
    ensures AddAt(bs, n, n.size, leaf, free).Err? ==> AddAt(bs, n, n.size, leaf, free).error == BitmapRegionOutOfMemory
    ensures AddAt(bs, n, n.size, leaf, free).Ok? ==> Appended(bs, n, AddAt(bs, n, n.size, leaf, free).value.node, leaf)
    decreases n, 1
  {
    if n.Bottom? {
      assert Pow(IdsPerBlock(bs), 1) == IdsPerBlock(bs);
    } else {
      AddAtInner(bs, n, leaf, free);
    }
  }

  lemma {:induction false} AddAtInner(bs: BlockSize, n: Node, leaf: Id, free: seq<Id>)
    requires WF(bs, n) && n.Inner? && n.size < MaxSize(bs, n.depth)
    ensures AddAt(bs, n, n.size, leaf, free).Err? ==> AddAt(bs, n, n.size, leaf, free).error == BitmapRegionOutOfMemory
    ensures AddAt(bs, n, n.size, leaf, free).Ok? ==> Appended(bs, n, AddAt(bs, n, n.size, leaf, free).value.node, leaf)
    decreases n, 0
  {
    var cs := n.children;
    var m := MaxSize(bs, n.depth - 1);
    var last := cs[|cs| - 1];
    assert WF(bs, last);
    ChildBound(bs, last, n.depth - 1);
    NextSpot(m, |cs|, last.size);
    if last.size < m {
      AddInLast(bs, n, leaf, free);
    } else {
      RoomForChild(bs, n.depth, |cs|);
      AddNewChain(bs, n, leaf, free);
    }
  }

  /** The step of `add` that descends into the last child, which still has room. */
  lemma {:induction false} AddInLast(bs: BlockSize, n: Node, leaf: Id, free: seq<Id>)
    requires WF(bs, n) && n.Inner? && n.size < MaxSize(bs, n.depth) && |n.children| >= 1
    requires var m := MaxSize(bs, n.depth - 1);
      n.children[|n.children| - 1].size < m && Unsigned(n.size) / m == |n.children| - 1
      && Unsigned(n.size) % m == n.children[|n.children| - 1].size
    ensures AddAt(bs, n, n.size, leaf, free).Err? ==> AddAt(bs, n, n.size, leaf, free).error == BitmapRegionOutOfMemory
    ensures AddAt(bs, n, n.size, leaf, free).Ok? ==> Appended(bs, n, AddAt(bs, n, n.size, leaf, free).value.node, leaf)
    decreases n, -1
  {
    var cs := n.children;
    var last := cs[|cs| - 1];
    assert WF(bs, last) && last.Depth() == n.depth - 1;
    AddAtAppends(bs, last, leaf, free);
    DescendLast(bs, n, leaf, free);
    var r := AddAt(bs, last, last.size, leaf, free);
    if r.Ok? {
      LastAppended(bs, n, r.value.node, leaf);
    }
  }

  /** What the private `add` computes when it descends into the last child. */
  lemma {:induction false} DescendLast(bs: BlockSize, n: Node, leaf: Id, free: seq<Id>)
    requires n.Inner? && |n.children| >= 1
    requires var m := MaxSize(bs, n.depth - 1);
      Unsigned(n.size) / m == |n.children| - 1 && Unsigned(n.size) % m == n.children[|n.children| - 1].size
    ensures var k := |n.children| - 1;
      var r := AddAt(bs, n.children[k], n.children[k].size, leaf, free);
      AddAt(bs, n, n.size, leaf, free) ==
        if r.Err? then Err(r.error)
        else Ok(Built(n.(children := n.children[k := r.value.node], dirtyBlocks := n.dirtyBlocks + [r.value.node.id],
                         size := n.size + 1), r.value.free))
  {
  }

  /** Appending a leaf to the last child appends it to the whole tree. */
  lemma {:induction false} LastAppended(bs: BlockSize, n: Node, c: Node, leaf: Id)
    requires WF(bs, n) && n.Inner? && |n.children| >= 1 && n.size < MaxSize(bs, n.depth)
    requires Appended(bs, n.children[|n.children| - 1], c, leaf)
    ensures Appended(bs, n, n.(children := n.children[|n.children| - 1 := c], dirtyBlocks := n.dirtyBlocks + [c.id],
                               size := n.size + 1), leaf)
  {
    var cs := n.children;
    var k := |cs| - 1;
    assert WF(bs, cs[k]) && cs[k].Depth() == n.depth - 1;
    ReplaceLast(bs, n, c, n.dirtyBlocks + [c.id]);
    assert LeavesOf(cs) == LeavesOf(cs[..k]) + Leaves(cs[k]);
  }

  /** A tree whose last child gained one leaf, itself keeping the shape, keeps the shape. */
  lemma {:induction false} ReplaceLast(bs: BlockSize, n: Node, c: Node, dirtyBlocks: seq<Id>)
    requires WF(bs, n) && n.Inner? && |n.children| >= 1 && n.size < MaxSize(bs, n.depth)
    requires WF(bs, c) && c.Depth() == n.depth - 1 && c.size == n.children[|n.children| - 1].size + 1
    ensures var k := |n.children| - 1;
      var cs1 := n.children[k := c];
      && WF(bs, n.(children := cs1, dirtyBlocks := dirtyBlocks, size := n.size + 1))
      && LeavesOf(cs1) == LeavesOf(n.children[..k]) + Leaves(c)
  {
    var k := |n.children| - 1;
    var cs1 := n.children[k := c];
    assert cs1[..k] == n.children[..k];
  }

  /** The step of `add` that starts a new chain, the last child being full. */
  lemma {:induction false} AddNewChain(bs: BlockSize, n: Node, leaf: Id, free: seq<Id>)
    requires WF(bs, n) && n.Inner? && n.size < MaxSize(bs, n.depth) && 1 <= |n.children| < IdsPerBlock(bs)
    requires var m := MaxSize(bs, n.depth - 1);
      n.children[|n.children| - 1].size == m && Unsigned(n.size) / m == |n.children|
      && n.size == Times(|n.children|, m)
    ensures AddAt(bs, n, n.size, leaf, free).Err? ==> AddAt(bs, n, n.size, leaf, free).error == BitmapRegionOutOfMemory
    ensures AddAt(bs, n, n.size, leaf, free).Ok? ==> Appended(bs, n, AddAt(bs, n, n.size, leaf, free).value.node, leaf)
  {
    var cs := n.children;
    InitChain(n.depth - 1, leaf, free);
    var r := Init(n.depth - 1, leaf, free);
    if r.Ok? {
      InitShape(bs, n.depth - 1, leaf, free);
      var cs1 := cs + [r.value.node];
      assert cs1[..|cs|] == cs;
    }
  }

  /** After `add(leaf)` returned position `k`, `get(k)` gives the leaf and every earlier position is
      unchanged. */
  lemma {:induction false} AddThenGet(bs: BlockSize, n: Node, leaf: Id, free: seq<Id>, i: int)
    requires WF(bs, n) && Add(bs, n, leaf, free).Ok?
    ensures Get(bs, Add(bs, n, leaf, free).value.node, n.size) == Ok(leaf)
    ensures 0 <= i < n.size ==> Get(bs, Add(bs, n, leaf, free).value.node, i) == Get(bs, n, i)
  {
    AddAppends(bs, n, leaf, free);
    var a := Add(bs, n, leaf, free).value;
    LeavesCount(bs, n);
    GetLeaf(bs, a.node, n.size);
    GetLeaf(bs, a.node, i);
    GetLeaf(bs, n, i);
  }

  /** `addPointer` refuses exactly a block holding `idsPerBlock` pointers; otherwise the block reaches the
      leaves it reached plus those of the new pointer, and `size` still counts the leaves. */
  lemma {:induction false} AddPointerAppends(bs: BlockSize, n: Node, p: Pointer)
    requires n.Bottom? <==> p.LeafPointer?
    requires WF(bs, n) && (p.ChildPointer? ==> WF(bs, p.child))
    ensures AddPointer(bs, n, p).Err? <==> |n.Pointers()| == IdsPerBlock(bs)
    ensures AddPointer(bs, n, p).Ok? ==>
      var r := AddPointer(bs, n, p).value;
      && r.Pointers() == n.Pointers() + [if p.LeafPointer? then p.leaf else p.child.id]
      && Leaves(r) == Leaves(n) + (if p.LeafPointer? then [p.leaf] else Leaves(p.child))
      && |Leaves(r)| == r.size
  {
    LeavesCount(bs, n);
    if AddPointer(bs, n, p).Ok? && p.ChildPointer? {
      var r := AddPointer(bs, n, p).value;
      var cs := n.children;
      assert (cs + [p.child])[..|cs|] == cs;
      LeavesCount(bs, p.child);
    }
  }

  /** `delete` frees every pointer block and every leaf of the tree, each exactly once. */
  lemma {:induction false} FreedAll(n: Node)
    ensures multiset(Freed(n)) == multiset(Blocks(n)) + multiset(Leaves(n))
    decreases n
  {
    if n.Inner? {
      FreedOfAll(n.children);
    }
  }

  lemma {:induction false} FreedOfAll(cs: seq<Node>)
    ensures multiset(FreedOf(cs)) == multiset(BlocksOf(cs)) + multiset(LeavesOf(cs))
    decreases cs
  {
    if cs != [] {
      FreedOfAll(cs[..|cs| - 1]);
      FreedAll(cs[|cs| - 1]);
    }
  }
}
