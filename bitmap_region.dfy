/** A region of consecutive bitmap blocks that hands out and takes back ids: data blocks or inodes. */
module BitmapRegion {
  import opened Wrappers
  import opened JavaInt
  import BM = Bitmap

  /** Data-block regions number ids from 0; inode regions from 1, because inode 0 means "no inode". */
  datatype Kind = DataBlocks | Inodes

  /** A range of ids handed out (`Block.Range` or `Inode.Range`). */
  datatype IdRange = IdRange(from: int, length: nat)

  /** Bits per bitmap block: eight per byte of the block. */
  type Width = w: nat | w > 0 witness 1

  function Shift(kind: Kind): nat { if kind == Inodes then 1 else 0 }

  /** `applyOffset(bitmapNumber, position)`: the id of bit `p` of bitmap `b`. */
  function ApplyOffset(kind: Kind, w: Width, b: nat, p: nat): int {
    b * w + p + Shift(kind)
  }

  /** `applyOffset(bitmapNumber, ranges)`: the runs of bitmap `b` as id ranges, in the same order. */
  function Offsets(kind: Kind, w: Width, b: nat, runs: seq<BM.BitRange>): (r: seq<IdRange>)
    ensures |r| == |runs|
    ensures forall k :: 0 <= k < |runs| ==> r[k] == IdRange(ApplyOffset(kind, w, b, runs[k].from), runs[k].length)
  {
    seq(|runs|, k requires 0 <= k < |runs| => IdRange(ApplyOffset(kind, w, b, runs[k].from), runs[k].length))
  }

  /** `toBitmapNumber` as written: `id / (blockSize * 8)` with Java division. */
  function ToBitmapNumberAsWritten(w: Width, id: int): int { JDiv(id, w) }

  /** `toBitmapOffset` as written: `id % (blockSize * 8)` with Java remainder. */
  function ToBitmapOffsetAsWritten(w: Width, id: int): int { JRem(id, w) }

  /** The bitmap holding an id, undoing the shift `applyOffset` added. */
  function BitmapOf(kind: Kind, w: Width, id: int): int { JDiv(id - Shift(kind), w) }

  /** The bit of its bitmap holding an id, undoing the shift `applyOffset` added. */
  function OffsetOf(kind: Kind, w: Width, id: int): int { JRem(id - Shift(kind), w) }

  lemma {:induction false} MultipleBounds(d: int, w: int)
    requires w > 0
    ensures d >= 1 ==> d * w >= w
    ensures d <= -1 ==> d * w <= -w
  {
    if d >= 1 {
      assert d * w == w + (d - 1) * w;
      assert (d - 1) * w >= 0;
    } else if d <= -1 {
      assert d * w == -w + (d + 1) * w;
      assert (d + 1) * w <= 0;
    }
  }

  lemma {:induction false} DivUnique(x: int, w: Width, b: nat, p: nat)
    requires x == b * w + p && p < w
    ensures x / w == b && x % w == p
  {
    var q := x / w;
    var r := x % w;
    assert x == q * w + r;
    assert (q - b) * w == q * w - b * w;
    assert (q - b) * w == p - r;
    MultipleBounds(q - b, w);
  }

  /** The id of bit `p` of bitmap `b` leads back to bitmap `b`, bit `p`, for both kinds of region. */
  lemma {:induction false} ApplyOffsetInverse(kind: Kind, w: Width, b: nat, p: nat)
    requires p < w
    ensures BitmapOf(kind, w, ApplyOffset(kind, w, b, p)) == b
    ensures OffsetOf(kind, w, ApplyOffset(kind, w, b, p)) == p
  {
    DivUnique(b * w + p, w, b, p);
  }

  /** As written, an inode region maps the id of bit 0 of bitmap 0 (inode 1) back to bit 1 of that bitmap. */
  lemma {:induction false} InodeOffsetAsWrittenMisses(w: Width)
    requires w >= 2
    ensures ApplyOffset(Inodes, w, 0, 0) == 1
    ensures ToBitmapNumberAsWritten(w, 1) == 0 && ToBitmapOffsetAsWritten(w, 1) == 1
    ensures OffsetOf(Inodes, w, 1) == 0
  {
  }

  /** On a blank inode region, freeing the inode `reserve()` returned through the source's `toBitmapOffset`
      finds its bit already clear, reports no change and leaves the reserved bit set for good. */
  lemma {:induction false} InodeFreeAsWrittenLeaks(w: Width)
    requires w >= 2
    ensures var blank := seq(w, _ => false);
      var reserved := BM.Reserve(blank);
      reserved.1 == 0 && ApplyOffset(Inodes, w, 0, reserved.1) == 1
      && BM.Free(reserved.0, ToBitmapOffsetAsWritten(w, 1)) == (reserved.0, false)
      && reserved.0[0]
  {
    var blank := seq(w, _ => false);
    var reserved := BM.Reserve(blank);
    assert !blank[0];
    assert reserved.1 == 0;
    assert !reserved.0[1];
    assert ToBitmapOffsetAsWritten(w, 1) == 1;
    assert reserved.0[1 := false] == reserved.0;
  }

  /** The state of a region: the bitmaps held in memory (the cache), the bitmaps on disk, and `current`, the
      first bitmap that may have a clear bit. */
  datatype State = State(bitmaps: seq<BM.Bits>, disk: seq<BM.Bits>, current: int)

  ghost predicate WellFormed(w: Width, s: State) {
    |s.bitmaps| > 0 && |s.disk| == |s.bitmaps|
    && (forall k :: 0 <= k < |s.bitmaps| ==> |s.bitmaps[k]| == w && |s.disk[k]| == w)
    && 0 <= s.current <= |s.bitmaps|
  }

  ghost predicate Full(bits: BM.Bits) { forall j :: 0 <= j < |bits| ==> bits[j] }

  /** The invariant `current` stands for: every bitmap before it is full. */
  ghost predicate FullBelow(s: State) {
    forall k :: 0 <= k < s.current && k < |s.bitmaps| ==> Full(s.bitmaps[k])
  }

  /** `markAsOccupied(b)`: `current` moves past `b` only if it was at `b`. */
  function MarkAsOccupied(cur: int, b: nat): int { if cur == b then b + 1 else cur }

  /** `markAsVacant(b)`: `current` moves back to `b` if it was beyond it. */
  function MarkAsVacant(cur: int, b: nat): int { if b < cur then b else cur }

  /** The first bitmap at or after `from` with a clear bit. */
  function FirstNonFull(bm: seq<BM.Bits>, from: nat): (r: Option<nat>)
    requires from <= |bm|
    ensures r.Some? ==> from <= r.value < |bm| && BM.FirstClear(bm[r.value], 0) != BM.NOT_FOUND
    ensures r.Some? ==> forall k :: from <= k < r.value ==> Full(bm[k])
    ensures r.None? ==> forall k :: from <= k < |bm| ==> Full(bm[k])
    decreases |bm| - from
  {
    if from == |bm| then None
    else if BM.FirstClear(bm[from], 0) != BM.NOT_FOUND then Some(from)
    else FirstNonFull(bm, from + 1)
  }

  /** `reserve()`: the lowest clear bit of the first non-full bitmap from `current` on is set, that bitmap is
      written, and `current` ends on it; with every bitmap full nothing is reserved and `current` runs to the end. */
  function ReserveSpec(kind: Kind, w: Width, s: State): (Result<int>, State)
    requires WellFormed(w, s)
  {
    match FirstNonFull(s.bitmaps, s.current)
    case None => (Err(BitmapRegionOutOfMemory), s.(current := |s.bitmaps|))
    case Some(b) =>
      var (bits, p) := BM.Reserve(s.bitmaps[b]);
      (Ok(ApplyOffset(kind, w, b, p)), State(s.bitmaps[b := bits], s.disk[b := bits], b))
  }

  /** The outcome of `reserveMultiple(b, size)`: the result and the state after it. */
  datatype MultiOutcome = MultiOutcome(result: Result<seq<IdRange>>, state: State)

  /** `reserveMultiple(b, size)`: take what bitmap `b` has (at most `size`), then ask the next bitmap for the rest.
      When the last bitmap cannot complete the request, every bitmap frees what it took, in memory, on the way
      back; a completed request writes every bitmap it visited. The check of `current` after a completed level
      raises an assertion error that nothing catches. */
  function Multi(kind: Kind, w: Width, s: State, b: nat, size: nat): (m: MultiOutcome)
    requires |s.disk| == |s.bitmaps|
    ensures |m.state.bitmaps| == |s.bitmaps| && |m.state.disk| == |s.disk|
    decreases |s.bitmaps| - b
  {
    if b >= |s.bitmaps| then MultiOutcome(Err(BitmapRegionOutOfMemory), s)
    else
      var (bits, runs) := BM.ReserveRuns(s.bitmaps[b], size);
      var taken := Taken(s, b, bits, runs);
      var remaining := size - BM.Sum(runs);
      if remaining > 0 && b >= |s.bitmaps| - 1 then
        MultiOutcome(Err(BitmapRegionOutOfMemory), taken.(bitmaps := taken.bitmaps[b := BM.ClearRanges(bits, runs)]))
      else if remaining > 0 then AfterNext(kind, w, b, runs, Multi(kind, w, taken, b + 1, remaining))
      else if !(0 <= taken.current < |s.bitmaps|) then MultiOutcome(Err(AssertionFailure), taken)
      else MultiOutcome(Ok(Offsets(kind, w, b, runs)), taken.(disk := taken.disk[b := bits]))
  }

  /** Bitmap `b` after it gave up `runs`, leaving `bits`: `current` moves past it when it had nothing to give. */
  function Taken(s: State, b: nat, bits: BM.Bits, runs: seq<BM.BitRange>): (t: State)
    requires b < |s.bitmaps|
    ensures |t.bitmaps| == |s.bitmaps| && t.disk == s.disk
  {
    s.(bitmaps := s.bitmaps[b := bits], current := if |runs| == 0 then MarkAsOccupied(s.current, b) else s.current)
  }

  /** Level `b` of `reserveMultiple` once the next level answered `next`: an out-of-memory answer frees the
      runs taken here; another failure passes through; a success that leaves `current` outside the region
      trips the assertion; otherwise the runs taken here come first and bitmap `b` is written. */
  function AfterNext(kind: Kind, w: Width, b: nat, runs: seq<BM.BitRange>, next: MultiOutcome): (m: MultiOutcome)
    requires b < |next.state.bitmaps| && |next.state.disk| == |next.state.bitmaps|
    ensures |m.state.bitmaps| == |next.state.bitmaps| && |m.state.disk| == |next.state.disk|
  {
    var t := next.state;
    if next.result == Err(BitmapRegionOutOfMemory) then
      MultiOutcome(next.result, t.(bitmaps := t.bitmaps[b := BM.ClearRanges(t.bitmaps[b], runs)]))
    else if next.result.Err? then next
    else if !(0 <= t.current < |t.bitmaps|) then MultiOutcome(Err(AssertionFailure), t)
    else MultiOutcome(Ok(Offsets(kind, w, b, runs) + next.result.value), t.(disk := t.disk[b := t.bitmaps[b]]))
  }

  /** A level that did not complete the request and is not the last passes it to the next level. */
  lemma {:induction false} MultiRecurse(kind: Kind, w: Width, s: State, b: nat, size: nat, bits: BM.Bits,
                                        runs: seq<BM.BitRange>)
    requires |s.disk| == |s.bitmaps| && b < |s.bitmaps| - 1 && (bits, runs) == BM.ReserveRuns(s.bitmaps[b], size)
    requires size > BM.Sum(runs)
    ensures Multi(kind, w, s, b, size)
         == AfterNext(kind, w, b, runs, Multi(kind, w, Taken(s, b, bits, runs), b + 1, size - BM.Sum(runs)))
  {
  }

  /** A level that is the last one without completing the request fails and frees what it took; a level
      that completes the request ends the recursion. */
  lemma {:induction false} MultiEnd(kind: Kind, w: Width, s: State, b: nat, size: nat, bits: BM.Bits,
                                    runs: seq<BM.BitRange>)
    requires |s.disk| == |s.bitmaps| && b < |s.bitmaps| && (bits, runs) == BM.ReserveRuns(s.bitmaps[b], size)
    ensures var taken := Taken(s, b, bits, runs);
      size - BM.Sum(runs) > 0 && b == |s.bitmaps| - 1 ==>
        Multi(kind, w, s, b, size)
        == MultiOutcome(Err(BitmapRegionOutOfMemory), taken.(bitmaps := taken.bitmaps[b := BM.ClearRanges(bits, runs)]))
    ensures var taken := Taken(s, b, bits, runs);
      size - BM.Sum(runs) <= 0 ==>
        Multi(kind, w, s, b, size)
        == if !(0 <= taken.current < |s.bitmaps|) then MultiOutcome(Err(AssertionFailure), taken)
           else MultiOutcome(Ok(Offsets(kind, w, b, runs)), taken.(disk := taken.disk[b := bits]))
  {
  }

  function SumIds(rs: seq<IdRange>): nat {
    if |rs| == 0 then 0 else rs[0].length + SumIds(rs[1..])
  }

  /** Clear bits in bitmaps `b` onwards. */
  function ClearTotal(bm: seq<BM.Bits>, b: nat): nat
    decreases |bm| - b
  {
    if b >= |bm| then 0 else BM.ClearCount(bm[b], 0) + ClearTotal(bm, b + 1)
  }

  /** `free(id)`: clearing a bit that was already clear changes and writes nothing; otherwise the bitmap is
      written and `current` moves back to it. */
  function FreeSpec(kind: Kind, w: Width, s: State, id: int): State
    requires WellFormed(w, s)
    requires 0 <= BitmapOf(kind, w, id) < |s.bitmaps|
  {
    var b := BitmapOf(kind, w, id);
    var (bits, changed) := BM.Free(s.bitmaps[b], OffsetOf(kind, w, id));
    if !changed then s
    else State(s.bitmaps[b := bits], s.disk[b := bits], MarkAsVacant(s.current, b))
  }

  /** The ranges, among `ranges`, whose first id lies in bitmap `b`, as bit ranges of that bitmap. */
  function LocalRanges(kind: Kind, w: Width, ranges: seq<IdRange>, b: nat): (r: seq<BM.BitRange>)
    ensures |r| <= |ranges|
  {
    if |ranges| == 0 then []
    else
      var rest := LocalRanges(kind, w, ranges[..|ranges| - 1], b);
      var last := ranges[|ranges| - 1];
      if BitmapOf(kind, w, last.from) == b && OffsetOf(kind, w, last.from) >= 0
      then rest + [BM.BitRange(OffsetOf(kind, w, last.from), last.length)]
      else rest
  }

  /** `free(ranges)` after bitmaps `0..upTo` are done: each bitmap that starts a range frees its ranges, moves
      `current` back to it and is written, in ascending bitmap order. */
  function FreeRangesUpTo(kind: Kind, w: Width, s: State, ranges: seq<IdRange>, upTo: nat): (r: State)
    requires upTo <= |s.bitmaps| && |s.disk| == |s.bitmaps|
    ensures |r.bitmaps| == |s.bitmaps| && |r.disk| == |s.disk|
    ensures forall i :: 0 <= i < |s.bitmaps| ==> |r.bitmaps[i]| == |s.bitmaps[i]|
  {
    if upTo == 0 then s
    else
      FreeRangesAt(kind, w, FreeRangesUpTo(kind, w, s, ranges, upTo - 1), ranges, upTo - 1)
  }

  /** Bitmap `b`'s turn in `free`: when it holds any of the ranges, it gets its local ranges cleared, is written and pulls
      `current` back to it. */
  function FreeRangesAt(kind: Kind, w: Width, t: State, ranges: seq<IdRange>, b: nat): (r: State)
    requires b < |t.bitmaps| && |t.disk| == |t.bitmaps|
    ensures |r.bitmaps| == |t.bitmaps| && |r.disk| == |t.disk|
    ensures forall i :: 0 <= i < |t.bitmaps| ==> |r.bitmaps[i]| == |t.bitmaps[i]|
  {
    var local := LocalRanges(kind, w, ranges, b);
    if |local| == 0 then t
    else
      var bits := BM.ClearRanges(t.bitmaps[b], local);
      State(t.bitmaps[b := bits], t.disk[b := bits], MarkAsVacant(t.current, b))
  }

  ghost predicate RangesInRegion(kind: Kind, w: Width, ranges: seq<IdRange>, count: nat) {
    forall k :: 0 <= k < |ranges| ==> 0 <= BitmapOf(kind, w, ranges[k].from) < count
                                      && OffsetOf(kind, w, ranges[k].from) >= 0
  }

  /** The bits of `bits` that are named in `offsets` cleared (`free(bit)` for each offset). */
  function ClearBits(bits: BM.Bits, offsets: seq<int>): (r: BM.Bits)
    ensures |r| == |bits|
  {
    seq(|bits|, j => 0 <= j < |bits| && bits[j] && j !in offsets)
  }

  /** The ids, among `ids`, that lie in bitmap `b`, as bit offsets of that bitmap. */
  function LocalIds(kind: Kind, w: Width, ids: seq<int>, b: nat): seq<int>
  {
    if |ids| == 0 then []
    else
      var rest := LocalIds(kind, w, ids[..|ids| - 1], b);
      var last := ids[|ids| - 1];
      if BitmapOf(kind, w, last) == b then rest + [OffsetOf(kind, w, last)] else rest
  }

  /** `free(ids)` of the older region after bitmaps `0..upTo` are done: each bitmap holding one of the ids frees
      them, moves `current` back to it whether or not a bit changed, and is written. */
  function FreeIdsUpTo(kind: Kind, w: Width, s: State, ids: seq<int>, upTo: nat): (r: State)
    requires upTo <= |s.bitmaps| && |s.disk| == |s.bitmaps|
    ensures |r.bitmaps| == |s.bitmaps| && |r.disk| == |s.disk|
    ensures forall i :: 0 <= i < |s.bitmaps| ==> |r.bitmaps[i]| == |s.bitmaps[i]|
  {
    if upTo == 0 then s
    else
      FreeIdsAt(kind, w, FreeIdsUpTo(kind, w, s, ids, upTo - 1), ids, upTo - 1)
  }

  /** Bitmap `b`'s turn in `free`: when it holds any of the ids, it gets the bits of its local ids cleared, is written and pulls
      `current` back to it. */
  function FreeIdsAt(kind: Kind, w: Width, t: State, ids: seq<int>, b: nat): (r: State)
    requires b < |t.bitmaps| && |t.disk| == |t.bitmaps|
    ensures |r.bitmaps| == |t.bitmaps| && |r.disk| == |t.disk|
    ensures forall i :: 0 <= i < |t.bitmaps| ==> |r.bitmaps[i]| == |t.bitmaps[i]|
  {
    var local := LocalIds(kind, w, ids, b);
    if |local| == 0 then t
    else
      var bits := ClearBits(t.bitmaps[b], local);
      State(t.bitmaps[b := bits], t.disk[b := bits], MarkAsVacant(t.current, b))
  }

  ghost predicate IdsInRegion(kind: Kind, w: Width, ids: seq<int>, count: nat) {
    forall k :: 0 <= k < |ids| ==> 0 <= BitmapOf(kind, w, ids[k]) < count
  }

  /** A region of `count` bitmap blocks of `w` bits each, as `AbstractBitmapRegion` keeps it. */
  class Region {
    const kind: Kind
    const w: Width
    const count: nat
    var bitmaps: seq<BM.Bits>
    var disk: seq<BM.Bits>
    var current: int

    function View(): State
      reads this
    {
      State(bitmaps, disk, current)
    }

    ghost predicate Valid()
      reads this
    {
      count > 0 && |bitmaps| == count && WellFormed(w, View())
    }

    /** `init()`: every bitmap block written as zeros; nothing is reserved. */
    constructor Init(kind: Kind, blockSize: nat, count: nat)
      requires blockSize > 0 && count > 0
      ensures Valid() && this.kind == kind && this.w == blockSize * 8 && this.count == count
      ensures current == 0
      ensures forall k, j :: 0 <= k < count && 0 <= j < w ==> !bitmaps[k][j] && !disk[k][j]
    {
      this.kind := kind;
      this.w := blockSize * 8;
      this.count := count;
      var zero := seq(blockSize * 8, _ => false);
      bitmaps := seq(count, _ => zero);
      disk := seq(count, _ => zero);
      current := 0;
    }

    /** `write(b, bitmap)`: the bitmap held in memory goes to disk. */
    method Write(b: nat)
      requires Valid() && b < count
      modifies this
      ensures Valid() && disk == old(disk)[b := bitmaps[b]]
      ensures bitmaps == old(bitmaps) && current == old(current)
    {
      disk := disk[b := bitmaps[b]];
    }

    /** `reserveSingle(b)`, called with `current` at `b`. */
    method ReserveSingle(b: nat) returns (r: Option<int>)
      requires Valid() && b < count && current == b
      modifies this
      ensures Valid()
      ensures var res := BM.Reserve(old(bitmaps)[b]);
        if res.1 == BM.NOT_FOUND then r.None? && bitmaps == old(bitmaps) && disk == old(disk) && current == b + 1
        else r == Some(ApplyOffset(kind, w, b, res.1)) && bitmaps == old(bitmaps)[b := res.0]
             && disk == old(disk)[b := res.0] && current == b
    {
      var (bits, p) := BM.Reserve(bitmaps[b]);
      if p < 0 {
        current := MarkAsOccupied(current, b);
        return None;
      }
      bitmaps := bitmaps[b := bits];
      Write(b);
      return Some(ApplyOffset(kind, w, b, p));
    }

    /** `reserve()`: scan the bitmaps from `current` for a clear bit. */
    method Reserve() returns (r: Result<int>)
      requires Valid()
      modifies this
      ensures Valid()
      ensures (r, View()) == ReserveSpec(kind, w, old(View()))
    {
      var cur := current;
      while cur < count
        invariant Valid() && old(current) <= cur <= count && current == cur
        invariant bitmaps == old(bitmaps) && disk == old(disk)
        invariant forall k :: old(current) <= k < cur ==> Full(bitmaps[k])
        invariant FirstNonFull(bitmaps, old(current)) == FirstNonFull(bitmaps, cur)
      {
        var id := ReserveSingle(cur);
        if id.Some? {
          return Ok(id.value);
        }
        cur := cur + 1;
      }
      return Err(BitmapRegionOutOfMemory);
    }

    /** `reserveMultiple(b, size)`. */
    method ReserveMultiple(b: nat, size: nat) returns (r: Result<seq<IdRange>>)
      requires Valid()
      modifies this
      ensures Valid()
      ensures MultiOutcome(r, View()) == Multi(kind, w, old(View()), b, size)
      decreases count - b, 1
    {
      if b >= count {
        return Err(BitmapRegionOutOfMemory);
      }
      var bits, runs := TakeLevel(b, size);
      var remaining := size - BM.Sum(runs);
      MultiEnd(kind, w, old(View()), b, size, bits, runs);
      if remaining > 0 && b >= count - 1 {
        bitmaps := bitmaps[b := BM.ClearRanges(bitmaps[b], runs)];
        return Err(BitmapRegionOutOfMemory);
      }
      if remaining > 0 {
        r := ReserveRest(b, size, bits, runs, old(View()));
        return;
      }
      if !(0 <= current < count) {
        return Err(AssertionFailure);
      }
      Write(b);
      return Ok(Offsets(kind, w, b, runs));
    }

    /** Lines 120-141 of `reserveMultiple`: level `b`, which left `s0` as `View()` after taking `runs`, asks the
        next level for the rest. */
    method ReserveRest(b: nat, size: nat, bits: BM.Bits, runs: seq<BM.BitRange>, ghost s0: State)
        returns (r: Result<seq<IdRange>>)
      requires Valid() && b < count - 1 && |s0.disk| == |s0.bitmaps| && b < |s0.bitmaps|
      requires (bits, runs) == BM.ReserveRuns(s0.bitmaps[b], size) && View() == Taken(s0, b, bits, runs)
      requires size > BM.Sum(runs)
      modifies this
      ensures Valid()
      ensures MultiOutcome(r, View()) == Multi(kind, w, s0, b, size)
      decreases count - b, 0
    {
      MultiRecurse(kind, w, s0, b, size, bits, runs);
      ghost var rest := Multi(kind, w, View(), b + 1, size - BM.Sum(runs));
      var next := ReserveMultiple(b + 1, size - BM.Sum(runs));
      assert MultiOutcome(next, View()) == rest;
      r := FinishLevel(b, runs, next);
    }

    /** Lines 108-119 of `reserveMultiple`: bitmap `b` gives up the lowest clear bits it has, at most `size`;
        `current` moves past it when it had none. */
    method TakeLevel(b: nat, size: nat) returns (bits: BM.Bits, runs: seq<BM.BitRange>)
      requires Valid() && b < count
      modifies this
      ensures Valid() && (bits, runs) == BM.ReserveRuns(old(bitmaps)[b], size)
      ensures View() == Taken(old(View()), b, bits, runs)
    {
      var res := BM.ReserveRuns(bitmaps[b], size);
      bits, runs := res.0, res.1;
      bitmaps := bitmaps[b := bits];
      if |runs| == 0 {
        current := MarkAsOccupied(current, b);
      }
    }

    /** The end of level `b` of `reserveMultiple` (lines 120-141), once the next level answered `next`. */
    method FinishLevel(b: nat, runs: seq<BM.BitRange>, next: Result<seq<IdRange>>) returns (r: Result<seq<IdRange>>)
      requires Valid() && b < count
      modifies this
      ensures Valid()
      ensures MultiOutcome(r, View()) == AfterNext(kind, w, b, runs, MultiOutcome(next, old(View())))
    {
      if next.Err? {
        if next.error == BitmapRegionOutOfMemory {
          bitmaps := bitmaps[b := BM.ClearRanges(bitmaps[b], runs)];
        }
        return next;
      }
      if !(0 <= current < count) {
        return Err(AssertionFailure);
      }
      Write(b);
      return Ok(Offsets(kind, w, b, runs) + next.value);
    }

    /** `reserve(size)`: a reservation starting at `current`; a completed one hands out exactly `size` ids. */
    method ReserveSize(size: nat) returns (r: Result<seq<IdRange>>)
      requires Valid()
      modifies this
      ensures Valid()
      ensures MultiOutcome(r, View()) == Multi(kind, w, old(View()), old(current), size)
      ensures r.Ok? ==> SumIds(r.value) == size
    {
      ghost var before := View();
      r := ReserveMultiple(current, size);
      if r.Ok? {
        MultiSum(kind, w, before, before.current, size);
      }
    }

    /** `free(id)`. */
    method Free(id: int)
      requires Valid() && 0 <= BitmapOf(kind, w, id) < count
      modifies this
      ensures Valid()
      ensures View() == FreeSpec(kind, w, old(View()), id)
    {
      var b := BitmapOf(kind, w, id);
      var (bits, changed) := BM.Free(bitmaps[b], OffsetOf(kind, w, id));
      if !changed {
        return;
      }
      bitmaps := bitmaps[b := bits];
      current := MarkAsVacant(current, b);
      Write(b);
    }

    /** Bitmap `b`'s turn in `free(ranges)`. */
    method FreeRangesLevel(ranges: seq<IdRange>, b: nat)
      requires Valid() && b < count
      modifies this
      ensures Valid() && View() == FreeRangesAt(kind, w, old(View()), ranges, b)
    {
      var local := LocalRanges(kind, w, ranges, b);
      if |local| > 0 {
        ClearLevel(b, BM.ClearRanges(bitmaps[b], local));
      }
    }

    /** Bitmap `b`'s turn in `free(ids)`. */
    method FreeIdsLevel(ids: seq<int>, b: nat)
      requires Valid() && b < count
      modifies this
      ensures Valid() && View() == FreeIdsAt(kind, w, old(View()), ids, b)
    {
      var local := LocalIds(kind, w, ids, b);
      if |local| > 0 {
        ClearLevel(b, ClearBits(bitmaps[b], local));
      }
    }

    /** One visited bitmap of a `free`: its new bits are stored and written, and `current` moves back to it. */
    method ClearLevel(b: nat, bits: BM.Bits)
      requires Valid() && b < count && |bits| == w
      modifies this
      ensures Valid()
      ensures View() == State(old(bitmaps)[b := bits], old(disk)[b := bits], MarkAsVacant(old(current), b))
    {
      bitmaps := bitmaps[b := bits];
      current := MarkAsVacant(current, b);
      Write(b);
    }

    /** `free(ranges)`: the ranges grouped by the bitmap of their first id, bitmaps visited in ascending order. */
    method FreeRanges(ranges: seq<IdRange>)
      requires Valid() && RangesInRegion(kind, w, ranges, count)
      modifies this
      ensures Valid()
      ensures View() == FreeRangesUpTo(kind, w, old(View()), ranges, count)
    {
      var b := 0;
      while b < count
        invariant Valid() && 0 <= b <= count
        invariant View() == FreeRangesUpTo(kind, w, old(View()), ranges, b)
      {
        FreeRangesLevel(ranges, b);
        b := b + 1;
      }
    }
    /** `free(ids)` of the older region revision: the ids grouped by bitmap, bitmaps visited in ascending order. */
    method FreeIds(ids: seq<int>)
      requires Valid() && IdsInRegion(kind, w, ids, count)
      modifies this
      ensures Valid()
      ensures View() == FreeIdsUpTo(kind, w, old(View()), ids, count)
    {
      var b := 0;
      while b < count
        invariant Valid() && 0 <= b <= count
        invariant View() == FreeIdsUpTo(kind, w, old(View()), ids, b)
      {
        FreeIdsLevel(ids, b);
        b := b + 1;
      }
    }
  }

  /** A completed `reserveMultiple` hands out exactly the number of ids asked for. */
  lemma {:induction false} MultiSum(kind: Kind, w: Width, s: State, b: nat, size: nat)
    requires |s.disk| == |s.bitmaps|
    requires Multi(kind, w, s, b, size).result.Ok?
    ensures SumIds(Multi(kind, w, s, b, size).result.value) == size
    decreases |s.bitmaps| - b
  {
    var (bits, runs) := BM.ReserveRuns(s.bitmaps[b], size);
    BM.RunsTakeAvailable(s.bitmaps[b], 0, size);
    var remaining := size - BM.Sum(runs);
    SumOffsets(kind, w, b, runs);
    if remaining > 0 {
      var cur := if |runs| == 0 then MarkAsOccupied(s.current, b) else s.current;
      var taken := s.(bitmaps := s.bitmaps[b := bits], current := cur);
      MultiSum(kind, w, taken, b + 1, remaining);
      SumIdsAppend(Offsets(kind, w, b, runs), Multi(kind, w, taken, b + 1, remaining).result.value);
    }
  }

  lemma {:induction false} SumOffsets(kind: Kind, w: Width, b: nat, runs: seq<BM.BitRange>)
    ensures SumIds(Offsets(kind, w, b, runs)) == BM.Sum(runs)
  {
    if |runs| > 0 {
      assert Offsets(kind, w, b, runs)[1..] == Offsets(kind, w, b, runs[1..]);
      SumOffsets(kind, w, b, runs[1..]);
    }
  }

  lemma {:induction false} SumIdsAppend(a: seq<IdRange>, c: seq<IdRange>)
    ensures SumIds(a + c) == SumIds(a) + SumIds(c)
  {
    if |a| > 0 {
      assert (a + c)[0] == a[0];
      assert (a + c)[1..] == a[1..] + c;
      SumIdsAppend(a[1..], c);
      assert SumIds(a + c) == a[0].length + SumIds(a[1..] + c);
    } else {
      assert a + c == c;
    }
  }

  /** `reserve()` hands out the lowest clear bit of the first bitmap, from `current` on, that has one: that bit was
      clear and is now set in memory and on disk, every bit below it and every bitmap skipped was full, `current`
      ends on that bitmap, and nothing else changes. When no bitmap from `current` on has a clear bit, nothing is
      reserved and the bitmaps stay as they are. */
  lemma {:induction false} ReserveLowest(kind: Kind, w: Width, s: State)
    requires WellFormed(w, s)
    ensures var o := ReserveSpec(kind, w, s);
      o.0.Ok? ==>
        var b := o.1.current;
        var p := OffsetOf(kind, w, o.0.value);
        BitmapOf(kind, w, o.0.value) == b && s.current <= b < |s.bitmaps| && 0 <= p < w
        && !s.bitmaps[b][p] && (forall j :: 0 <= j < p ==> s.bitmaps[b][j])
        && (forall k :: s.current <= k < b ==> Full(s.bitmaps[k]))
        && o.1.bitmaps == s.bitmaps[b := s.bitmaps[b][p := true]]
        && o.1.disk == s.disk[b := o.1.bitmaps[b]]
    ensures var o := ReserveSpec(kind, w, s);
      o.0.Err? ==>
        o.0.error == BitmapRegionOutOfMemory && o.1.bitmaps == s.bitmaps && o.1.disk == s.disk
        && forall k :: s.current <= k < |s.bitmaps| ==> Full(s.bitmaps[k])
  {
    match FirstNonFull(s.bitmaps, s.current)
    case None =>
    case Some(b) =>
      var (bits, p) := BM.Reserve(s.bitmaps[b]);
      ApplyOffsetInverse(kind, w, b, p);
  }

  /** Every id `reserve()` hands out in an inode region is at least 1, never the "no inode" id 0. */
  lemma {:induction false} ReserveInodeNotNull(w: Width, s: State)
    requires WellFormed(w, s)
    ensures var o := ReserveSpec(Inodes, w, s); o.0.Ok? ==> o.0.value >= 1
  {
  }

  /** The first `reserve()` on a blank inode region hands out inode 1, the root directory. */
  lemma {:induction false} FirstInodeIsRoot(w: Width, count: nat)
    requires count > 0
    ensures var blank := seq(count, _ => seq(w, _ => false));
      ReserveSpec(Inodes, w, State(blank, blank, 0)).0 == Ok(1)
  {
    var blank := seq(count, _ => seq(w, _ => false));
    assert !blank[0][0];
    assert BM.FirstClear(blank[0], 0) == 0;
    assert FirstNonFull(blank, 0) == Some(0);
  }

  /** For data-block regions the corrected mapping is the source's `toBitmapNumber`/`toBitmapOffset`. */
  lemma {:induction false} DataMappingAsWritten(w: Width, id: int)
    ensures BitmapOf(DataBlocks, w, id) == ToBitmapNumberAsWritten(w, id)
    ensures OffsetOf(DataBlocks, w, id) == ToBitmapOffsetAsWritten(w, id)
  {
  }

  /** Distinct (bitmap, bit) pairs name distinct ids, in both kinds of region. */
  lemma {:induction false} ApplyOffsetInjective(kind: Kind, w: Width, b1: nat, p1: nat, b2: nat, p2: nat)
    requires p1 < w && p2 < w
    requires ApplyOffset(kind, w, b1, p1) == ApplyOffset(kind, w, b2, p2)
    ensures b1 == b2 && p1 == p2
  {
    ApplyOffsetInverse(kind, w, b1, p1);
    ApplyOffsetInverse(kind, w, b2, p2);
  }

  /** Freeing the id `reserve()` just handed out clears its bit again: the bitmaps are back as they were, and the
      bitmap is written. */
  lemma {:induction false} ReserveThenFreeSpec(kind: Kind, w: Width, s: State)
    requires WellFormed(w, s) && ReserveSpec(kind, w, s).0.Ok?
    ensures 0 <= BitmapOf(kind, w, ReserveSpec(kind, w, s).0.value) < |s.bitmaps|
    ensures WellFormed(w, ReserveSpec(kind, w, s).1)
    ensures var o := ReserveSpec(kind, w, s);
      var b := BitmapOf(kind, w, o.0.value);
      var t := FreeSpec(kind, w, o.1, o.0.value);
      t.bitmaps == s.bitmaps && t.disk == s.disk[b := s.bitmaps[b]] && t.current == b
  {
    ReserveLowest(kind, w, s);
    var o := ReserveSpec(kind, w, s);
    var b := o.1.current;
    var p := OffsetOf(kind, w, o.0.value);
    assert s.bitmaps[b][p := true][p := false] == s.bitmaps[b];
    assert s.bitmaps[b := s.bitmaps[b]] == s.bitmaps;
  }

  /** `reserve()` keeps the meaning of `current`: every bitmap before it is full. */
  lemma {:induction false} ReservePreservesFullBelow(kind: Kind, w: Width, s: State)
    requires WellFormed(w, s) && FullBelow(s)
    ensures FullBelow(ReserveSpec(kind, w, s).1)
  {
    ReserveLowest(kind, w, s);
  }

  /** `free(id)` keeps the meaning of `current`, never moves it up, and after a change leaves it on a bitmap of the
      region; freeing a bit that was already clear changes nothing at all. */
  lemma {:induction false} FreePreservesFullBelow(kind: Kind, w: Width, s: State, id: int)
    requires WellFormed(w, s) && 0 <= BitmapOf(kind, w, id) < |s.bitmaps|
    ensures var t := FreeSpec(kind, w, s, id);
      (FullBelow(s) ==> FullBelow(t)) && t.current <= s.current
      && (t != s ==> 0 <= t.current < |s.bitmaps|)
    ensures var b := BitmapOf(kind, w, id); var p := OffsetOf(kind, w, id);
      !(0 <= p < w && s.bitmaps[b][p]) ==> FreeSpec(kind, w, s, id) == s
  {
  }

  /** Bitmaps that agree from `b` on have as many clear bits from `b` on. */
  lemma {:induction false} ClearTotalFrom(x: seq<BM.Bits>, y: seq<BM.Bits>, b: nat)
    requires |x| == |y| && forall k :: b <= k < |x| ==> x[k] == y[k]
    ensures ClearTotal(x, b) == ClearTotal(y, b)
    decreases |x| - b
  {
    if b < |x| {
      ClearTotalFrom(x, y, b + 1);
    }
  }

  /** `reserveMultiple(b, size)` runs out of memory exactly when bitmaps `b` onwards hold fewer than `size` clear
      bits. */
  lemma {:induction false} MultiOutOfMemoryIff(kind: Kind, w: Width, s: State, b: nat, size: nat)
    requires |s.disk| == |s.bitmaps|
    ensures Multi(kind, w, s, b, size).result == Err(BitmapRegionOutOfMemory)
        <==> !(b < |s.bitmaps| && size <= ClearTotal(s.bitmaps, b))
    decreases |s.bitmaps| - b
  {
    if b < |s.bitmaps| {
      var (bits, runs) := BM.ReserveRuns(s.bitmaps[b], size);
      BM.RunsTakeAvailable(s.bitmaps[b], 0, size);
      var remaining := size - BM.Sum(runs);
      var taken := Taken(s, b, bits, runs);
      assert ClearTotal(s.bitmaps, b) == BM.ClearCount(s.bitmaps[b], 0) + ClearTotal(s.bitmaps, b + 1);
      if remaining > 0 && b == |s.bitmaps| - 1 {
        assert ClearTotal(s.bitmaps, b + 1) == 0;
      } else if remaining > 0 {
        var next := Multi(kind, w, taken, b + 1, remaining);
        MultiOutOfMemoryIff(kind, w, taken, b + 1, remaining);
        ClearTotalFrom(taken.bitmaps, s.bitmaps, b + 1);
        AfterNextOutOfMemory(kind, w, b, runs, next);
      }
    }
  }

  /** A `reserveMultiple` that runs out of memory leaves every bitmap, in memory and on disk, as it found it:
      each level frees the bits it set before passing the failure on. */
  lemma {:induction false} MultiOutOfMemoryRestores(kind: Kind, w: Width, s: State, b: nat, size: nat)
    requires |s.disk| == |s.bitmaps|
    ensures var m := Multi(kind, w, s, b, size);
      m.result == Err(BitmapRegionOutOfMemory) ==> m.state.bitmaps == s.bitmaps && m.state.disk == s.disk
    decreases |s.bitmaps| - b
  {
    if b < |s.bitmaps| {
      var res := BM.ReserveRuns(s.bitmaps[b], size);
      var bits, runs := res.0, res.1;
      BM.ReserveRunsThenFree(s.bitmaps[b], size);
      var remaining := size - BM.Sum(runs);
      if remaining > 0 && b < |s.bitmaps| - 1 {
        var taken := Taken(s, b, bits, runs);
        MultiRecurse(kind, w, s, b, size, bits, runs);
        MultiOutOfMemoryRestores(kind, w, taken, b + 1, remaining);
        RestoreStep(kind, w, s, b, bits, runs, Multi(kind, w, taken, b + 1, remaining));
      } else {
        LastLevelRestores(kind, w, s, b, size, bits, runs);
      }
    }
  }

  /** A level that ends `reserveMultiple` fails for want of memory only when it is the last one, and then it
      frees what it took. */
  lemma {:induction false} LastLevelRestores(kind: Kind, w: Width, s: State, b: nat, size: nat, bits: BM.Bits,
                                             runs: seq<BM.BitRange>)
    requires |s.disk| == |s.bitmaps| && b < |s.bitmaps| && (bits, runs) == BM.ReserveRuns(s.bitmaps[b], size)
    requires BM.ClearRanges(bits, runs) == s.bitmaps[b]
    requires size - BM.Sum(runs) > 0 ==> b == |s.bitmaps| - 1
    ensures var m := Multi(kind, w, s, b, size);
      m.result == Err(BitmapRegionOutOfMemory) ==> m.state.bitmaps == s.bitmaps && m.state.disk == s.disk
  {
    MultiEnd(kind, w, s, b, size, bits, runs);
    assert s.bitmaps[b := bits][b := BM.ClearRanges(bits, runs)] == s.bitmaps;
  }

  /** A level whose next level failed for want of memory, having left the bitmaps as it found them, frees what
      it took and so leaves the bitmaps as they were before it. */
  lemma {:induction false} RestoreStep(kind: Kind, w: Width, s: State, b: nat, bits: BM.Bits, runs: seq<BM.BitRange>,
                                       next: MultiOutcome)
    requires b < |s.bitmaps| && |s.disk| == |s.bitmaps| && BM.ClearRanges(bits, runs) == s.bitmaps[b]
    requires |next.state.bitmaps| == |s.bitmaps| && |next.state.disk| == |s.bitmaps|
    requires next.result == Err(BitmapRegionOutOfMemory) ==>
      next.state.bitmaps == Taken(s, b, bits, runs).bitmaps && next.state.disk == s.disk
    ensures var m := AfterNext(kind, w, b, runs, next);
      m.result == Err(BitmapRegionOutOfMemory) ==> m.state.bitmaps == s.bitmaps && m.state.disk == s.disk
  {
    AfterNextOutOfMemory(kind, w, b, runs, next);
    if next.result == Err(BitmapRegionOutOfMemory) {
      assert s.bitmaps[b := bits][b := BM.ClearRanges(bits, runs)] == s.bitmaps;
    }
  }

  /** A level passes an out-of-memory answer on, and only that one, after freeing the runs it took. */
  lemma {:induction false} AfterNextOutOfMemory(kind: Kind, w: Width, b: nat, runs: seq<BM.BitRange>, next: MultiOutcome)
    requires b < |next.state.bitmaps| && |next.state.disk| == |next.state.bitmaps|
    ensures var m := AfterNext(kind, w, b, runs, next);
      && (m.result == Err(BitmapRegionOutOfMemory) <==> next.result == Err(BitmapRegionOutOfMemory))
      && (m.result == Err(BitmapRegionOutOfMemory) ==>
            m.state.bitmaps == next.state.bitmaps[b := BM.ClearRanges(next.state.bitmaps[b], runs)]
            && m.state.disk == next.state.disk)
  {
  }

  lemma {:induction false} ClearRangesNone(bits: BM.Bits)
    ensures BM.ClearRanges(bits, []) == bits
  {
  }

  lemma {:induction false} ClearBitsNone(bits: BM.Bits)
    ensures ClearBits(bits, []) == bits
  {
  }

  /** Range `r` of the list starts in bitmap `b`, at bit `x.from`, with the same length as `x`. */
  ghost predicate StartsIn(kind: Kind, w: Width, r: IdRange, b: nat, x: BM.BitRange) {
    BitmapOf(kind, w, r.from) == b && OffsetOf(kind, w, r.from) >= 0
    && x == BM.BitRange(OffsetOf(kind, w, r.from), r.length)
  }

  /** The local ranges of bitmap `b` are exactly the ranges of the list that start in it, shifted to bit offsets. */
  lemma {:induction false} LocalRangesMembers(kind: Kind, w: Width, ranges: seq<IdRange>, b: nat, x: BM.BitRange)
    ensures x in LocalRanges(kind, w, ranges, b) <==> exists k :: 0 <= k < |ranges| && StartsIn(kind, w, ranges[k], b, x)
    decreases |ranges|
  {
    if |ranges| > 0 {
      var init := ranges[..|ranges| - 1];
      LocalRangesMembers(kind, w, init, b, x);
      if exists k :: 0 <= k < |init| && StartsIn(kind, w, init[k], b, x) {
        var k :| 0 <= k < |init| && StartsIn(kind, w, init[k], b, x);
        assert ranges[k] == init[k];
      }
      if exists k :: 0 <= k < |ranges| && StartsIn(kind, w, ranges[k], b, x) {
        var k :| 0 <= k < |ranges| && StartsIn(kind, w, ranges[k], b, x);
        if k < |init| {
          assert init[k] == ranges[k];
        }
      }
    }
  }

  /** The local ids of bitmap `b` are exactly the offsets of the ids that lie in it. */
  lemma {:induction false} LocalIdsMembers(kind: Kind, w: Width, ids: seq<int>, b: nat, x: int)
    ensures x in LocalIds(kind, w, ids, b)
        <==> exists k :: 0 <= k < |ids| && BitmapOf(kind, w, ids[k]) == b && OffsetOf(kind, w, ids[k]) == x
    decreases |ids|
  {
    if |ids| > 0 {
      var init := ids[..|ids| - 1];
      LocalIdsMembers(kind, w, init, b, x);
      if exists k :: 0 <= k < |init| && BitmapOf(kind, w, init[k]) == b && OffsetOf(kind, w, init[k]) == x {
        var k :| 0 <= k < |init| && BitmapOf(kind, w, init[k]) == b && OffsetOf(kind, w, init[k]) == x;
        assert ids[k] == init[k];
      }
      if exists k :: 0 <= k < |ids| && BitmapOf(kind, w, ids[k]) == b && OffsetOf(kind, w, ids[k]) == x {
        var k :| 0 <= k < |ids| && BitmapOf(kind, w, ids[k]) == b && OffsetOf(kind, w, ids[k]) == x;
        if k < |init| {
          assert init[k] == ids[k];
        }
      }
    }
  }

  /** What `free(ranges)` does to each bitmap: a visited bitmap has its local ranges cleared, and is written and
      pulls `current` back to it when it has any; every other bitmap, and `current` beyond that, is untouched. */
  lemma {:induction false} FreeRangesEffect(kind: Kind, w: Width, s: State, ranges: seq<IdRange>, upTo: nat, b: nat)
    requires upTo <= |s.bitmaps| && |s.disk| == |s.bitmaps| && b < |s.bitmaps|
    ensures var r := FreeRangesUpTo(kind, w, s, ranges, upTo);
      var local := LocalRanges(kind, w, ranges, b);
      r.bitmaps[b] == (if b < upTo then BM.ClearRanges(s.bitmaps[b], local) else s.bitmaps[b])
      && r.disk[b] == (if b < upTo && |local| > 0 then r.bitmaps[b] else s.disk[b])
      && r.current <= s.current
      && (b < upTo && |local| > 0 ==> r.current <= b)
    decreases upTo
  {
    ClearRangesNone(s.bitmaps[b]);
    if upTo > 0 {
      FreeRangesEffect(kind, w, s, ranges, upTo - 1, b);
      var t := FreeRangesUpTo(kind, w, s, ranges, upTo - 1);
      var c := upTo - 1;
      var local := LocalRanges(kind, w, ranges, c);
      if |local| > 0 {
        var bits := BM.ClearRanges(t.bitmaps[c], local);
        assert FreeRangesUpTo(kind, w, s, ranges, upTo) == State(t.bitmaps[c := bits], t.disk[c := bits], MarkAsVacant(t.current, c));
      } else {
        assert FreeRangesUpTo(kind, w, s, ranges, upTo) == t;
      }
    }
  }

  /** `free(ranges)` leaves every bit of every range clear. */
  lemma {:induction false} FreeRangesClears(kind: Kind, w: Width, s: State, ranges: seq<IdRange>, k: nat, j: nat)
    requires WellFormed(w, s) && RangesInRegion(kind, w, ranges, |s.bitmaps|) && k < |ranges|
    requires OffsetOf(kind, w, ranges[k].from) <= j < OffsetOf(kind, w, ranges[k].from) + ranges[k].length && j < w
    ensures !FreeRangesUpTo(kind, w, s, ranges, |s.bitmaps|).bitmaps[BitmapOf(kind, w, ranges[k].from)][j]
  {
    var b := BitmapOf(kind, w, ranges[k].from);
    var x := BM.BitRange(OffsetOf(kind, w, ranges[k].from), ranges[k].length);
    assert StartsIn(kind, w, ranges[k], b, x);
    LocalRangesMembers(kind, w, ranges, b, x);
    FreeRangesEffect(kind, w, s, ranges, |s.bitmaps|, b);
    var local := LocalRanges(kind, w, ranges, b);
    var i :| 0 <= i < |local| && local[i] == x;
    assert local[i].from <= j < local[i].End();
  }

  /** What the older `free(ids)` does to each bitmap: a visited bitmap has its local bits cleared, and is written
      and pulls `current` back to it when it holds any of the ids, even if none of their bits was set; every other
      bitmap is untouched. */
  lemma {:induction false} FreeIdsEffect(kind: Kind, w: Width, s: State, ids: seq<int>, upTo: nat, b: nat)
    requires upTo <= |s.bitmaps| && |s.disk| == |s.bitmaps| && b < |s.bitmaps|
    ensures var r := FreeIdsUpTo(kind, w, s, ids, upTo);
      var local := LocalIds(kind, w, ids, b);
      r.bitmaps[b] == (if b < upTo then ClearBits(s.bitmaps[b], local) else s.bitmaps[b])
      && r.disk[b] == (if b < upTo && |local| > 0 then r.bitmaps[b] else s.disk[b])
      && r.current <= s.current
      && (b < upTo && |local| > 0 ==> r.current <= b)
    decreases upTo
  {
    ClearBitsNone(s.bitmaps[b]);
    if upTo > 0 {
      FreeIdsEffect(kind, w, s, ids, upTo - 1, b);
      var t := FreeIdsUpTo(kind, w, s, ids, upTo - 1);
      var c := upTo - 1;
      var local := LocalIds(kind, w, ids, c);
      if |local| > 0 {
        var bits := ClearBits(t.bitmaps[c], local);
        assert FreeIdsUpTo(kind, w, s, ids, upTo) == State(t.bitmaps[c := bits], t.disk[c := bits], MarkAsVacant(t.current, c));
      } else {
        assert FreeIdsUpTo(kind, w, s, ids, upTo) == t;
      }
    }
  }

  /** After the older `free(ids)`, the bit of every id is clear and `current` is at or below the bitmap of every
      id, whether or not its bit was set before. */
  lemma {:induction false} FreeIdsClears(kind: Kind, w: Width, s: State, ids: seq<int>, k: nat)
    requires WellFormed(w, s) && IdsInRegion(kind, w, ids, |s.bitmaps|) && k < |ids|
    ensures var r := FreeIdsUpTo(kind, w, s, ids, |s.bitmaps|);
      var b := BitmapOf(kind, w, ids[k]);
      var p := OffsetOf(kind, w, ids[k]);
      r.current <= b && (0 <= p < w ==> !r.bitmaps[b][p])
  {
    var b := BitmapOf(kind, w, ids[k]);
    LocalIdsMembers(kind, w, ids, b, OffsetOf(kind, w, ids[k]));
    FreeIdsEffect(kind, w, s, ids, |s.bitmaps|, b);
  }
}
