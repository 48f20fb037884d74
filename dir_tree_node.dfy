/** A node of the hashed directory index: dx entries `(hash, block)` meant to be ordered by hash; a lookup
    picks the block whose hash range holds the hash of a name. */
module DirTreeNode {
  import opened Wrappers
  import opened JavaInt
  import opened Bytes
  import opened Fields
  import Block

  /** One index entry: names whose hash is at least `hash` (and below the next entry's) live in `block`. */
  datatype DxEntry = DxEntry(hash: int32, block: Block.Id)

  /** Bytes a dx entry occupies: two ints. */
  const DX_ENTRY_LENGTH: nat := 8

  /** `DxEntry.write`: the hash, then the block number, as two ints. */
  function EncodeDx(e: DxEntry): (r: seq<byte>)
    ensures |r| == DX_ENTRY_LENGTH
  {
    PutInt(e.hash) + PutInt(e.block.value)
  }

  /** `DxEntry.read` at index `at`: two ints, or an underflow when fewer than eight bytes remain. */
  function ReadDx(s: seq<byte>, at: nat): (r: Result<DxEntry>)
    ensures r.Err? <==> |s| < at + DX_ENTRY_LENGTH
    ensures r.Err? ==> r.error == BufferUnderflow
  {
    if |s| < at + DX_ENTRY_LENGTH then Err(BufferUnderflow)
    else Ok(DxEntry(GetInt(s, at), Block.Id(GetInt(s, at + 4))))
  }

  /** An entry written anywhere in a buffer reads back unchanged. */
  lemma {:induction false} ReadEncodeDx(e: DxEntry, prefix: seq<byte>, suffix: seq<byte>)
    ensures ReadDx(prefix + EncodeDx(e) + suffix, |prefix|) == Ok(e)
  {
    var s := prefix + EncodeDx(e) + suffix;
    assert s == prefix + PutInt(e.hash) + (PutInt(e.block.value) + suffix);
    GetPutInt(e.hash, prefix, PutInt(e.block.value) + suffix);
    assert s == (prefix + PutInt(e.hash)) + PutInt(e.block.value) + suffix;
    GetPutInt(e.block.value, prefix + PutInt(e.hash), suffix);
  }

  /** Reading eight bytes and writing the entry back reproduces those bytes: no bit pattern is lost. */
  lemma {:induction false} EncodeReadDx(s: seq<byte>, at: nat)
    requires at + DX_ENTRY_LENGTH <= |s|
    ensures ReadDx(s, at).Ok? && EncodeDx(ReadDx(s, at).value) == s[at..at + DX_ENTRY_LENGTH]
  {
    PutGetInt(s, at);
    PutGetInt(s, at + 4);
    assert s[at..at + 8] == s[at..at + 4] + s[at + 4..at + 8];
  }

  /** The intended order of the first `n` entries of a node: hashes never decrease. */
  ghost predicate SortedUpTo(es: seq<DxEntry>, n: nat)
    requires n <= |es|
  {
    forall i, j :: 0 <= i < j < n ==> es[i].hash <= es[j].hash
  }

  /** The intended order of a node. */
  ghost predicate Sorted(es: seq<DxEntry>)
  {
    SortedUpTo(es, |es|)
  }

  /** What `isSorted` checks as written: no hash is below the FIRST entry's hash (`last` is never advanced). */
  ghost predicate AtLeastFirst(es: seq<DxEntry>)
    requires es != []
  {
    forall i :: 1 <= i < |es| ==> es[i].hash >= es[0].hash
  }

  /** `isSorted` as written: the scan compares every entry with the first hash only; an empty list has no
      first entry. */
  method IsSorted(es: seq<DxEntry>) returns (r: Result<bool>)
    ensures es == [] <==> r == Err(NoSuchElement)
    ensures r.Ok? ==> (r.value <==> AtLeastFirst(es))
  {
    if es == [] {
      return Err(NoSuchElement);
    }
    var last := es[0].hash;
    var i := 1;
    while i < |es|
      invariant 1 <= i <= |es|
      invariant forall j :: 1 <= j < i ==> es[j].hash >= last
    {
      if es[i].hash < last {
        return Ok(false);
      }
      i := i + 1;
    }
    return Ok(true);
  }

  /** `isSorted` as evidently intended: each entry is compared with the one before it. */
  method IsSortedFixed(es: seq<DxEntry>) returns (r: Result<bool>)
    ensures es == [] <==> r == Err(NoSuchElement)
    ensures r.Ok? ==> (r.value <==> Sorted(es))
  {
    if es == [] {
      return Err(NoSuchElement);
    }
    var last := es[0].hash;
    var i := 1;
    while i < |es|
      invariant 1 <= i <= |es| && last == es[i - 1].hash
      invariant SortedUpTo(es, i)
    {
      if es[i].hash < last {
        return Ok(false);
      }
      SortedExtend(es, i);
      last := es[i].hash;
      i := i + 1;
    }
    return Ok(true);
  }

  /** A sorted prefix stays sorted when the next entry is not below its last one. */
  lemma {:induction false} SortedExtend(es: seq<DxEntry>, i: nat)
    requires 1 <= i < |es| && SortedUpTo(es, i) && es[i - 1].hash <= es[i].hash
    ensures SortedUpTo(es, i + 1)
  {
    forall a, b | 0 <= a < b < i + 1
      ensures es[a].hash <= es[b].hash
    {
      if b == i && a < i - 1 {
        assert es[a].hash <= es[i - 1].hash;
      }
    }
  }

  /** The check as written accepts every sorted node, but also unsorted ones: `[1, 3, 2]` passes because only
      the first hash is compared. */
  lemma {:induction false} IsSortedTooWeak()
    ensures forall es: seq<DxEntry> :: es != [] && Sorted(es) ==> AtLeastFirst(es)
    ensures var es := [DxEntry(1, Block.ZERO), DxEntry(3, Block.ZERO), DxEntry(2, Block.ZERO)];
      AtLeastFirst(es) && !Sorted(es)
  {
    var es := [DxEntry(1, Block.ZERO), DxEntry(3, Block.ZERO), DxEntry(2, Block.ZERO)];
    assert es[1].hash > es[2].hash;
  }

  /** `checkInvariant` (assertions enabled), with the sortedness test as written. */
  function CheckInvariant(es: seq<DxEntry>): (r: Result<()>)
    ensures r.Ok? <==> es != [] && AtLeastFirst(es)
    ensures r.Err? ==> r.error == AssertionFailure
  {
    if es != [] && forall i | 1 <= i < |es| :: es[i].hash >= es[0].hash then Ok(()) else Err(AssertionFailure)
  }

  /** The index of the first entry from `i` on whose hash exceeds `h`, or `|es|` when there is none. */
  function FirstAbove(es: seq<DxEntry>, h: int, i: nat): (r: nat)
    requires i <= |es|
    ensures i <= r <= |es|
    decreases |es| - i
  {
    if i == |es| then |es| else if es[i].hash > h then i else FirstAbove(es, h, i + 1)
  }

  /** `FirstAbove` is what it says: every entry it skips has a hash at most `h`, the one it stops at exceeds
      `h`. */
  lemma {:induction false} FirstAboveSpec(es: seq<DxEntry>, h: int, i: nat)
    requires i <= |es|
    ensures i <= FirstAbove(es, h, i) <= |es|
    ensures forall j :: i <= j < FirstAbove(es, h, i) ==> es[j].hash <= h
    ensures FirstAbove(es, h, i) < |es| ==> es[FirstAbove(es, h, i)].hash > h
    decreases |es| - i
  {
    if i < |es| && es[i].hash <= h {
      FirstAboveSpec(es, h, i + 1);
    }
  }

  /** Entry `k` is the one a lookup of hash `h` lands on: no entry up to `k` is above `h`, and the next one, if
      any, is. */
  ghost predicate Covers(es: seq<DxEntry>, h: int, k: int)
  {
    && 0 <= k < |es|
    && (forall j :: 0 <= j <= k ==> es[j].hash <= h)
    && (k + 1 < |es| ==> es[k + 1].hash > h)
  }

  /** `get(name)` with `h` the name's hash: an empty node has no first entry; a first hash above `h` is an
      illegal state; otherwise the block of the entry before the first one whose hash exceeds `h`, or of the
      last entry. */
  method Get(es: seq<DxEntry>, h: int32) returns (r: Result<Block.Id>)
    ensures es == [] ==> r == Err(NoSuchElement)
    ensures es != [] && es[0].hash > h ==> r == Err(IllegalState)
    ensures es != [] && es[0].hash <= h ==> r.Ok? && r.value == es[FirstAbove(es, h, 0) - 1].block
    ensures r.Ok? ==> Covers(es, h, FirstAbove(es, h, 0) - 1)
  {
    if es == [] {
      return Err(NoSuchElement);
    }
    var firstHash := es[0].hash;
    if firstHash > h {
      return Err(IllegalState);
    }
    FirstAboveSpec(es, h, 0);
    var i := 0;
    while i < |es|
      invariant 0 <= i <= |es|
      invariant forall j :: 0 <= j < i ==> es[j].hash <= h
      invariant FirstAbove(es, h, i) == FirstAbove(es, h, 0)
    {
      if es[i].hash > h {
        return Ok(es[i - 1].block);
      }
      i := i + 1;
    }
    return Ok(es[|es| - 1].block);
  }

  /** On a sorted node the entry a lookup lands on is the LAST one whose hash is at most `h`: every later entry
      is above `h`. */
  lemma {:induction false} SortedCoversLast(es: seq<DxEntry>, h: int, k: int)
    requires Sorted(es) && Covers(es, h, k)
    ensures forall j :: k < j < |es| ==> es[j].hash > h
  {
    forall j | k < j < |es|
      ensures es[j].hash > h
    {
      assert es[k + 1].hash <= es[j].hash;
    }
  }

  /** With the check as written a node can pass and still send a lookup to the wrong block: on hashes
      `[1, 3, 2]` a lookup of 2 lands on the first entry, although the third entry holds hash 2. */
  lemma {:induction false} UnsortedLookup()
    ensures var es := [DxEntry(1, Block.Id(10)), DxEntry(3, Block.Id(11)), DxEntry(2, Block.Id(12))];
      AtLeastFirst(es) && FirstAbove(es, 2, 0) - 1 == 0 && es[2].hash <= 2
  {
    var es := [DxEntry(1, Block.Id(10)), DxEntry(3, Block.Id(11)), DxEntry(2, Block.Id(12))];
    assert FirstAbove(es, 2, 1) == 1;
  }
}
