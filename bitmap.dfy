/** One bitmap block: bit `i` set means item `i` of the block's share is in use. */
module Bitmap {

  type Bits = seq<bool>

  /** What `reserve()` answers on a full bitmap. */
  const NOT_FOUND: int := -1

  /** `Bitmap.Range`: `length` consecutive bits starting at bit `from`. */
  datatype BitRange = BitRange(from: nat, length: nat) {
    function End(): nat { from + length }
  }

  /** The lowest clear bit at or after `i`, or `NOT_FOUND`. */
  function FirstClear(bits: Bits, i: nat): (r: int)
    requires i <= |bits|
    ensures r == NOT_FOUND || i <= r < |bits|
    ensures r == NOT_FOUND <==> forall j :: i <= j < |bits| ==> bits[j]
    ensures r != NOT_FOUND ==> !bits[r] && forall j :: i <= j < r ==> bits[j]
    decreases |bits| - i
  {
    if i == |bits| then NOT_FOUND
    else if !bits[i] then i
    else FirstClear(bits, i + 1)
  }

  /** `reserve()`: sets the lowest clear bit and returns it; a full bitmap is left as it is. */
  function Reserve(bits: Bits): (r: (Bits, int))
    ensures r.1 == NOT_FOUND ==> r.0 == bits && forall j :: 0 <= j < |bits| ==> bits[j]
    ensures r.1 != NOT_FOUND ==> 0 <= r.1 < |bits| && !bits[r.1] && r.0 == bits[r.1 := true]
    ensures r.1 != NOT_FOUND ==> forall j :: 0 <= j < r.1 ==> bits[j]
  {
    var p := FirstClear(bits, 0);
    if p == NOT_FOUND then (bits, p) else (bits[p := true], p)
  }

  /** `free(bit)`: clears the bit and tells whether it was set; a bit outside the bitmap changes nothing. */
  function Free(bits: Bits, i: int): (r: (Bits, bool))
    ensures |r.0| == |bits|
    ensures r.1 <==> 0 <= i < |bits| && bits[i]
    ensures 0 <= i < |bits| ==> !r.0[i]
    ensures forall j :: 0 <= j < |bits| && j != i ==> r.0[j] == bits[j]
  {
    if 0 <= i < |bits| then (bits[i := false], bits[i]) else (bits, false)
  }

  /** Reserving one bit and freeing the bit returned restores the bitmap and reports a change. */
  lemma {:induction false} ReserveThenFree(bits: Bits)
    requires Reserve(bits).1 != NOT_FOUND
    ensures Free(Reserve(bits).0, Reserve(bits).1) == (bits, true)
  {
    var (b, p) := Reserve(bits);
    assert b[p := false] == bits;
  }

  /** The end of the clear run starting at `s`, taking at most `cap` bits. */
  function RunEnd(bits: Bits, s: nat, cap: nat): (e: nat)
    requires s <= |bits|
    ensures s <= e <= |bits| && e - s <= cap
    ensures forall j :: s <= j < e ==> !bits[j]
    ensures e < |bits| && e - s < cap ==> bits[e]
    ensures s < |bits| && !bits[s] && cap > 0 ==> e > s
    decreases |bits| - s
  {
    if s == |bits| || cap == 0 || bits[s] then s else RunEnd(bits, s + 1, cap - 1)
  }

  /** The runs `reserve(n)` takes from bit `i` on: each maximal run of clear bits in ascending order, the last one
      cut short once `n` bits are taken. */
  function Runs(bits: Bits, i: nat, n: nat): seq<BitRange>
    requires i <= |bits|
    decreases |bits| - i
  {
    if n == 0 then []
    else
      var s := FirstClear(bits, i);
      if s == NOT_FOUND then []
      else
        var e := RunEnd(bits, s, n);
        [BitRange(s, e - s)] + Runs(bits, e, n - (e - s))
  }

  /** Bit `j` lies in one of the ranges. */
  predicate Covered(rs: seq<BitRange>, j: int)
  {
    exists k :: 0 <= k < |rs| && rs[k].from <= j < rs[k].End()
  }

  /** The bitmap with every bit of the ranges set. */
  function SetRanges(bits: Bits, rs: seq<BitRange>): (r: Bits)
    ensures |r| == |bits|
  {
    seq(|bits|, j => 0 <= j < |bits| && (bits[j] || Covered(rs, j)))
  }

  /** The bitmap with every bit of the ranges cleared (`free(range)` for each range). */
  function ClearRanges(bits: Bits, rs: seq<BitRange>): (r: Bits)
    ensures |r| == |bits|
  {
    seq(|bits|, j => 0 <= j < |bits| && bits[j] && !Covered(rs, j))
  }

  /** `reserve(n)`: the runs taken and the bitmap with them set. */
  function ReserveRuns(bits: Bits, n: nat): (r: (Bits, seq<BitRange>))
  {
    var rs := Runs(bits, 0, n);
    (SetRanges(bits, rs), rs)
  }

  function Sum(rs: seq<BitRange>): nat {
    if |rs| == 0 then 0 else rs[0].length + Sum(rs[1..])
  }

  /** Clear bits at or after `i`. */
  function ClearCount(bits: Bits, i: nat): nat
    requires i <= |bits|
    decreases |bits| - i
  {
    if i == |bits| then 0 else (if bits[i] then 0 else 1) + ClearCount(bits, i + 1)
  }

  function Min(a: int, b: int): int { if a <= b then a else b }

  /** Skipping set bits and then a clear run splits the count of clear bits. */
  lemma {:induction false} ClearCountSplit(bits: Bits, i: nat, s: nat, e: nat)
    requires i <= s <= e <= |bits|
    requires forall j :: i <= j < s ==> bits[j]
    requires forall j :: s <= j < e ==> !bits[j]
    ensures ClearCount(bits, i) == (e - s) + ClearCount(bits, e)
    decreases e - i
  {
    if i < s {
      ClearCountSplit(bits, i + 1, s, e);
    } else if i < e {
      ClearCountSplit(bits, i + 1, i + 1, e);
    }
  }

  lemma {:induction false} ClearCountZero(bits: Bits, i: nat)
    requires i <= |bits|
    requires forall j :: i <= j < |bits| ==> bits[j]
    ensures ClearCount(bits, i) == 0
    decreases |bits| - i
  {
    if i < |bits| {
      ClearCountZero(bits, i + 1);
    }
  }

  /** `reserve(n)` takes `n` bits when the bitmap has that many clear bits, and every clear bit otherwise. */
  lemma {:induction false} RunsTakeAvailable(bits: Bits, i: nat, n: nat)
    requires i <= |bits|
    ensures Sum(Runs(bits, i, n)) == Min(n, ClearCount(bits, i))
    decreases |bits| - i
  {
    if n > 0 {
      var s := FirstClear(bits, i);
      if s == NOT_FOUND {
        ClearCountZero(bits, i);
      } else {
        var e := RunEnd(bits, s, n);
        var rs := Runs(bits, i, n);
        assert rs[1..] == Runs(bits, e, n - (e - s));
        RunsTakeAvailable(bits, e, n - (e - s));
        ClearCountSplit(bits, i, s, e);
        if e - s < n && e < |bits| {
          assert bits[e];
        }
        if e - s < n && e == |bits| {
          assert ClearCount(bits, e) == 0;
        }
      }
    }
  }

  /** Every range is non-empty, inside the bitmap and at or after bit `i`. */
  ghost predicate InBounds(rs: seq<BitRange>, i: nat, size: nat) {
    forall k :: 0 <= k < |rs| ==> 0 < rs[k].length && i <= rs[k].from && rs[k].End() <= size
  }

  /** Every bit of every range is clear in `bits`. */
  ghost predicate AllClear(bits: Bits, rs: seq<BitRange>) {
    forall k, j :: 0 <= k < |rs| && rs[k].from <= j < rs[k].End() && j < |bits| ==> !bits[j]
  }

  /** Ranges in ascending order, with a gap of at least one bit between neighbours. */
  ghost predicate Separated(rs: seq<BitRange>) {
    forall k :: 0 < k < |rs| ==> rs[k - 1].End() < rs[k].from
  }

  /** Every run is non-empty, inside the bitmap, at or after `i`, and made of bits that were clear; runs come in
      ascending order with at least one set bit between two runs (each run is maximal). */
  lemma {:induction false} RunsShape(bits: Bits, i: nat, n: nat)
    requires i <= |bits|
    ensures InBounds(Runs(bits, i, n), i, |bits|)
    ensures AllClear(bits, Runs(bits, i, n))
    ensures Separated(Runs(bits, i, n))
  {
    RunsInBounds(bits, i, n);
    RunsAllClear(bits, i, n);
    RunsSeparated(bits, i, n);
  }

  lemma {:induction false} RunsInBounds(bits: Bits, i: nat, n: nat)
    requires i <= |bits|
    ensures InBounds(Runs(bits, i, n), i, |bits|)
    decreases |bits| - i
  {
    if n > 0 && FirstClear(bits, i) != NOT_FOUND {
      var s := FirstClear(bits, i);
      var e := RunEnd(bits, s, n);
      var rs := Runs(bits, i, n);
      var rest := Runs(bits, e, n - (e - s));
      assert rs == [BitRange(s, e - s)] + rest;
      RunsInBounds(bits, e, n - (e - s));
      forall k | 0 <= k < |rs|
        ensures 0 < rs[k].length && i <= rs[k].from && rs[k].End() <= |bits|
      {
        if k > 0 { assert rs[k] == rest[k - 1]; }
      }
    }
  }

  lemma {:induction false} RunsAllClear(bits: Bits, i: nat, n: nat)
    requires i <= |bits|
    ensures AllClear(bits, Runs(bits, i, n))
    decreases |bits| - i
  {
    if n > 0 && FirstClear(bits, i) != NOT_FOUND {
      var s := FirstClear(bits, i);
      var e := RunEnd(bits, s, n);
      var rs := Runs(bits, i, n);
      var rest := Runs(bits, e, n - (e - s));
      assert rs == [BitRange(s, e - s)] + rest;
      RunsAllClear(bits, e, n - (e - s));
      forall k, j | 0 <= k < |rs| && rs[k].from <= j < rs[k].End() && j < |bits|
        ensures !bits[j]
      {
        if k > 0 { assert rs[k] == rest[k - 1]; }
      }
    }
  }

  lemma {:induction false} RunsSeparated(bits: Bits, i: nat, n: nat)
    requires i <= |bits|
    ensures Separated(Runs(bits, i, n))
    decreases |bits| - i
  {
    if n > 0 && FirstClear(bits, i) != NOT_FOUND {
      var s := FirstClear(bits, i);
      var e := RunEnd(bits, s, n);
      var rs := Runs(bits, i, n);
      var rest := Runs(bits, e, n - (e - s));
      assert rs == [BitRange(s, e - s)] + rest;
      RunsSeparated(bits, e, n - (e - s));
      if |rest| > 0 {
        assert FirstClear(bits, e) != NOT_FOUND;
        assert bits[e];
        assert rest[0].from > e;
      }
      forall k | 0 < k < |rs|
        ensures rs[k - 1].End() < rs[k].from
      {
        assert rs[k] == rest[k - 1];
        if k > 1 { assert rs[k - 1] == rest[k - 2]; }
      }
    }
  }

  /** A range that ends at or before `j`, put in front of ranges that cover `j` or end at or before it. */
  lemma {:induction false} ConsLowest(r: BitRange, rest: seq<BitRange>, j: nat)
    requires r.End() <= j
    requires Covered(rest, j) || forall k :: 0 <= k < |rest| ==> rest[k].End() <= j
    ensures Covered([r] + rest, j) || forall k :: 0 <= k < |[r] + rest| ==> ([r] + rest)[k].End() <= j
  {
    var rs := [r] + rest;
    if Covered(rest, j) {
      var k :| 0 <= k < |rest| && rest[k].from <= j < rest[k].End();
      assert rs[k + 1] == rest[k];
    } else {
      forall k | 0 <= k < |rs|
        ensures rs[k].End() <= j
      {
        if k > 0 { assert rs[k] == rest[k - 1]; }
      }
    }
  }

  /** The runs are the lowest clear bits: a clear bit at or after `i` is either taken or lies after every run. */
  lemma {:induction false} RunsLowest(bits: Bits, i: nat, n: nat, j: nat)
    requires i <= j < |bits| && !bits[j]
    ensures Covered(Runs(bits, i, n), j) || forall k :: 0 <= k < |Runs(bits, i, n)| ==> Runs(bits, i, n)[k].End() <= j
    decreases |bits| - i
  {
    if n > 0 {
      var s := FirstClear(bits, i);
      if s != NOT_FOUND {
        var e := RunEnd(bits, s, n);
        var rest := Runs(bits, e, n - (e - s));
        assert Runs(bits, i, n) == [BitRange(s, e - s)] + rest;
        if j < e {
          assert Runs(bits, i, n)[0].from <= j < Runs(bits, i, n)[0].End();
        } else {
          RunsLowest(bits, e, n - (e - s), j);
          ConsLowest(BitRange(s, e - s), rest, j);
        }
      }
    }
  }

  /** Freeing ranges whose bits were all clear before they were set gives back the original bitmap: the
      roll-back of a reservation that cannot be completed. */
  lemma {:induction false} ClearAfterSet(bits: Bits, rs: seq<BitRange>)
    requires AllClear(bits, rs)
    ensures ClearRanges(SetRanges(bits, rs), rs) == bits
  {
    var r := ClearRanges(SetRanges(bits, rs), rs);
    forall j | 0 <= j < |bits|
      ensures r[j] == bits[j]
    {
      if exists k :: 0 <= k < |rs| && rs[k].from <= j < rs[k].End() {
        var k :| 0 <= k < |rs| && rs[k].from <= j < rs[k].End();
        assert !bits[j];
      }
    }
  }

  /** Setting the ranges `reserve(n)` took and then freeing them restores the bitmap. */
  lemma {:induction false} ReserveRunsThenFree(bits: Bits, n: nat)
    ensures ClearRanges(ReserveRuns(bits, n).0, ReserveRuns(bits, n).1) == bits
  {
    RunsShape(bits, 0, n);
    ClearAfterSet(bits, Runs(bits, 0, n));
  }

  /** A reservation never clears a bit that was set. */
  lemma {:induction false} SetRangesGrows(bits: Bits, rs: seq<BitRange>, j: nat)
    requires j < |bits| && bits[j]
    ensures SetRanges(bits, rs)[j]
  {
  }
}
