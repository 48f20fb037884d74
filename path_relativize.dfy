/** `relativize(other)` of a path (AtlantPath): the path that leads from this path to the other, one ".."
    for each of this path's names past the names both share, then the other's remaining names. */
module PathRelativize {
  import opened Wrappers
  import opened Bytes
  import opened PathNames
  import opened PathNormalize
  import opened PathResolve
  import opened PathOps

  /** The number of leading names the two paths share, counting on from name `c`. */
  function CommonFrom(p1: seq<byte>, p2: seq<byte>, c: nat): (r: nat)
    requires c <= NameCount(p1) && c <= NameCount(p2)
    ensures c <= r <= NameCount(p1) && r <= NameCount(p2)
    decreases NameCount(p1) - c
  {
    if c < NameCount(p1) && c < NameCount(p2) && Name(p1, c) == Name(p2, c) then CommonFrom(p1, p2, c + 1)
    else c
  }

  /** The number of leading names the two paths share. */
  function Common(p1: seq<byte>, p2: seq<byte>): nat
  {
    CommonFrom(p1, p2, 0)
  }

  lemma {:induction false} CommonFromSpec(p1: seq<byte>, p2: seq<byte>, c: nat)
    requires c <= NameCount(p1) && c <= NameCount(p2)
    requires forall k :: 0 <= k < c ==> Name(p1, k) == Name(p2, k)
    ensures var r := CommonFrom(p1, p2, c);
            (forall k :: 0 <= k < r ==> Name(p1, k) == Name(p2, k)) &&
            (r < NameCount(p1) && r < NameCount(p2) ==> Name(p1, r) != Name(p2, r))
    decreases NameCount(p1) - c
  {
    if c < NameCount(p1) && c < NameCount(p2) && Name(p1, c) == Name(p2, c) {
      CommonFromSpec(p1, p2, c + 1);
    }
  }

  /** The shared leading names: every name before the count is the same in both paths, and the next
      name, when both have one, differs. */
  lemma CommonSpec(p1: seq<byte>, p2: seq<byte>)
    ensures Common(p1, p2) <= NameCount(p1) && Common(p1, p2) <= NameCount(p2)
    ensures forall k :: 0 <= k < Common(p1, p2) ==> Name(p1, k) == Name(p2, k)
    ensures var c := Common(p1, p2);
            c < NameCount(p1) && c < NameCount(p2) ==> Name(p1, c) != Name(p2, c)
  {
    CommonFromSpec(p1, p2, 0);
  }

  /** "../" written `n` times. */
  function UpSlashes(n: nat): (r: seq<byte>)
    ensures |r| == 3 * n
    ensures n > 0 ==> r[0] == DOT
  {
    if n == 0 then [] else UpSlashes(n - 1) + [DOT, DOT, SLASH]
  }

  /** The leading ".." of the result: `n` of them, each followed by '/' when more of the result follows. */
  function UpsOut(n: nat, rest: bool): (r: seq<byte>)
    requires n > 0 || rest
    ensures |r| == if rest then 3 * n else 3 * n - 1
    ensures n > 0 ==> r[0] == DOT
  {
    if rest then UpSlashes(n) else UpSlashes(n - 1) + TWO_DOTS
  }

  /** `relativize(other)`: empty for an equal path; an absolute and a relative path refuse with
      IllegalArgumentException; otherwise ".." for each of this path's names past the shared ones, then
      the other's bytes from its first name past the shared ones. With no ".." and no remaining name
      (paths that differ only in their separators) the computed length is -1, and allocating the
      result fails with NegativeArraySizeException. */
  function Relative(p1: seq<byte>, p2: seq<byte>): (r: Result<seq<byte>>)
    ensures r.Ok? && p1 != p2 ==> r.value != [] && r.value[0] != SLASH
  {
    if p1 == p2 then Ok([])
    else if IsAbsolute(p1) != IsAbsolute(p2) then Err(IllegalArgument)
    else
      var c := Common(p1, p2);
      var up := NameCount(p1) - c;
      if c < NameCount(p2) then
        OffsetsExact(p2);
        assert NameStart(p2, Offsets(p2)[c]);
        Ok(UpsOut(up, true) + p2[Offsets(p2)[c]..])
      else if up == 0 then Err(NegativeArraySize)
      else Ok(UpsOut(up, false))
  }

  /** ".." has one name, itself. */
  lemma TwoDotsNames()
    ensures Names(TWO_DOTS) == [TWO_DOTS]
  {
    assert Starts(TWO_DOTS, 0, 2) == Starts(TWO_DOTS, 0, 1) == [0];
    assert Name(TWO_DOTS, 0) == TWO_DOTS[0..2] == TWO_DOTS;
  }

  /** `n` times ".." joined by '/' has `n` names "..". */
  lemma {:induction false} DotsNames(n: nat)
    requires n > 0
    ensures Names(UpsOut(n, false)) == Ups(n)
  {
    TwoDotsNames();
    if n == 1 {
      assert UpsOut(1, false) == TWO_DOTS;
    } else {
      DotsNames(n - 1);
      assert UpsOut(n, false) == UpsOut(n - 1, false) + [SLASH] + TWO_DOTS;
      NamesJoin(UpsOut(n - 1, false), TWO_DOTS);
      assert Ups(n) == Ups(n - 1) + [TWO_DOTS];
    }
  }

  /** The names of what follows the shared names are the other's remaining names. */
  lemma RestNames(p2: seq<byte>, c: nat)
    requires c < NameCount(p2)
    ensures Offsets(p2)[c] < |p2| && Names(p2[Offsets(p2)[c]..]) == Names(p2)[c..]
  {
    var n := NameCount(p2);
    Window(p2, c, n, Offsets(p2)[c]);
    assert p2[Offsets(p2)[c]..] == p2[Offsets(p2)[c]..NameEnd(p2, Offsets(p2), n - 1)];
  }

  /** The names of the result: ".." for each of this path's names past the shared ones, then the
      other's names past the shared ones. */
  lemma RelativeNames(p1: seq<byte>, p2: seq<byte>)
    requires p1 != p2 && Relative(p1, p2).Ok?
    ensures var c := Common(p1, p2);
            Names(Relative(p1, p2).value) == Ups(NameCount(p1) - c) + Names(p2)[c..]
  {
    var c := Common(p1, p2);
    var up := NameCount(p1) - c;
    var r := Relative(p1, p2).value;
    if c < NameCount(p2) {
      OffsetsExact(p2);
      var tail := p2[Offsets(p2)[c]..];
      RestNames(p2, c);
      assert NameStart(p2, Offsets(p2)[c]);
      assert r == UpSlashes(up) + tail;
      UpsThenNames(up, tail);
    } else {
      DotsNames(up);
    }
  }

  /** `n` times "../" followed by a relative path: `n` names "..", then the path's names. */
  lemma UpsThenNames(n: nat, tail: seq<byte>)
    requires tail != [] && tail[0] != SLASH
    ensures Names(UpSlashes(n) + tail) == Ups(n) + Names(tail)
  {
    if n == 0 {
      assert UpSlashes(0) + tail == tail;
    } else {
      DotsNames(n);
      assert UpSlashes(n) + tail == UpsOut(n, false) + [SLASH] + tail;
      NamesJoin(UpsOut(n, false), tail);
    }
  }

  // ---------------------------------------------------------------------------------------------
  // Resolving the result against this path walks to the other path
  // ---------------------------------------------------------------------------------------------

  /** The walk continued from `k` over more names. */
  function Run(abs: bool, k: Kept, zs: seq<seq<byte>>): Kept
    decreases |zs|
  {
    if zs == [] then k else Step(abs, Run(abs, k, zs[..|zs| - 1]), zs[|zs| - 1])
  }

  lemma {:induction false} FoldAppend(abs: bool, ys: seq<seq<byte>>, zs: seq<seq<byte>>)
    ensures Fold(abs, ys + zs) == Run(abs, Fold(abs, ys), zs)
    decreases |zs|
  {
    if zs == [] {
      assert ys + zs == ys;
    } else {
      FoldAppend(abs, ys, zs[..|zs| - 1]);
      assert (ys + zs)[..|ys + zs| - 1] == ys + zs[..|zs| - 1];
    }
  }

  /** Names that are not "." or "..", followed by as many "..", leave the walk where it was. */
  lemma {:induction false} UpsCancel(abs: bool, a: seq<seq<byte>>, xs: seq<seq<byte>>)
    requires forall i :: 0 <= i < |xs| ==> xs[i] != ONE_DOT && xs[i] != TWO_DOTS
    ensures Fold(abs, a + xs + Ups(|xs|)) == Fold(abs, a)
    decreases |xs|
  {
    if xs == [] {
      assert a + xs + Ups(0) == a;
    } else {
      var m := |xs| - 1;
      var front, x := xs[..m], xs[m];
      assert Ups(m + 1) == [TWO_DOTS] + Ups(m);
      assert a + xs + Ups(m + 1) == (a + front + [x] + [TWO_DOTS]) + Ups(m);
      FoldAppend(abs, a + front + [x] + [TWO_DOTS], Ups(m));
      DotDotCancels(abs, a + front, x);
      FoldAppend(abs, a + front, Ups(m));
      UpsCancel(abs, a, front);
    }
  }

  /** Resolving the result against this path (without a trailing '/', and whose names past the shared
      ones are neither "." nor "..") gives a path whose walk keeps what the other path's walk keeps:
      `p1.resolve(p1.relativize(p2)).normalize()` names what `p2.normalize()` names. */
  lemma RelativeThenResolve(p1: seq<byte>, p2: seq<byte>)
    requires p1 != p2 && p1 != [] && NoTrailingSlash(p1) && Relative(p1, p2).Ok?
    requires forall k :: Common(p1, p2) <= k < NameCount(p1) ==> Name(p1, k) != ONE_DOT && Name(p1, k) != TWO_DOTS
    ensures Resolve(p1, Relative(p1, p2).value).Ok?
    ensures var q := Resolve(p1, Relative(p1, p2).value).value;
            IsAbsolute(q) == IsAbsolute(p2) && Fold(IsAbsolute(q), Names(q)) == Fold(IsAbsolute(p2), Names(p2))
  {
    var c := Common(p1, p2);
    ResolvedRelativeNames(p1, p2);
    SharedNames(p1, p2);
    PlainTail(p1, c);
    CancelThenRest(IsAbsolute(p1), Names(p1)[..c], Names(p1)[c..], Names(p2)[c..]);
  }

  /** The other's names are the shared ones, then its own past them. */
  lemma SharedNames(p1: seq<byte>, p2: seq<byte>)
    ensures Common(p1, p2) <= NameCount(p1) && Common(p1, p2) <= NameCount(p2)
    ensures Names(p2) == Names(p1)[..Common(p1, p2)] + Names(p2)[Common(p1, p2)..]
  {
    var c := Common(p1, p2);
    CommonSpec(p1, p2);
    assert Names(p1)[..c] == Names(p2)[..c];
    assert Names(p2) == Names(p2)[..c] + Names(p2)[c..];
  }

  lemma PlainTail(p: seq<byte>, c: nat)
    requires c <= NameCount(p)
    requires forall k :: c <= k < NameCount(p) ==> Name(p, k) != ONE_DOT && Name(p, k) != TWO_DOTS
    ensures forall i :: 0 <= i < |Names(p)[c..]| ==> Names(p)[c..][i] != ONE_DOT && Names(p)[c..][i] != TWO_DOTS
  {
    forall i | 0 <= i < |Names(p)[c..]|
      ensures Names(p)[c..][i] == Name(p, c + i)
    {
    }
  }

  /** Names that are not "." or "..", then as many "..", then more names: the walk keeps what it keeps
      without the first two parts. */
  lemma CancelThenRest(abs: bool, a: seq<seq<byte>>, xs: seq<seq<byte>>, rest: seq<seq<byte>>)
    requires forall i :: 0 <= i < |xs| ==> xs[i] != ONE_DOT && xs[i] != TWO_DOTS
    ensures Fold(abs, a + xs + Ups(|xs|) + rest) == Fold(abs, a + rest)
  {
    FoldAppend(abs, a + xs + Ups(|xs|), rest);
    UpsCancel(abs, a, xs);
    FoldAppend(abs, a, rest);
  }

  /** The names of this path resolved against the result: this path's names, as many "..", then the
      other's names past the shared ones. */
  lemma ResolvedRelativeNames(p1: seq<byte>, p2: seq<byte>)
    requires p1 != p2 && p1 != [] && NoTrailingSlash(p1) && Relative(p1, p2).Ok?
    ensures var c := Common(p1, p2);
            Resolve(p1, Relative(p1, p2).value).Ok? &&
            Names(Resolve(p1, Relative(p1, p2).value).value) ==
              Names(p1)[..c] + Names(p1)[c..] + Ups(|Names(p1)[c..]|) + Names(p2)[c..]
  {
    var r := Relative(p1, p2).value;
    var c := Common(p1, p2);
    CommonSpec(p1, p2);
    assert r != [] && r[0] != SLASH;
    assert Names(Resolve(p1, r).value) == Names(p1) + Names(r) by {
      ResolveJoinsNames(p1, r);
      TrimmedNames(p1);
    }
    assert Names(r) == Ups(|Names(p1)[c..]|) + Names(p2)[c..] by {
      RelativeNames(p1, p2);
    }
    assert Names(p1) == Names(p1)[..c] + Names(p1)[c..];
  }

  // ---------------------------------------------------------------------------------------------
  // The loops
  // ---------------------------------------------------------------------------------------------

  /** `equalsNameAt`: the lengths of name `index` in both paths, then its bytes. */
  method EqualsNameAt(p1: seq<byte>, o1: seq<nat>, p2: seq<byte>, o2: seq<nat>, index: nat) returns (b: bool)
    requires o1 == Offsets(p1) && o2 == Offsets(p2) && index < |o1| && index < |o2|
    ensures b <==> Name(p1, index) == Name(p2, index)
  {
    NameBounds(p1, index);
    NameBounds(p2, index);
    var beg1 := o1[index];
    var len1 := if index == |o1| - 1 then |p1| - beg1 else o1[index + 1] - beg1 - 1;
    var beg2 := o2[index];
    var len2 := if index == |o2| - 1 then |p2| - beg2 else o2[index + 1] - beg2 - 1;
    assert Name(p1, index) == p1[beg1..beg1 + len1] && Name(p2, index) == p2[beg2..beg2 + len2];
    if len1 != len2 {
      return false;
    }
    var n := 0;
    while n < len1
      invariant n <= len1 && p1[beg1..beg1 + n] == p2[beg2..beg2 + n]
    {
      if p1[beg1 + n] != p2[beg2 + n] {
        assert p1[beg1..beg1 + len1][n] != p2[beg2..beg2 + len1][n];
        return false;
      }
      assert p1[beg1..beg1 + n + 1] == p1[beg1..beg1 + n] + [p1[beg1 + n]];
      assert p2[beg2..beg2 + n + 1] == p2[beg2..beg2 + n] + [p2[beg2 + n]];
      n := n + 1;
    }
    b := true;
  }

  /** The count of shared names: name by name while both paths have one and it is the same. */
  method CountCommon(p1: seq<byte>, o1: seq<nat>, p2: seq<byte>, o2: seq<nat>) returns (c: nat)
    requires o1 == Offsets(p1) && o2 == Offsets(p2)
    ensures c == Common(p1, p2)
  {
    var l := if |o1| < |o2| then |o1| else |o2|;
    c := 0;
    while c < l
      invariant c <= l && CommonFrom(p1, p2, c) == Common(p1, p2)
    {
      var eq := EqualsNameAt(p1, o1, p2, o2, c);
      if !eq {
        return;
      }
      c := c + 1;
    }
  }

  /** The loop writing "..": each is followed by '/' while the result has room after it. */
  method WriteUps(result: array<byte>, nbUp: nat, rest: bool) returns (idx: nat)
    requires nbUp > 0 || rest
    requires rest ==> result.Length >= 3 * nbUp + 1
    requires !rest ==> result.Length == 3 * nbUp - 1
    modifies result
    ensures idx <= result.Length && result[..idx] == UpsOut(nbUp, rest)
  {
    var length := result.Length;
    idx := 0;
    var left := nbUp;
    ghost var done := 0;
    while left > 0
      invariant left + done == nbUp && idx <= length
      invariant left > 0 ==> idx == 3 * done && result[..idx] == UpSlashes(done)
      invariant left == 0 ==> result[..idx] == UpsOut(nbUp, rest)
    {
      ghost var before := result[..idx];
      result[idx] := DOT;
      result[idx + 1] := DOT;
      idx := idx + 2;
      assert result[..idx] == before + TWO_DOTS;
      if idx < length {
        result[idx] := SLASH;
        idx := idx + 1;
        assert result[..idx] == before + [DOT, DOT, SLASH];
      }
      left := left - 1;
      done := done + 1;
    }
  }

  /** `relativize`: the equality test, the absoluteness test, the shared names, the length, then the
      ".." and the other's remaining bytes written into an array of that length. */
  method Relativize(p1: seq<byte>, p2: seq<byte>) returns (r: Result<seq<byte>>)
    ensures r == Relative(p1, p2)
  {
    var cmp := CompareTo(p2, p1);
    CompareZero(p2, p1);
    if cmp == 0 {
      return Ok([]);
    }
    if IsAbsolute(p1) != IsAbsolute(p2) {
      return Err(IllegalArgument);
    }
    var o1 := InitOffsets(p1);
    var o2 := InitOffsets(p2);
    var nbCommon := CountCommon(p1, o1, p2, o2);
    var nbUp := |o1| - nbCommon;
    var length := nbUp * 3 - 1;
    var rest := nbCommon < |o2|;
    if rest {
      OffsetsExact(p2);
      length := length + |p2| - o2[nbCommon] + 1;
    }
    if length < 0 {
      return Err(NegativeArraySize);
    }
    var result := new byte[length];
    var idx := WriteUps(result, nbUp, rest);
    if rest {
      CopyRest(result, idx, p2, o2[nbCommon]);
    } else {
      assert result[..] == result[..idx];
    }
    r := Ok(result[..]);
  }

  /** `System.arraycopy` of the other's bytes from `off` to the end of the result. */
  method CopyRest(result: array<byte>, idx: nat, p2: seq<byte>, off: nat)
    requires off <= |p2| && idx + |p2| - off == result.Length
    modifies result
    ensures result[..] == old(result[..idx]) + p2[off..]
  {
    forall j | 0 <= j < |p2| - off {
      result[idx + j] := p2[off + j];
    }
  }
}
