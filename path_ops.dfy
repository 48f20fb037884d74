/** The operations of a path that make it absolute, join it with another or compare two paths (AtlantPath
    `toAbsolutePath`, `resolve`, `compareTo`, `equals`). */
module PathOps {
  import opened Wrappers
  import opened Bytes
  import opened PathNames
  import opened PathNormalize
  import opened PathResolve

  // ---------------------------------------------------------------------------------------------
  // Joining two paths with one separator
  // ---------------------------------------------------------------------------------------------

  /** The name starts of `a + "/" + b`, for `b` that starts with a name: those of `a`, then those of
      `b` moved past `a` and the separator. */
  lemma OffsetsJoin(a: seq<byte>, b: seq<byte>)
    requires b != [] && b[0] != SLASH
    ensures var q, s := a + [SLASH] + b, |a| + 1;
            |Offsets(q)| == |Offsets(a)| + |Offsets(b)| &&
            (forall k :: 0 <= k < |Offsets(a)| ==> Offsets(q)[k] == Offsets(a)[k]) &&
            (forall k :: 0 <= k < |Offsets(b)| ==> Offsets(q)[|Offsets(a)| + k] == Offsets(b)[k] + s)
  {
    var q, s := a + [SLASH] + b, |a| + 1;
    StartsSplit(q, 0, |a|, |q|);
    StartsSplit(q, |a|, s, |q|);
    assert Starts(q, |a|, s) == [] by {
      assert !NameStart(q, |a|);
    }
    StartsSlice(q, 0, |a|, |a|);
    assert q[0..|a|] == a;
    assert NameStart(q, s);
    StartsSlice(q, s, |q|, |b|);
    assert q[s..|q|] == b;
  }

  /** The first name of a path that starts with a name starts at 0. */
  lemma FirstOffsetZero(b: seq<byte>)
    requires b != [] && b[0] != SLASH
    ensures NameCount(b) > 0 && Offsets(b)[0] == 0
  {
    OffsetsExact(b);
    assert NameStart(b, 0);
    var j :| 0 <= j < |Offsets(b)| && Offsets(b)[j] == 0;
    assert forall i :: 0 <= i < |Offsets(b)| ==> Offsets(b)[0] <= Offsets(b)[i];
  }

  /** Joining `a` and a path `b` that starts with a name, with one '/', joins their names. */
  lemma NamesJoin(a: seq<byte>, b: seq<byte>)
    requires b != [] && b[0] != SLASH
    ensures Names(a + [SLASH] + b) == Names(a) + Names(b)
  {
    var q := a + [SLASH] + b;
    OffsetsJoin(a, b);
    FirstOffsetZero(b);
    forall k | 0 <= k < NameCount(a)
      ensures Name(q, k) == Name(a, k)
    {
      JoinNameLeft(a, b, k);
    }
    forall k | 0 <= k < NameCount(b)
      ensures Name(q, NameCount(a) + k) == Name(b, k)
    {
      JoinNameRight(a, b, k);
    }
  }

  lemma JoinNameLeft(a: seq<byte>, b: seq<byte>, k: nat)
    requires b != [] && b[0] != SLASH && k < NameCount(a)
    requires NameCount(b) > 0 && Offsets(b)[0] == 0
    requires var q, s := a + [SLASH] + b, |a| + 1;
             |Offsets(q)| == |Offsets(a)| + |Offsets(b)| &&
             (forall k :: 0 <= k < |Offsets(a)| ==> Offsets(q)[k] == Offsets(a)[k]) &&
             (forall k :: 0 <= k < |Offsets(b)| ==> Offsets(q)[|Offsets(a)| + k] == Offsets(b)[k] + s)
    ensures k < NameCount(a + [SLASH] + b) && Name(a + [SLASH] + b, k) == Name(a, k)
  {
    var q := a + [SLASH] + b;
    var oa, oq := Offsets(a), Offsets(q);
    NameBounds(a, k);
    var lo, hi := oa[k], NameEnd(a, oa, k);
    assert oq[|oa|] == |a| + 1;
    assert NameEnd(q, oq, k) == hi;
    assert q[lo..hi] == a[lo..hi];
  }

  lemma JoinNameRight(a: seq<byte>, b: seq<byte>, k: nat)
    requires b != [] && b[0] != SLASH && k < NameCount(b)
    requires var q, s := a + [SLASH] + b, |a| + 1;
             |Offsets(q)| == |Offsets(a)| + |Offsets(b)| &&
             (forall k :: 0 <= k < |Offsets(b)| ==> Offsets(q)[|Offsets(a)| + k] == Offsets(b)[k] + s)
    ensures NameCount(a) + k < NameCount(a + [SLASH] + b)
    ensures Name(a + [SLASH] + b, NameCount(a) + k) == Name(b, k)
  {
    var q, s := a + [SLASH] + b, |a| + 1;
    var ob, oq := Offsets(b), Offsets(q);
    var i := |Offsets(a)| + k;
    NameBounds(b, k);
    var lo, hi := ob[k], NameEnd(b, ob, k);
    assert NameEnd(q, oq, i) == hi + s;
    assert q[lo + s..hi + s] == b[lo..hi];
  }

  /** "/" has no name. */
  lemma RootHasNoName()
    ensures Names([SLASH]) == []
  {
    assert Starts([SLASH], 0, 1) == Starts([SLASH], 0, 0);
  }

  // ---------------------------------------------------------------------------------------------
  // toAbsolutePath
  // ---------------------------------------------------------------------------------------------

  /** `toAbsolutePath`: an absolute path as it is, a relative one with '/' put in front. */
  function ToAbsolute(p: seq<byte>): (r: seq<byte>)
    ensures IsAbsolute(r)
    ensures IsAbsolute(p) ==> r == p
    ensures !IsAbsolute(p) ==> |r| == |p| + 1 && r[1..] == p
  {
    if IsAbsolute(p) then p else [SLASH] + p
  }

  /** Making a path absolute keeps its names, and doing it twice is doing it once. */
  lemma ToAbsoluteNames(p: seq<byte>)
    ensures Names(ToAbsolute(p)) == Names(p)
    ensures ToAbsolute(ToAbsolute(p)) == ToAbsolute(p)
  {
    if !IsAbsolute(p) {
      if p == [] {
        RootHasNoName();
      } else {
        NamesJoin([], p);
        assert [] + [SLASH] + p == [SLASH] + p;
      }
    }
  }

  // ---------------------------------------------------------------------------------------------
  // resolve
  // ---------------------------------------------------------------------------------------------

  /** `resolve(other)`: an absolute `other` as it is; otherwise `other` appended to this path, after a
      '/' unless this path ends with one. This path's last byte is read first, so an empty path fails
      with an index out of bounds. */
  function Resolve(p1: seq<byte>, p2: seq<byte>): (r: Result<seq<byte>>)
    ensures r.Err? <==> !IsAbsolute(p2) && p1 == []
    ensures r.Err? ==> r.error == IndexOutOfBounds
    ensures IsAbsolute(p2) ==> r == Ok(p2)
    ensures r.Ok? && !IsAbsolute(p2) ==>
              var q := r.value;
              |q| >= |p1| + |p2| && q[..|p1|] == p1 && q[|q| - |p2|..] == p2 &&
              (q[|p1| - 1] == SLASH || (|q| > |p1| && q[|p1|] == SLASH)) &&
              (IsAbsolute(q) <==> IsAbsolute(p1))
  {
    if IsAbsolute(p2) then Ok(p2)
    else if p1 == [] then Err(IndexOutOfBounds)
    else if p1[|p1| - 1] == SLASH then Ok(p1 + p2)
    else Ok(p1 + [SLASH] + p2)
  }

  /** A path with one trailing '/' dropped (the path itself when it has none). */
  function Trimmed(p: seq<byte>): seq<byte>
  {
    if p != [] && p[|p| - 1] == SLASH then p[..|p| - 1] else p
  }

  /** Resolving a path that starts with a name gives the names of this path (without the '/' it may
      end with), then the names of the other. */
  lemma ResolveJoinsNames(p1: seq<byte>, p2: seq<byte>)
    requires p1 != [] && p2 != [] && p2[0] != SLASH
    ensures Resolve(p1, p2).Ok? && Names(Resolve(p1, p2).value) == Names(Trimmed(p1)) + Names(p2)
  {
    if p1[|p1| - 1] == SLASH {
      assert p1 + p2 == Trimmed(p1) + [SLASH] + p2;
    }
    NamesJoin(Trimmed(p1), p2);
  }

  /** A path without a trailing '/' has the names of the path it ends in. */
  lemma TrimmedNames(p: seq<byte>)
    requires NoTrailingSlash(p)
    ensures Names(Trimmed(p)) == Names(p)
  {
    if p != [] && p[|p| - 1] == SLASH {
      RootHasNoName();
      assert p == [SLASH];
    }
  }

  /** A path without "//" is its parent resolved against its file name. */
  lemma ParentResolvesFileName(p: seq<byte>)
    requires Clean(p) && GetParent(p).Some?
    ensures GetFileName(p).Some?
    ensures Resolve(GetParent(p).value, GetFileName(p).value) == Ok(p)
  {
    var o := Offsets(p);
    var n := |o|;
    OffsetsExact(p);
    var last := o[n - 1];
    assert NameStart(p, last);
    var f := p[last..];
    assert !(n == 1 && p[0] != SLASH) by {
      if n == 1 && p[0] != SLASH {
        FirstOffsetZero(p);
      }
    }
    assert GetFileName(p) == Some(f);
    var length := last as int - 1;
    if length <= 0 {
      assert last == 1 && IsAbsolute(p);
      assert [SLASH] + f == p;
    } else {
      var par := p[..length];
      assert p[length] == SLASH;
      assert par[|par| - 1] != SLASH;
      assert par + [SLASH] + f == p;
    }
  }

  // ---------------------------------------------------------------------------------------------
  // compareTo and equals
  // ---------------------------------------------------------------------------------------------

  /** `compareTo`: bytes compared as unsigned values at the first position where they differ; when one
      path is a prefix of the other, the difference of the lengths. */
  function Compare(a: seq<byte>, b: seq<byte>): int
    decreases |a|
  {
    if a == [] || b == [] then |a| - |b|
    else if a[0] != b[0] then a[0] as int - b[0] as int
    else Compare(a[1..], b[1..])
  }

  /** Zero exactly for equal paths. */
  lemma {:induction false} CompareZero(a: seq<byte>, b: seq<byte>)
    ensures Compare(a, b) == 0 <==> a == b
    decreases |a|
  {
    if a != [] && b != [] && a[0] == b[0] {
      CompareZero(a[1..], b[1..]);
      assert a == [a[0]] + a[1..] && b == [b[0]] + b[1..];
    }
  }

  /** Swapping the paths negates the result. */
  lemma {:induction false} CompareSwap(a: seq<byte>, b: seq<byte>)
    ensures Compare(a, b) == -Compare(b, a)
    decreases |a|
  {
    if a != [] && b != [] && a[0] == b[0] {
      CompareSwap(a[1..], b[1..]);
    }
  }

  /** The order is transitive. */
  lemma {:induction false} CompareTransitive(a: seq<byte>, b: seq<byte>, c: seq<byte>)
    requires Compare(a, b) < 0 && Compare(b, c) < 0
    ensures Compare(a, c) < 0
    decreases |a|
  {
    if a != [] && b != [] && c != [] && a[0] == b[0] && b[0] == c[0] {
      CompareTransitive(a[1..], b[1..], c[1..]);
    }
  }

  /** `compareTo`: a loop over the common length, then the lengths. */
  method CompareTo(a: seq<byte>, b: seq<byte>) returns (r: int)
    ensures r == Compare(a, b)
  {
    var l := if |a| < |b| then |a| else |b|;
    var i := 0;
    while i < l
      invariant i <= l
      invariant Compare(a, b) == Compare(a[i..], b[i..])
    {
      if a[i] != b[i] {
        return a[i] as int - b[i] as int;
      }
      assert a[i..][1..] == a[i + 1..] && b[i..][1..] == b[i + 1..];
      i := i + 1;
    }
    r := |a| - |b|;
  }

  /** `equals`: another path of the same file system that compares equal. */
  function Equals(sameFileSystem: bool, a: seq<byte>, b: seq<byte>): (r: bool)
    ensures r <==> sameFileSystem && a == b
  {
    CompareZero(a, b);
    sameFileSystem && Compare(a, b) == 0
  }
}
