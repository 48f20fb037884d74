/** `startsWith` and `endsWith` of a path (AtlantPath): byte comparisons that only accept a match ending
    at a name boundary. For paths the constructor keeps as they are, a path starts with another exactly
    when the other's names lead its own. */
module PathPrefix {
  import opened Wrappers
  import opened Bytes
  import opened PathNames
  import opened PathNormalize
  import opened PathResolve
  import opened PathOps

  // ---------------------------------------------------------------------------------------------
  // startsWith
  // ---------------------------------------------------------------------------------------------

  /** `startsWith(other)`: both absolute or both relative, the other's bytes lead this path's, and the
      match ends the path, ends with '/' or is followed by '/'. An empty other inside a longer relative
      path reads the byte before index 0, an index out of bounds. */
  function PathStartsWith(p1: seq<byte>, p2: seq<byte>): (r: Result<bool>)
    ensures r.Err? <==> |p2| == 0 && |p1| > 0 && !IsAbsolute(p1)
    ensures r == Ok(true) ==> |p2| <= |p1| && p1[..|p2|] == p2 && (IsAbsolute(p1) <==> IsAbsolute(p2))
  {
    if IsAbsolute(p1) != IsAbsolute(p2) || |p1| < |p2| then Ok(false)
    else if p1[..|p2|] != p2 then Ok(false)
    else if |p1| == |p2| then Ok(true)
    else if |p2| == 0 then Err(IndexOutOfBounds)
    else Ok(p2[|p2| - 1] == SLASH || p1[|p2|] == SLASH)
  }

  /** `startsWith`: a loop over the other path's bytes. */
  method StartsWith(p1: seq<byte>, p2: seq<byte>) returns (r: Result<bool>)
    ensures r == PathStartsWith(p1, p2)
  {
    if IsAbsolute(p1) != IsAbsolute(p2) || |p1| < |p2| {
      return Ok(false);
    }
    var length := |p2|;
    var idx := 0;
    while idx < length
      invariant idx <= length && p1[..idx] == p2[..idx]
    {
      if p1[idx] != p2[idx] {
        assert p1[..length][idx] != p2[idx];
        return Ok(false);
      }
      assert p1[..idx + 1] == p1[..idx] + [p1[idx]];
      assert p2[..idx + 1] == p2[..idx] + [p2[idx]];
      idx := idx + 1;
    }
    assert p2[..idx] == p2;
    if |p1| == |p2| {
      return Ok(true);
    }
    if length == 0 {
      return Err(IndexOutOfBounds);
    }
    r := Ok(p2[length - 1] == SLASH || p1[length] == SLASH);
  }

  /** A path starts with itself. */
  lemma StartsWithSelf(p: seq<byte>)
    ensures PathStartsWith(p, p) == Ok(true)
  {
    assert p[..|p|] == p;
  }

  /** The bytes before a single '/' followed by a name: they hold the names of the path up to that '/',
      and the next name starts right after it. */
  lemma PrefixOffsets(p: seq<byte>, m: nat)
    requires 0 < m && m + 1 < |p| && p[m] == SLASH && p[m + 1] != SLASH
    ensures var c := NameCount(p[..m]);
            c < NameCount(p) && Offsets(p)[c] == m + 1 && Offsets(p)[..c] == Offsets(p[..m])
  {
    var q := p[..m];
    StartsSlice(p, 0, m, m);
    assert p[0..m] == q;
    assert Offsets(q) == Starts(p, 0, m);
    StartsSplit(p, 0, m, |p|);
    StartsSplit(p, m, m + 2, |p|);
    assert Starts(p, m, m + 2) == [m + 1] by {
      assert !NameStart(p, m) && NameStart(p, m + 1);
      assert Starts(p, m, m) == [];
    }
    assert Offsets(p) == Offsets(q) + [m + 1] + Starts(p, m + 2, |p|);
  }

  /** A name before that '/' reads the same in the bytes before it. */
  lemma PrefixNameAt(p: seq<byte>, m: nat, k: nat)
    requires m < |p| && k < NameCount(p[..m]) < NameCount(p)
    requires Offsets(p)[NameCount(p[..m])] == m + 1 && Offsets(p)[..NameCount(p[..m])] == Offsets(p[..m])
    ensures Name(p[..m], k) == Name(p, k)
  {
    var q := p[..m];
    var c := NameCount(q);
    var o := Offsets(p);
    NameBounds(q, k);
    NameBounds(p, k);
    assert NameEnd(q, Offsets(q), k) == NameEnd(p, o, k);
    var lo, hi := o[k], NameEnd(p, o, k);
    assert q[lo..hi] == p[lo..hi];
  }

  /** For paths the constructor keeps as they are, without a trailing '/': a path that starts with
      another holds the other's names first. */
  lemma StartsWithNames(p1: seq<byte>, p2: seq<byte>)
    requires Clean(p1) && NoTrailingSlash(p1) && NoTrailingSlash(p2)
    requires PathStartsWith(p1, p2) == Ok(true)
    ensures NameCount(p2) <= NameCount(p1)
    ensures forall k :: 0 <= k < NameCount(p2) ==> Name(p2, k) == Name(p1, k)
  {
    var m := |p2|;
    if m < |p1| {
      if p2[m - 1] == SLASH {
        assert p2 == [SLASH];
        RootHasNoName();
      } else {
        assert p1[m] == SLASH && p1[m - 1] != SLASH;
        assert p1[m + 1] != SLASH;
        PrefixOffsets(p1, m);
        assert p1[..m] == p2;
        forall k | 0 <= k < NameCount(p2)
          ensures Name(p2, k) == Name(p1, k)
        {
          PrefixNameAt(p1, m, k);
        }
      }
    } else {
      assert p1 == p2;
    }
  }

  /** No name: empty or "/" for a path without "//". */
  lemma NoNameShape(p: seq<byte>)
    requires Clean(p) && NameCount(p) == 0
    ensures p == [] || p == [SLASH]
  {
    OffsetsExact(p);
    assert !NameStart(p, 0) && !NameStart(p, 1);
    if |p| == 1 {
      assert p == [p[0]];
    }
  }

  /** The bytes before a separator of a path without "//" hold no trailing '/'. */
  lemma CleanPrefix(p: seq<byte>, m: nat)
    requires Clean(p) && m <= |p|
    ensures Clean(p[..m])
  {
  }

  /** A path without "//" and without a trailing '/' is its names written out after its start. */
  lemma {:induction false} Rebuilt(p: seq<byte>)
    requires Clean(p) && NoTrailingSlash(p)
    ensures p == Joined(Start(IsAbsolute(p)), Names(p))
    decreases |p|
  {
    if NameCount(p) == 0 {
      NoNameShape(p);
    } else if GetParent(p).None? {
      RebuiltOne(p);
    } else {
      var par := GetParent(p).value;
      ParentShape(p);
      Rebuilt(par);
      RebuiltLast(p, par);
    }
  }

  /** A relative path with one name is that name. */
  lemma RebuiltOne(p: seq<byte>)
    requires NameCount(p) > 0 && GetParent(p).None?
    ensures p == Joined(Start(IsAbsolute(p)), Names(p))
  {
    ParentNames(p);
    FirstOffsetZero(p);
    OffsetsExact(p);
    assert Names(p) == [] + [Name(p, 0)];
    JoinedSnoc([], [], Name(p, 0));
  }

  /** A path is its parent written out, a separator and its last name. */
  lemma RebuiltLast(p: seq<byte>, par: seq<byte>)
    requires Clean(p) && GetParent(p) == Some(par)
    requires IsAbsolute(par) == IsAbsolute(p)
    requires par == Joined(Start(IsAbsolute(p)), Names(par))
    ensures p == Joined(Start(IsAbsolute(p)), Names(p))
  {
    ParentThenLast(p, par);
    ParentNamesSnoc(p, par);
    JoinedSnoc(Start(IsAbsolute(p)), Names(par), Name(p, NameCount(p) - 1));
  }

  lemma ParentThenLast(p: seq<byte>, par: seq<byte>)
    requires Clean(p) && GetParent(p) == Some(par)
    ensures NameCount(p) > 0 && p == Opened(par) + Name(p, NameCount(p) - 1)
  {
    ParentResolvesFileName(p);
    var n := NameCount(p);
    OffsetsExact(p);
    NameBounds(p, n - 1);
    assert !(n == 1 && p[0] != SLASH) by {
      if n == 1 && p[0] != SLASH {
        FirstOffsetZero(p);
      }
    }
    assert Name(p, n - 1) == p[Offsets(p)[n - 1]..|p|] == p[Offsets(p)[n - 1]..];
    assert GetFileName(p) == Some(Name(p, n - 1));
  }

  lemma ParentNamesSnoc(p: seq<byte>, par: seq<byte>)
    requires GetParent(p) == Some(par)
    ensures NameCount(p) > 0 && Names(p) == Names(par) + [Name(p, NameCount(p) - 1)]
  {
    ParentNames(p);
  }

  /** The parent of a path without "//" is itself without "//" or a trailing '/', is absolute as the
      path is, and is shorter. */
  lemma ParentShape(p: seq<byte>)
    requires Clean(p) && GetParent(p).Some?
    ensures var par := GetParent(p).value;
            Clean(par) && NoTrailingSlash(par) && |par| < |p| && (IsAbsolute(par) <==> IsAbsolute(p))
  {
    var o := Offsets(p);
    var n := |o|;
    OffsetsExact(p);
    var length := o[n - 1] as int - 1;
    if length > 0 {
      assert NameStart(p, o[n - 1]);
      assert p[length] == SLASH;
      CleanPrefix(p, length);
    }
  }

  /** Two paths without "//" and without a trailing '/', both absolute or both relative, with the same
      names, are the same path. */
  lemma SameNamesSamePath(p: seq<byte>, q: seq<byte>)
    requires Clean(p) && NoTrailingSlash(p) && Clean(q) && NoTrailingSlash(q)
    requires IsAbsolute(p) == IsAbsolute(q) && Names(p) == Names(q)
    ensures p == q
  {
    Rebuilt(p);
    Rebuilt(q);
  }

  /** For paths the constructor keeps as they are, without a trailing '/': a path starts with any
      non-empty path that is absolute as it is and whose names lead its own. */
  lemma NamesStartWith(p1: seq<byte>, p2: seq<byte>)
    requires Clean(p1) && NoTrailingSlash(p1) && Clean(p2) && NoTrailingSlash(p2) && p2 != []
    requires IsAbsolute(p1) == IsAbsolute(p2) && NameCount(p2) <= NameCount(p1)
    requires forall k :: 0 <= k < NameCount(p2) ==> Name(p2, k) == Name(p1, k)
    ensures PathStartsWith(p1, p2) == Ok(true)
  {
    var c := NameCount(p2);
    if c == 0 {
      NoNameShape(p2);
    } else {
      var m := LeadingNames(p1, c);
      var q := p1[..m];
      assert Names(q) == Names(p2);
      SameNamesSamePath(q, p2);
    }
  }

  /** The bytes of a path without "//" and without a trailing '/' up to the end of its name `c - 1`: they
      are such a path too, absolute as it is, with its first `c` names; a '/' follows them, if anything. */
  lemma LeadingNames(p: seq<byte>, c: nat) returns (m: nat)
    requires Clean(p) && NoTrailingSlash(p) && 0 < c <= NameCount(p)
    ensures 0 < m <= |p| && (m < |p| ==> p[m] == SLASH)
    ensures var q := p[..m];
            && Clean(q) && NoTrailingSlash(q) && IsAbsolute(q) == IsAbsolute(p) && NameCount(q) == c
            && forall k :: 0 <= k < c ==> Name(q, k) == Name(p, k)
  {
    var o := Offsets(p);
    OffsetsExact(p);
    Window(p, 0, c, 0);
    m := NameEnd(p, o, c - 1);
    NameBounds(p, c - 1);
    if c < NameCount(p) {
      assert NameStart(p, o[c]);
      assert p[m] == SLASH;
    }
    var q := p[0..m];
    assert p[..m] == q;
    assert NoTrailingSlash(q);
    CleanPrefix(p, m);
  }

  // ---------------------------------------------------------------------------------------------
  // endsWith
  // ---------------------------------------------------------------------------------------------

  /** The length of a path with one trailing '/' dropped, unless the path is that one byte. */
  function EndIndex(p: seq<byte>): (r: nat)
    ensures r <= |p| && (r < |p| ==> p[r] == SLASH && r > 0)
  {
    if |p| > 1 && p[|p| - 1] == SLASH then |p| - 1 else |p|
  }

  /** `endsWith(other)`: with one trailing '/' dropped from both, an empty other only ends an empty
      path; an absolute other only ends an absolute path of its own length; otherwise the other's bytes
      end this path's, and the match starts at its start, after a '/' or with a '/'. */
  function PathEndsWith(p1: seq<byte>, p2: seq<byte>): (r: bool)
    ensures r && EndIndex(p2) > 0 ==>
              EndIndex(p2) <= EndIndex(p1) &&
              p1[EndIndex(p1) - EndIndex(p2)..EndIndex(p1)] == p2[..EndIndex(p2)]
  {
    var e1, e2 := EndIndex(p1), EndIndex(p2);
    if e2 == 0 then e1 == 0
    else if (IsAbsolute(p2) && (!IsAbsolute(p1) || e2 != e1)) || e1 < e2 then false
    else
      p1[e1 - e2..e1] == p2[..e2] &&
      (p2[0] == SLASH || e1 == e2 || p1[e1 - e2 - 1] == SLASH)
  }

  /** `endsWith`: a loop from the ends of both paths backwards. */
  method EndsWith(p1: seq<byte>, p2: seq<byte>) returns (r: bool)
    ensures r == PathEndsWith(p1, p2)
  {
    var i1 := |p1| - 1;
    if i1 > 0 && p1[i1] == SLASH {
      i1 := i1 - 1;
    }
    var i2 := |p2| - 1;
    if i2 > 0 && p2[i2] == SLASH {
      i2 := i2 - 1;
    }
    ghost var e1: int, e2: int := EndIndex(p1), EndIndex(p2);
    assert i1 == e1 - 1 && i2 == e2 - 1;
    if i2 == -1 {
      return i1 == -1;
    }
    if (IsAbsolute(p2) && (!IsAbsolute(p1) || i2 != i1)) || i1 < i2 {
      return false;
    }
    var same := MatchBack(p1, p2, i1, i2);
    if !same {
      return false;
    }
    i1, i2 := i1 - i2 - 1, -1;
    r := p2[i2 + 1] == SLASH || i1 == -1 || p1[i1] == SLASH;
  }

  /** The loop of `endsWith`: compares the bytes up to `i2` of the other path with those up to `i1` of
      this one, from the ends backwards. */
  method MatchBack(p1: seq<byte>, p2: seq<byte>, i1: int, i2: int) returns (same: bool)
    requires -1 <= i2 <= i1 < |p1| && i2 < |p2|
    ensures same <==> p1[i1 - i2..i1 + 1] == p2[..i2 + 1]
  {
    var j1, j2 := i1, i2;
    while j2 >= 0
      invariant -1 <= j2 <= i2 && j1 - j2 == i1 - i2
      invariant forall k :: j2 < k <= i2 ==> p1[i1 - i2 + k] == p2[k]
    {
      if p2[j2] != p1[j1] {
        Differ(p1, p2, i1 - i2, i1 + 1, j2);
        return false;
      }
      j1, j2 := j1 - 1, j2 - 1;
    }
    Same(p1, p2, i1 - i2, i1 + 1);
    return true;
  }

  /** Two byte runs of the same length that agree at every position. */
  lemma Same(p1: seq<byte>, p2: seq<byte>, lo: nat, hi: nat)
    requires lo <= hi <= |p1| && hi - lo <= |p2|
    requires forall k :: 0 <= k < hi - lo ==> p1[lo + k] == p2[k]
    ensures p1[lo..hi] == p2[..hi - lo]
  {
    assert forall k :: 0 <= k < hi - lo ==> p1[lo..hi][k] == p2[..hi - lo][k];
  }

  /** Two byte runs of the same length that differ at one position. */
  lemma Differ(p1: seq<byte>, p2: seq<byte>, lo: nat, hi: nat, j: nat)
    requires lo <= hi <= |p1| && hi - lo <= |p2| && j < hi - lo && p1[lo + j] != p2[j]
    ensures p1[lo..hi] != p2[..hi - lo]
  {
    assert p1[lo..hi][j] != p2[..hi - lo][j];
  }

  /** A path ends with itself. */
  lemma EndsWithSelf(p: seq<byte>)
    ensures PathEndsWith(p, p)
  {
    var e := EndIndex(p);
    if e > 0 {
      assert p[e - e..e] == p[..e];
    }
  }

  /** A path ends with its file name. */
  lemma EndsWithFileName(p: seq<byte>)
    requires GetFileName(p).Some?
    ensures PathEndsWith(p, GetFileName(p).value)
  {
    var n := NameCount(p);
    var o := Offsets(p);
    OffsetsExact(p);
    var f := GetFileName(p).value;
    if n == 1 && p[0] != SLASH {
      EndsWithSelf(p);
    } else {
      var s := o[n - 1];
      assert NameStart(p, s);
      assert f == p[s..];
      var e1, e2 := EndIndex(p), EndIndex(f);
      assert e1 == s + e2;
      assert p[e1 - e2..e1] == f[..e2];
      if e1 != e2 {
        assert p[e1 - e2 - 1] == SLASH;
      }
    }
  }
}
