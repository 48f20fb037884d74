/** The name structure of a path (AtlantPath): a path is a byte string in which '/' separates names.
    A name starts at every byte other than '/' that begins the string or follows a '/'; `offsets` lists
    those starts in increasing order, and a name runs from its start to one byte before the next start
    (to the end of the path for the last name). */
module PathNames {
  import opened Wrappers
  import opened Bytes

  const SLASH: byte := 0x2F
  const BACKSLASH: byte := 0x5C
  const DOT: byte := 0x2E
  const NUL: byte := 0

  /** `isAbsolute`: non-empty and starting with '/'. */
  predicate IsAbsolute(p: seq<byte>)
  {
    |p| > 0 && p[0] == SLASH
  }

  /** `i` starts a name: a byte other than '/' at the start of the path or right after a '/'. */
  predicate NameStart(p: seq<byte>, i: int)
  {
    0 <= i < |p| && p[i] != SLASH && (i == 0 || p[i - 1] == SLASH)
  }

  /** The name starts in `[lo, hi)`, in increasing order. */
  function Starts(p: seq<byte>, lo: nat, hi: nat): seq<nat>
    decreases hi
  {
    if hi <= lo then [] else Starts(p, lo, hi - 1) + (if NameStart(p, hi - 1) then [hi - 1] else [])
  }

  predicate Increasing(s: seq<nat>)
  {
    forall j, k :: 0 <= j < k < |s| ==> s[j] < s[k]
  }

  /** The `offsets` of a path: every name start, in increasing order. */
  function Offsets(p: seq<byte>): seq<nat>
  {
    Starts(p, 0, |p|)
  }

  /** Every start `Starts` lists is a name start of its range. */
  lemma {:induction false} StartsBounds(p: seq<byte>, lo: nat, hi: nat)
    ensures forall k :: 0 <= k < |Starts(p, lo, hi)| ==>
              lo <= Starts(p, lo, hi)[k] < hi && NameStart(p, Starts(p, lo, hi)[k])
    decreases hi
  {
    if hi > lo {
      StartsBounds(p, lo, hi - 1);
      if NameStart(p, hi - 1) {
        assert Starts(p, lo, hi) == Starts(p, lo, hi - 1) + [hi - 1];
      } else {
        assert Starts(p, lo, hi) == Starts(p, lo, hi - 1);
      }
    }
  }

  /** `Starts` lists its starts in increasing order. */
  lemma {:induction false} StartsIncreasing(p: seq<byte>, lo: nat, hi: nat)
    ensures Increasing(Starts(p, lo, hi))
    decreases hi
  {
    if hi > lo {
      StartsIncreasing(p, lo, hi - 1);
      var a := Starts(p, lo, hi - 1);
      if NameStart(p, hi - 1) {
        StartsBounds(p, lo, hi - 1);
        var s := a + [hi - 1];
        assert Starts(p, lo, hi) == s;
        forall j, k | 0 <= j < k < |s|
          ensures s[j] < s[k]
        {
          assert s[j] == a[j];
          if k < |a| {
            assert s[k] == a[k];
          }
        }
      } else {
        assert Starts(p, lo, hi) == a;
      }
    }
  }

  /** `Starts` lists every name start of its range. */
  lemma {:induction false} StartsComplete(p: seq<byte>, lo: nat, hi: nat)
    ensures forall i :: lo <= i < hi && NameStart(p, i) ==> i in Starts(p, lo, hi)
    decreases hi
  {
    if hi > lo {
      StartsComplete(p, lo, hi - 1);
      if NameStart(p, hi - 1) {
        assert Starts(p, lo, hi) == Starts(p, lo, hi - 1) + [hi - 1];
      } else {
        assert Starts(p, lo, hi) == Starts(p, lo, hi - 1);
      }
    }
  }

  /** `Starts` lists exactly the name starts of its range, each once, in increasing order. */
  lemma StartsExact(p: seq<byte>, lo: nat, hi: nat)
    ensures Increasing(Starts(p, lo, hi))
    ensures forall k :: 0 <= k < |Starts(p, lo, hi)| ==>
              lo <= Starts(p, lo, hi)[k] < hi && NameStart(p, Starts(p, lo, hi)[k])
    ensures forall i :: lo <= i < hi && NameStart(p, i) ==> i in Starts(p, lo, hi)
  {
    StartsBounds(p, lo, hi);
    StartsIncreasing(p, lo, hi);
    StartsComplete(p, lo, hi);
  }

  /** The offsets are exactly the name starts of the path, in increasing order. */
  lemma OffsetsExact(p: seq<byte>)
    ensures Increasing(Offsets(p))
    ensures forall k :: 0 <= k < |Offsets(p)| ==> Offsets(p)[k] < |p| && NameStart(p, Offsets(p)[k])
    ensures forall i :: NameStart(p, i) <==> i in Offsets(p)
  {
    StartsExact(p, 0, |p|);
  }

  /** Splitting the range splits the list of starts. */
  lemma {:induction false} StartsSplit(p: seq<byte>, lo: nat, mid: nat, hi: nat)
    requires lo <= mid <= hi
    ensures Starts(p, lo, hi) == Starts(p, lo, mid) + Starts(p, mid, hi)
    decreases hi
  {
    if hi > mid {
      StartsSplit(p, lo, mid, hi - 1);
    }
  }

  /** The starts of a slice that begins at the path's start or at a name start are the path's starts
      of the same range, moved by the slice's start. */
  lemma {:induction false} StartsSlice(p: seq<byte>, s: nat, t: nat, n: nat)
    requires s <= t <= |p| && n <= t - s
    requires s == 0 || NameStart(p, s)
    ensures |Starts(p[s..t], 0, n)| == |Starts(p, s, s + n)|
    ensures forall k :: 0 <= k < |Starts(p[s..t], 0, n)| ==> Starts(p[s..t], 0, n)[k] + s == Starts(p, s, s + n)[k]
  {
    if n > 0 {
      StartsSlice(p, s, t, n - 1);
      var q := p[s..t];
      assert NameStart(q, n - 1) <==> NameStart(p, s + n - 1);
    }
  }

  /** The starts below `x` are the first `c` offsets when `x` lies after offset `c - 1` and not after
      offset `c`. */
  lemma PrefixCount(p: seq<byte>, x: nat, c: nat)
    requires x <= |p| && c <= |Offsets(p)|
    requires c == 0 || Offsets(p)[c - 1] < x
    requires c == |Offsets(p)| || x <= Offsets(p)[c]
    ensures Starts(p, 0, x) == Offsets(p)[..c]
  {
    var o := Offsets(p);
    StartsSplit(p, 0, x, |p|);
    StartsExact(p, 0, x);
    StartsExact(p, x, |p|);
    StartsExact(p, 0, |p|);
    assert o == Starts(p, 0, x) + Starts(p, x, |p|);
  }

  /** One past the last byte of name `i`, as `getName` computes it: one before the next name's start,
      or the end of the path for the last name. */
  function NameEnd(p: seq<byte>, o: seq<nat>, i: nat): int
    requires i < |o|
  {
    if i == |o| - 1 then |p| else o[i + 1] as int - 1
  }

  /** A name ends after its own start and before the next one, and within the path. */
  lemma NameBounds(p: seq<byte>, i: nat)
    requires i < |Offsets(p)|
    ensures Offsets(p)[i] < NameEnd(p, Offsets(p), i) <= |p|
    ensures i + 1 < |Offsets(p)| ==> NameEnd(p, Offsets(p), i) < Offsets(p)[i + 1]
  {
    OffsetsExact(p);
    if i + 1 < |Offsets(p)| {
      assert NameStart(p, Offsets(p)[i + 1]);
    }
  }

  /** `getNameCount`. */
  function NameCount(p: seq<byte>): nat
  {
    |Offsets(p)|
  }

  /** Name `i` of a path; it is never empty and never starts with '/'. */
  function Name(p: seq<byte>, i: nat): (r: seq<byte>)
    requires i < NameCount(p)
    ensures |r| > 0 && r[0] != SLASH
  {
    NameBounds(p, i);
    OffsetsExact(p);
    p[Offsets(p)[i]..NameEnd(p, Offsets(p), i)]
  }

  /** `getName`: name `index`, or IllegalArgumentException outside `0 .. count - 1`. */
  function GetName(p: seq<byte>, index: int): (r: Result<seq<byte>>)
    ensures r.Err? <==> !(0 <= index < NameCount(p))
    ensures r.Err? ==> r.error == IllegalArgument
  {
    if index < 0 || index >= NameCount(p) then Err(IllegalArgument) else Ok(Name(p, index))
  }

  /** `subpath`: the bytes from the start of name `b` to the end of name `e - 1`, or IllegalArgumentException
      unless `0 <= b < e <= count`. */
  function Subpath(p: seq<byte>, b: int, e: int): (r: Result<seq<byte>>)
    ensures r.Err? <==> !(0 <= b < e <= NameCount(p))
    ensures r.Err? ==> r.error == IllegalArgument
  {
    if b < 0 || b >= NameCount(p) || e > NameCount(p) || b >= e then Err(IllegalArgument)
    else
      NameBounds(p, b);
      NameBounds(p, e - 1);
      OffsetsExact(p);
      Ok(p[Offsets(p)[b]..NameEnd(p, Offsets(p), e - 1)])
  }

  /** The starts from `s` to the end of name `e - 1`, where `s` is the start of name `b` (or the path's
      start when `b` is 0), are offsets `b .. e - 1`. */
  lemma WindowStarts(p: seq<byte>, b: nat, e: nat, s: nat)
    requires b < e <= NameCount(p)
    requires s == Offsets(p)[b] || (s == 0 && b == 0)
    ensures s <= NameEnd(p, Offsets(p), e - 1) <= |p|
    ensures Starts(p, s, NameEnd(p, Offsets(p), e - 1)) == Offsets(p)[b..e]
  {
    var o := Offsets(p);
    NameBounds(p, b);
    NameBounds(p, e - 1);
    var end := NameEnd(p, o, e - 1);
    if e < |o| {
      NameBounds(p, e);
    }
    PrefixCount(p, end, e);
    OffsetsExact(p);
    PrefixCount(p, s, b);
    StartsSplit(p, 0, s, end);
    assert o[..e] == o[..b] + o[b..e];
  }

  /** The names of that slice are exactly names `b .. e - 1` of the path. */
  lemma Window(p: seq<byte>, b: nat, e: nat, s: nat)
    requires b < e <= NameCount(p)
    requires s == Offsets(p)[b] || (s == 0 && b == 0)
    ensures s <= NameEnd(p, Offsets(p), e - 1) <= |p|
    ensures var q := p[s..NameEnd(p, Offsets(p), e - 1)];
            NameCount(q) == e - b && forall k :: 0 <= k < e - b ==> Name(q, k) == Name(p, b + k)
  {
    var o := Offsets(p);
    WindowStarts(p, b, e, s);
    var end := NameEnd(p, o, e - 1);
    var q := p[s..end];
    assert NameStart(p, o[b]) by {
      OffsetsExact(p);
    }
    StartsSlice(p, s, end, |q|);
    assert forall k :: 0 <= k < e - b ==> Offsets(q)[k] + s == o[b + k];
    forall k | 0 <= k < e - b
      ensures Name(q, k) == Name(p, b + k)
    {
      NameBounds(q, k);
      var lo, hi := Offsets(q)[k], NameEnd(q, Offsets(q), k);
      assert hi + s == NameEnd(p, o, b + k);
      SliceOfSlice(p, s, end, lo, hi);
    }
  }

  /** A slice of a slice is a slice of the whole. */
  lemma SliceOfSlice(p: seq<byte>, s: nat, end: nat, lo: nat, hi: nat)
    requires s <= end <= |p| && lo <= hi <= end - s
    ensures p[s..end][lo..hi] == p[s + lo..s + hi]
  {
    forall i | 0 <= i < hi - lo
      ensures p[s..end][lo..hi][i] == p[s + lo..s + hi][i]
    {
      assert p[s..end][lo..hi][i] == p[s..end][lo + i] == p[s + lo + i];
    }
  }

  /** `getName` and `subpath` return exactly the named components: the result of `subpath(b, e)` has
      `e - b` names, and its name `k` is name `b + k` of the path; name `i` is `subpath(i, i + 1)`. */
  lemma SubpathNames(p: seq<byte>, b: int, e: int)
    requires Subpath(p, b, e).Ok?
    ensures NameCount(Subpath(p, b, e).value) == e - b
    ensures forall k :: 0 <= k < e - b ==> Name(Subpath(p, b, e).value, k) == Name(p, b + k)
    ensures e == b + 1 ==> Subpath(p, b, e) == GetName(p, b)
  {
    Window(p, b, e, Offsets(p)[b]);
  }

  /** `getRoot`: "/" (the path's first byte) for an absolute path, none otherwise. */
  function GetRoot(p: seq<byte>): (r: Option<seq<byte>>)
    ensures r.Some? <==> IsAbsolute(p)
    ensures r.Some? ==> r.value == [SLASH]
  {
    if IsAbsolute(p) then Some([p[0]]) else None
  }

  /** `getParent`: none without names; the root when the last name starts at offset 1 or less;
      otherwise the bytes before the separator that precedes the last name. */
  function GetParent(p: seq<byte>): Option<seq<byte>>
  {
    if NameCount(p) == 0 then None
    else
      var length := Offsets(p)[NameCount(p) - 1] as int - 1;
      if length <= 0 then GetRoot(p)
      else
        OffsetsExact(p);
        Some(p[..length])
  }

  /** The parent holds exactly the names of the path but the last; there is none exactly when the path
      has no name, or has one relative name at its start. */
  lemma ParentNames(p: seq<byte>)
    ensures GetParent(p).None? <==> NameCount(p) == 0 || (!IsAbsolute(p) && Offsets(p)[NameCount(p) - 1] == 0)
    ensures GetParent(p).Some? ==>
              var q := GetParent(p).value;
              NameCount(q) == NameCount(p) - 1 && forall k :: 0 <= k < NameCount(q) ==> Name(q, k) == Name(p, k)
  {
    var o := Offsets(p);
    var n := |o|;
    OffsetsExact(p);
    if n > 0 {
      var length := o[n - 1] as int - 1;
      if n > 1 {
        NameBounds(p, n - 2);
      }
      if length <= 0 {
        assert n == 1;
        if IsAbsolute(p) {
          assert GetParent(p) == Some([SLASH]);
          assert Starts([SLASH], 0, 1) == Starts([SLASH], 0, 0);
        } else {
          assert o[n - 1] != 1;
        }
      } else {
        NameBounds(p, n - 1);
        assert GetParent(p) == Some(p[..length]);
        ParentPrefix(p, n, length);
      }
    }
  }

  /** The bytes before the separator ahead of the last name hold the other names. */
  lemma ParentPrefix(p: seq<byte>, n: nat, length: nat)
    requires n == NameCount(p) && n > 0 && length == Offsets(p)[n - 1] as int - 1 > 0 && length < |p|
    ensures var q := p[..length];
            NameCount(q) == n - 1 && forall k :: 0 <= k < n - 1 ==> Name(q, k) == Name(p, k)
  {
    var o := Offsets(p);
    var q := p[..length];
    OffsetsExact(p);
    if n > 1 {
      NameBounds(p, n - 2);
    }
    PrefixCount(p, length, n - 1);
    StartsSlice(p, 0, length, length);
    assert Offsets(q) == o[..n - 1];
    forall k | 0 <= k < n - 1
      ensures Name(q, k) == Name(p, k)
    {
      PrefixName(p, q, k);
    }
  }

  /** A name ahead of the last one reads the same in a prefix of the path that keeps it. */
  lemma PrefixName(p: seq<byte>, q: seq<byte>, k: nat)
    requires |q| <= |p| && q == p[..|q|] && k + 1 < NameCount(p) && Offsets(q) == Offsets(p)[..NameCount(p) - 1]
    requires NameEnd(p, Offsets(p), NameCount(p) - 2) == |q|
    ensures k < NameCount(q) && Name(q, k) == Name(p, k)
  {
    var o := Offsets(p);
    OffsetsExact(p);
    NameBounds(p, k);
    var e := NameEnd(p, o, k);
    assert e == NameEnd(q, Offsets(q), k);
    if k + 2 < NameCount(p) {
      NameBounds(p, NameCount(p) - 2);
      assert o[k + 1] <= o[NameCount(p) - 2];
    }
    assert e <= |q|;
    assert q[o[k]..e] == p[o[k]..e];
  }

  /** `getFileName`: none without names; the path itself when it is one relative name; otherwise the
      bytes from the last name's start to the end. */
  function GetFileName(p: seq<byte>): Option<seq<byte>>
  {
    if NameCount(p) == 0 then None
    else if NameCount(p) == 1 && p[0] != SLASH then Some(p)
    else
      OffsetsExact(p);
      Some(p[Offsets(p)[NameCount(p) - 1]..])
  }

  /** The file name is one name, the path's last; there is none exactly when the path has no name. */
  lemma FileNameIsLast(p: seq<byte>)
    ensures GetFileName(p).None? <==> NameCount(p) == 0
    ensures GetFileName(p).Some? ==>
              var f := GetFileName(p).value;
              NameCount(f) == 1 && Name(f, 0) == Name(p, NameCount(p) - 1)
  {
    var n := NameCount(p);
    if n > 0 {
      OffsetsExact(p);
      if n == 1 && p[0] != SLASH {
        assert NameStart(p, 0);
        assert Offsets(p)[0] == 0;
        Window(p, 0, 1, 0);
      } else {
        Window(p, n - 1, n, Offsets(p)[n - 1]);
        assert GetFileName(p).value == p[Offsets(p)[n - 1]..NameEnd(p, Offsets(p), n - 1)];
      }
    }
  }

  /** `initOffsets`: one pass counts the names, a second fills an array of that size with their
      starts; each pass steps over a name's remaining bytes in an inner loop. */
  method InitOffsets(p: seq<byte>) returns (r: seq<nat>)
    ensures r == Offsets(p)
  {
    var count := CountNames(p);
    var result := new nat[count];
    var filled := 0;
    var index := 0;
    while index < |p|
      invariant index <= |p| && filled <= result.Length == |Offsets(p)|
      invariant result[..filled] == Starts(p, 0, index)
      invariant index == 0 || index == |p| || p[index - 1] == SLASH || p[index] == SLASH
    {
      if p[index] == SLASH {
        assert Starts(p, 0, index + 1) == Starts(p, 0, index);
        index := index + 1;
      } else {
        assert Starts(p, 0, index + 1) == Starts(p, 0, index) + [index];
        StartsSplit(p, 0, index + 1, |p|);
        result[filled] := index;
        filled := filled + 1;
        assert result[..filled] == Starts(p, 0, index + 1);
        index := SkipName(p, index + 1);
      }
    }
    r := result[..filled];
  }

  /** The first pass of `initOffsets`: the number of names. */
  method CountNames(p: seq<byte>) returns (count: nat)
    ensures count == |Offsets(p)|
  {
    count := 0;
    var index := 0;
    while index < |p|
      invariant index <= |p|
      invariant count == |Starts(p, 0, index)|
      invariant index == 0 || index == |p| || p[index - 1] == SLASH || p[index] == SLASH
    {
      var c := p[index];
      if c != SLASH {
        assert Starts(p, 0, index + 1) == Starts(p, 0, index) + [index];
        count := count + 1;
        index := SkipName(p, index + 1);
      } else {
        assert Starts(p, 0, index + 1) == Starts(p, 0, index);
        index := index + 1;
      }
    }
  }

  /** The inner loops of `initOffsets`: `index` moves over the rest of a name, which holds no name start. */
  method SkipName(p: seq<byte>, index: nat) returns (j: nat)
    requires 0 < index <= |p| && p[index - 1] != SLASH
    ensures index <= j <= |p| && (j == |p| || p[j] == SLASH)
    ensures Starts(p, 0, j) == Starts(p, 0, index)
  {
    j := index;
    while j < |p| && p[j] != SLASH
      invariant index <= j <= |p| && p[j - 1] != SLASH
      invariant Starts(p, 0, j) == Starts(p, 0, index)
    {
      j := j + 1;
    }
  }
}
