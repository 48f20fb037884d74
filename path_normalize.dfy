/** The normalising path constructor (AtlantPath with `normalized == false`): a first scan keeps a path
    with no '\', no "//" and no NUL byte as it is; otherwise the path is rewritten from the first
    offending position on: '\' becomes '/', runs of '/' collapse to one, a trailing '/' is dropped unless
    it is the only byte, and a NUL byte is refused with InvalidPathException. */
module PathNormalize {
  import opened Wrappers
  import opened Bytes
  import opened PathNames

  /** No '\' and no NUL among the first `n` bytes, and no "//" ending before `n`. */
  predicate CleanUpTo(p: seq<byte>, n: nat)
    requires n <= |p|
  {
    (forall i :: 0 <= i < n ==> p[i] != BACKSLASH && p[i] != NUL) &&
    (forall i :: 0 < i < n ==> !(p[i - 1] == SLASH && p[i] == SLASH))
  }

  /** A path the constructor stores as it is. */
  predicate Clean(p: seq<byte>)
  {
    CleanUpTo(p, |p|)
  }

  /** No '/' at the end, unless the path is that one byte. */
  predicate NoTrailingSlash(p: seq<byte>)
  {
    |p| <= 1 || p[|p| - 1] != SLASH
  }

  /** Where the first scan (`normalize(byte[])`) stops. */
  datatype Scan = Unchanged | HasNul | RewriteAt(index: nat)

  /** The first scan from position `j`: a '\' rewrites from its own position, a second '/' in a row
      rewrites from the first one, a NUL byte is refused; a path that passes is kept. */
  function ScanFrom(p: seq<byte>, j: nat): Scan
    decreases |p| - j
  {
    if j >= |p| then Unchanged
    else if p[j] == BACKSLASH then RewriteAt(j)
    else if p[j] == SLASH && j > 0 && p[j - 1] == SLASH then RewriteAt(j - 1)
    else if p[j] == NUL then HasNul
    else ScanFrom(p, j + 1)
  }

  /** The scan keeps exactly the clean paths, refuses only paths holding NUL, and rewrites from a '\'
      or from the first '/' of a "//", with everything before that position clean. */
  lemma {:induction false} ScanFacts(p: seq<byte>, j: nat)
    requires j <= |p| && CleanUpTo(p, j)
    ensures ScanFrom(p, j) == Unchanged <==> Clean(p)
    ensures ScanFrom(p, j) == HasNul ==> NUL in p
    ensures ScanFrom(p, j).RewriteAt? ==>
              var i := ScanFrom(p, j).index;
              i < |p| && CleanUpTo(p, i) &&
              (p[i] == BACKSLASH || (i + 1 < |p| && p[i] == SLASH && p[i + 1] == SLASH))
    decreases |p| - j
  {
    if j < |p| && p[j] != BACKSLASH && !(p[j] == SLASH && j > 0 && p[j - 1] == SLASH) && p[j] != NUL {
      ScanFacts(p, j + 1);
    }
  }

  /** The copy loop of `normalize(byte[], int)` from the previous written byte `k`: '\' is read as '/',
      and a '/' right after a written '/' is skipped. */
  function Collapse(s: seq<byte>, k: byte): seq<byte>
    decreases |s|
  {
    if s == [] then []
    else
      var m := if s[0] == BACKSLASH then SLASH else s[0];
      if m != SLASH || k != SLASH then [m] + Collapse(s[1..], m) else Collapse(s[1..], k)
  }

  /** The copy never writes '\' or "//", never writes a '/' first after a '/', keeps NUL bytes, and never
      grows. */
  lemma {:induction false} CollapseFacts(s: seq<byte>, k: byte)
    ensures var c := Collapse(s, k);
            |c| <= |s| && (NUL in c <==> NUL in s) &&
            (forall i :: 0 <= i < |c| ==> c[i] != BACKSLASH) &&
            (forall i :: 0 < i < |c| ==> !(c[i - 1] == SLASH && c[i] == SLASH)) &&
            (k == SLASH && c != [] ==> c[0] != SLASH)
    decreases |s|
  {
    if s != [] {
      var m := if s[0] == BACKSLASH then SLASH else s[0];
      CollapseFacts(s[1..], m);
      CollapseFacts(s[1..], k);
    }
  }

  /** A "//" at the front is written once at most, so the copy is shorter than its input. */
  lemma CollapseShrinks(s: seq<byte>, k: byte)
    requires |s| >= 2 && s[0] == SLASH && s[1] == SLASH
    ensures |Collapse(s, k)| < |s|
  {
    CollapseFacts(s[2..], SLASH);
    assert s[1..][1..] == s[2..];
  }

  /** The final step: one trailing '/' is dropped when more than one byte was written. */
  function DropTrailing(t: seq<byte>): seq<byte>
  {
    if |t| > 1 && t[|t| - 1] == SLASH then t[..|t| - 1] else t
  }

  /** `normalize(byte[], int)` with the copy loop started from previous byte `k`: the bytes before
      `index` unchanged, the rest copied, one trailing '/' dropped; InvalidPathException on a NUL byte. */
  function Rewrite(p: seq<byte>, index: nat, k: byte): Result<seq<byte>>
    requires index <= |p|
  {
    if NUL in p[index..] then Err(InvalidPath) else Ok(DropTrailing(p[..index] + Collapse(p[index..], k)))
  }

  /** The normalising constructor as written: the rewrite starts with no previous byte (`k = 0`). */
  function NormalizeAsWritten(p: seq<byte>): Result<seq<byte>>
  {
    match ScanFrom(p, 0)
    case Unchanged => Ok(p)
    case HasNul => Err(InvalidPath)
    case RewriteAt(i) => if i <= |p| then Rewrite(p, i, 0) else Err(InvalidPath)
  }

  /** The byte before `i`, or 0 at the start: what the rewrite's previous byte should start from. */
  function Before(p: seq<byte>, i: nat): byte
    requires i <= |p|
  {
    if i > 0 then p[i - 1] else 0
  }

  /** The normalising constructor with the rewrite seeded with the byte before its start. */
  function Normalized(p: seq<byte>): Result<seq<byte>>
  {
    match ScanFrom(p, 0)
    case Unchanged => Ok(p)
    case HasNul => Err(InvalidPath)
    case RewriteAt(i) => if i <= |p| then Rewrite(p, i, Before(p, i)) else Err(InvalidPath)
  }

  /** A rewrite seeded with the byte before it yields a clean path without a trailing '/'. */
  lemma RewriteClean(p: seq<byte>, i: nat)
    requires i < |p| && CleanUpTo(p, i)
    requires Rewrite(p, i, Before(p, i)).Ok?
    ensures Clean(Rewrite(p, i, Before(p, i)).value)
    ensures NoTrailingSlash(Rewrite(p, i, Before(p, i)).value)
  {
    var c := Collapse(p[i..], Before(p, i));
    CollapseFacts(p[i..], Before(p, i));
    assert !(NUL in p[i..]);
    JoinClean(p[..i], c);
    DropClean(p[..i] + c);
  }

  /** A clean path followed by a clean copy that does not start with '/' after a '/' is clean. */
  lemma JoinClean(a: seq<byte>, c: seq<byte>)
    requires Clean(a) && !(NUL in c)
    requires forall x :: 0 <= x < |c| ==> c[x] != BACKSLASH
    requires forall x :: 0 < x < |c| ==> !(c[x - 1] == SLASH && c[x] == SLASH)
    requires a != [] && a[|a| - 1] == SLASH && c != [] ==> c[0] != SLASH
    ensures Clean(a + c)
  {
    var t := a + c;
    forall x | 0 <= x < |t|
      ensures t[x] != BACKSLASH && t[x] != NUL
    {
      if x >= |a| {
        assert t[x] == c[x - |a|];
      }
    }
    forall x | 0 < x < |t|
      ensures !(t[x - 1] == SLASH && t[x] == SLASH)
    {
      if x > |a| {
        assert t[x - 1] == c[x - 1 - |a|] && t[x] == c[x - |a|];
      } else if x == |a| {
        assert t[x - 1] == a[|a| - 1] && t[x] == c[0];
      }
    }
  }

  /** Dropping the trailing '/' of a clean path leaves it clean and without one. */
  lemma DropClean(t: seq<byte>)
    requires Clean(t)
    ensures Clean(DropTrailing(t)) && NoTrailingSlash(DropTrailing(t))
  {
    if |t| > 1 && t[|t| - 1] == SLASH {
      var d := t[..|t| - 1];
      assert d[|d| - 1] == t[|t| - 2];
      assert forall x :: 0 <= x < |d| ==> d[x] == t[x];
    }
  }

  /** The rewrite case of the constructor: the path is changed, refused exactly when it holds NUL, and
      otherwise clean with no trailing '/'. */
  lemma RewriteSpec(p: seq<byte>, i: nat)
    requires i < |p| && CleanUpTo(p, i)
    requires p[i] == BACKSLASH || (i + 1 < |p| && p[i] == SLASH && p[i + 1] == SLASH)
    ensures Rewrite(p, i, Before(p, i)) != Ok(p)
    ensures Rewrite(p, i, Before(p, i)).Err? <==> NUL in p
    ensures Rewrite(p, i, Before(p, i)).Ok? ==>
              Clean(Rewrite(p, i, Before(p, i)).value) && NoTrailingSlash(Rewrite(p, i, Before(p, i)).value)
  {
    assert p == p[..i] + p[i..];
    assert NUL in p <==> NUL in p[i..];
    if !(NUL in p[i..]) {
      RewriteClean(p, i);
      RewriteChanges(p, i, Before(p, i));
    }
  }

  /** The constructor keeps a path exactly when it is clean; the corrected rewrite's results are clean
      and have no trailing '/'; NUL bytes, and nothing else, are refused. */
  lemma NormalizedSpec(p: seq<byte>)
    ensures Normalized(p) == Ok(p) <==> Clean(p)
    ensures Normalized(p).Err? <==> NUL in p
    ensures Normalized(p).Err? ==> Normalized(p).error == InvalidPath
    ensures Normalized(p).Ok? ==> Clean(Normalized(p).value)
    ensures Normalized(p).Ok? && !Clean(p) ==> NoTrailingSlash(Normalized(p).value)
  {
    ScanFacts(p, 0);
    if ScanFrom(p, 0).RewriteAt? {
      RewriteSpec(p, ScanFrom(p, 0).index);
    }
  }

  /** A rewrite never returns the path it was given. */
  lemma RewriteChanges(p: seq<byte>, i: nat, k: byte)
    requires i < |p| && CleanUpTo(p, i)
    requires p[i] == BACKSLASH || (i + 1 < |p| && p[i] == SLASH && p[i + 1] == SLASH)
    requires Rewrite(p, i, k).Ok?
    ensures Rewrite(p, i, k).value != p
  {
    var c := Collapse(p[i..], k);
    CollapseFacts(p[i..], k);
    var t := p[..i] + c;
    if p[i] == BACKSLASH {
      assert forall x :: 0 <= x < |t| ==> t[x] != BACKSLASH by {
        forall x | 0 <= x < |t|
          ensures t[x] != BACKSLASH
        {
          if x >= i {
            assert t[x] == c[x - i];
          }
        }
      }
      assert DropTrailing(t) == t || DropTrailing(t) == t[..|t| - 1];
    } else {
      CollapseShrinks(p[i..], k);
    }
  }

  /** Normalising twice is normalising once. */
  lemma NormalizedIdempotent(p: seq<byte>)
    requires Normalized(p).Ok?
    ensures Normalized(Normalized(p).value) == Normalized(p)
  {
    NormalizedSpec(p);
    NormalizedSpec(Normalized(p).value);
  }

  /** As written, a '\' right after a '/' leaves "//" in the stored path: "a/\b" is stored as "a//b",
      which is not clean and which the constructor would itself rewrite to "a/b". */
  lemma RewriteKeepsDoubleSlash()
    ensures NormalizeAsWritten([0x61, SLASH, BACKSLASH, 0x62]) == Ok([0x61, SLASH, SLASH, 0x62])
    ensures !Clean([0x61, SLASH, SLASH, 0x62])
    ensures NormalizeAsWritten([0x61, SLASH, SLASH, 0x62]) == Ok([0x61, SLASH, 0x62])
    ensures Normalized([0x61, SLASH, BACKSLASH, 0x62]) == Ok([0x61, SLASH, 0x62])
  {
    var p: seq<byte> := [0x61, SLASH, BACKSLASH, 0x62];
    assert ScanFrom(p, 0) == ScanFrom(p, 1) == ScanFrom(p, 2) == RewriteAt(2);
    assert p[..2] == [0x61, SLASH] && p[2..] == [BACKSLASH, 0x62];
    assert Collapse([0x62], SLASH) == [0x62] + Collapse([], 0x62);
    assert Collapse([BACKSLASH, 0x62], 0) == [SLASH, 0x62];
    assert Collapse([BACKSLASH, 0x62], SLASH) == [0x62];
    assert !(NUL in p[2..]);
    assert p[..2] + Collapse(p[2..], 0) == [0x61, SLASH, SLASH, 0x62];
    assert p[..2] + Collapse(p[2..], SLASH) == [0x61, SLASH, 0x62];
    assert Rewrite(p, 2, 0) == Ok([0x61, SLASH, SLASH, 0x62]);
    assert NormalizeAsWritten(p) == Ok([0x61, SLASH, SLASH, 0x62]);
    assert Rewrite(p, 2, SLASH) == Ok([0x61, SLASH, 0x62]);
    var q: seq<byte> := [0x61, SLASH, SLASH, 0x62];
    assert ScanFrom(q, 0) == ScanFrom(q, 1) == ScanFrom(q, 2) == RewriteAt(1);
    assert q[..1] == [0x61] && q[1..] == [SLASH, SLASH, 0x62];
    assert Collapse([SLASH, 0x62], SLASH) == [0x62];
    assert Collapse([SLASH, SLASH, 0x62], 0) == [SLASH, 0x62];
    assert !(NUL in q[1..]);
    assert q[..1] + Collapse(q[1..], 0) == [0x61, SLASH, 0x62];
  }

  /** The normalising constructor (the rewrite seeded with the byte before its start): the scan loop,
      then the rewrite. */
  method Normalize(p: seq<byte>) returns (r: Result<seq<byte>>)
    ensures r == Normalized(p)
  {
    if |p| == 0 {
      return Ok(p);
    }
    var prev: byte := 0;
    var j := 0;
    while j < |p|
      invariant j <= |p|
      invariant ScanFrom(p, j) == ScanFrom(p, 0)
      invariant prev == Before(p, j)
    {
      var k := p[j];
      if k == BACKSLASH {
        r := NormalizeFrom(p, j, prev);
        return;
      }
      if k == SLASH && prev == SLASH {
        r := NormalizeFrom(p, j - 1, Before(p, j - 1));
        return;
      }
      if k == NUL {
        return Err(InvalidPath);
      }
      prev := k;
      j := j + 1;
    }
    return Ok(p);
  }

  /** `normalize(byte[], int)`: copy the bytes before `index`, then copy the rest into the same array
      from previous byte `k`, skipping a '/' after a written '/' and refusing NUL, and drop one trailing
      '/'. */
  method NormalizeFrom(p: seq<byte>, index: nat, k: byte) returns (r: Result<seq<byte>>)
    requires index <= |p|
    ensures r == Rewrite(p, index, k)
  {
    var to := new byte[|p|];
    CopyFront(p, index, to);
    var i := index;
    var j := index;
    var prev := k;
    while i < |p|
      invariant index <= i <= |p| && index <= j <= i
      invariant to[..j] + Collapse(p[i..], prev) == p[..index] + Collapse(p[index..], k)
      invariant !(NUL in p[index..i])
    {
      var m := p[i];
      assert p[i..][1..] == p[i + 1..];
      assert p[index..i + 1] == p[index..i] + [m];
      i := i + 1;
      if m == BACKSLASH {
        m := SLASH;
      }
      if m != SLASH || prev != SLASH {
        if m == NUL {
          assert NUL in p[index..];
          return Err(InvalidPath);
        }
        to[j] := m;
        assert to[..j + 1] == to[..j] + [m];
        j := j + 1;
        prev := m;
      }
    }
    assert p[index..] == p[index..i];
    assert p[i..] == [];
    assert to[..j] == p[..index] + Collapse(p[index..], k);
    var t := TrimSlash(to, j);
    r := Ok(t);
  }

  /** The first loop of `normalize(byte[], int)`: the bytes before `index` are copied unchanged. */
  method CopyFront(p: seq<byte>, index: nat, to: array<byte>)
    requires index <= |p| <= to.Length
    modifies to
    ensures to[..index] == p[..index]
  {
    var i := 0;
    while i < index
      invariant i <= index && to[..i] == p[..i]
    {
      to[i] := p[i];
      i := i + 1;
    }
  }

  /** `if (j > 1 && to[j - 1] == '/') j--`, then the first `j` bytes. */
  method TrimSlash(to: array<byte>, j: nat) returns (r: seq<byte>)
    requires j <= to.Length
    ensures r == DropTrailing(to[..j])
  {
    r := to[..j];
    if j > 1 && to[j - 1] == SLASH {
      r := to[..j - 1];
    }
  }
}
