/** `normalize()` of a path (AtlantPath.getResolved / doGetResolved): a path without a '.' byte is left as
    it is; otherwise its names are walked once, "." is dropped, ".." cancels the last kept name (or, with
    none kept, is kept at the front of a relative path and dropped from an absolute one), and the kept
    names are written out again. */
module PathResolve {
  import opened Bytes
  import opened PathNames
  import opened PathNormalize

  const ONE_DOT: seq<byte> := [DOT]
  const TWO_DOTS: seq<byte> := [DOT, DOT]

  /** What resolution keeps after some names: `ups` leading ".." (relative paths only), then `names`. */
  datatype Kept = Kept(ups: nat, names: seq<seq<byte>>)

  /** One name of the walk. */
  function Step(abs: bool, k: Kept, x: seq<byte>): Kept
  {
    if x == ONE_DOT then k
    else if x == TWO_DOTS then
      if k.names != [] then k.(names := k.names[..|k.names| - 1])
      else if abs then k
      else k.(ups := k.ups + 1)
    else k.(names := k.names + [x])
  }

  /** The walk over a sequence of names. */
  function Fold(abs: bool, xs: seq<seq<byte>>): Kept
    decreases |xs|
  {
    if xs == [] then Kept(0, []) else Step(abs, Fold(abs, xs[..|xs| - 1]), xs[|xs| - 1])
  }

  /** The names of a path, in order. */
  function Names(p: seq<byte>): seq<seq<byte>>
  {
    seq(NameCount(p), (i: int) requires 0 <= i < NameCount(p) => Name(p, i))
  }

  /** The names written out: the leading "..", then the kept names. */
  function Items(k: Kept): seq<seq<byte>>
  {
    Ups(k.ups) + k.names
  }

  /** `n` times "..". */
  function Ups(n: nat): (r: seq<seq<byte>>)
    ensures |r| == n && forall i :: 0 <= i < n ==> r[i] == TWO_DOTS
  {
    if n == 0 then [] else Ups(n - 1) + [TWO_DOTS]
  }

  /** Output starts with '/' for an absolute path. */
  function Start(abs: bool): seq<byte>
  {
    if abs then [SLASH] else []
  }

  /** The output ready for a next name: a '/' is added unless it is empty or already ends with '/'. */
  function Opened(t: seq<byte>): seq<byte>
  {
    if t != [] && t[|t| - 1] != SLASH then t + [SLASH] else t
  }

  /** Names written after `t`, each after a separator when one is needed. */
  function Joined(t: seq<byte>, items: seq<seq<byte>>): seq<byte>
    decreases |items|
  {
    if items == [] then t else Opened(Joined(t, items[..|items| - 1])) + items[|items| - 1]
  }

  /** `doGetResolved`: the kept names written out, with one trailing '/' dropped; nothing without names. */
  function ResolveNames(p: seq<byte>): seq<byte>
  {
    if NameCount(p) == 0 then []
    else DropTrailing(Joined(Start(IsAbsolute(p)), Items(Fold(IsAbsolute(p), Names(p)))))
  }

  /** `getResolved`: unchanged when empty or without a '.' byte, else resolved. */
  function Resolved(p: seq<byte>): seq<byte>
  {
    if |p| == 0 || DOT !in p then p else ResolveNames(p)
  }

  /** Nothing resolution keeps is "." or "..", and an absolute path keeps no leading "..". */
  lemma {:induction false} FoldKeepsNoDots(abs: bool, xs: seq<seq<byte>>)
    ensures forall x :: x in Fold(abs, xs).names ==> x != ONE_DOT && x != TWO_DOTS
    ensures abs ==> Fold(abs, xs).ups == 0
    decreases |xs|
  {
    if xs != [] {
      FoldKeepsNoDots(abs, xs[..|xs| - 1]);
      var k := Fold(abs, xs[..|xs| - 1]);
      var x := xs[|xs| - 1];
      if x == TWO_DOTS && k.names != [] {
        assert Fold(abs, xs).names == k.names[..|k.names| - 1];
        forall y | y in Fold(abs, xs).names
          ensures y != ONE_DOT && y != TWO_DOTS
        {
          assert y in k.names;
        }
      } else if x != ONE_DOT && x != TWO_DOTS {
        assert Fold(abs, xs).names == k.names + [x];
      }
    }
  }

  /** Names that are neither "." nor ".." are all kept, in order. */
  lemma {:induction false} FoldKeepsPlainNames(abs: bool, xs: seq<seq<byte>>)
    requires forall i :: 0 <= i < |xs| ==> xs[i] != ONE_DOT && xs[i] != TWO_DOTS
    ensures Fold(abs, xs) == Kept(0, xs)
    decreases |xs|
  {
    if xs != [] {
      FoldKeepsPlainNames(abs, xs[..|xs| - 1]);
      assert xs[..|xs| - 1] + [xs[|xs| - 1]] == xs;
    }
  }

  /** ".." right after a kept name cancels it. */
  lemma DotDotCancels(abs: bool, xs: seq<seq<byte>>, x: seq<byte>)
    requires x != ONE_DOT && x != TWO_DOTS
    ensures Fold(abs, xs + [x] + [TWO_DOTS]) == Fold(abs, xs)
  {
    assert (xs + [x] + [TWO_DOTS])[..|xs| + 1] == xs + [x];
    assert (xs + [x])[..|xs|] == xs;
  }

  /** Writing items that do not start with '/' after a start that is empty or "/" gives output that
      starts with '/' exactly when the start is "/". */
  lemma {:induction false} JoinedStart(abs: bool, items: seq<seq<byte>>)
    requires forall i :: 0 <= i < |items| ==> items[i] != [] && items[i][0] != SLASH
    ensures var j := Joined(Start(abs), items);
            (abs ==> j != [] && j[0] == SLASH) && (!abs ==> j == [] || j[0] != SLASH)
    decreases |items|
  {
    if items != [] {
      JoinedStart(abs, items[..|items| - 1]);
    }
  }

  /** Resolution keeps a path absolute or relative. */
  lemma ResolvedKeepsAbsolute(p: seq<byte>)
    ensures IsAbsolute(Resolved(p)) <==> IsAbsolute(p)
  {
    if |p| > 0 && DOT in p && NameCount(p) > 0 {
      var abs := IsAbsolute(p);
      var k := Fold(abs, Names(p));
      FoldKeepsNoDots(abs, Names(p));
      assert forall x :: x in k.names ==> x != [] && x[0] != SLASH by {
        FoldNamesFromPath(abs, Names(p));
        forall x | x in Names(p)
          ensures x != [] && x[0] != SLASH
        {
          var j :| 0 <= j < |Names(p)| && Names(p)[j] == x;
          assert x == Name(p, j);
        }
      }
      forall i | 0 <= i < |Items(k)|
        ensures Items(k)[i] != [] && Items(k)[i][0] != SLASH
      {
        if i >= k.ups {
          assert Items(k)[i] == k.names[i - k.ups];
        }
      }
      JoinedStart(abs, Items(k));
    } else if |p| > 0 && DOT in p {
      DotStartsName(p);
    }
  }

  /** Every kept name is one of the walked names. */
  lemma {:induction false} FoldNamesFromPath(abs: bool, xs: seq<seq<byte>>)
    ensures forall x :: x in Fold(abs, xs).names ==> x in xs
    decreases |xs|
  {
    if xs != [] {
      FoldNamesFromPath(abs, xs[..|xs| - 1]);
      var k := Fold(abs, xs[..|xs| - 1]);
      if k.names != [] {
        assert forall x :: x in k.names[..|k.names| - 1] ==> x in k.names;
      }
    }
  }

  /** A path holding a '.' byte has a name. */
  lemma DotStartsName(p: seq<byte>)
    requires DOT in p
    ensures NameCount(p) > 0
  {
    var i :| 0 <= i < |p| && p[i] == DOT;
    var s := RunStart(p, i);
    OffsetsExact(p);
    assert s in Offsets(p);
  }

  /** The start of the run of non-'/' bytes holding position `i`. */
  lemma {:induction false} RunStart(p: seq<byte>, i: nat) returns (s: nat)
    requires i < |p| && p[i] != SLASH
    ensures s <= i && NameStart(p, s)
  {
    if i == 0 || p[i - 1] == SLASH {
      s := i;
    } else {
      s := RunStart(p, i - 1);
    }
  }

  /** The output of the walk so far: the kept items written after the start, followed by a separator when
      the last step cancelled a name. */
  function View(abs: bool, k: Kept, open: bool): seq<byte>
  {
    var j := Joined(Start(abs), Items(k));
    if open then Opened(j) else j
  }

  /** The stack `lastM`: each kept name begins where the output, made ready after the names before it,
      ends. */
  function Marks(abs: bool, k: Kept): (r: seq<nat>)
    ensures |r| == |k.names|
    decreases |k.names|
  {
    if k.names == [] then []
    else
      var k2 := k.(names := k.names[..|k.names| - 1]);
      Marks(abs, k2) + [|Opened(View(abs, k2, false))|]
  }

  lemma OpenedTwice(t: seq<byte>)
    ensures Opened(Opened(t)) == Opened(t)
    ensures Opened(t)[..|t|] == t
  {
  }

  /** Writing one more item: the output made ready for it, then the item. */
  lemma JoinedSnoc(t: seq<byte>, items: seq<seq<byte>>, x: seq<byte>)
    ensures Joined(t, items + [x]) == Opened(Joined(t, items)) + x
  {
    assert (items + [x])[..|items|] == items;
  }

  /** Writing a kept name: after the separator the output is ready for it, and its mark is pushed. */
  lemma ViewPush(abs: bool, k: Kept, open: bool, x: seq<byte>)
    ensures var k2 := k.(names := k.names + [x]);
            View(abs, k2, false) == Opened(View(abs, k, open)) + x &&
            Marks(abs, k2) == Marks(abs, k) + [|Opened(View(abs, k, open))|]
  {
    var k2 := k.(names := k.names + [x]);
    var items := Items(k);
    assert Items(k2) == items + [x];
    JoinedSnoc(Start(abs), items, x);
    OpenedTwice(Joined(Start(abs), items));
    assert k2.(names := k2.names[..|k2.names| - 1]) == k;
  }

  /** A ".." that cancels the last kept name cuts the output back to that name's mark, and pops it. */
  lemma ViewPop(abs: bool, k: Kept, open: bool)
    requires k.names != []
    ensures var k2 := k.(names := k.names[..|k.names| - 1]);
            var top := Marks(abs, k)[|k.names| - 1];
            top <= |View(abs, k, open)| &&
            View(abs, k2, true) == View(abs, k, open)[..top] &&
            Marks(abs, k2) == Marks(abs, k)[..|k.names| - 1]
  {
    var k2 := k.(names := k.names[..|k.names| - 1]);
    var items := Items(k2);
    var last := k.names[|k.names| - 1];
    assert Items(k) == items + [last];
    JoinedSnoc(Start(abs), items, last);
    var j2 := Joined(Start(abs), items);
    var j1 := Joined(Start(abs), Items(k));
    OpenedTwice(j1);
    OpenedTwice(j2);
    assert j1[..|Opened(j2)|] == Opened(j2);
  }

  /** A ".." kept at the front of a relative path is written like a name. */
  lemma ViewUp(k: Kept, open: bool)
    requires k.names == []
    ensures View(false, k.(ups := k.ups + 1), false) == Opened(View(false, k, open)) + TWO_DOTS
  {
    var k2 := k.(ups := k.ups + 1);
    assert Items(k2) == Items(k) + [TWO_DOTS];
    JoinedSnoc(Start(false), Items(k), TWO_DOTS);
    OpenedTwice(Joined(Start(false), Items(k)));
  }

  /** Output written after "/" is never empty. */
  lemma {:induction false} AbsoluteViewNonEmpty(k: Kept, open: bool)
    ensures View(true, k, open) != []
  {
    JoinedKeepsStart([SLASH], Items(k));
  }

  lemma {:induction false} JoinedKeepsStart(t: seq<byte>, items: seq<seq<byte>>)
    ensures |Joined(t, items)| >= |t|
    decreases |items|
  {
    if items != [] {
      JoinedKeepsStart(t, items[..|items| - 1]);
    }
  }

  /** Dropping a trailing '/' the same way after a cancelled name or without it. */
  lemma DropOpened(t: seq<byte>)
    ensures DropTrailing(Opened(t)) == DropTrailing(t)
  {
  }

  /** Room the output may use after `i` names: up to the end of name `i - 1` in the input. */
  function Room(p: seq<byte>, i: nat): (r: nat)
    requires i <= NameCount(p)
    ensures r <= |p|
  {
    if i == 0 then 0 else NameBounds(p, i - 1); NameEnd(p, Offsets(p), i - 1)
  }

  /** The names walked so far, one more. */
  lemma NamesPrefix(p: seq<byte>, i: nat)
    requires i < NameCount(p)
    ensures Names(p)[..i + 1] == Names(p)[..i] + [Name(p, i)]
    ensures Names(p)[..i + 1][..i] == Names(p)[..i]
  {
  }

  /** `while (len-- > 0) to[m++] = path[n++]`. */
  method Copy(p: seq<byte>, n: nat, len: nat, to: array<byte>, m: nat) returns (m2: nat)
    requires n + len <= |p| && m + len <= to.Length
    modifies to
    ensures m2 == m + len && to[..m2] == old(to[..m]) + p[n..n + len]
  {
    m2 := m;
    var i := 0;
    while i < len
      invariant i <= len && m2 == m + i
      invariant to[..m2] == old(to[..m]) + p[n..n + i]
    {
      to[m2] := p[n + i];
      assert p[n..n + i + 1] == p[n..n + i] + [p[n + i]];
      m2 := m2 + 1;
      i := i + 1;
    }
  }

  /** The loop state of `doGetResolved`: the output `to[..m]` and the stack `lastM[..lastMOff + 1]`. */
  datatype Out = Out(bytes: seq<byte>, marks: seq<nat>)

  /** The separator written before a name: a '/' when the output of an absolute path is still empty, or
      when the output does not end with '/'. */
  function Separated(abs: bool, t: seq<byte>): seq<byte>
  {
    if (t == [] && abs) || (t != [] && t[|t| - 1] != SLASH) then t + [SLASH] else t
  }

  /** One name of `doGetResolved`'s loop, on its bytes. */
  function WalkStep(abs: bool, w: Out, x: seq<byte>): Out
  {
    if x == ONE_DOT || (x == TWO_DOTS && w.marks == [] && abs) then
      if w.bytes == [] && abs then w.(bytes := [SLASH]) else w
    else if x == TWO_DOTS && w.marks != [] then
      var m := w.marks[|w.marks| - 1];
      Out(if m <= |w.bytes| then w.bytes[..m] else w.bytes, w.marks[..|w.marks| - 1])
    else if x == TWO_DOTS then
      w.(bytes := Separated(false, w.bytes) + x)
    else
      var t := Separated(abs, w.bytes);
      Out(t + x, w.marks + [|t|])
  }

  /** The loop over a sequence of names. */
  function Walk(abs: bool, xs: seq<seq<byte>>): Out
    decreases |xs|
  {
    if xs == [] then Out([], []) else WalkStep(abs, Walk(abs, xs[..|xs| - 1]), xs[|xs| - 1])
  }

  lemma WalkSnoc(abs: bool, xs: seq<seq<byte>>, x: seq<byte>)
    ensures Walk(abs, xs + [x]) == WalkStep(abs, Walk(abs, xs), x)
    ensures Fold(abs, xs + [x]) == Step(abs, Fold(abs, xs), x)
  {
    assert (xs + [x])[..|xs|] == xs;
  }

  /** The loop state `w` agrees with the kept names `k`: before any name both are empty; after some, the
      output is the kept items written out, possibly made ready for a next name; the stack holds where
      each kept name begins, the last one within the output. */
  ghost predicate Agrees(abs: bool, started: bool, w: Out, k: Kept)
  {
    var j := Joined(Start(abs), Items(k));
    (!started ==> w == Out([], []) && k == Kept(0, [])) &&
    (started ==> w.bytes == j || w.bytes == Opened(j)) &&
    w.marks == Marks(abs, k) &&
    (w.marks != [] ==> w.marks[|w.marks| - 1] <= |w.bytes|)
  }

  /** The output as a view of the kept names. */
  lemma AgreesView(abs: bool, started: bool, w: Out, k: Kept) returns (open: bool)
    requires Agrees(abs, started, w, k)
    ensures started ==> w.bytes == View(abs, k, open)
    ensures Opened(View(abs, k, open)) == Opened(Joined(Start(abs), Items(k)))
    ensures Separated(abs, w.bytes) == (if started || abs then Opened(View(abs, k, open)) else [])
  {
    var j := Joined(Start(abs), Items(k));
    open := started && w.bytes != j;
    OpenedTwice(j);
    if started {
      assert w.bytes == View(abs, k, open);
      if abs {
        AbsoluteViewNonEmpty(k, open);
      }
      SeparatedOpened(abs, w.bytes);
    } else if abs {
      assert Items(k) == [] && j == [SLASH];
    }
  }

  /** Made ready for a next name, a non-empty output is opened. */
  lemma SeparatedOpened(abs: bool, t: seq<byte>)
    requires abs ==> t != []
    ensures Separated(abs, t) == Opened(t)
  {
  }

  /** "." (or ".." with nothing to cancel in an absolute path) keeps both sides. */
  lemma DotAgrees(abs: bool, started: bool, w: Out, k: Kept, x: seq<byte>)
    requires Agrees(abs, started, w, k)
    requires x == ONE_DOT || (x == TWO_DOTS && w.marks == [] && abs)
    ensures Agrees(abs, true, WalkStep(abs, w, x), Step(abs, k, x))
  {
    var open := AgreesView(abs, started, w, k);
    if abs {
      AbsoluteViewNonEmpty(k, open);
    }
  }

  /** ".." that cancels a kept name cuts the output back to its mark. */
  lemma PopAgrees(abs: bool, started: bool, w: Out, k: Kept)
    requires Agrees(abs, started, w, k) && w.marks != []
    ensures Agrees(abs, true, WalkStep(abs, w, TWO_DOTS), Step(abs, k, TWO_DOTS))
  {
    var open := AgreesView(abs, started, w, k);
    ViewPop(abs, k, open);
    var k2 := k.(names := k.names[..|k.names| - 1]);
    if k2.names != [] {
      ViewPop(abs, k2, true);
    }
  }

  /** ".." with nothing to cancel in a relative path is written out. */
  lemma UpAgrees(started: bool, w: Out, k: Kept)
    requires Agrees(false, started, w, k) && w.marks == []
    ensures Agrees(false, true, WalkStep(false, w, TWO_DOTS), Step(false, k, TWO_DOTS))
  {
    var open := AgreesView(false, started, w, k);
    ViewUp(k, open);
  }

  /** Any other name is written out and its mark pushed. */
  lemma PushAgrees(abs: bool, started: bool, w: Out, k: Kept, x: seq<byte>)
    requires Agrees(abs, started, w, k) && x != ONE_DOT && x != TWO_DOTS
    ensures Agrees(abs, true, WalkStep(abs, w, x), Step(abs, k, x))
  {
    var open := AgreesView(abs, started, w, k);
    ViewPush(abs, k, open, x);
  }

  /** What the loop computes: its state agrees with the names resolution keeps. */
  lemma {:induction false} WalkMeaning(abs: bool, xs: seq<seq<byte>>)
    ensures Agrees(abs, xs != [], Walk(abs, xs), Fold(abs, xs))
    decreases |xs|
  {
    if xs != [] {
      var ys := xs[..|xs| - 1];
      var x := xs[|xs| - 1];
      assert xs == ys + [x];
      WalkMeaning(abs, ys);
      WalkSnoc(abs, ys, x);
      var w := Walk(abs, ys);
      var k := Fold(abs, ys);
      if x == ONE_DOT || (x == TWO_DOTS && w.marks == [] && abs) {
        DotAgrees(abs, ys != [], w, k, x);
      } else if x == TWO_DOTS && w.marks != [] {
        PopAgrees(abs, ys != [], w, k);
      } else if x == TWO_DOTS {
        UpAgrees(ys != [], w, k);
      } else {
        PushAgrees(abs, ys != [], w, k, x);
      }
    }
  }

  /** The last mark on the stack lies within the output. */
  lemma WalkTop(abs: bool, xs: seq<seq<byte>>)
    ensures var w := Walk(abs, xs); w.marks != [] ==> w.marks[|w.marks| - 1] <= |w.bytes|
  {
    WalkMeaning(abs, xs);
  }

  /** After all names, dropping one trailing '/' gives the resolved bytes. */
  lemma WalkResolves(p: seq<byte>)
    ensures DropTrailing(Walk(IsAbsolute(p), Names(p)).bytes) == ResolveNames(p)
  {
    var abs := IsAbsolute(p);
    WalkMeaning(abs, Names(p));
    DropOpened(Joined(Start(abs), Items(Fold(abs, Names(p)))));
  }

  /** Before name `i` the output leaves room for a separator, unless it is empty and the path relative;
      after it, the output ends no later than the name does. */
  lemma RoomBefore(p: seq<byte>, i: nat, m: nat)
    requires i < NameCount(p) && m <= Room(p, i) && (i == 0 ==> m == 0)
    ensures m <= Offsets(p)[i] && (m == Offsets(p)[i] ==> m == 0 && !IsAbsolute(p))
    ensures Room(p, i + 1) == Offsets(p)[i] + |Name(p, i)| && Room(p, i) <= Room(p, i + 1)
  {
    OffsetsExact(p);
    NameBounds(p, i);
    if i > 0 {
      NameBounds(p, i - 1);
    } else if IsAbsolute(p) {
      assert !NameStart(p, 0);
    }
  }

  /** Name `i` as `doGetResolved` finds it: `len` bytes from `n`; the names up to it. */
  lemma NameAt(p: seq<byte>, i: nat, n: nat, len: nat)
    requires i < NameCount(p) && n == Offsets(p)[i] && n + len == NameEnd(p, Offsets(p), i)
    ensures n + len <= |p| && len == |Name(p, i)| && Names(p)[..i + 1] == Names(p)[..i] + [p[n..n + len]]
  {
    NameBounds(p, i);
    NamesPrefix(p, i);
  }

  /** Where name `i` lies in the path. */
  lemma NameSpan(p: seq<byte>, i: nat)
    requires i < NameCount(p)
    ensures Offsets(p)[i] + |Name(p, i)| == NameEnd(p, Offsets(p), i) <= |p|
    ensures Name(p, i) == p[Offsets(p)[i]..Offsets(p)[i] + |Name(p, i)|]
  {
    NameBounds(p, i);
  }

  /** The byte tests `doGetResolved` uses to recognise "." and "..". */
  lemma DotNames(p: seq<byte>, n: nat, len: nat)
    requires n + len <= |p|
    ensures p[n..n + len] == ONE_DOT <==> len == 1 && p[n] == DOT
    ensures p[n..n + len] == TWO_DOTS <==> len == 2 && p[n] == DOT && p[n + 1] == DOT
  {
    if len == 1 && p[n] == DOT {
      assert p[n..n + len] == [p[n]];
    }
    if len == 2 && p[n] == DOT && p[n + 1] == DOT {
      assert p[n..n + len] == [p[n], p[n + 1]];
    }
  }

  /** `if (m == 0 && path[0] == '/' || m != 0 && to[m - 1] != '/') to[m++] = '/'`, where `n` is where the
      next name starts in the path. */
  method Separate(p: seq<byte>, abs: bool, to: array<byte>, m: nat, n: nat) returns (m2: nat)
    requires abs == IsAbsolute(p) && n <= to.Length && m <= n && (m == n ==> m == 0 && !abs)
    modifies to
    ensures m2 <= n && to[..m2] == Separated(abs, old(to[..m]))
  {
    m2 := m;
    if (m == 0 && abs) || (m != 0 && to[m - 1] != SLASH) {
      to[m] := SLASH;
      m2 := m + 1;
    }
  }

  /** The body of `doGetResolved`'s loop, on the arrays: name `i` starts at `n` and is `len` bytes long. */
  method StepBytes(p: seq<byte>, abs: bool, i: nat, n: nat, len: nat, to: array<byte>, lastM: array<nat>, m: nat,
                  top: int, ghost w: Out)
    returns (m2: nat, top2: int)
    requires abs == IsAbsolute(p) && i < NameCount(p) && n == Offsets(p)[i] && len == |Name(p, i)|
    requires to.Length == |p| && m <= Room(p, i) && lastM.Length == NameCount(p) && n + len <= |p|
    requires -1 <= top && top + 1 <= i && w == Out(to[..m], lastM[..top + 1])
    requires (i == 0 ==> m == 0) && (w.marks != [] ==> w.marks[|w.marks| - 1] <= m)
    modifies to, lastM
    ensures m2 <= Room(p, i + 1) && -1 <= top2 && top2 + 1 <= i + 1
    ensures WalkStep(abs, w, p[n..n + len]) == Out(to[..m2], lastM[..top2 + 1])
  {
    NameSpan(p, i);
    RoomBefore(p, i, m);
    DotNames(p, n, len);
    if (len == 1 && p[n] == DOT) || (len == 2 && p[n] == DOT && p[n + 1] == DOT && top < 0 && abs) {
      m2, top2 := m, top;
      if m == 0 && abs {
        to[m] := SLASH;
        m2 := m + 1;
      }
    } else if len == 2 && p[n] == DOT && p[n + 1] == DOT && top >= 0 {
      assert lastM[top] == w.marks[|w.marks| - 1];
      m2 := lastM[top];
      top2 := top - 1;
      assert to[..m2] == to[..m][..m2];
      assert lastM[..top2 + 1] == lastM[..top + 1][..top];
    } else if len == 2 && p[n] == DOT && p[n + 1] == DOT {
      var m1 := Separate(p, false, to, m, n);
      m2 := Copy(p, n, len, to, m1);
      top2 := top;
    } else {
      var m1 := Separate(p, abs, to, m, n);
      lastM[top + 1] := m1;
      assert lastM[..top + 2] == w.marks + [m1];
      m2 := Copy(p, n, len, to, m1);
      top2 := top + 1;
    }
  }

  /** One name of `doGetResolved`'s loop: the arrays follow `Walk` over one more name. */
  method WalkName(p: seq<byte>, offsets: seq<nat>, abs: bool, i: nat, to: array<byte>, lastM: array<nat>, m: nat,
                  top: int)
    returns (m2: nat, top2: int)
    requires offsets == Offsets(p) && abs == IsAbsolute(p) && i < |offsets| && Walked(p, abs, i, to[..], lastM[..], m, top)
    modifies to, lastM
    ensures Walked(p, abs, i + 1, to[..], lastM[..], m2, top2)
  {
    ghost var xs := Names(p)[..i];
    WalkTop(abs, xs);
    NameBounds(p, i);
    var n := offsets[i];
    var len := if i == |offsets| - 1 then |p| - n else offsets[i + 1] - n - 1;
    assert n + len == NameEnd(p, offsets, i);
    NameAt(p, i, n, len);
    ghost var x := p[n..n + len];
    ghost var ys := Names(p)[..i + 1];
    WalkSnoc(abs, xs, x);
    m2, top2 := StepBytes(p, abs, i, n, len, to, lastM, m, top, Walk(abs, xs));
    assert Walk(abs, ys) == Out(to[..m2], lastM[..top2 + 1]);
  }

  /** The loop of `doGetResolved` after `i` names: the arrays hold `Walk` over them. */
  ghost predicate Walked(p: seq<byte>, abs: bool, i: nat, to: seq<byte>, lastM: seq<nat>, m: nat, top: int)
  {
    i <= NameCount(p) && |to| == |p| && |lastM| == NameCount(p)
    && m <= Room(p, i) && -1 <= top && top + 1 <= i
    && Walk(abs, Names(p)[..i]) == Out(to[..m], lastM[..top + 1])
  }

  /** `doGetResolved`: walk the names with an output array `to`, its length `m`, and a stack `lastM` of
      where each kept name begins; drop one trailing '/' at the end. */
  method DoGetResolved(p: seq<byte>) returns (r: seq<byte>)
    ensures r == ResolveNames(p)
  {
    var offsets := InitOffsets(p);
    var nc := |offsets|;
    var abs := |p| > 0 && p[0] == SLASH;
    var to := new byte[|p|];
    var lastM := new nat[nc];
    var top := -1;
    var m: nat := 0;
    var i := 0;
    while i < nc
      invariant i <= nc && to.Length == |p| && lastM.Length == nc && Walked(p, abs, i, to[..], lastM[..], m, top)
    {
      m, top := WalkName(p, offsets, abs, i, to, lastM, m, top);
      i := i + 1;
    }
    assert Names(p)[..nc] == Names(p);
    WalkResolves(p);
    r := TrimSlash(to, m);
  }

  /** `getResolved`: a path that is empty or holds no '.' byte is returned as it is. */
  method GetResolved(p: seq<byte>) returns (r: seq<byte>)
    ensures r == Resolved(p)
  {
    if |p| == 0 {
      return p;
    }
    var i := 0;
    while i < |p|
      invariant i <= |p| && DOT !in p[..i]
    {
      if p[i] == DOT {
        r := DoGetResolved(p);
        return;
      }
      assert p[..i + 1] == p[..i] + [p[i]];
      i := i + 1;
    }
    assert p[..i] == p;
    r := p;
  }
}
