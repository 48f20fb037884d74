/**
 * A list of directory entries packed into one block (or into an inode's i-block): the entries cover the list's
 * bytes without gaps. Adding splits the slack of the first entry that can hold the new one; deleting gives the
 * freed bytes to a neighbour.
 *
 * Two revisions share this model: `DirEntryList` (Current) and the older `BlockDirEntity` (Older). They differ in
 * how a name is looked up and in the error raised when no entry has room.
 */
module EntryList {
  import opened Wrappers
  import opened JavaInt
  import opened Bytes
  import FT = FileType
  import DE = DirEntry

  type Entry = DE.Entry

  datatype Revision = Current | Older

  /** The bytes the list covers and its entries in order. */
  datatype List = List(length: int, entries: seq<Entry>)

  /** What a directory lists: an inode under a name. */
  datatype Record = Record(inode: int32, fileType: FT.FileType, name: seq<byte>)

  /** A list after an operation (possibly half-done when an assertion failed) and the operation's outcome. */
  datatype ListStep<T> = ListStep(list: List, result: Result<T>)

  function Sum(es: seq<Entry>): int {
    if |es| == 0 then 0 else es[0].length + Sum(es[1..])
  }

  lemma {:induction false} SumConcat(a: seq<Entry>, b: seq<Entry>)
    ensures Sum(a + b) == Sum(a) + Sum(b)
  {
    if |a| == 0 {
      assert a + b == b;
    } else {
      assert (a + b)[1..] == a[1..] + b;
      SumConcat(a[1..], b);
    }
  }

  lemma {:induction false} SumSingle(e: Entry)
    ensures Sum([e]) == e.length
  {
    assert [e][1..] == [];
  }

  /** Entries with the same lengths cover the same number of bytes. */
  lemma {:induction false} SumSameLengths(a: seq<Entry>, b: seq<Entry>)
    requires |a| == |b| && forall i :: 0 <= i < |a| ==> a[i].length == b[i].length
    ensures Sum(a) == Sum(b)
  {
    if |a| > 0 {
      SumSameLengths(a[1..], b[1..]);
    }
  }

  /** `hasGaps` is false: each entry starts where the previous one ends. */
  predicate NoGaps(es: seq<Entry>) {
    forall i, j :: 0 <= i < |es| && 0 <= j < |es| && j == i + 1 ==> es[i].End() == es[j].position
  }

  /** `checkInvariant`. */
  predicate CheckInvariant(l: List) {
    |l.entries| > 0 && Sum(l.entries) == l.length && NoGaps(l.entries)
  }

  predicate EntriesValid(es: seq<Entry>) {
    forall i :: 0 <= i < |es| ==> DE.Invariant(es[i])
  }

  /** The list's own invariant and that of each of its entries. */
  predicate Valid(l: List) {
    CheckInvariant(l) && EntriesValid(l.entries)
  }

  function Checked<T>(l: List, value: T): (r: ListStep<T>)
    ensures r.list == l
    ensures r.result.Ok? <==> CheckInvariant(l)
    ensures r.result.Ok? ==> r.result.value == value
    ensures r.result.Err? ==> r.result.error == AssertionFailure
  {
    if CheckInvariant(l) then ListStep(l, Ok(value)) else ListStep(l, Err(AssertionFailure))
  }

  /** What an entry lists: its record when it has an inode, nothing otherwise. */
  function Listing(e: Entry): seq<Record> {
    if e.IsEmpty() then [] else [Record(e.inode, e.fileType, e.name)]
  }

  /** The records of the entries that have an inode, in order. */
  function Listed(es: seq<Entry>): seq<Record> {
    if |es| == 0 then [] else Listing(es[0]) + Listed(es[1..])
  }

  lemma {:induction false} ListedConcat(a: seq<Entry>, b: seq<Entry>)
    ensures Listed(a + b) == Listed(a) + Listed(b)
  {
    if |a| == 0 {
      assert a + b == b;
    } else {
      assert (a + b)[1..] == a[1..] + b;
      ListedConcat(a[1..], b);
    }
  }

  /** The constructor `DirEntryList(length)`: one empty entry over all of it (its length is cast to `short`). */
  function New(length: int32): (r: Result<List>)
    ensures r.Ok? ==> Valid(r.value) && IsEmpty(r.value) && r.value.length == length
    ensures 0 < length < 0x8000 && length % DE.ALIGNMENT == 0 ==> r.Ok?
    ensures r.Err? ==> r.error == AssertionFailure
  {
    match DE.Empty(Wrap16(length))
    case Err(err) => Err(err)
    case Ok(e) =>
      var l := List(length, [e]);
      SumSingle(e);
      if CheckInvariant(l) then Ok(l) else Err(AssertionFailure)
  }

  /** `isEmpty`: a single entry without inode. */
  predicate IsEmpty(l: List) {
    |l.entries| == 1 && l.entries[0].IsEmpty()
  }

  /** `iterator`: nothing for an empty list, otherwise every entry. */
  function Iterate(l: List): (r: seq<Entry>)
    ensures IsEmpty(l) ==> r == []
    ensures !IsEmpty(l) ==> r == l.entries
  {
    if IsEmpty(l) then [] else l.entries
  }

  /** An empty list lists nothing, and iterating any list yields exactly its named entries and perhaps empty ones. */
  lemma {:induction false} IterateListed(l: List)
    ensures IsEmpty(l) ==> Listed(l.entries) == []
    ensures Listed(Iterate(l)) == Listed(l.entries)
  {
    if IsEmpty(l) {
      assert l.entries[1..] == [];
    }
  }

  /** The lowest index whose entry satisfies `p`. */
  function FirstWhere(es: seq<Entry>, p: Entry -> bool): (r: Option<nat>)
    ensures r.Some? ==> r.value < |es| && p(es[r.value]) && forall j :: 0 <= j < r.value ==> !p(es[j])
    ensures r.None? ==> forall j :: 0 <= j < |es| ==> !p(es[j])
  {
    if |es| == 0 then None
    else if p(es[0]) then Some(0)
    else
      match FirstWhere(es[1..], p)
      case None => None
      case Some(i) => Some(i + 1)
  }

  /** Whether an entry answers to `name`: the older revision never matches an entry without inode. */
  predicate Named(rev: Revision, e: Entry, name: seq<byte>) {
    e.name == name && (rev == Older ==> !e.IsEmpty())
  }

  /**
   * `findByName`: the index of the first entry answering to the name (the stream's `findAny` is sequential);
   * NoSuchFile when none does, and in the current revision whenever the list is empty.
   */
  function FindByName(rev: Revision, l: List, name: seq<byte>): (r: Result<nat>)
    ensures r.Ok? ==> r.value < |l.entries| && Named(rev, l.entries[r.value], name)
    ensures r.Ok? ==> forall j :: 0 <= j < r.value ==> !Named(rev, l.entries[j], name)
    ensures r.Ok? ==> !(rev == Current && IsEmpty(l))
    ensures r.Err? ==> r.error == NoSuchFile
    ensures r.Err? ==> (rev == Current && IsEmpty(l)) || forall j :: 0 <= j < |l.entries| ==> !Named(rev, l.entries[j], name)
  {
    if rev == Current && IsEmpty(l) then Err(NoSuchFile)
    else
      match FirstWhere(l.entries, e => Named(rev, e, name))
      case None => Err(NoSuchFile)
      case Some(i) => Ok(i)
  }

  /** `get`. */
  function Get(rev: Revision, l: List, name: seq<byte>): (r: Result<Entry>)
    ensures r.Ok? <==> FindByName(rev, l, name).Ok?
    ensures r.Ok? ==> r.value.name == name && r.value in l.entries
    ensures r.Err? ==> r.error == NoSuchFile
  {
    match FindByName(rev, l, name)
    case Err(err) => Err(err)
    case Ok(i) => Ok(l.entries[i])
  }

  /** The error `findByAvailableSpace` raises when no entry has room. */
  function NoRoom(rev: Revision): Error {
    if rev == Current then DirEntryListOutOfMemory else IllegalState
  }

  /** `findByAvailableSpace`: the first entry whose slack holds an entry named with `n` bytes. */
  function FirstFit(es: seq<Entry>, n: nat): (r: Option<nat>)
    ensures r.Some? ==> r.value < |es| && es[r.value].CanBeSplit(n)
    ensures r.Some? ==> forall j :: 0 <= j < r.value ==> !es[j].CanBeSplit(n)
    ensures r.None? ==> forall j :: 0 <= j < |es| ==> !es[j].CanBeSplit(n)
  {
    FirstWhere(es, (e: Entry) => e.CanBeSplit(n))
  }

  /**
   * `add`: an empty list's entry takes the new name in place; otherwise the first entry whose slack holds the
   * new entry is split, and the new entry goes right after it. The entries around it are untouched and the
   * directory lists one record more.
   */
  function Add(rev: Revision, l: List, inode: int32, fileType: FT.FileType, name: seq<byte>): (r: ListStep<Entry>)
    requires Valid(l)
    ensures r.result.Ok? ==> Valid(r.list) && r.list.length == l.length
    ensures r.result.Ok? ==>
              r.result.value == DE.Entry(r.result.value.position, r.result.value.length, inode, fileType, name, true)
    ensures r.result.Ok? ==>
              multiset(Listed(r.list.entries)) == multiset(Listed(l.entries)) + multiset(Listing(r.result.value))
    ensures r.result.Ok? && IsEmpty(l) ==> r.list.entries == [r.result.value]
    ensures r.result.Ok? && !IsEmpty(l) ==>
              && FirstFit(l.entries, |name|).Some?
              && var i := FirstFit(l.entries, |name|).value;
              && |r.list.entries| == |l.entries| + 1
              && r.list.entries[i + 1] == r.result.value
              && r.list.entries[..i] == l.entries[..i] && r.list.entries[i + 2..] == l.entries[i + 1..]
    ensures IsEmpty(l) ==>
              (r.result.Ok? <==> DE.Aligned(|name|) <= l.entries[0].length && |name| <= DE.NAME_MAX_LENGTH)
    ensures r.result.Err? ==> r.result.error in {NoRoom(rev), IllegalState, DirEntryNotEnoughSpace, AssertionFailure}
    ensures !IsEmpty(l) && FirstFit(l.entries, |name|).None? ==> r == ListStep(l, Err(NoRoom(rev)))
    ensures !IsEmpty(l) && FirstFit(l.entries, |name|).Some? ==>
              (r.result.Ok? <==> !l.entries[FirstFit(l.entries, |name|).value].IsEmpty() && |name| <= DE.NAME_MAX_LENGTH)
  {
    if IsEmpty(l) then AddToEmpty(l, inode, fileType, name)
    else
      match FirstFit(l.entries, |name|)
      case None => ListStep(l, Err(NoRoom(rev)))
      case Some(i) => AddBySplit(l, i, inode, fileType, name)
  }

  /** `add` to an empty list: its one entry takes the new name in place. */
  function AddToEmpty(l: List, inode: int32, fileType: FT.FileType, name: seq<byte>): (r: ListStep<Entry>)
    requires Valid(l) && IsEmpty(l)
    ensures r.result.Ok? ==> Valid(r.list) && r.list.length == l.length && r.list.entries == [r.result.value]
    ensures r.result.Ok? ==>
              r.result.value == DE.Entry(r.result.value.position, r.result.value.length, inode, fileType, name, true)
    ensures r.result.Ok? ==> Listed(r.list.entries) == Listed(l.entries) + Listing(r.result.value)
    ensures r.result.Ok? <==> DE.Aligned(|name|) <= l.entries[0].length && |name| <= DE.NAME_MAX_LENGTH
    ensures r.result.Err? ==> r.result.error in {IllegalState, DirEntryNotEnoughSpace, AssertionFailure}
  {
    var es := l.entries;
    var s := es[0].Init(inode, fileType, name);
    var l1 := l.(entries := [s.entry]);
    assert es == [es[0]];
    SumSingle(es[0]);
    SumSingle(s.entry);
    if s.result.Err? then ListStep(l1, Err(s.result.error))
    else
      ListedSingle(es[0]);
      ListedSingle(s.entry);
      Checked(l1, s.entry)
  }

  /** `add` into the slack of entry `i`: it is split and the new entry goes right after it. */
  function AddBySplit(l: List, i: nat, inode: int32, fileType: FT.FileType, name: seq<byte>): (r: ListStep<Entry>)
    requires Valid(l) && !IsEmpty(l) && i < |l.entries| && l.entries[i].CanBeSplit(|name|)
    ensures r.result.Ok? ==> Valid(r.list) && r.list.length == l.length
    ensures r.result.Ok? ==>
              r.result.value == DE.Entry(r.result.value.position, r.result.value.length, inode, fileType, name, true)
    ensures r.result.Ok? ==>
              multiset(Listed(r.list.entries)) == multiset(Listed(l.entries)) + multiset(Listing(r.result.value))
    ensures r.result.Ok? ==>
              && |r.list.entries| == |l.entries| + 1
              && r.list.entries[i + 1] == r.result.value
              && r.list.entries[..i] == l.entries[..i] && r.list.entries[i + 2..] == l.entries[i + 1..]
    ensures r.result.Ok? <==> !l.entries[i].IsEmpty() && |name| <= DE.NAME_MAX_LENGTH
    ensures r.result.Err? ==> r.result.error in {IllegalState, AssertionFailure}
  {
    var s := l.entries[i].Split(inode, fileType, name);
    if s.result.Err? then ListStep(l.(entries := l.entries[i := s.entry]), Err(s.result.error))
    else Insert(l, i, s.entry, s.result.value)
  }

  /** Entry `i` replaced by `a`, which keeps its record, followed by the new entry `b` over the same bytes. */
  function Insert(l: List, i: nat, a: Entry, b: Entry): (r: ListStep<Entry>)
    requires Valid(l) && i < |l.entries| && DE.Invariant(a) && DE.Invariant(b)
    requires a.position == l.entries[i].position && a.End() == b.position && b.End() == l.entries[i].End()
    requires a.inode == l.entries[i].inode && a.fileType == l.entries[i].fileType && a.name == l.entries[i].name
    ensures r.result == Ok(b) && Valid(r.list) && r.list.length == l.length
    ensures multiset(Listed(r.list.entries)) == multiset(Listed(l.entries)) + multiset(Listing(b))
    ensures |r.list.entries| == |l.entries| + 1 && r.list.entries[i + 1] == b
    ensures r.list.entries[..i] == l.entries[..i] && r.list.entries[i + 2..] == l.entries[i + 1..]
  {
    var es := l.entries;
    var es1 := es[..i] + [a, b] + es[i + 1..];
    SplitKeepsInvariant(es, i, a, b);
    SplitListed(es, i, a, b);
    Checked(l.(entries := es1), b)
  }

  /** Replacing entries `i` to `j` (exclusive) by `mid` changes the bytes covered by the difference. */
  lemma {:induction false} SumReplace(es: seq<Entry>, i: nat, j: nat, mid: seq<Entry>)
    requires i <= j <= |es|
    ensures Sum(es[..i] + mid + es[j..]) + Sum(es[i..j]) == Sum(es) + Sum(mid)
  {
    SumConcat(es[..i] + mid, es[j..]);
    SumConcat(es[..i], mid);
    assert es == es[..i] + es[i..j] + es[j..];
    SumConcat(es[..i] + es[i..j], es[j..]);
    SumConcat(es[..i], es[i..j]);
  }

  lemma {:induction false} SumPair(a: Entry, b: Entry)
    ensures Sum([a, b]) == a.length + b.length
  {
    assert [a, b][1..] == [b];
    SumSingle(b);
  }

  lemma {:induction false} SumOne(es: seq<Entry>, i: nat)
    requires i < |es|
    ensures Sum(es[i..i + 1]) == es[i].length
  {
    assert es[i..i + 1] == [es[i]];
    SumSingle(es[i]);
  }

  lemma {:induction false} SumTwo(es: seq<Entry>, i: nat)
    requires i + 1 < |es|
    ensures Sum(es[i..i + 2]) == es[i].length + es[i + 1].length
  {
    assert es[i..i + 2] == [es[i], es[i + 1]];
    SumPair(es[i], es[i + 1]);
  }

  /** Replacing entries `i` to `j` (exclusive) by valid entries keeps every entry valid. */
  lemma {:induction false} ValidReplace(es: seq<Entry>, i: nat, j: nat, mid: seq<Entry>)
    requires i <= j <= |es| && EntriesValid(es) && EntriesValid(mid)
    ensures EntriesValid(es[..i] + mid + es[j..])
  {
    var es1 := es[..i] + mid + es[j..];
    forall k | 0 <= k < |es1| ensures DE.Invariant(es1[k]) {
      if k < i {
        assert es1[k] == es[k];
      } else if k < i + |mid| {
        assert es1[k] == mid[k - i];
      } else {
        assert es1[k] == es[k - i - |mid| + j];
      }
    }
  }

  /** Replacing entries `i` to `j` (exclusive) by gapless entries over the same bytes leaves no gap. */
  lemma {:induction false} NoGapsReplace(es: seq<Entry>, i: nat, j: nat, mid: seq<Entry>)
    requires i < j <= |es| && NoGaps(es) && NoGaps(mid) && |mid| > 0
    requires mid[0].position == es[i].position && mid[|mid| - 1].End() == es[j - 1].End()
    ensures NoGaps(es[..i] + mid + es[j..])
  {
    var es1 := es[..i] + mid + es[j..];
    var m := |mid|;
    forall k, k1 | 0 <= k < |es1| && 0 <= k1 < |es1| && k1 == k + 1
      ensures es1[k].End() == es1[k1].position
    {
      if k1 < i {
        assert es1[k] == es[k] && es1[k1] == es[k1];
      } else if k1 == i {
        assert es1[k] == es[k] && es1[k1] == mid[0];
      } else if k1 < i + m {
        assert es1[k] == mid[k - i] && es1[k1] == mid[k1 - i];
      } else if k1 == i + m {
        assert es1[k] == mid[m - 1] && es1[k1] == es[j];
        assert es[j - 1].End() == es[j].position;
      } else {
        assert es1[k] == es[k - i - m + j] && es1[k1] == es[k1 - i - m + j];
      }
    }
  }

  /** Replacing an entry by two adjacent entries covering the same bytes keeps the list's invariant. */
  lemma {:induction false} SplitKeepsInvariant(es: seq<Entry>, i: nat, a: Entry, b: Entry)
    requires i < |es| && NoGaps(es) && EntriesValid(es)
    requires a.position == es[i].position && a.End() == b.position && b.End() == es[i].End()
    requires DE.Invariant(a) && DE.Invariant(b)
    ensures var es1 := es[..i] + [a, b] + es[i + 1..];
            && Sum(es1) == Sum(es) && NoGaps(es1) && EntriesValid(es1)
            && |es1| == |es| + 1 && es1[..i] == es[..i] && es1[i + 2..] == es[i + 1..]
  {
    var es1 := es[..i] + [a, b] + es[i + 1..];
    SumReplace(es, i, i + 1, [a, b]);
    SumOne(es, i);
    SumPair(a, b);
    ValidReplace(es, i, i + 1, [a, b]);
    NoGapsReplace(es, i, i + 1, [a, b]);
    assert es1[..i] == es[..i];
    assert es1[i + 2..] == es[i + 1..];
  }

  /** The records listed around entry `i`, with `a` standing in for it. */
  lemma {:induction false} ListedAround(es: seq<Entry>, i: nat, a: Entry)
    requires i < |es| && a.inode == es[i].inode && a.fileType == es[i].fileType && a.name == es[i].name
    ensures Listed(es) == Listed(es[..i]) + Listing(a) + Listed(es[i + 1..])
  {
    ListedSplit(es, i);
    ListedDrop(es, i);
  }

  /** A list's records are those of its first `i` entries followed by those of the rest. */
  lemma {:induction false} ListedSplit(es: seq<Entry>, i: nat)
    requires i <= |es|
    ensures Listed(es) == Listed(es[..i]) + Listed(es[i..])
  {
    assert es[..i] + es[i..] == es;
    ListedConcat(es[..i], es[i..]);
  }

  /** The records from entry `i` on are entry `i`'s followed by those after it. */
  lemma {:induction false} ListedDrop(es: seq<Entry>, i: nat)
    requires i < |es|
    ensures Listed(es[i..]) == Listing(es[i]) + Listed(es[i + 1..])
  {
    assert es[i..][1..] == es[i + 1..];
  }

  /** A list of one entry lists that entry's record. */
  lemma {:induction false} ListedSingle(e: Entry)
    ensures Listed([e]) == Listing(e)
  {
    assert [e][1..] == [];
  }

  /** The records listed when entry `i` is replaced by `a` and `b`. */
  lemma {:induction false} ListedAroundPair(es: seq<Entry>, i: nat, a: Entry, b: Entry)
    requires i < |es|
    ensures Listed(es[..i] + [a, b] + es[i + 1..]) == Listed(es[..i]) + Listing(a) + Listing(b) + Listed(es[i + 1..])
  {
    var front, back := es[..i], es[i + 1..];
    var ab := [a, b];
    assert ab == [a] + [b];
    ListedConcat([a], [b]);
    ListedSingle(a);
    ListedSingle(b);
    ListedConcat(front, ab);
    ListedConcat(front + ab, back);
  }

  lemma {:induction false} MultisetMiddle(x: seq<Record>, y: seq<Record>, z: seq<Record>, w: seq<Record>)
    ensures multiset(x + y + z + w) == multiset(x + y + w) + multiset(z)
  {
  }

  /** Splitting entry `i` into `a`, which keeps its record, and `b` lists `b`'s record in addition. */
  lemma {:induction false} SplitListed(es: seq<Entry>, i: nat, a: Entry, b: Entry)
    requires i < |es| && a.inode == es[i].inode && a.fileType == es[i].fileType && a.name == es[i].name
    ensures multiset(Listed(es[..i] + [a, b] + es[i + 1..])) == multiset(Listed(es)) + multiset(Listing(b))
  {
    ListedAroundPair(es, i, a, b);
    ListedAround(es, i, a);
    MultisetMiddle(Listed(es[..i]), Listing(a), Listing(b), Listed(es[i + 1..]));
  }

  /** Two entries of a list cover no more than the whole list. */
  lemma {:induction false} AdjacentWithin(es: seq<Entry>, i: nat)
    requires i + 1 < |es| && EntriesValid(es)
    ensures es[i].length + es[i + 1].length <= Sum(es)
  {
    SumReplace(es, i, i + 2, []);
    SumTwo(es, i);
    ValidReplace(es, i, i + 2, []);
    NonNegative(es[..i] + [] + es[i + 2..]);
  }

  lemma {:induction false} NonNegative(es: seq<Entry>)
    requires EntriesValid(es)
    ensures Sum(es) >= 0
  {
    if |es| > 0 {
      assert EntriesValid(es[1..]) by {
        forall k | 0 <= k < |es[1..]| ensures DE.Invariant(es[1..][k]) {
          assert es[1..][k] == es[k + 1];
        }
      }
      NonNegative(es[1..]);
    }
  }

  /** Entry `i` giving its bytes to entry `i - 1` (which becomes `g`) keeps the list's invariant and lists every
      record but entry `i`'s. */
  lemma {:induction false} MergeIntoPrevious(es: seq<Entry>, i: nat, g: Entry)
    requires 0 < i < |es| && NoGaps(es) && EntriesValid(es)
    requires g.position == es[i - 1].position && g.length == es[i - 1].length + es[i].length && DE.Invariant(g)
    requires g.inode == es[i - 1].inode && g.fileType == es[i - 1].fileType && g.name == es[i - 1].name
    ensures var es1 := es[..i - 1] + [g] + es[i + 1..];
            && Sum(es1) == Sum(es) && NoGaps(es1) && EntriesValid(es1) && |es1| == |es| - 1
            && Listed(es1) == Listed(es[..i] + es[i + 1..])
  {
    SumReplace(es, i - 1, i + 1, [g]);
    SumTwo(es, i - 1);
    SumSingle(g);
    ValidReplace(es, i - 1, i + 1, [g]);
    assert es[i - 1].End() == es[i].position;
    NoGapsReplace(es, i - 1, i + 1, [g]);
    MergedListed(es, i - 1, g);
  }

  /** Entries `i` and `i + 1` merged into `g`, which keeps entry `i`'s record, list what the list lists without
      entry `i + 1`. */
  lemma {:induction false} MergedListed(es: seq<Entry>, i: nat, g: Entry)
    requires i + 1 < |es| && g.inode == es[i].inode && g.fileType == es[i].fileType && g.name == es[i].name
    ensures Listed(es[..i] + [g] + es[i + 2..]) == Listed(es[..i + 1] + es[i + 2..])
  {
    var rest := es[..i + 1] + es[i + 2..];
    assert rest[i] == es[i];
    ListedAround(rest, i, g);
    assert rest[..i] == es[..i] && rest[i + 1..] == es[i + 2..];
    ListedConcat(es[..i] + [g], es[i + 2..]);
    ListedConcat(es[..i], [g]);
    ListedSingle(g);
  }

  /** Entry 0 giving its bytes to entry 1 (which becomes `g`, growing backwards) keeps the list's invariant and
      lists every record but entry 0's. */
  lemma {:induction false} MergeIntoNext(es: seq<Entry>, g: Entry)
    requires 1 < |es| && NoGaps(es) && EntriesValid(es)
    requires g.position == es[0].position && g.length == es[0].length + es[1].length && DE.Invariant(g)
    requires g.inode == es[1].inode && g.fileType == es[1].fileType && g.name == es[1].name
    ensures var es1 := [g] + es[2..];
            && Sum(es1) == Sum(es) && NoGaps(es1) && EntriesValid(es1) && |es1| == |es| - 1
            && Listed(es1) == Listed(es[1..])
  {
    assert [g] + es[2..] == es[..0] + [g] + es[2..];
    SumReplace(es, 0, 2, [g]);
    SumTwo(es, 0);
    SumSingle(g);
    ValidReplace(es, 0, 2, [g]);
    assert es[0].End() == es[1].position;
    NoGapsReplace(es, 0, 2, [g]);
    ListedAround(es[1..], 0, g);
    assert es[1..][1..] == es[2..];
    ListedConcat([g], es[2..]);
    ListedSingle(g);
  }

  /**
   * The entries after entry `i` is deleted from a list of two or more: entry `i - 1` takes over its bytes, or,
   * for the first entry, entry 1 takes them over and starts where entry 0 started. The entry that grows is
   * marked dirty and its `short` length is the sum of the two; every other entry is unchanged.
   */
  function Merged(es: seq<Entry>, i: nat): (r: seq<Entry>)
    requires 1 < |es| && i < |es|
    ensures |r| == |es| - 1
    ensures 0 < i ==> r[..i - 1] == es[..i - 1] && r[i..] == es[i + 1..]
    ensures 0 < i ==> r[i - 1] == es[i - 1].(length := Wrap16(es[i - 1].length + es[i].length), dirty := true)
    ensures i == 0 ==> r[1..] == es[2..]
    ensures i == 0 ==> r[0] == es[1].(position := es[0].position, length := Wrap16(es[0].length + es[1].length), dirty := true)
  {
    if 0 < i then es[..i - 1] + [es[i - 1].(length := Wrap16(es[i - 1].length + es[i].length), dirty := true)] + es[i + 1..]
    else [es[1].(position := es[0].position, length := Wrap16(es[0].length + es[1].length), dirty := true)] + es[2..]
  }

  /**
   * `delete(index)`: a lone entry is marked empty in place; otherwise the previous entry (or, for the first
   * entry, the next one growing backwards) takes over its bytes and the entry is removed.
   */
  function DeleteAt(l: List, index: int): (r: ListStep<()>)
    requires Valid(l)
    ensures r.result == Err(IndexOutOfBounds) <==> !(0 <= index < |l.entries|)
    ensures r.result == Err(IndexOutOfBounds) ==> r.list == l
    ensures r.result.Ok? ==> Valid(r.list) && r.list.length == l.length
    ensures r.result.Ok? ==> Listed(r.list.entries) == Listed(l.entries[..index] + l.entries[index + 1..])
    ensures r.result.Ok? && |l.entries| == 1 ==> IsEmpty(r.list)
    ensures r.result.Ok? && |l.entries| > 1 ==> |r.list.entries| == |l.entries| - 1
    ensures r.result.Ok? && |l.entries| > 1 ==> r.list == l.(entries := Merged(l.entries, index))
    ensures r.result.Ok? && |l.entries| == 1 ==> r.list == l.(entries := [l.entries[0].Delete()])
    ensures 0 <= index < |l.entries| && r.result.Err? ==> r.result.error == AssertionFailure
    ensures 0 <= index < |l.entries| && l.length < 0x8000 ==> r.result.Ok?
  {
    if !(0 <= index < |l.entries|) then ListStep(l, Err(IndexOutOfBounds))
    else if |l.entries| == 1 then DeleteOnly(l)
    else if index > 0 then GiveToPrevious(l, index)
    else
      assert l.entries[..0] + l.entries[1..] == l.entries[1..];
      GiveToNext(l)
  }

  /** The lone entry of a list is marked empty. */
  function DeleteOnly(l: List): (r: ListStep<()>)
    requires Valid(l) && |l.entries| == 1
    ensures r.result.Ok? && Valid(r.list) && r.list.length == l.length && IsEmpty(r.list)
    ensures Listed(r.list.entries) == []
  {
    var d := l.entries[0].Delete();
    assert l.entries == [l.entries[0]];
    SumSingle(l.entries[0]);
    SumSingle(d);
    ListedSingle(d);
    Checked(l.(entries := [d]), ())
  }

  /** Entry `index` gives its bytes to the entry before it and leaves the list. */
  function GiveToPrevious(l: List, index: nat): (r: ListStep<()>)
    requires Valid(l) && 0 < index < |l.entries|
    ensures r.result.Ok? ==> Valid(r.list) && r.list.length == l.length && |r.list.entries| == |l.entries| - 1
    ensures r.result.Ok? ==> Listed(r.list.entries) == Listed(l.entries[..index] + l.entries[index + 1..])
    ensures r.result.Ok? ==> r.list == l.(entries := Merged(l.entries, index))
    ensures r.result.Ok? ==> r.list.entries[index - 1].length == l.entries[index - 1].length + l.entries[index].length
    ensures r.result.Err? ==> r.result.error == AssertionFailure
    ensures l.length < 0x8000 ==> r.result.Ok?
  {
    var es := l.entries;
    AdjacentWithin(es, index - 1);
    var s := es[index - 1].GrowAfter(es[index].length);
    DE.GrowExact(es[index - 1], es[index].length);
    assert l.length < 0x8000 ==> s.result.Ok? by {
      if l.length < 0x8000 {
        DE.GrowSucceeds(es[index - 1], es[index].length);
      }
    }
    if s.result.Err? then ListStep(l.(entries := es[index - 1 := s.entry]), Err(s.result.error))
    else
      MergeIntoPrevious(es, index, s.entry);
      Checked(l.(entries := es[..index - 1] + [s.entry] + es[index + 1..]), ())
  }

  /** The first entry gives its bytes to the next one, which grows backwards, and leaves the list. */
  function GiveToNext(l: List): (r: ListStep<()>)
    requires Valid(l) && 1 < |l.entries|
    ensures r.result.Ok? ==> Valid(r.list) && r.list.length == l.length && |r.list.entries| == |l.entries| - 1
    ensures r.result.Ok? ==> Listed(r.list.entries) == Listed(l.entries[1..])
    ensures r.result.Ok? ==> r.list == l.(entries := Merged(l.entries, 0))
    ensures r.result.Ok? ==> r.list.entries[0].length == l.entries[0].length + l.entries[1].length
    ensures r.result.Err? ==> r.result.error == AssertionFailure
    ensures l.length < 0x8000 ==> r.result.Ok?
  {
    var es := l.entries;
    AdjacentWithin(es, 0);
    var s := es[1].GrowBefore(es[0].length);
    DE.GrowExact(es[1], es[0].length);
    assert l.length < 0x8000 ==> s.result.Ok? by {
      if l.length < 0x8000 {
        DE.GrowSucceeds(es[1], es[0].length);
      }
    }
    if s.result.Err? then ListStep(l.(entries := es[1 := s.entry]), Err(s.result.error))
    else
      MergeIntoNext(es, s.entry);
      Checked(l.(entries := [s.entry] + es[2..]), ())
  }

  /** Taking entry `i` out of a list takes its record out of what the list lists. */
  lemma {:induction false} ListedRemove(es: seq<Entry>, i: nat)
    requires i < |es|
    ensures multiset(Listed(es)) == multiset(Listed(es[..i] + es[i + 1..])) + multiset(Listing(es[i]))
  {
    ListedAround(es, i, es[i]);
    ListedConcat(es[..i], es[i + 1..]);
    var x, y, z := Listed(es[..i]), Listing(es[i]), Listed(es[i + 1..]);
    assert multiset(x + y + z) == multiset(x + z) + multiset(y);
  }

  /** Replacing entry `i` by `a` trades its record for `a`'s. */
  lemma {:induction false} ListedReplace(es: seq<Entry>, i: nat, a: Entry)
    requires i < |es|
    ensures multiset(Listed(es[i := a])) + multiset(Listing(es[i])) == multiset(Listed(es)) + multiset(Listing(a))
  {
    var es1 := es[i := a];
    assert es1[..i] == es[..i] && es1[i + 1..] == es[i + 1..];
    ListedAround(es1, i, a);
    ListedAround(es, i, es[i]);
    var x, y, z, w := Listed(es[..i]), Listing(a), Listed(es[i + 1..]), Listing(es[i]);
    assert multiset(x + y + z) + multiset(w) == multiset(x + w + z) + multiset(y);
  }

  /** Changing one entry but not its length or position keeps the list's invariant. */
  lemma {:induction false} SameExtent(es: seq<Entry>, i: nat, a: Entry)
    requires i < |es| && NoGaps(es) && EntriesValid(es) && DE.Invariant(a)
    requires a.position == es[i].position && a.length == es[i].length
    ensures Sum(es[i := a]) == Sum(es) && NoGaps(es[i := a]) && EntriesValid(es[i := a])
  {
    SumSameLengths(es[i := a], es);
  }

  /** `delete(name)`: the entry the name finds is deleted; the list keeps every other record. */
  function Delete(rev: Revision, l: List, name: seq<byte>): (r: ListStep<()>)
    requires Valid(l)
    ensures FindByName(rev, l, name).Err? ==> r == ListStep(l, Err(NoSuchFile))
    ensures FindByName(rev, l, name).Ok? ==>
              var e := l.entries[FindByName(rev, l, name).value];
              && (r.result.Ok? ==>
                    && Valid(r.list) && r.list.length == l.length
                    && multiset(Listed(r.list.entries)) + multiset(Listing(e)) == multiset(Listed(l.entries)))
              && (r.result.Err? ==> r.result.error == AssertionFailure)
              && (l.length < 0x8000 ==> r.result.Ok?)
  {
    match FindByName(rev, l, name)
    case Err(err) => ListStep(l, Err(err))
    case Ok(i) =>
      var d := DeleteAt(l, i);
      ListedRemove(l.entries, i);
      // The current revision checks the invariant once more; `delete(index)` has already checked it.
      if d.result.Err? || rev == Older then d else Checked(d.list, ())
  }

  /**
   * `rename`, as the source intends it: a name that fits the entry's record replaces the old one in place;
   * otherwise the entry is deleted and added again under the new name, and when that fails the list is left as
   * it was. Any failure leaves the list untouched.
   */
  function Rename(rev: Revision, l: List, name: seq<byte>, newName: seq<byte>): (r: ListStep<()>)
    requires Valid(l)
    ensures r.result.Err? ==> r.list == l
    ensures r.result == Err(NoSuchFile) <==> FindByName(rev, l, name).Err?
    ensures FindByName(rev, l, name).Ok? ==> r == RenameAt(rev, l, FindByName(rev, l, name).value, newName)
  {
    match FindByName(rev, l, name)
    case Err(err) => ListStep(l, Err(err))
    case Ok(i) => RenameAt(rev, l, i, newName)
  }

  /** `rename` of the entry at index `i`. */
  function RenameAt(rev: Revision, l: List, i: nat, newName: seq<byte>): (r: ListStep<()>)
    requires Valid(l) && i < |l.entries|
    ensures r.result.Err? ==> r.list == l && r.result.error != NoSuchFile
    ensures r.result == Err(IllegalArgument) <==> |newName| > DE.NAME_MAX_LENGTH
    ensures var e := l.entries[i];
            |newName| <= DE.NAME_MAX_LENGTH && DE.ENTRY_MIN_LENGTH + |newName| <= e.length ==>
              r == ListStep(l.(entries := l.entries[i := e.(name := newName, dirty := true)]), Ok(()))
    ensures r.result.Ok? ==>
              && Valid(r.list) && r.list.length == l.length
              && multiset(Listed(r.list.entries)) + multiset(Listing(l.entries[i]))
                 == multiset(Listed(l.entries)) + multiset(Listing(l.entries[i].(name := newName)))
  {
    var e := l.entries[i];
    var s := e.Rename(newName);
    if s.result.Err? then ListStep(l, Err(s.result.error))
    else if s.result.value then
      SameExtent(l.entries, i, s.entry);
      ListedReplace(l.entries, i, s.entry);
      ListStep(l.(entries := l.entries[i := s.entry]), Ok(()))
    else Relocate(rev, l, i, newName)
  }

  /** The relocation of `rename`: the entry is deleted and added again under the new name; on failure the list
      is left as it was. */
  function Relocate(rev: Revision, l: List, i: nat, newName: seq<byte>): (r: ListStep<()>)
    requires Valid(l) && i < |l.entries|
    ensures r.result.Err? ==>
              r.list == l && r.result.error in {NoRoom(rev), IllegalState, DirEntryNotEnoughSpace, AssertionFailure}
    ensures r.result.Ok? ==>
              && Valid(r.list) && r.list.length == l.length
              && multiset(Listed(r.list.entries)) + multiset(Listing(l.entries[i]))
                 == multiset(Listed(l.entries)) + multiset(Listing(l.entries[i].(name := newName)))
  {
    var e := l.entries[i];
    var d := DeleteAt(l, i);
    if d.result.Err? then ListStep(l, Err(d.result.error))
    else
      var a := Add(rev, d.list, e.inode, e.fileType, newName);
      if a.result.Err? then ListStep(l, Err(a.result.error))
      else
        ListedRemove(l.entries, i);
        if rev == Current then Checked(a.list, ()) else ListStep(a.list, Ok(()))
  }

  /**
   * `rename` as written: the relocation deletes the entry first, so when adding it again fails the entry is gone
   * and the list keeps the half-done state; in a list of one entry the deleted entry's inode is already NULL when
   * it is added again. Whenever it succeeds it agrees with `Rename`.
   */
  function RenameAsWritten(rev: Revision, l: List, name: seq<byte>, newName: seq<byte>): (r: ListStep<()>)
    requires Valid(l)
    ensures r.result.Ok? ==> r == Rename(rev, l, name, newName)
    ensures r.result == Err(NoSuchFile) <==> FindByName(rev, l, name).Err?
  {
    match FindByName(rev, l, name)
    case Err(err) => ListStep(l, Err(err))
    case Ok(i) =>
      var e := l.entries[i];
      var s := e.Rename(newName);
      if s.result.Err? then ListStep(l, Err(s.result.error))
      else if s.result.value then ListStep(l.(entries := l.entries[i := s.entry]), Ok(()))
      else
        var d := DeleteAt(l, i);
        if d.result.Err? then d
        else
          var moved := if |l.entries| == 1 then e.Delete() else e;
          var a := Add(rev, d.list, moved.inode, moved.fileType, newName);
          if a.result.Err? then ListStep(a.list, Err(a.result.error))
          else if rev == Current then Checked(a.list, ()) else ListStep(a.list, Ok(()))
  }

  /**
   * Renaming the first of two 16-byte entries to a 9-byte name relocates it: the second entry takes over the
   * whole list, no entry has room for the new name, and as written the renamed file is no longer listed, while
   * `Rename` reports the same error with the list untouched.
   */
  lemma {:induction false} RenameAsWrittenLosesEntry()
    ensures var a := DE.Entry(0, 16, 5, FT.RegularFile, [97], false);
            var b := DE.Entry(16, 16, 6, FT.RegularFile, [98], false);
            var l := List(32, [a, b]);
            var newName := seq(9, _ => 99);
            && Valid(l)
            && RenameAsWritten(Current, l, [97], newName).result == Err(DirEntryListOutOfMemory)
            && Listed(RenameAsWritten(Current, l, [97], newName).list.entries) == [Record(6, FT.RegularFile, [98])]
            && Rename(Current, l, [97], newName) == ListStep(l, Err(DirEntryListOutOfMemory))
  {
    var a := DE.Entry(0, 16, 5, FT.RegularFile, [97], false);
    var b := DE.Entry(16, 16, 6, FT.RegularFile, [98], false);
    var l := List(32, [a, b]);
    var newName := seq(9, _ => 99);
    DE.AlignedExamples();
    assert DE.Aligned(1) == 16 && DE.Aligned(9) == 24;
    SumSingle(b);
    assert Sum([a, b]) == 32 by { assert [a, b][1..] == [b]; }
    assert Valid(l);
    assert FindByName(Current, l, [97]) == Ok(0);
    var g := b.(position := 0, length := 32, dirty := true);
    assert DeleteAt(l, 0) == ListStep(List(32, [g]), Ok(()));
    assert !g.CanBeSplit(9);
    assert FirstFit([g], 9) == None;
    ListedSingle(g);
  }

  /**
   * `resize`: a list only grows, and its last entry takes the new bytes (a `short` addition; the new length is
   * recorded only when that succeeds).
   */
  function Resize(l: List, newLength: int32): (r: ListStep<()>)
    requires Valid(l)
    ensures r.result == Err(IllegalArgument) <==> newLength < l.length
    ensures r.result == Err(IllegalArgument) ==> r.list == l
    ensures r.result.Ok? ==>
              r.list.length == newLength && |r.list.entries| == |l.entries| && Listed(r.list.entries) == Listed(l.entries)
    ensures r.result.Ok? && newLength < 0x8000 ==> Valid(r.list)
    ensures l.length <= newLength < 0x8000 ==> (r.result.Ok? <==> (newLength - l.length) % DE.ALIGNMENT == 0)
  {
    if newLength < l.length then ListStep(l, Err(IllegalArgument))
    else
      var k := |l.entries| - 1;
      var s := l.entries[k].GrowAfter(Wrap16(newLength - l.length));
      GrowLastBy(l, newLength);
      if s.result.Err? then ListStep(l.(entries := l.entries[k := s.entry]), Err(s.result.error))
      else ListStep(List(newLength, l.entries[k := s.entry]), Ok(()))
  }

  /** The last entry growing by the `short` difference to `newLength`: when it keeps its invariant, the list keeps
      its records and has no gap, and covers `newLength` bytes when that is a `short`; it keeps its invariant
      exactly when the growth is aligned. */
  lemma {:induction false} GrowLastBy(l: List, newLength: int32)
    requires Valid(l) && l.length <= newLength
    ensures var k := |l.entries| - 1;
            var s := l.entries[k].GrowAfter(Wrap16(newLength - l.length));
            && (s.result.Ok? ==>
                  var es1 := l.entries[k := s.entry];
                  && |es1| == |l.entries| && Listed(es1) == Listed(l.entries) && NoGaps(es1) && EntriesValid(es1)
                  && (newLength < 0x8000 ==> Sum(es1) == newLength))
            && (newLength < 0x8000 ==> (s.result.Ok? <==> (newLength - l.length) % DE.ALIGNMENT == 0))
  {
    var k := |l.entries| - 1;
    LastWithin(l.entries);
    var s := l.entries[k].GrowAfter(Wrap16(newLength - l.length));
    if newLength < 0x8000 {
      DE.GrowSucceeds(l.entries[k], newLength - l.length);
    }
    if s.result.Ok? {
      GrowLast(l.entries, s.entry, s.entry.length - l.entries[k].length);
    }
  }

  /** Where reading has got to: `acc` covers the buffer's first `at` bytes without gaps. */
  predicate ReadSoFar(acc: seq<Entry>, at: int) {
    Sum(acc) == at && NoGaps(acc) && EntriesValid(acc) && (|acc| > 0 ==> acc[|acc| - 1].End() == at)
  }

  /** Aligned entries cover an aligned number of bytes. */
  lemma {:induction false} SumAligned(es: seq<Entry>)
    requires EntriesValid(es)
    ensures Sum(es) % DE.ALIGNMENT == 0 && Sum(es) >= 0
  {
    if |es| > 0 {
      ValidSuffix(es, 1);
      SumAligned(es[1..]);
      AlignedAdd(es[0].length, Sum(es[1..]));
    }
  }

  lemma {:induction false} AlignedAdd(a: int, b: int)
    requires a % DE.ALIGNMENT == 0 && b % DE.ALIGNMENT == 0
    ensures (a + b) % DE.ALIGNMENT == 0
  {
    assert a == DE.ALIGNMENT * (a / DE.ALIGNMENT) && b == DE.ALIGNMENT * (b / DE.ALIGNMENT);
    assert a + b == DE.ALIGNMENT * (a / DE.ALIGNMENT + b / DE.ALIGNMENT);
  }

  /** The last entry lies within the bytes the entries cover, and they cover an aligned number of them. */
  lemma {:induction false} LastWithin(es: seq<Entry>)
    requires |es| > 0 && EntriesValid(es)
    ensures 0 <= es[|es| - 1].length <= Sum(es) && Sum(es) % DE.ALIGNMENT == 0
  {
    var k := |es| - 1;
    assert es == es[..k] + [es[k]];
    SumConcat(es[..k], [es[k]]);
    SumSingle(es[k]);
    NonNegative(es[..k]);
    SumAligned(es);
  }

  /** The last entry growing by `d` bytes into `g` covers `d` more bytes and lists the same records. */
  lemma {:induction false} GrowLast(es: seq<Entry>, g: Entry, d: int)
    requires |es| > 0 && NoGaps(es) && EntriesValid(es) && DE.Invariant(g)
    requires var last := es[|es| - 1];
             g.position == last.position && g.length == last.length + d
             && g.inode == last.inode && g.fileType == last.fileType && g.name == last.name
    ensures var es1 := es[|es| - 1 := g];
            && Sum(es1) == Sum(es) + d && NoGaps(es1) && EntriesValid(es1) && Listed(es1) == Listed(es)
            && es1[|es1| - 1].End() == es[|es| - 1].End() + d
  {
    var k := |es| - 1;
    var es1 := es[k := g];
    assert es1 == es[..k] + [g] && es == es[..k] + [es[k]];
    SumConcat(es[..k], [es[k]]);
    SumConcat(es[..k], [g]);
    SumSingle(es[k]);
    SumSingle(g);
    ListedAround(es1, k, g);
    ListedAround(es, k, g);
  }

  /**
   * The catch block of `read`: the `n - at` bytes left after an entry that failed to read become a new empty
   * entry when nothing was read, and go to the last entry otherwise (both take the count as a `short`).
   */
  function Recover(acc: seq<Entry>, at: int, n: int): Result<seq<Entry>> {
    if |acc| == 0 then
      match DE.Empty(Wrap16(n - at))
      case Err(err) => Err(err)
      case Ok(e) => Ok([e])
    else
      var k := |acc| - 1;
      var s := acc[k].GrowAfter(Wrap16(n - at));
      if s.result.Err? then Err(s.result.error) else Ok(acc[k := s.entry])
  }

  /** Recovery fails only on an assertion; it keeps what was read and covers the rest of the buffer, and it
      succeeds whenever the buffer's length is an aligned `short`. */
  lemma {:induction false} RecoverValid(acc: seq<Entry>, at: int, n: int)
    requires ReadSoFar(acc, at) && at < n
    ensures var r := Recover(acc, at, n);
            && (r.Err? ==> r.error == AssertionFailure)
            && (r.Ok? ==> EntriesValid(r.value) && Listed(r.value) == Listed(acc) && |r.value| > 0)
            && (r.Ok? && n < 0x8000 ==> ReadSoFar(r.value, n))
            && (n < 0x8000 && n % DE.ALIGNMENT == 0 ==> r.Ok?)
  {
    if |acc| == 0 {
      match DE.Empty(Wrap16(n - at))
      case Err(err) =>
      case Ok(e) =>
        SumSingle(e);
        ListedSingle(e);
    } else {
      RecoverLast(acc, at, n);
    }
  }

  /** `RecoverValid` when something was read: the last entry grows over the rest. */
  lemma {:induction false} RecoverLast(acc: seq<Entry>, at: int, n: int)
    requires ReadSoFar(acc, at) && at < n && |acc| > 0
    ensures var r := Recover(acc, at, n);
            && (r.Err? ==> r.error == AssertionFailure)
            && (r.Ok? ==> EntriesValid(r.value) && Listed(r.value) == Listed(acc) && |r.value| > 0)
            && (r.Ok? && n < 0x8000 ==> ReadSoFar(r.value, n))
            && (n < 0x8000 && n % DE.ALIGNMENT == 0 ==> r.Ok?)
  {
    var k := |acc| - 1;
    LastWithin(acc);
    var s := acc[k].GrowAfter(Wrap16(n - at));
    if s.result.Ok? {
      GrowLast(acc, s.entry, s.entry.length - acc[k].length);
    }
    if n < 0x8000 && n % DE.ALIGNMENT == 0 {
      AlignedSub(n, at);
      DE.GrowSucceeds(acc[k], n - at);
    }
  }

  lemma {:induction false} AlignedSub(a: int, b: int)
    requires a % DE.ALIGNMENT == 0 && b % DE.ALIGNMENT == 0
    ensures (a - b) % DE.ALIGNMENT == 0
  {
    assert a == DE.ALIGNMENT * (a / DE.ALIGNMENT) && b == DE.ALIGNMENT * (b / DE.ALIGNMENT);
    assert a - b == DE.ALIGNMENT * (a / DE.ALIGNMENT - b / DE.ALIGNMENT);
  }

  /**
   * `read` from index `at` on, with `acc` read so far: entries are read one after another until the buffer
   * ends; a failed entry ends the loop through `Recover`. An assertion the entry constructor fails is an `Error`,
   * not an `Exception`, so the catch block does not see it and it ends `read`.
   */
  function ReadFrom(buf: seq<byte>, at: nat, acc: seq<Entry>): Result<seq<Entry>>
    requires at <= |buf|
    decreases |buf| - at
  {
    if at == |buf| then Ok(acc)
    else
      match DE.ReadAt(buf, at, false)
      case Ok(e) => ReadFrom(buf, e.End(), acc + [e])
      case Err(err) => if err == AssertionFailure then Err(err) else Recover(acc, at, |buf|)
  }

  /** What `read` gives back from index `at` on: valid entries, which cover the buffer when its length is a
      `short`; the only failure is an assertion. */
  lemma {:induction false} ReadFromValid(buf: seq<byte>, at: nat, acc: seq<Entry>)
    requires at <= |buf| && ReadSoFar(acc, at)
    ensures var r := ReadFrom(buf, at, acc);
            && (r.Err? ==> r.error == AssertionFailure)
            && (r.Ok? ==> EntriesValid(r.value) && (|buf| > 0 ==> |r.value| > 0))
            && (r.Ok? && |buf| < 0x8000 ==> ReadSoFar(r.value, |buf|))
    decreases |buf| - at
  {
    if at < |buf| {
      match DE.ReadAt(buf, at, false)
      case Ok(e) =>
        SumConcat(acc, [e]);
        SumSingle(e);
        ReadFromValid(buf, e.End(), acc + [e]);
      case Err(err) =>
        if err != AssertionFailure {
          RecoverValid(acc, at, |buf|);
        }
    }
  }

  /** `read`: the entries of the whole buffer, checked as the constructor checks them. */
  function ReadList(buf: seq<byte>): (r: Result<List>)
    ensures r.Ok? ==> Valid(r.value) && r.value.length == |buf|
    ensures r.Err? ==> r.error == AssertionFailure
  {
    ReadFromValid(buf, 0, []);
    match ReadFrom(buf, 0, [])
    case Err(err) => Err(err)
    case Ok(es) =>
      var l := List(|buf|, es);
      if CheckInvariant(l) then Ok(l) else Err(AssertionFailure)
  }

  /** A zeroed block holds no entry, so it reads as the empty list of its size. */
  lemma {:induction false} ReadZerosIsNew(n: int32)
    requires 8 <= n < 0x8000 && n % DE.ALIGNMENT == 0
    ensures New(n).Ok? && ReadList(Zeros(n)) == New(n)
  {
    DE.ReadZeros(n, false);
    var e := DE.Empty(Wrap16(n)).value;
    assert ReadFrom(Zeros(n), 0, []) == Ok([e]);
    SumSingle(e);
  }

  /** The entries after `i` are valid when all are, and cover no negative number of bytes. */
  lemma {:induction false} ValidSuffix(es: seq<Entry>, i: nat)
    requires i <= |es| && EntriesValid(es)
    ensures EntriesValid(es[i..]) && Sum(es[i..]) >= 0
  {
    assert forall k :: 0 <= k < |es[i..]| ==> es[i..][k] == es[i + k];
    NonNegative(es[i..]);
  }

  /**
   * `write`: each entry is flushed where the previous one ended, starting at index `at` (the buffer's
   * position); the flushed bytes before `at` are not touched.
   */
  function WriteEntries(buf: seq<byte>, at: nat, es: seq<Entry>): (r: seq<byte>)
    requires EntriesValid(es) && at <= at + Sum(es) <= |buf|
    ensures |r| == |buf|
    ensures r[..at] == buf[..at]
    decreases |es|
  {
    if |es| == 0 then buf
    else
      ValidSuffix(es, 1);
      var w := es[0].(position := at).Flush(buf);
      var r := WriteEntries(w, at + es[0].length, es[1..]);
      assert r[..at] == r[..at + es[0].length][..at];
      r
  }

  /** `write` of a whole list: the buffer must have exactly the list's length. */
  function WriteList(buf: seq<byte>, l: List): (r: Result<seq<byte>>)
    requires Valid(l)
    ensures r.Ok? <==> |buf| == l.length
    ensures r.Ok? ==> |r.value| == |buf|
    ensures r.Err? ==> r.error == AssertionFailure
  {
    if |buf| != l.length then Err(AssertionFailure)
    else
      NonNegative(l.entries);
      Ok(WriteEntries(buf, 0, l.entries))
  }

  /** The entries a flush leaves behind: all clean. */
  function FlushedAll(es: seq<Entry>): (r: seq<Entry>)
    ensures |r| == |es| && forall i :: 0 <= i < |es| ==> r[i] == es[i].Flushed()
  {
    seq(|es|, i requires 0 <= i < |es| => es[i].Flushed())
  }

  /** What `read` gives back for entries written one after another from index `at`. */
  function Normalized(es: seq<Entry>, at: int): (r: seq<Entry>)
    ensures |r| == |es|
    decreases |es|
  {
    if |es| == 0 then [] else [es[0].(position := at).Normal()] + Normalized(es[1..], at + es[0].length)
  }

  /** Entries laid out without gaps from `at` are already where `Normalized` puts them. */
  lemma {:induction false} NormalizedInPlace(es: seq<Entry>, at: int)
    requires NoGaps(es) && (|es| > 0 ==> es[0].position == at)
    ensures forall i :: 0 <= i < |es| ==> Normalized(es, at)[i] == es[i].Normal()
    decreases |es|
  {
    if |es| > 0 {
      assert es[0].(position := at) == es[0];
      assert NoGaps(es[1..]) by {
        forall k, j | 0 <= k < j < |es[1..]| && j == k + 1 ensures es[1..][k].End() == es[1..][j].position {
          assert es[1..][k] == es[k + 1] && es[1..][j] == es[k + 2];
        }
      }
      if |es| > 1 {
        assert es[1].position == es[0].End();
      }
      NormalizedInPlace(es[1..], at + es[0].length);
      forall i | 0 <= i < |es| ensures Normalized(es, at)[i] == es[i].Normal() {
        if i > 0 {
          assert Normalized(es, at)[i] == Normalized(es[1..], at + es[0].length)[i - 1];
          assert es[1..][i - 1] == es[i];
        }
      }
    }
  }

  /** `write` flushes the first entry at index `at` and goes on with the rest where it ends. */
  lemma {:induction false} WriteStep(buf: seq<byte>, at: nat, es: seq<Entry>) returns (w1: seq<byte>)
    requires |es| > 0 && EntriesValid(es) && at <= at + Sum(es) <= |buf|
    ensures EntriesValid(es[1..]) && 0 <= Sum(es[1..]) && Sum(es) == es[0].length + Sum(es[1..])
    ensures w1 == es[0].(position := at).Flush(buf) && |w1| == |buf|
    ensures WriteEntries(buf, at, es) == WriteEntries(w1, at + es[0].length, es[1..])
  {
    ValidSuffix(es, 1);
    w1 := es[0].(position := at).Flush(buf);
  }

  /** `write` of entries `i` on: entry `i` is flushed at index `at` and `write` goes on with the rest, so what it
      writes from there is the `target` that writing entries `i` on from `at` gives. */
  lemma {:induction false} WriteNext(w: seq<byte>, at: nat, es: seq<Entry>, i: nat, target: seq<byte>)
    requires i < |es| && EntriesValid(es[i..]) && 0 <= Sum(es[i..]) && at + Sum(es[i..]) == |w|
    requires WriteEntries(w, at, es[i..]) == target
    ensures EntriesValid(es[i + 1..]) && 0 <= Sum(es[i + 1..]) && at + es[i].length + Sum(es[i + 1..]) == |w|
    ensures var w1 := es[i].(position := at).Flush(w);
            |w1| == |w| && WriteEntries(w1, at + es[i].length, es[i + 1..]) == target
  {
    assert es[i..][0] == es[i] && es[i..][1..] == es[i + 1..];
    var w1 := WriteStep(w, at, es[i..]);
  }

  /** Two sequences that agree on their first `n` elements agree on every slice of them. */
  lemma {:induction false} SliceWithin(a: seq<byte>, b: seq<byte>, n: nat, i: nat, j: nat)
    requires n <= |a| && n <= |b| && a[..n] == b[..n] && i <= j <= n
    ensures a[i..j] == b[i..j]
  {
    assert a[i..j] == a[..n][i..j];
    assert b[i..j] == b[..n][i..j];
  }

  /** The bytes `write` leaves at index `at` start with the first entry's header. */
  lemma {:induction false} WrittenHeader(buf: seq<byte>, at: nat, es: seq<Entry>)
    requires |es| > 0 && EntriesValid(es) && at <= at + Sum(es) <= |buf|
    ensures var w := WriteEntries(buf, at, es);
            && at + DE.ENTRY_MIN_LENGTH + |es[0].name| <= at + es[0].length <= |w|
            && w[at..at + DE.ENTRY_MIN_LENGTH + |es[0].name|] == es[0].Header()
  {
    var e := es[0];
    var w1 := WriteStep(buf, at, es);
    var w := WriteEntries(w1, at + e.length, es[1..]);
    var hl := DE.ENTRY_MIN_LENGTH + |e.name|;
    SliceWithin(w, w1, at + e.length, at, at + hl);
    DE.HeaderAnywhere(e, at);
  }

  /** An entry read at `at` is followed by what `read` finds where it ends. */
  lemma {:induction false} ReadStepTo(w: seq<byte>, at: nat, acc: seq<Entry>, n: Entry, res: seq<Entry>)
    requires at < |w| && DE.ReadAt(w, at, false) == Ok(n) && n.End() <= |w|
    requires ReadFrom(w, n.End(), acc + [n]) == Ok(res)
    ensures ReadFrom(w, at, acc) == Ok(res)
  {
  }

  /** Entries all longer than ENTRY_MIN_LENGTH stay so after the first is dropped. */
  lemma {:induction false} LongSuffix(es: seq<Entry>)
    requires |es| > 0 && forall i :: 0 <= i < |es| ==> es[i].length > DE.ENTRY_MIN_LENGTH
    ensures forall i :: 0 <= i < |es[1..]| ==> es[1..][i].length > DE.ENTRY_MIN_LENGTH
  {
    assert forall i :: 0 <= i < |es[1..]| ==> es[1..][i] == es[i + 1];
  }

  lemma {:induction false} NormalizedStep(acc: seq<Entry>, es: seq<Entry>, at: int)
    requires |es| > 0
    ensures acc + Normalized(es, at) == acc + [es[0].(position := at).Normal()] + Normalized(es[1..], at + es[0].length)
  {
  }

  /** The bytes from index `at` on hold the headers of `es`, each where the previous entry ends. */
  predicate HeadersAt(w: seq<byte>, at: int, es: seq<Entry>)
    decreases |es|
  {
    |es| == 0 ||
    (&& 0 <= at && at + DE.ENTRY_MIN_LENGTH + |es[0].name| <= |w|
     && w[at..at + DE.ENTRY_MIN_LENGTH + |es[0].name|] == es[0].Header()
     && HeadersAt(w, at + es[0].length, es[1..]))
  }

  /** `write` leaves every entry's header where the entry goes. */
  lemma {:induction false} WrittenHeaders(buf: seq<byte>, at: nat, es: seq<Entry>)
    requires EntriesValid(es) && at <= at + Sum(es) <= |buf|
    ensures HeadersAt(WriteEntries(buf, at, es), at, es)
    decreases |es|
  {
    if |es| > 0 {
      var w1 := WriteStep(buf, at, es);
      var w := WriteEntries(buf, at, es);
      WrittenHeader(buf, at, es);
      WrittenHeaders(w1, at + es[0].length, es[1..]);
      assert HeadersAt(w, at + es[0].length, es[1..]);
      HeadersCons(w, at, es);
    }
  }

  lemma {:induction false} HeadersCons(w: seq<byte>, at: int, es: seq<Entry>)
    requires |es| > 0 && 0 <= at && at + DE.ENTRY_MIN_LENGTH + |es[0].name| <= |w|
    requires w[at..at + DE.ENTRY_MIN_LENGTH + |es[0].name|] == es[0].Header()
    requires HeadersAt(w, at + es[0].length, es[1..])
    ensures HeadersAt(w, at, es)
  {
  }

  /**
   * Reading from index `at` bytes that hold the headers of `es`, entry by entry: each entry is read where its
   * header is, clean, and an entry without inode comes back as UNKNOWN with no name. Every entry must be longer
   * than ENTRY_MIN_LENGTH, as `read` refuses the shorter ones.
   */
  lemma {:induction false} ReadHeaders(w: seq<byte>, at: nat, es: seq<Entry>, acc: seq<Entry>)
    requires EntriesValid(es) && at <= at + Sum(es) == |w| && HeadersAt(w, at, es)
    requires forall i :: 0 <= i < |es| ==> es[i].length > DE.ENTRY_MIN_LENGTH
    ensures ReadFrom(w, at, acc) == Ok(acc + Normalized(es, at))
    decreases |es|
  {
    if |es| == 0 {
      assert acc + [] == acc;
    } else {
      var n := es[0].(position := at).Normal();
      ReadFirstHeader(w, at, es);
      ReadHeaders(w, at + es[0].length, es[1..], acc + [n]);
      NormalizedStep(acc, es, at);
      ReadStepTo(w, at, acc, n, acc + Normalized(es, at));
    }
  }

  /** The first header reads back as its entry, and the rest of the headers follow where it ends. */
  lemma {:induction false} ReadFirstHeader(w: seq<byte>, at: nat, es: seq<Entry>)
    requires |es| > 0 && EntriesValid(es) && at <= at + Sum(es) == |w| && HeadersAt(w, at, es)
    requires forall i :: 0 <= i < |es| ==> es[i].length > DE.ENTRY_MIN_LENGTH
    ensures var n := es[0].(position := at).Normal();
            && at < |w| && DE.ReadAt(w, at, false) == Ok(n) && n.End() == at + es[0].length <= |w|
    ensures && EntriesValid(es[1..]) && at + es[0].length <= at + es[0].length + Sum(es[1..]) == |w|
            && HeadersAt(w, at + es[0].length, es[1..])
            && forall i :: 0 <= i < |es[1..]| ==> es[1..][i].length > DE.ENTRY_MIN_LENGTH
  {
    ValidSuffix(es, 1);
    DE.ReadHeader(w, at, es[0]);
    LongSuffix(es);
  }

  /** An entry followed by gapless entries that start where it ends leaves no gap. */
  lemma {:induction false} NoGapsCons(n: Entry, rest: seq<Entry>)
    requires NoGaps(rest) && (|rest| > 0 ==> rest[0].position == n.End())
    ensures NoGaps([n] + rest)
  {
    var es := [n] + rest;
    forall k, k1 | 0 <= k < |es| && 0 <= k1 < |es| && k1 == k + 1 ensures es[k].End() == es[k1].position {
      if k > 0 {
        assert es[k] == rest[k - 1] && es[k1] == rest[k1 - 1];
      }
    }
  }

  /** `read` lays out what it reads as written: the same bytes, without gaps, from where it started. */
  lemma {:induction false} NormalizedLayout(es: seq<Entry>, at: int)
    ensures Sum(Normalized(es, at)) == Sum(es) && NoGaps(Normalized(es, at))
    ensures |es| > 0 ==> Normalized(es, at)[0].position == at
    decreases |es|
  {
    if |es| > 0 {
      var n := es[0].(position := at).Normal();
      var rest := Normalized(es[1..], at + es[0].length);
      NormalizedLayout(es[1..], at + es[0].length);
      SumConcat([n], rest);
      SumSingle(n);
      NoGapsCons(n, rest);
    }
  }

  /**
   * The round trip of a list: `read` of what `write` put gives the same entries, clean, with empty entries in
   * the form `read` gives them; when the list starts at index 0 every entry is where it was.
   */
  lemma {:induction false} ReadWriteList(buf: seq<byte>, l: List)
    requires Valid(l) && |buf| == l.length
    requires forall i :: 0 <= i < |l.entries| ==> l.entries[i].length > DE.ENTRY_MIN_LENGTH
    ensures WriteList(buf, l).Ok?
    ensures ReadList(WriteList(buf, l).value) == Ok(List(l.length, Normalized(l.entries, 0)))
    ensures l.entries[0].position == 0 ==>
              forall i :: 0 <= i < |l.entries| ==> ReadList(WriteList(buf, l).value).value.entries[i] == l.entries[i].Normal()
  {
    NonNegative(l.entries);
    var w := WriteEntries(buf, 0, l.entries);
    var ns := Normalized(l.entries, 0);
    WrittenHeaders(buf, 0, l.entries);
    ReadHeaders(w, 0, l.entries, []);
    NormalizedLayout(l.entries, 0);
    assert [] + ns == ns;
    assert ReadFrom(w, 0, []) == Ok(ns);
    assert CheckInvariant(List(|w|, ns));
    if l.entries[0].position == 0 {
      NormalizedInPlace(l.entries, 0);
    }
  }
}
