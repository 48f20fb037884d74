/**
 * The block mapping of a directory (`DirBlockMapping`): the directory's entries spread over a sequence of blocks,
 * each holding one entry list. Adding tries the blocks in order and appends a new block when none has room; the
 * name-based operations act on the first of the inode's blocks that holds the name; listing walks the blocks in
 * order.
 *
 * The lists are values here; which physical block holds each one is the business of the generic block mapping
 * (`AbstractBlockMapping`), and `capacity` stands for how many blocks it can hold.
 */
module DirBlockMapping {
  import opened Wrappers
  import opened JavaInt
  import opened Bytes
  import FT = FileType
  import DE = DirEntry
  import EL = EntryList

  // ---------------------------------------------------------------------------------------------------------
  // The records of a directory

  predicate AllValid(ls: seq<EL.List>) {
    forall k :: 0 <= k < |ls| ==> EL.Valid(ls[k])
  }

  /** What the directory lists: the records of each block in turn. */
  function AllListed(ls: seq<EL.List>): seq<EL.Record> {
    if |ls| == 0 then [] else EL.Listed(ls[0].entries) + AllListed(ls[1..])
  }

  lemma {:induction false} AllListedConcat(a: seq<EL.List>, b: seq<EL.List>)
    ensures AllListed(a + b) == AllListed(a) + AllListed(b)
  {
    if |a| == 0 {
      assert a + b == b;
    } else {
      assert (a + b)[1..] == a[1..] + b;
      AllListedConcat(a[1..], b);
    }
  }

  lemma AllListedSingle(l: EL.List)
    ensures AllListed([l]) == EL.Listed(l.entries)
  {
    assert [l][1..] == [];
  }

  /** Replacing one block's list exchanges its records and keeps every other block's. */
  lemma AllListedReplace(ls: seq<EL.List>, k: nat, x: EL.List)
    requires k < |ls|
    ensures multiset(AllListed(ls[k := x])) + multiset(EL.Listed(ls[k].entries))
            == multiset(AllListed(ls)) + multiset(EL.Listed(x.entries))
  {
    var front, back := ls[..k], ls[k + 1..];
    assert ls == front + [ls[k]] + back;
    assert ls[k := x] == front + [x] + back;
    AllListedConcat(front + [ls[k]], back);
    AllListedConcat(front, [ls[k]]);
    AllListedConcat(front + [x], back);
    AllListedConcat(front, [x]);
    AllListedSingle(ls[k]);
    AllListedSingle(x);
  }

  /** Appending a block adds its records after all the others. */
  lemma AllListedAppend(ls: seq<EL.List>, x: EL.List)
    ensures AllListed(ls + [x]) == AllListed(ls) + EL.Listed(x.entries)
  {
    AllListedConcat(ls, [x]);
    AllListedSingle(x);
  }

  /** The blocks after an operation, its outcome, and the block it wrote back when it succeeded. */
  datatype Step<T> = Step(lists: seq<EL.List>, result: Result<T>, at: nat)

  // ---------------------------------------------------------------------------------------------------------
  // add

  /** The errors `add` passes over to try the next block: `DirectoryOutOfMemoryException` and its subclass
      `DirEntryListOfMemoryException`. */
  predicate Caught(e: Error) {
    e == DirectoryOutOfMemory || e == DirEntryListOutOfMemory
  }

  /** A block whose list has no room for an entry named with `n` bytes: it is not empty and no entry's slack
      holds the new one. */
  predicate NoRoom(l: EL.List, n: nat) {
    !EL.IsEmpty(l) && EL.FirstFit(l.entries, n).None?
  }

  /** `add` passes over a block exactly when it has no room, and then the block is left as it was. */
  lemma Refusal(l: EL.List, inode: int32, fileType: FT.FileType, name: seq<byte>)
    requires EL.Valid(l)
    ensures var a := EL.Add(EL.Current, l, inode, fileType, name);
            (a.result.Err? && Caught(a.result.error)) <==> NoRoom(l, |name|)
    ensures NoRoom(l, |name|) ==> EL.Add(EL.Current, l, inode, fileType, name).list == l
  {
  }

  /** The first block, from `i` on, with room for an entry named with `n` bytes; `|ls|` when none has. */
  function FirstWithRoom(ls: seq<EL.List>, n: nat, i: nat): (r: nat)
    requires i <= |ls|
    ensures i <= r <= |ls|
    ensures forall k :: i <= k < r ==> NoRoom(ls[k], n)
    ensures r < |ls| ==> !NoRoom(ls[r], n)
    decreases |ls| - i
  {
    if i == |ls| || !NoRoom(ls[i], n) then i else FirstWithRoom(ls, n, i + 1)
  }

  /** A list over `blockSize` bytes lists nothing, and its length is a `short`. */
  lemma NewList(blockSize: int32)
    requires EL.New(blockSize).Ok?
    ensures blockSize < 0x8000 && EL.Listed(EL.New(blockSize).value.entries) == []
  {
    var l := EL.New(blockSize).value;
    EL.SumSingle(l.entries[0]);
    assert l.entries == [l.entries[0]];
    EL.IterateListed(l);
  }

  /**
   * The block `add` appends when no block has room: a list over `blockSize` bytes (`DirEntryList.init` is not
   * part of this revision; the constructor of that length stands for it), a block reserved for it (`grant`), the
   * list resized to the block size, and the entry added to it. The new list lists the new entry and nothing else.
   */
  function NewBlock(blockSize: int32, inode: int32, fileType: FT.FileType, name: seq<byte>, grant: Result<()>)
    : (r: Result<(EL.List, DE.Entry)>)
    ensures r.Ok? ==> grant.Ok? && EL.New(blockSize).Ok? && EL.Valid(r.value.0) && r.value.0.length == blockSize
    ensures r.Ok? ==> r.value.1.inode == inode && r.value.1.fileType == fileType && r.value.1.name == name
    ensures r.Ok? ==> multiset(EL.Listed(r.value.0.entries)) == multiset(EL.Listing(r.value.1))
    ensures EL.New(blockSize).Ok? && grant.Err? ==> r == Err(grant.error)
  {
    match EL.New(blockSize)
    case Err(e) => Err(e)
    case Ok(l) =>
      if grant.Err? then Err(grant.error)
      else
        NewList(blockSize);
        var z := EL.Resize(l, blockSize);
        if z.result.Err? then Err(z.result.error)
        else
          var a := EL.Add(EL.Current, z.list, inode, fileType, name);
          if a.result.Err? then Err(a.result.error) else Ok((a.list, a.result.value))
  }

  /** `add`: the entry goes into the first block that does not refuse it (an error other than lack of room ends
      the search); when every block refuses, into a new block appended at the end, unless the mapping is full. */
  function AddStep(ls: seq<EL.List>, capacity: nat, blockSize: int32, inode: int32, fileType: FT.FileType,
                   name: seq<byte>, grant: Result<()>): Step<DE.Entry>
    requires AllValid(ls)
  {
    var k := FirstWithRoom(ls, |name|, 0);
    if k < |ls| then
      var a := EL.Add(EL.Current, ls[k], inode, fileType, name);
      Step(ls[k := a.list], a.result, k)
    else
      match NewBlock(blockSize, inode, fileType, name, grant)
      case Err(e) => Step(ls, Err(e), k)
      case Ok(b) => if |ls| >= capacity then Step(ls, Err(IndexOutOfBounds), k) else Step(ls + [b.0], Ok(b.1), k)
  }

  /**
   * What `add` promises: the new entry carries the inode, type and name; the directory lists exactly one record
   * more; it sits in the first block with room, every block before it refusing; a new block is appended only
   * when every block refuses and the mapping has room for it; no other block changes, whatever the outcome.
   */
  lemma AddStepSpec(ls: seq<EL.List>, capacity: nat, blockSize: int32, inode: int32, fileType: FT.FileType,
                    name: seq<byte>, grant: Result<()>)
    requires AllValid(ls)
    ensures var s := AddStep(ls, capacity, blockSize, inode, fileType, name, grant);
            && s.at <= |ls| && (forall k :: 0 <= k < s.at ==> NoRoom(ls[k], |name|))
            && (forall k :: 0 <= k < |ls| && k != s.at ==> s.lists[k] == ls[k])
            && (s.result.Ok? ==>
                  && AllValid(s.lists) && s.at < |s.lists|
                  && s.result.value.inode == inode && s.result.value.fileType == fileType
                  && s.result.value.name == name
                  && multiset(AllListed(s.lists)) == multiset(AllListed(ls)) + multiset(EL.Listing(s.result.value)))
            && (s.result.Ok? && s.at == |ls| ==> |ls| < capacity && |s.lists| == |ls| + 1)
            && (s.at < |ls| || s.result.Err? ==> |s.lists| == |ls|)
            && (s.at == |ls| && NewBlock(blockSize, inode, fileType, name, grant).Ok? ==> (s.result.Ok? <==> |ls| < capacity))
  {
    var k := FirstWithRoom(ls, |name|, 0);
    if k < |ls| {
      AddInBlock(ls, k, inode, fileType, name);
    } else {
      var b := NewBlock(blockSize, inode, fileType, name, grant);
      if b.Ok? {
        AddNewBlock(ls, b.value.0, b.value.1);
      }
    }
  }

  lemma ReplaceValid(ls: seq<EL.List>, k: nat, x: EL.List)
    requires AllValid(ls) && k < |ls| && EL.Valid(x)
    ensures AllValid(ls[k := x])
  {
  }

  /** Multiset cancellation: `a` and `b` differ as `x` and `y` do. */
  lemma Cancel<T>(a: multiset<T>, b: multiset<T>, x: multiset<T>, y: multiset<T>, removed: multiset<T>,
                  added: multiset<T>)
    requires a + x == b + y && y + removed == x + added
    ensures a + removed == b + added
  {
    forall t
      ensures (a + removed)[t] == (b + added)[t]
    {
      assert (a + x)[t] == (b + y)[t];
      assert (y + removed)[t] == (x + added)[t];
    }
  }

  /** Block `k` exchanged for a valid list that lists `added` instead of `removed`: so does the directory. */
  lemma SwapBlock(ls: seq<EL.List>, k: nat, x: EL.List, removed: seq<EL.Record>, added: seq<EL.Record>)
    requires AllValid(ls) && k < |ls| && EL.Valid(x)
    requires multiset(EL.Listed(x.entries)) + multiset(removed) == multiset(EL.Listed(ls[k].entries)) + multiset(added)
    ensures AllValid(ls[k := x])
    ensures multiset(AllListed(ls[k := x])) + multiset(removed) == multiset(AllListed(ls)) + multiset(added)
  {
    AllListedReplace(ls, k, x);
    Cancel(multiset(AllListed(ls[k := x])), multiset(AllListed(ls)), multiset(EL.Listed(ls[k].entries)),
           multiset(EL.Listed(x.entries)), multiset(removed), multiset(added));
  }

  /** An entry added to block `k` is listed once more, and the blocks stay valid. */
  lemma AddInBlock(ls: seq<EL.List>, k: nat, inode: int32, fileType: FT.FileType, name: seq<byte>)
    requires AllValid(ls) && k < |ls|
    ensures var a := EL.Add(EL.Current, ls[k], inode, fileType, name);
            a.result.Ok? ==>
              && AllValid(ls[k := a.list])
              && a.result.value.inode == inode && a.result.value.fileType == fileType && a.result.value.name == name
              && multiset(AllListed(ls[k := a.list])) == multiset(AllListed(ls)) + multiset(EL.Listing(a.result.value))
  {
    var a := EL.Add(EL.Current, ls[k], inode, fileType, name);
    if a.result.Ok? {
      SwapBlock(ls, k, a.list, [], EL.Listing(a.result.value));
    }
  }

  /** A new block appended with its one entry: the entry is listed once more, and the blocks stay valid. */
  lemma AddNewBlock(ls: seq<EL.List>, l: EL.List, e: DE.Entry)
    requires AllValid(ls) && EL.Valid(l) && multiset(EL.Listed(l.entries)) == multiset(EL.Listing(e))
    ensures AllValid(ls + [l])
    ensures multiset(AllListed(ls + [l])) == multiset(AllListed(ls)) + multiset(EL.Listing(e))
  {
    AllListedAppend(ls, l);
    forall j | 0 <= j < |ls + [l]|
      ensures EL.Valid((ls + [l])[j])
    {
      if j < |ls| {
        assert (ls + [l])[j] == ls[j];
      }
    }
  }

  // ---------------------------------------------------------------------------------------------------------
  // get, rename and delete by name

  /** Whether a block's list holds the name. */
  predicate Holds(l: EL.List, name: seq<byte>) {
    EL.FindByName(EL.Current, l, name).Ok?
  }

  /**
   * The block the name-based operations act on: the first of the inode's `bound` blocks, from `i` on, whose list
   * holds the name. The search fails with IndexOutOfBounds when it passes the mapping's last block first, and
   * with NoSuchFile when none of the `bound` blocks holds the name.
   */
  function Locate(ls: seq<EL.List>, name: seq<byte>, i: nat, bound: int): (r: Result<nat>)
    ensures r.Ok? ==> i <= r.value < bound && r.value < |ls| && Holds(ls[r.value], name)
    ensures r.Ok? ==> forall k :: i <= k < r.value ==> !Holds(ls[k], name)
    ensures r.Err? ==> r.error == NoSuchFile || r.error == IndexOutOfBounds
    ensures r == Err(NoSuchFile) ==> (i < bound ==> bound <= |ls|) && forall k :: i <= k < bound ==> !Holds(ls[k], name)
    ensures r == Err(IndexOutOfBounds) ==> |ls| < bound && forall k :: i <= k < |ls| ==> !Holds(ls[k], name)
    decreases |ls| - i
  {
    if i >= bound then Err(NoSuchFile)
    else if i >= |ls| then Err(IndexOutOfBounds)
    else if Holds(ls[i], name) then Ok(i)
    else Locate(ls, name, i + 1, bound)
  }

  /** `rename(name, newName)`: the entry in the block `Locate` finds is renamed, and only that block changes. */
  function RenameStep(ls: seq<EL.List>, name: seq<byte>, newName: seq<byte>, bound: int): Step<()>
    requires AllValid(ls)
  {
    match Locate(ls, name, 0, bound)
    case Err(e) => Step(ls, Err(e), 0)
    case Ok(j) =>
      var n := EL.Rename(EL.Current, ls[j], name, newName);
      Step(ls[j := n.list], n.result, j)
  }

  /** What `rename` promises: a failure changes nothing; a success changes one block, the first holding the
      name, and the directory lists the renamed record in place of the old one. */
  lemma RenameStepSpec(ls: seq<EL.List>, name: seq<byte>, newName: seq<byte>, bound: int)
    requires AllValid(ls)
    ensures var s := RenameStep(ls, name, newName, bound);
            && (s.result.Err? ==> s.lists == ls)
            && (s.result == Err(NoSuchFile) <==> Locate(ls, name, 0, bound) == Err(NoSuchFile))
            && (s.result.Ok? ==>
                  && Locate(ls, name, 0, bound) == Ok(s.at) && AllValid(s.lists) && |s.lists| == |ls|
                  && (forall k :: 0 <= k < |ls| && k != s.at ==> s.lists[k] == ls[k])
                  && var e := ls[s.at].entries[EL.FindByName(EL.Current, ls[s.at], name).value];
                     multiset(AllListed(s.lists)) + multiset(EL.Listing(e))
                     == multiset(AllListed(ls)) + multiset(EL.Listing(e.(name := newName))))
  {
    match Locate(ls, name, 0, bound)
    case Err(_) =>
    case Ok(j) => RenameInBlock(ls, j, name, newName);
  }

  /** Renaming in a block that holds the name: a failure leaves it as it was, a success swaps the record. */
  lemma RenameInBlock(ls: seq<EL.List>, j: nat, name: seq<byte>, newName: seq<byte>)
    requires AllValid(ls) && j < |ls| && Holds(ls[j], name)
    ensures var n := EL.Rename(EL.Current, ls[j], name, newName);
            && n.result != Err(NoSuchFile)
            && (n.result.Err? ==> ls[j := n.list] == ls)
            && (n.result.Ok? ==>
                  && AllValid(ls[j := n.list])
                  && var e := ls[j].entries[EL.FindByName(EL.Current, ls[j], name).value];
                     multiset(AllListed(ls[j := n.list])) + multiset(EL.Listing(e))
                     == multiset(AllListed(ls)) + multiset(EL.Listing(e.(name := newName))))
  {
    var n := EL.Rename(EL.Current, ls[j], name, newName);
    if n.result.Ok? {
      var e := ls[j].entries[EL.FindByName(EL.Current, ls[j], name).value];
      SwapBlock(ls, j, n.list, EL.Listing(e), EL.Listing(e.(name := newName)));
    } else {
      assert ls[j := n.list] == ls;
    }
  }

  /** `delete(name)`: the entry in the block `Locate` finds is deleted, and only that block changes. */
  function DeleteNameStep(ls: seq<EL.List>, name: seq<byte>, bound: int): Step<()>
    requires AllValid(ls)
  {
    match Locate(ls, name, 0, bound)
    case Err(e) => Step(ls, Err(e), 0)
    case Ok(j) =>
      var d := EL.Delete(EL.Current, ls[j], name);
      Step(ls[j := d.list], d.result, j)
  }

  /** What `delete(name)` promises: a missing name or a search past the blocks changes nothing; a success
      changes one block, the first holding the name, and the directory lists one record fewer. */
  lemma DeleteNameStepSpec(ls: seq<EL.List>, name: seq<byte>, bound: int)
    requires AllValid(ls)
    ensures var s := DeleteNameStep(ls, name, bound);
            && (s.result.Err? ==> s.result.error in {NoSuchFile, IndexOutOfBounds, AssertionFailure})
            && (s.result.Err? && s.result.error != AssertionFailure ==> s.lists == ls)
            && (s.result.Err? && s.result.error != AssertionFailure ==> s.result == Err(Locate(ls, name, 0, bound).error))
            && (s.result.Ok? ==>
                  && Locate(ls, name, 0, bound) == Ok(s.at) && AllValid(s.lists) && |s.lists| == |ls|
                  && (forall k :: 0 <= k < |ls| && k != s.at ==> s.lists[k] == ls[k])
                  && var e := ls[s.at].entries[EL.FindByName(EL.Current, ls[s.at], name).value];
                     multiset(AllListed(s.lists)) + multiset(EL.Listing(e)) == multiset(AllListed(ls)))
  {
    match Locate(ls, name, 0, bound)
    case Err(_) =>
    case Ok(j) => DeleteInBlock(ls, j, name);
  }

  /** Deleting from a block that holds the name: only an assertion can fail, and a success drops one record. */
  lemma DeleteInBlock(ls: seq<EL.List>, j: nat, name: seq<byte>)
    requires AllValid(ls) && j < |ls| && Holds(ls[j], name)
    ensures var d := EL.Delete(EL.Current, ls[j], name);
            && (d.result.Err? ==> d.result.error == AssertionFailure)
            && (d.result.Ok? ==>
                  && AllValid(ls[j := d.list])
                  && var e := ls[j].entries[EL.FindByName(EL.Current, ls[j], name).value];
                     multiset(AllListed(ls[j := d.list])) + multiset(EL.Listing(e)) == multiset(AllListed(ls)))
  {
    var d := EL.Delete(EL.Current, ls[j], name);
    if d.result.Ok? {
      var e := ls[j].entries[EL.FindByName(EL.Current, ls[j], name).value];
      SwapBlock(ls, j, d.list, EL.Listing(e), []);
    }
  }

  // ---------------------------------------------------------------------------------------------------------
  // Iteration

  function Prepend(xs: seq<DE.Entry>, rest: Result<seq<DE.Entry>>): Result<seq<DE.Entry>> {
    match rest
    case Ok(ys) => Ok(xs + ys)
    case Err(e) => Err(e)
  }

  lemma PrependTwice(xs: seq<DE.Entry>, ys: seq<DE.Entry>, rest: Result<seq<DE.Entry>>)
    ensures Prepend(xs, Prepend(ys, rest)) == Prepend(xs + ys, rest)
  {
    if rest.Ok? {
      assert xs + (ys + rest.value) == (xs + ys) + rest.value;
    }
  }

  /**
   * What a for-each loop over `iterator()` receives once it has entered block `i`, as written: the block's
   * entries, then what comes after them.
   */
  function IteratedAsWritten(ls: seq<EL.List>, i: nat, bound: int): Result<seq<DE.Entry>>
    requires i < |ls|
    decreases |ls| - i, 1
  {
    Prepend(EL.Iterate(ls[i]), AfterAsWritten(ls, i, bound))
  }

  /**
   * What the loop receives after block `i`'s entries, as written: when the inode has a further block, that
   * block's entries, unless it yields nothing. `hasNext` moves on by one block only, so its `false` at an empty
   * block ends the loop. Entering a block past the mapping's last fails with IndexOutOfBounds.
   */
  function AfterAsWritten(ls: seq<EL.List>, i: nat, bound: int): Result<seq<DE.Entry>>
    requires i < |ls|
    decreases |ls| - i, 0
  {
    if i + 1 >= bound then Ok([])
    else if i + 1 >= |ls| then Err(IndexOutOfBounds)
    else if EL.Iterate(ls[i + 1]) == [] then Ok([])
    else IteratedAsWritten(ls, i + 1, bound)
  }

  /** What the loop should receive from block `i` on: every block's entries in turn, an empty block yielding
      nothing. */
  function Iterated(ls: seq<EL.List>, i: nat, bound: int): Result<seq<DE.Entry>>
    requires i < |ls|
    decreases |ls| - i, 1
  {
    Prepend(EL.Iterate(ls[i]), After(ls, i, bound))
  }

  /** What the loop should receive after block `i`'s entries: the later blocks', up to the inode's count. */
  function After(ls: seq<EL.List>, i: nat, bound: int): Result<seq<DE.Entry>>
    requires i < |ls|
    decreases |ls| - i, 0
  {
    if i + 1 >= bound then Ok([])
    else if i + 1 >= |ls| then Err(IndexOutOfBounds)
    else Iterated(ls, i + 1, bound)
  }

  /** The two agree on a directory none of whose later blocks is empty. */
  lemma {:induction false} IteratedAgree(ls: seq<EL.List>, i: nat, bound: int)
    requires i < |ls|
    requires forall k :: i < k < |ls| ==> EL.Iterate(ls[k]) != []
    ensures IteratedAsWritten(ls, i, bound) == Iterated(ls, i, bound)
    decreases |ls| - i
  {
    if i + 1 < bound && i + 1 < |ls| {
      IteratedAgree(ls, i + 1, bound);
    }
  }

  /** When the inode counts the mapping's blocks, the corrected iteration yields every record the directory
      lists, in order. */
  lemma {:induction false} IteratedListsAll(ls: seq<EL.List>, i: nat)
    requires i < |ls|
    ensures Iterated(ls, i, |ls|).Ok?
    ensures EL.Listed(Iterated(ls, i, |ls|).value) == AllListed(ls[i..])
    decreases |ls| - i
  {
    var it := EL.Iterate(ls[i]);
    EL.IterateListed(ls[i]);
    assert ls[i..][1..] == ls[i + 1..];
    if i + 1 < |ls| {
      IteratedListsAll(ls, i + 1);
      EL.ListedConcat(it, Iterated(ls, i + 1, |ls|).value);
    } else {
      assert ls[i + 1..] == [];
      assert it + [] == it;
    }
  }

  /** `iterator().hasNext()` on a fresh iterator, as `delete()` asks it. */
  function HasNextAsWritten(ls: seq<EL.List>, bound: int): Result<bool>
    requires 1 <= |ls|
  {
    if EL.Iterate(ls[0]) != [] then Ok(true)
    else if 1 >= bound then Ok(false)
    else if 1 >= |ls| then Err(IndexOutOfBounds)
    else Ok(EL.Iterate(ls[1]) != [])
  }

  /** The first `hasNext` answers whether the loop receives anything at all. */
  lemma HasNextAgrees(ls: seq<EL.List>, bound: int)
    requires 1 <= |ls| && IteratedAsWritten(ls, 0, bound).Ok?
    ensures HasNextAsWritten(ls, bound) == Ok(IteratedAsWritten(ls, 0, bound).value != [])
  {
    if EL.Iterate(ls[0]) == [] && 1 < bound && 1 < |ls| && EL.Iterate(ls[1]) != [] {
      var rest := IteratedAsWritten(ls, 1, bound);
      assert IteratedAsWritten(ls, 0, bound) == Prepend([], rest);
      assert rest.value == EL.Iterate(ls[1]) + (rest.value[|EL.Iterate(ls[1])|..]);
    }
  }

  /** Three blocks, the first two emptied by deletes, the last listing one file. */
  function Emptied(): seq<EL.List>
    requires EL.New(64).Ok?
  {
    var empty := EL.New(64).value;
    [empty, empty, EL.Add(EL.Current, empty, 2, FT.RegularFile, [97]).list]
  }

  /** The example directory: valid blocks; the first two yield nothing and the third lists the file. */
  lemma EmptiedShape()
    ensures EL.New(64).Ok?
    ensures AllValid(Emptied())
    ensures EL.Iterate(Emptied()[0]) == [] && EL.Iterate(Emptied()[1]) == []
    ensures AllListed(Emptied()) == [EL.Record(2, FT.RegularFile, [97])]
  {
    var empty := EL.New(64).value;
    NewList(64);
    var a := EL.Add(EL.Current, empty, 2, FT.RegularFile, [97]);
    assert DE.Aligned(1) == 16;
    assert a.result.Ok? && a.list.entries == [a.result.value];
    var e := a.result.value;
    assert EL.Listed([e]) == EL.Listing(e) by {
      assert [e][1..] == [];
    }
    var ls := Emptied();
    assert ls[1..][1..] == [ls[2]];
    AllListedSingle(ls[2]);
  }

  /** The iteration as written stops at the second block and never reaches the file in the third. */
  lemma IteratorSkipsBlocks()
    ensures EL.New(64).Ok?
    ensures IteratedAsWritten(Emptied(), 0, 3) == Ok([])
    ensures Iterated(Emptied(), 0, 3).Ok? && Iterated(Emptied(), 0, 3).value != []
  {
    EmptiedShape();
    IteratedListsAll(Emptied(), 0);
    assert Emptied()[0..] == Emptied();
  }

  /** `delete()` as written finds nothing to list in the example and deletes the directory with its file. */
  lemma DeleteLosesFile()
    ensures EL.New(64).Ok?
    ensures HasNextAsWritten(Emptied(), 3) == Ok(false) && AllListed(Emptied()) != []
  {
    EmptiedShape();
  }

  // ---------------------------------------------------------------------------------------------------------
  // The mapping

  class DirMapping {
    const blockSize: int32
    /** How many blocks the block mapping can hold; appending beyond it fails with IndexOutOfBounds. */
    const capacity: nat
    /** Each block's entry list, in the mapping's order. */
    var lists: seq<EL.List>
    /** The blocks written back to the file, in order. */
    var flushed: seq<nat>
    /** Whether `delete()` has freed the blocks. */
    var deleted: bool

    ghost predicate Valid()
      reads this
    {
      1 <= |lists| <= capacity && AllValid(lists)
    }

    constructor Of(blockSize: int32, capacity: nat, lists: seq<EL.List>)
      ensures this.blockSize == blockSize && this.capacity == capacity && this.lists == lists
      ensures flushed == [] && !deleted
    {
      this.blockSize, this.capacity, this.lists := blockSize, capacity, lists;
      flushed, deleted := [], false;
    }

    /** `init(inode, dirEntryList)`: a block is reserved (`grant`), the inline list resized to the block size
        becomes the only block, and it keeps every record. */
    static method Init(blockSize: int32, capacity: nat, list: EL.List, grant: Result<()>) returns (r: Result<DirMapping>)
      requires EL.Valid(list)
      ensures var z := EL.Resize(list, blockSize);
              && (r.Ok? <==> grant.Ok? && z.result.Ok? && capacity >= 1)
              && (r.Err? ==> r.error == if grant.Err? then grant.error
                                        else if z.result.Err? then z.result.error
                                        else IndexOutOfBounds)
              && (r.Ok? ==>
                    && fresh(r.value) && r.value.blockSize == blockSize && r.value.capacity == capacity
                    && r.value.lists == [z.list] && r.value.flushed == [] && !r.value.deleted)
      ensures r.Ok? ==> AllListed(r.value.lists) == EL.Listed(list.entries)
      ensures r.Ok? && blockSize < 0x8000 ==> r.value.Valid()
    {
      if grant.Err? {
        return Err(grant.error);
      }
      var z := EL.Resize(list, blockSize);
      if z.result.Err? {
        return Err(z.result.error);
      }
      if capacity < 1 {
        return Err(IndexOutOfBounds);
      }
      var m := new DirMapping.Of(blockSize, capacity, [z.list]);
      AllListedSingle(z.list);
      return Ok(m);
    }

    /** `add(inode, fileType, name)`, proved against `AddStep`: the block that takes the entry is written back. */
    method Add(inode: int32, fileType: FT.FileType, name: seq<byte>, grant: Result<()>) returns (r: Result<DE.Entry>)
      requires Valid()
      modifies this
      ensures var s := AddStep(old(lists), capacity, blockSize, inode, fileType, name, grant);
              lists == s.lists && r == s.result && flushed == old(flushed) + (if r.Ok? then [s.at] else [])
      ensures deleted == old(deleted)
      ensures r.Ok? ==> Valid()
    {
      AddStepSpec(lists, capacity, blockSize, inode, fileType, name, grant);
      var k, a := TryBlocks(inode, fileType, name);
      if k < |lists| {
        r := Store(k, a.list, a.result);
      } else {
        var b := NewBlock(blockSize, inode, fileType, name, grant);
        r := Append(b);
      }
    }

    /** Block `k` takes its new list and is written back when the operation succeeded. */
    method Store<T>(k: nat, l: EL.List, result: Result<T>) returns (r: Result<T>)
      requires k < |lists|
      modifies this
      ensures r == result && lists == old(lists)[k := l] && flushed == old(flushed) + (if r.Ok? then [k] else [])
      ensures deleted == old(deleted)
    {
      lists := lists[k := l];
      if result.Ok? {
        flushed := flushed + [k];
      }
      return result;
    }

    /** The end of `add` when no block has room: the new block `b` is appended and written back, unless the
        mapping is full. */
    method Append(b: Result<(EL.List, DE.Entry)>) returns (r: Result<DE.Entry>)
      modifies this
      ensures r == (if b.Err? then Err(b.error) else if old(|lists|) >= capacity then Err(IndexOutOfBounds)
                    else Ok(b.value.1))
      ensures lists == (if r.Ok? then old(lists) + [b.value.0] else old(lists))
      ensures flushed == old(flushed) + (if r.Ok? then [old(|lists|)] else [])
      ensures deleted == old(deleted)
    {
      if b.Err? {
        return Err(b.error);
      }
      if |lists| >= capacity {
        return Err(IndexOutOfBounds);
      }
      lists := lists + [b.value.0];
      flushed := flushed + [|lists| - 1];
      return Ok(b.value.1);
    }

    /** The loop of `add`: each block in turn is asked to add the entry, and the first answer other than lack of
        room ends it, with that block's new list. */
    method TryBlocks(inode: int32, fileType: FT.FileType, name: seq<byte>) returns (k: nat, a: EL.ListStep<DE.Entry>)
      requires AllValid(lists)
      ensures k == FirstWithRoom(lists, |name|, 0)
      ensures k < |lists| ==> a == EL.Add(EL.Current, lists[k], inode, fileType, name)
    {
      k := 0;
      while k < |lists|
        invariant 0 <= k <= |lists|
        invariant FirstWithRoom(lists, |name|, 0) == FirstWithRoom(lists, |name|, k)
      {
        a := EL.Add(EL.Current, lists[k], inode, fileType, name);
        Refusal(lists[k], inode, fileType, name);
        if !(a.result.Err? && Caught(a.result.error)) {
          return;
        }
        k := k + 1;
      }
      a := EL.ListStep(EL.List(0, []), Err(DirEntryListOutOfMemory));
    }

    /** `get(name)` over the inode's `bound` blocks: the entry from the first block that holds the name. */
    method Get(name: seq<byte>, bound: int) returns (r: Result<DE.Entry>)
      ensures var j := Locate(lists, name, 0, bound);
              && (j.Ok? ==> r == EL.Get(EL.Current, lists[j.value], name))
              && (j.Err? ==> r == Err(j.error))
      ensures r.Ok? ==> r.value.name == name
    {
      var i := 0;
      while i < bound
        invariant 0 <= i <= |lists|
        invariant Locate(lists, name, 0, bound) == Locate(lists, name, i, bound)
        decreases bound - i
      {
        if i >= |lists| {
          return Err(IndexOutOfBounds);
        }
        var g := EL.Get(EL.Current, lists[i], name);
        if g.Ok? {
          return g;
        }
        i := i + 1;
      }
      return Err(NoSuchFile);
    }

    /** `rename(name, newName)` over the inode's `bound` blocks, proved against `RenameStep`: the block that
        renames the entry is written back. */
    method Rename(name: seq<byte>, newName: seq<byte>, bound: int) returns (r: Result<()>)
      requires Valid()
      modifies this
      ensures var s := RenameStep(old(lists), name, newName, bound);
              lists == s.lists && r == s.result && flushed == old(flushed) + (if r.Ok? then [s.at] else [])
      ensures deleted == old(deleted)
      ensures Valid()
    {
      RenameStepSpec(lists, name, newName, bound);
      var j, n := TryRename(name, newName, bound);
      if j.Err? {
        return Err(j.error);
      }
      r := Store(j.value, n.list, n.result);
    }

    /** The loop of `rename`: each of the inode's blocks in turn is asked to rename, and the first answer other
        than NoSuchFile ends it; asking past the mapping's blocks fails with IndexOutOfBounds. */
    method TryRename(name: seq<byte>, newName: seq<byte>, bound: int) returns (j: Result<nat>, n: EL.ListStep<()>)
      requires AllValid(lists)
      ensures j == Locate(lists, name, 0, bound)
      ensures j.Ok? ==> n == EL.Rename(EL.Current, lists[j.value], name, newName)
    {
      n := EL.ListStep(EL.List(0, []), Err(NoSuchFile));
      var i := 0;
      while i < bound
        invariant 0 <= i <= |lists|
        invariant Locate(lists, name, 0, bound) == Locate(lists, name, i, bound)
        decreases bound - i
      {
        if i >= |lists| {
          return Err(IndexOutOfBounds), n;
        }
        n := EL.Rename(EL.Current, lists[i], name, newName);
        if n.result != Err(NoSuchFile) {
          return Ok(i), n;
        }
        i := i + 1;
      }
      return Err(NoSuchFile), n;
    }

    /** `delete(name)` over the inode's `bound` blocks, proved against `DeleteNameStep`: the block that deletes
        the entry is written back. */
    method DeleteName(name: seq<byte>, bound: int) returns (r: Result<()>)
      requires Valid()
      modifies this
      ensures var s := DeleteNameStep(old(lists), name, bound);
              lists == s.lists && r == s.result && flushed == old(flushed) + (if r.Ok? then [s.at] else [])
      ensures deleted == old(deleted)
      ensures r.Ok? ==> Valid()
    {
      DeleteNameStepSpec(lists, name, bound);
      var j, d := TryDelete(name, bound);
      if j.Err? {
        return Err(j.error);
      }
      r := Store(j.value, d.list, d.result);
    }

    /** The loop of `delete(name)`: each of the inode's blocks in turn is asked to delete, and the first answer
        other than NoSuchFile ends it; asking past the mapping's blocks fails with IndexOutOfBounds. */
    method TryDelete(name: seq<byte>, bound: int) returns (j: Result<nat>, d: EL.ListStep<()>)
      requires AllValid(lists)
      ensures j == Locate(lists, name, 0, bound)
      ensures j.Ok? ==> d == EL.Delete(EL.Current, lists[j.value], name)
    {
      d := EL.ListStep(EL.List(0, []), Err(NoSuchFile));
      var i := 0;
      while i < bound
        invariant 0 <= i <= |lists|
        invariant Locate(lists, name, 0, bound) == Locate(lists, name, i, bound)
        decreases bound - i
      {
        if i >= |lists| {
          return Err(IndexOutOfBounds), d;
        }
        d := EL.Delete(EL.Current, lists[i], name);
        if d.result != Err(NoSuchFile) {
          return Ok(i), d;
        }
        i := i + 1;
      }
      return Err(NoSuchFile), d;
    }

    /** A for-each loop over `iterator()` with the inode counting `bound` blocks, as written: it stops at the
        first later block that yields nothing. */
    method Iterator(bound: int) returns (r: Result<seq<DE.Entry>>)
      requires 1 <= |lists|
      ensures r == IteratedAsWritten(lists, 0, bound)
    {
      var current := 0;
      var out := EL.Iterate(lists[0]);
      while current + 1 < bound
        invariant 0 <= current < |lists|
        invariant IteratedAsWritten(lists, 0, bound) == Prepend(out, AfterAsWritten(lists, current, bound))
        decreases bound - current
      {
        if current + 1 >= |lists| {
          return Err(IndexOutOfBounds);
        }
        var it := EL.Iterate(lists[current + 1]);
        if it == [] {
          assert out + [] == out;
          return Ok(out);
        }
        PrependTwice(out, it, AfterAsWritten(lists, current + 1, bound));
        out := out + it;
        current := current + 1;
      }
      assert out + [] == out;
      return Ok(out);
    }

    /** The iteration as intended: `hasNext` moves past every block that yields nothing. */
    method IteratorFixed(bound: int) returns (r: Result<seq<DE.Entry>>)
      requires 1 <= |lists|
      ensures r == Iterated(lists, 0, bound)
      ensures bound == |lists| ==> r.Ok? && EL.Listed(r.value) == AllListed(lists)
    {
      var current := 0;
      var out := EL.Iterate(lists[0]);
      while current + 1 < bound
        invariant 0 <= current < |lists|
        invariant Iterated(lists, 0, bound) == Prepend(out, After(lists, current, bound))
        decreases bound - current
      {
        if current + 1 >= |lists| {
          return Err(IndexOutOfBounds);
        }
        var it := EL.Iterate(lists[current + 1]);
        PrependTwice(out, it, After(lists, current + 1, bound));
        out := out + it;
        current := current + 1;
      }
      assert out + [] == out;
      if bound == |lists| {
        IteratedListsAll(lists, 0);
        assert lists[0..] == lists;
      }
      return Ok(out);
    }

    /** `delete()`, as written: the directory is refused when the first `hasNext` answers true; otherwise its
        blocks are freed. */
    method Delete(bound: int) returns (r: Result<()>)
      requires 1 <= |lists|
      modifies this
      ensures r == match HasNextAsWritten(old(lists), bound)
                   case Err(e) => Err(e)
                   case Ok(more) => if more then Err(DirectoryNotEmpty) else Ok(())
      ensures lists == old(lists) && flushed == old(flushed)
      ensures deleted == (old(deleted) || r.Ok?)
    {
      var more := EL.Iterate(lists[0]) != [];
      if !more && 1 < bound {
        if 1 >= |lists| {
          return Err(IndexOutOfBounds);
        }
        more := EL.Iterate(lists[1]) != [];
      }
      if more {
        return Err(DirectoryNotEmpty);
      }
      deleted := true;
      return Ok(());
    }

    /** `delete()` as intended: the directory is refused whenever the corrected iteration yields anything, so a
        directory that lists a record is never deleted. */
    method DeleteFixed(bound: int) returns (r: Result<()>)
      requires 1 <= |lists|
      modifies this
      ensures r == match Iterated(old(lists), 0, bound)
                   case Err(e) => Err(e)
                   case Ok(es) => if es != [] then Err(DirectoryNotEmpty) else Ok(())
      ensures bound == |old(lists)| && AllListed(old(lists)) != [] ==> r == Err(DirectoryNotEmpty)
      ensures lists == old(lists) && flushed == old(flushed)
      ensures deleted == (old(deleted) || r.Ok?)
    {
      var es := IteratorFixed(bound);
      if es.Err? {
        return Err(es.error);
      }
      if es.value != [] {
        return Err(DirectoryNotEmpty);
      }
      deleted := true;
      return Ok(());
    }
  }
}
