/**
 * The `DirEntryList` object (and the older `BlockDirEntity`, the same object with `revision == Older`): a list of
 * directory entries whose methods change it in place. Every method is proved against the function of
 * `EntryList` that states what it does; the properties are lemmas and contracts there.
 */
module DirEntryList {
  import opened Wrappers
  import opened JavaInt
  import opened Bytes
  import FT = FileType
  import DE = DirEntry
  import EL = EntryList

  class DirEntryList {
    const revision: EL.Revision
    var length: int
    var entries: seq<DE.Entry>

    function View(): EL.List
      reads this
    {
      EL.List(length, entries)
    }

    predicate Valid()
      reads this
    {
      EL.Valid(View())
    }

    constructor Of(revision: EL.Revision, l: EL.List)
      ensures this.revision == revision && View() == l
    {
      this.revision := revision;
      length, entries := l.length, l.entries;
    }

    /** The constructor `DirEntryList(length)`: one empty entry over all of it. */
    static method New(revision: EL.Revision, length: int32) returns (r: Result<DirEntryList>)
      ensures r.Ok? <==> EL.New(length).Ok?
      ensures r.Err? ==> r.error == EL.New(length).error
      ensures r.Ok? ==> fresh(r.value) && r.value.revision == revision && r.value.View() == EL.New(length).value
    {
      var e := DE.Empty(Wrap16(length));
      if e.Err? {
        return Err(e.error);
      }
      var list := new DirEntryList.Of(revision, EL.List(length, [e.value]));
      EL.SumSingle(e.value);
      if !EL.CheckInvariant(list.View()) {
        return Err(AssertionFailure);
      }
      return Ok(list);
    }

    /**
     * `read`: entries are read one after another until the buffer is used up; when one fails to read, the bytes
     * left go to the last entry read (or to a new empty entry) and reading stops.
     */
    static method Read(revision: EL.Revision, buf: seq<byte>) returns (r: Result<DirEntryList>)
      ensures r.Ok? <==> EL.ReadList(buf).Ok?
      ensures r.Err? ==> r.error == EL.ReadList(buf).error
      ensures r.Ok? ==> fresh(r.value) && r.value.revision == revision && r.value.View() == EL.ReadList(buf).value
      ensures r.Ok? ==> r.value.Valid()
    {
      var es: seq<DE.Entry> := [];
      var at: nat := 0;
      while at < |buf|
        invariant at <= |buf|
        invariant EL.ReadFrom(buf, at, es) == EL.ReadFrom(buf, 0, [])
        decreases |buf| - at
      {
        var e := DE.ReadAt(buf, at, false);
        if e.Err? {
          if e.error == AssertionFailure {
            return Err(AssertionFailure);
          }
          var recovered := EL.Recover(es, at, |buf|);
          if recovered.Err? {
            return Err(recovered.error);
          }
          es, at := recovered.value, |buf|;
        } else {
          es, at := es + [e.value], e.value.End();
        }
      }
      EL.ReadFromValid(buf, 0, []);
      var list := new DirEntryList.Of(revision, EL.List(|buf|, es));
      if !EL.CheckInvariant(list.View()) {
        return Err(AssertionFailure);
      }
      return Ok(list);
    }

    /**
     * `write`: each entry is flushed where the previous one ended, and the entries are clean afterwards; the
     * buffer must have exactly the list's length.
     */
    method Write(buf: seq<byte>) returns (r: Result<seq<byte>>)
      requires Valid()
      modifies this
      ensures r == EL.WriteList(buf, old(View()))
      ensures length == old(length)
      ensures r.Ok? ==> entries == EL.FlushedAll(old(entries)) && forall i :: 0 <= i < |entries| ==> !entries[i].dirty
      ensures r.Err? ==> entries == old(entries)
    {
      if |buf| != length {
        return Err(AssertionFailure);
      }
      var es := entries;
      EL.NonNegative(es);
      var w := buf;
      var at: nat := 0;
      var i := 0;
      while i < |es|
        invariant 0 <= i <= |es|
        invariant EL.EntriesValid(es[i..]) && 0 <= EL.Sum(es[i..]) && at + EL.Sum(es[i..]) == |w| == |buf|
        invariant EL.WriteEntries(w, at, es[i..]) == EL.WriteEntries(buf, 0, es)
        invariant unchanged(this)
      {
        w, at := WriteEntry(w, at, es, i, EL.WriteEntries(buf, 0, es));
        i := i + 1;
      }
      assert es[i..] == [];
      entries := EL.FlushedAll(es);
      return Ok(w);
    }

    /** `entry.write(buffer)` inside `write`: entry `i` is flushed at index `at` and the buffer moves past it. */
    static method WriteEntry(w: seq<byte>, at: nat, es: seq<DE.Entry>, i: nat, ghost target: seq<byte>)
      returns (w1: seq<byte>, at1: nat)
      requires i < |es| && EL.EntriesValid(es[i..]) && 0 <= EL.Sum(es[i..]) && at + EL.Sum(es[i..]) == |w|
      requires EL.WriteEntries(w, at, es[i..]) == target
      ensures at1 == at + es[i].length && |w1| == |w|
      ensures EL.EntriesValid(es[i + 1..]) && 0 <= EL.Sum(es[i + 1..]) && at1 + EL.Sum(es[i + 1..]) == |w|
      ensures EL.WriteEntries(w1, at1, es[i + 1..]) == target
    {
      EL.WriteNext(w, at, es, i, target);
      w1 := es[i].(position := at).Flush(w);
      at1 := at + es[i].length;
    }

    /** `iterator`: nothing for an empty list, otherwise every entry in order. */
    method Iterator() returns (r: seq<DE.Entry>)
      ensures EL.IsEmpty(View()) ==> r == []
      ensures !EL.IsEmpty(View()) ==> r == entries
      ensures EL.Listed(r) == EL.Listed(entries)
    {
      EL.IterateListed(View());
      var empty := IsEmpty();
      r := if empty then [] else entries;
    }

    /** `isEmpty`. */
    method IsEmpty() returns (r: bool)
      ensures r <==> |entries| == 1 && entries[0].IsEmpty()
      ensures r ==> EL.Listed(entries) == []
    {
      EL.IterateListed(View());
      r := |entries| == 1 && entries[0].IsEmpty();
    }

    /** `isDirty`: some entry was changed since it was read or flushed. */
    method IsDirty() returns (r: bool)
      ensures r <==> exists i :: 0 <= i < |entries| && entries[i].dirty
    {
      r := false;
      for i := 0 to |entries|
        invariant r <==> exists j :: 0 <= j < i && entries[j].dirty
      {
        if entries[i].dirty {
          r := true;
        }
      }
    }

    /** `findByName`. */
    method FindByName(name: seq<byte>) returns (r: Result<nat>)
      ensures r == EL.FindByName(revision, View(), name)
      ensures r.Ok? ==> r.value < |entries| && entries[r.value].name == name
    {
      r := EL.FindByName(revision, View(), name);
    }

    /** `get`: the entry the name finds. */
    method Get(name: seq<byte>) returns (r: Result<DE.Entry>)
      ensures r == EL.Get(revision, View(), name)
      ensures r.Ok? ==> r.value.name == name && r.value in entries
    {
      var i := FindByName(name);
      if i.Err? {
        return Err(i.error);
      }
      return Ok(entries[i.value]);
    }

    /**
     * `add`: an empty list's entry is initialised in place; otherwise the first entry with room is split and the
     * new entry is inserted right after it. The invariant is checked afterwards.
     */
    method Add(inode: int32, fileType: FT.FileType, name: seq<byte>) returns (r: Result<DE.Entry>)
      requires Valid()
      modifies this
      ensures View() == EL.Add(revision, old(View()), inode, fileType, name).list
      ensures r == EL.Add(revision, old(View()), inode, fileType, name).result
      ensures r.Ok? ==> Valid()
    {
      if |entries| == 1 && entries[0].IsEmpty() {
        r := AddToEmpty(inode, fileType, name);
      } else {
        var index := EL.FirstFit(entries, |name|);
        if index.None? {
          return Err(EL.NoRoom(revision));
        }
        r := AddBySplit(index.value, inode, fileType, name);
      }
    }

    /** `add` to an empty list: its one entry takes the new name in place. */
    method AddToEmpty(inode: int32, fileType: FT.FileType, name: seq<byte>) returns (r: Result<DE.Entry>)
      requires Valid() && EL.IsEmpty(View())
      modifies this
      ensures View() == EL.AddToEmpty(old(View()), inode, fileType, name).list
      ensures r == EL.AddToEmpty(old(View()), inode, fileType, name).result
    {
      var s := entries[0].Init(inode, fileType, name);
      entries := entries[0 := s.entry];
      assert entries == [s.entry];
      if s.result.Err? {
        return Err(s.result.error);
      }
      r := if EL.CheckInvariant(View()) then Ok(s.entry) else Err(AssertionFailure);
    }

    /** `add` into the slack of entry `i`: it is split and the new entry goes right after it. */
    method AddBySplit(i: nat, inode: int32, fileType: FT.FileType, name: seq<byte>) returns (r: Result<DE.Entry>)
      requires Valid() && !EL.IsEmpty(View()) && i < |entries| && entries[i].CanBeSplit(|name|)
      modifies this
      ensures View() == EL.AddBySplit(old(View()), i, inode, fileType, name).list
      ensures r == EL.AddBySplit(old(View()), i, inode, fileType, name).result
    {
      ghost var l := View();
      var s := entries[i].Split(inode, fileType, name);
      entries := entries[i := s.entry];
      if s.result.Err? {
        return Err(s.result.error);
      }
      entries := entries[..i + 1] + [s.result.value] + entries[i + 1..];
      assert entries == l.entries[..i] + [s.entry, s.result.value] + l.entries[i + 1..];
      r := if EL.CheckInvariant(View()) then Ok(s.result.value) else Err(AssertionFailure);
    }

    /**
     * `delete(index)`: a lone entry is marked empty; otherwise the previous entry grows over it (the next one
     * grows backwards for the first entry) and it is removed.
     */
    method DeleteAt(index: int) returns (r: Result<()>)
      requires Valid()
      modifies this
      ensures View() == EL.DeleteAt(old(View()), index).list
      ensures r == EL.DeleteAt(old(View()), index).result
      ensures r.Ok? ==> Valid()
    {
      ghost var l := View();
      if !(0 <= index < |entries|) {
        return Err(IndexOutOfBounds);
      }
      if |entries| == 1 {
        entries := entries[0 := entries[0].Delete()];
        assert entries == [l.entries[0].Delete()];
        r := if EL.CheckInvariant(View()) then Ok(()) else Err(AssertionFailure);
        return;
      }
      if index > 0 {
        var s := entries[index - 1].GrowAfter(entries[index].length);
        entries := entries[index - 1 := s.entry];
        if s.result.Err? {
          return Err(s.result.error);
        }
        entries := entries[..index] + entries[index + 1..];
        assert entries == l.entries[..index - 1] + [s.entry] + l.entries[index + 1..];
      } else {
        var s := entries[1].GrowBefore(entries[0].length);
        entries := entries[1 := s.entry];
        if s.result.Err? {
          return Err(s.result.error);
        }
        entries := entries[1..];
        assert entries == [s.entry] + l.entries[2..];
      }
      r := if EL.CheckInvariant(View()) then Ok(()) else Err(AssertionFailure);
    }

    /** `delete(name)`: the entry the name finds is deleted. */
    method Delete(name: seq<byte>) returns (r: Result<()>)
      requires Valid()
      modifies this
      ensures View() == EL.Delete(revision, old(View()), name).list
      ensures r == EL.Delete(revision, old(View()), name).result
      ensures r.Ok? ==> Valid()
    {
      var i := FindByName(name);
      if i.Err? {
        return Err(i.error);
      }
      r := DeleteAt(i.value);
      if r.Ok? && revision == EL.Current && !EL.CheckInvariant(View()) {
        r := Err(AssertionFailure);
      }
    }

    /**
     * `rename`: in place when the new name fits the entry; otherwise the entry is deleted and added again under
     * the new name, and the list is put back as it was when that fails.
     */
    method Rename(name: seq<byte>, newName: seq<byte>) returns (r: Result<()>)
      requires Valid()
      modifies this
      ensures View() == EL.Rename(revision, old(View()), name, newName).list
      ensures r == EL.Rename(revision, old(View()), name, newName).result
      ensures r.Ok? ==> Valid()
    {
      var i := FindByName(name);
      if i.Err? {
        return Err(i.error);
      }
      r := RenameAt(i.value, newName);
    }

    /** `rename` of the entry at index `i`. */
    method RenameAt(i: nat, newName: seq<byte>) returns (r: Result<()>)
      requires Valid() && i < |entries|
      modifies this
      ensures View() == EL.RenameAt(revision, old(View()), i, newName).list
      ensures r == EL.RenameAt(revision, old(View()), i, newName).result
      ensures r.Ok? ==> Valid()
    {
      var e := entries[i];
      var s := e.Rename(newName);
      if s.result.Err? {
        return Err(s.result.error);
      }
      if s.result.value {
        EL.SameExtent(entries, i, s.entry);
        entries := entries[i := s.entry];
        return Ok(());
      }
      r := Relocate(i, newName);
    }

    /** The relocation of `rename`: delete, then add under the new name; the list is put back when that fails. */
    method Relocate(i: nat, newName: seq<byte>) returns (r: Result<()>)
      requires Valid() && i < |entries|
      modifies this
      ensures View() == EL.Relocate(revision, old(View()), i, newName).list
      ensures r == EL.Relocate(revision, old(View()), i, newName).result
      ensures r.Ok? ==> Valid()
    {
      var saved := entries;
      var e := entries[i];
      r := DeleteAt(i);
      if r.Err? {
        entries := saved;
        return;
      }
      var added := Add(e.inode, e.fileType, newName);
      if added.Err? {
        entries := saved;
        return Err(added.error);
      }
      r := Ok(());
      if revision == EL.Current && !EL.CheckInvariant(View()) {
        r := Err(AssertionFailure);
      }
    }

    /** `resize`: the list only grows, and its last entry takes the new bytes. */
    method Resize(newLength: int32) returns (r: Result<()>)
      requires Valid()
      modifies this
      ensures View() == EL.Resize(old(View()), newLength).list
      ensures r == EL.Resize(old(View()), newLength).result
      ensures r.Ok? && newLength < 0x8000 ==> Valid()
    {
      ghost var step := EL.Resize(View(), newLength);
      if newLength < length {
        return Err(IllegalArgument);
      }
      var k := |entries| - 1;
      var s := entries[k].GrowAfter(Wrap16(newLength - length));
      entries := entries[k := s.entry];
      if s.result.Err? {
        assert step.list == View();
        return Err(s.result.error);
      }
      length := newLength;
      assert step.list == View();
      r := Ok(());
    }
  }
}
