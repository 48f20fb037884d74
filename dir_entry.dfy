/**
 * A directory entry: a variable-length record, aligned to 8 bytes, modelled on ext4's `ext4_dir_entry_2`.
 *
 *   inode (4) | length (2) | name length (1) | file type (1) | name | padding
 *
 * Entries are values here; each mutator of the source is a function from the old entry to a `Step`, which holds
 * the entry after the call and what the call returned or raised. The source asserts its invariant after it has
 * already changed the fields, so a failed assertion still leaves the changed entry behind.
 */
module DirEntry {
  import opened Wrappers
  import opened JavaInt
  import opened Bytes
  import opened Fields
  import FT = FileType

  /** Bytes of the inode, length, name length and file type fields. */
  const ENTRY_MIN_LENGTH: int := 4 + 2 + 1 + FT.LENGTH

  /** A name's length must fit the one-byte name length field. */
  const NAME_MAX_LENGTH: int := 255

  const ALIGNMENT: int := 8

  /** Inode 0: the entry names no file. */
  const NULL: int32 := 0

  /** `aligned`: the smallest multiple of ALIGNMENT that holds the fixed fields and a name of `n` bytes. */
  function Aligned(n: nat): (r: nat)
    ensures r % ALIGNMENT == 0
    ensures ENTRY_MIN_LENGTH + n <= r < ENTRY_MIN_LENGTH + n + ALIGNMENT
  {
    var overall := ENTRY_MIN_LENGTH + n;
    overall + (ALIGNMENT - overall % ALIGNMENT) % ALIGNMENT
  }

  /** A multiple of ALIGNMENT that holds the fixed fields and the name holds at least `Aligned` bytes. */
  lemma {:induction false} AlignedLeast(n: nat, length: int)
    requires length % ALIGNMENT == 0 && ENTRY_MIN_LENGTH + n <= length
    ensures Aligned(n) <= length
  {
    var d := length - Aligned(n);
    assert d > -ALIGNMENT && d % ALIGNMENT == 0;
    assert d == ALIGNMENT * (d / ALIGNMENT);
  }

  /** What is left of an aligned length after an aligned part is itself aligned. */
  lemma {:induction false} SplitLengths(length: int, n: nat)
    requires length % ALIGNMENT == 0
    ensures (length - Aligned(n)) % ALIGNMENT == 0
  {
    var a := Aligned(n);
    assert length == ALIGNMENT * (length / ALIGNMENT);
    assert a == ALIGNMENT * (a / ALIGNMENT);
    assert length - a == ALIGNMENT * (length / ALIGNMENT - a / ALIGNMENT);
  }

  lemma {:induction false} AlignedExamples()
    ensures Aligned(0) == 8 && Aligned(1) == 16 && Aligned(2) == 16 && Aligned(8) == 16
    ensures Aligned(9) == 24 && Aligned(254) == 264 && Aligned(255) == 264
  {
  }

  /** The fields of a `DirEntry`; `position` (in the block) and `dirty` are not stored on disk. */
  datatype Entry = Entry(position: int, length: int16, inode: int32, fileType: FT.FileType, name: seq<byte>,
                         dirty: bool)
  {
    predicate IsEmpty() {
      inode == NULL
    }

    /** Bytes between the end of the name and the end of the entry. */
    function Padding(): int {
      length - ENTRY_MIN_LENGTH - |name|
    }

    /** `canBeSplit`: the slack beyond this entry's own aligned size holds an entry named with `n` bytes. */
    predicate CanBeSplit(n: nat) {
      length - Aligned(|name|) >= Aligned(n)
    }

    /** The first byte after the entry. */
    function End(): int {
      position + length
    }

    /**
     * `rename`: a name longer than NAME_MAX_LENGTH is refused; a name that does not fit the entry leaves it
     * untouched and reports false; otherwise the name is replaced in place.
     */
    function Rename(newName: seq<byte>): (r: Step<bool>)
      requires Invariant(this)
      ensures r.result == Err(IllegalArgument) <==> |newName| > NAME_MAX_LENGTH
      ensures r.result.Err? ==> r.result.error == IllegalArgument && r.entry == this
      ensures r.result == Ok(false) <==> |newName| <= NAME_MAX_LENGTH && length < ENTRY_MIN_LENGTH + |newName|
      ensures r.result == Ok(false) ==> r.entry == this
      ensures r.result == Ok(true) ==> r.entry == this.(name := newName, dirty := true) && Invariant(r.entry)
    {
      if |newName| > NAME_MAX_LENGTH then Step(this, Err(IllegalArgument))
      else if |newName| > |name| + Padding() then Step(this, Ok(false))
      else
        var renamed := this.(name := newName, dirty := true);
        AlignedLeast(|newName|, length);
        if Invariant(renamed) then Step(renamed, Ok(true)) else Step(renamed, Err(AssertionFailure))
    }

    /**
     * `split`: this entry shrinks to its own aligned size and the slack becomes a new entry right after it.
     * An empty entry cannot be split, nor one whose slack is too small.
     */
    function Split(anotherInode: int32, anotherFileType: FT.FileType, anotherName: seq<byte>): (r: Step<Entry>)
      requires Invariant(this)
      ensures r.result == Err(IllegalState) <==> IsEmpty()
      ensures r.result == Err(IllegalArgument) <==> !IsEmpty() && !CanBeSplit(|anotherName|)
      ensures r.result == Err(AssertionFailure) <==>
                !IsEmpty() && CanBeSplit(|anotherName|) && |anotherName| > NAME_MAX_LENGTH
      ensures r.result.Err? ==> r.result.error == IllegalState || r.result.error == IllegalArgument || r.result.error == AssertionFailure
      ensures r.result.Err? && r.result.error != AssertionFailure ==> r.entry == this
      ensures r.result.Ok? ==>
                var another := r.result.value;
                && r.entry == this.(length := r.entry.length, dirty := true)
                && r.entry.length == Aligned(|name|)
                && another.position == r.entry.End()
                && r.entry.length + another.length == length
                && another == Entry(another.position, another.length, anotherInode, anotherFileType, anotherName, true)
                && Invariant(r.entry) && Invariant(another)
    {
      if IsEmpty() then Step(this, Err(IllegalState))
      else if !CanBeSplit(|anotherName|) then Step(this, Err(IllegalArgument))
      else
        var shrunk := this.(length := Aligned(|name|));
        var another :=
          Entry(position + shrunk.length, length - shrunk.length, anotherInode, anotherFileType, anotherName, true);
        SplitLengths(length, |name|);
        if !Invariant(another) then Step(shrunk, Err(AssertionFailure))
        else if !Invariant(shrunk.(dirty := true)) then Step(shrunk.(dirty := true), Err(AssertionFailure))
        else Step(shrunk.(dirty := true), Ok(another))
    }

    /** `growAfter`: the entry takes over `size` bytes after its end (a `short` addition). */
    function GrowAfter(size: int16): (r: Step<()>)
      ensures r.entry == this.(length := Wrap16(length + size), dirty := true)
      ensures r.result.Ok? <==> Invariant(r.entry)
      ensures r.result.Err? ==> r.result.error == AssertionFailure
    {
      var grown := this.(length := Wrap16(length + size), dirty := true);
      if Invariant(grown) then Step(grown, Ok(())) else Step(grown, Err(AssertionFailure))
    }

    /** `growBefore`: the entry takes over `size` bytes before its start. */
    function GrowBefore(size: int16): (r: Step<()>)
      ensures r.entry == this.(position := position - size, length := Wrap16(length + size), dirty := true)
      ensures r.result.Ok? <==> Invariant(r.entry)
      ensures r.result.Err? ==> r.result.error == AssertionFailure
    {
      this.(position := position - size).GrowAfter(size)
    }

    /**
     * `init`: an empty entry takes the inode, type and name in place, keeping its position and length.
     * A non-empty entry is refused, and so is a name whose aligned record is longer than the entry.
     */
    function Init(anotherInode: int32, anotherFileType: FT.FileType, anotherName: seq<byte>): (r: Step<()>)
      requires Invariant(this)
      ensures r.result == Err(IllegalState) <==> !IsEmpty()
      ensures r.result == Err(DirEntryNotEnoughSpace) <==> IsEmpty() && length < Aligned(|anotherName|)
      ensures r.result == Err(AssertionFailure) <==>
                IsEmpty() && length >= Aligned(|anotherName|) && |anotherName| > NAME_MAX_LENGTH
      ensures r.result.Err? && r.result.error != AssertionFailure ==> r.entry == this
      ensures r.result.Ok? ==>
                r.entry == Entry(position, length, anotherInode, anotherFileType, anotherName, true)
                && Invariant(r.entry)
    {
      if !IsEmpty() then Step(this, Err(IllegalState))
      else if length < Aligned(|anotherName|) then Step(this, Err(DirEntryNotEnoughSpace))
      else
        var filled := this.(inode := anotherInode, fileType := anotherFileType, name := anotherName, dirty := true);
        if Invariant(filled) then Step(filled, Ok(())) else Step(filled, Err(AssertionFailure))
    }

    /**
     * `delete`: the entry loses its inode and name but keeps its place; an entry that is already empty is left
     * as it is (not even marked dirty). The invariant the source asserts afterwards always holds.
     */
    function Delete(): (r: Entry)
      requires Invariant(this)
      ensures r.IsEmpty() && Invariant(r) && (NullNamed(this) ==> NullNamed(r))
      ensures r.position == position && r.length == length
      ensures IsEmpty() ==> r == this
      ensures !IsEmpty() ==> r.dirty && |r.name| == 0
    {
      if IsEmpty() then this else this.(inode := NULL, name := [], dirty := true)
    }

    /** The header and name `flush` puts: inode, length, name length (a byte cast), file type, name. */
    function Header(): (r: seq<byte>)
      ensures |r| == ENTRY_MIN_LENGTH + |name|
    {
      PutInt(inode) + PutShort(length) + [|name| % 256] + FT.Write(fileType) + name
    }

    /**
     * `flush` into a buffer at the entry's position: the header and name are written, the padding keeps whatever
     * the buffer held, and the buffer moves on by the entry's length (which must be inside the buffer).
     */
    function Flush(buf: seq<byte>): (r: seq<byte>)
      requires Invariant(this) && 0 <= position && End() <= |buf|
      ensures |r| == |buf|
      ensures r[..position] == buf[..position]
      ensures r[position..position + ENTRY_MIN_LENGTH + |name|] == Header()
      ensures r[position + ENTRY_MIN_LENGTH + |name|..] == buf[position + ENTRY_MIN_LENGTH + |name|..]
    {
      var p := position;
      var r := buf[..p] + Header() + buf[p + ENTRY_MIN_LENGTH + |name|..];
      assert r[..p] == buf[..p];
      assert r[p..p + ENTRY_MIN_LENGTH + |name|] == Header();
      assert r[p + ENTRY_MIN_LENGTH + |name|..] == buf[p + ENTRY_MIN_LENGTH + |name|..];
      r
    }

    /** The entry after `flush`: clean. */
    function Flushed(): (r: Entry)
      ensures !r.dirty && r.(dirty := dirty) == this
    {
      this.(dirty := false)
    }

    /** What `read` gives back for an entry that was flushed: clean, and UNKNOWN without a name when it has no inode. */
    function Normal(): (r: Entry)
      ensures NullNamed(r) && !r.dirty && r.position == position && r.length == length && r.inode == inode
      ensures !IsEmpty() ==> r == Flushed()
    {
      if IsEmpty() then this.(fileType := FT.Unknown, name := [], dirty := false) else Flushed()
    }
  }

  /**
   * `checkInvariant`: the length holds the aligned record, is aligned, and the name fits its length field.
   * The source's last check compares the inode with the NULL constant by reference; it holds for every entry the
   * source builds, and its value reading is `NullNamed`.
   */
  predicate Invariant(e: Entry) {
    e.length >= Aligned(|e.name|) && e.length % ALIGNMENT == 0 && |e.name| <= NAME_MAX_LENGTH
  }

  /** An entry without an inode has no name. */
  predicate NullNamed(e: Entry) {
    e.IsEmpty() ==> |e.name| == 0
  }

  /** An entry after a mutator (possibly half-done when an assertion failed) and the mutator's outcome. */
  datatype Step<T> = Step(entry: Entry, result: Result<T>)

  /** The splits of the source's tests: a 4096-byte entry keeps its aligned size and passes on the rest. */
  lemma {:induction false} SplitExamples()
    ensures var e := Entry(0, 4096, 1, FT.RegularFile, seq(1, _ => 97), false);
            var r := e.Split(2, FT.RegularFile, seq(1, _ => 98));
            r.result.Ok? && r.entry.length == 16 && r.result.value.position == 16 && r.result.value.length == 4080
  {
  }

  lemma {:induction false} SplitExamplesLongName()
    ensures var e := Entry(0, 4096, 1, FT.RegularFile, seq(255, _ => 97), false);
            var r := e.Split(2, FT.RegularFile, seq(1, _ => 98));
            r.result.Ok? && r.entry.length == 264 && r.result.value.position == 264 && r.result.value.length == 3832
    ensures var e := Entry(128, 528, 1, FT.RegularFile, seq(255, _ => 97), false);
            var r := e.Split(2, FT.RegularFile, seq(255, _ => 98));
            r.result.Ok? && r.entry.length == 264 && r.result.value.position == 392 && r.result.value.length == 264
  {
  }

  /** Which entries of the source's tests can be split, and which renames fit in place. */
  lemma {:induction false} CanBeSplitExamples()
    ensures !Entry(0, 16, 1, FT.RegularFile, seq(1, _ => 97), false).CanBeSplit(1)
    ensures !Entry(0, 24, 1, FT.RegularFile, seq(1, _ => 97), false).CanBeSplit(1)
    ensures Entry(0, 32, 1, FT.RegularFile, seq(1, _ => 97), false).CanBeSplit(1)
    ensures Entry(0, 32, 1, FT.RegularFile, seq(1, _ => 97), false).CanBeSplit(8)
    ensures !Entry(0, 32, 1, FT.RegularFile, seq(1, _ => 97), false).CanBeSplit(9)
    ensures Entry(0, 16, 1, FT.RegularFile, seq(1, _ => 97), false).Rename(seq(8, _ => 98)).result == Ok(true)
    ensures Entry(0, 16, 1, FT.RegularFile, seq(1, _ => 97), false).Rename(seq(9, _ => 98)).result == Ok(false)
  {
  }

  /** The constructor: the invariant is asserted on the new fields. */
  function Create(position: int, length: int16, inode: int32, fileType: FT.FileType, name: seq<byte>)
    : (r: Result<Entry>)
    ensures r.Ok? <==> Invariant(Entry(position, length, inode, fileType, name, false))
    ensures r.Err? ==> r.error == AssertionFailure
    ensures r.Ok? ==> r.value == Entry(position, length, inode, fileType, name, false)
  {
    var e := Entry(position, length, inode, fileType, name, false);
    if Invariant(e) then Ok(e) else Err(AssertionFailure)
  }

  /** `empty(length)`: a dirty entry at position 0 without inode or name. */
  function Empty(length: int16): (r: Result<Entry>)
    ensures r.Ok? <==> length >= ENTRY_MIN_LENGTH && length % ALIGNMENT == 0
    ensures r.Err? ==> r.error == AssertionFailure
    ensures r.Ok? ==> r.value.IsEmpty() && r.value.length == length && r.value.position == 0
    ensures r.Ok? ==> r.value.dirty && NullNamed(r.value) && Invariant(r.value)
  {
    match Create(0, length, NULL, FT.Unknown, [])
    case Ok(e) => Ok(e.(dirty := true))
    case Err(err) => Err(err)
  }

  /** Growing a valid entry by a non-negative amount that keeps the length a `short` succeeds exactly when the
      amount is aligned; growing after keeps the start, growing before keeps the end. */
  lemma {:induction false} GrowSucceeds(e: Entry, size: int16)
    requires Invariant(e) && 0 <= size && e.length + size < 0x8000
    ensures e.GrowAfter(size).result.Ok? <==> size % ALIGNMENT == 0
    ensures e.GrowBefore(size).result.Ok? <==> size % ALIGNMENT == 0
    ensures e.GrowAfter(size).entry.position == e.position
    ensures e.GrowAfter(size).entry.End() == e.End() + size
    ensures e.GrowBefore(size).entry.position == e.position - size
    ensures e.GrowBefore(size).entry.End() == e.End()
  {
    assert (e.length + size) % ALIGNMENT == 0 <==> size % ALIGNMENT == 0;
  }

  /** A grown entry that keeps its invariant did not wrap around: it grew by exactly `size` bytes. */
  lemma {:induction false} GrowExact(e: Entry, size: int16)
    requires Invariant(e) && 0 <= size
    ensures e.GrowAfter(size).result.Ok? ==> e.GrowAfter(size).entry.length == e.length + size
    ensures e.GrowBefore(size).result.Ok? ==> e.GrowBefore(size).entry.length == e.length + size
  {
    var x := e.length + size;
    if x >= 0x8000 {
      assert x % TWO16 == x;
      assert Wrap16(x) < 0;
    }
  }

  /** The constructor's check, as `read` runs it on the fields it parsed. */
  function Checked(e: Entry): (r: Result<Entry>)
    ensures r.Ok? <==> Invariant(e)
    ensures r.Ok? ==> r.value == e
    ensures r.Err? ==> r.error == AssertionFailure
  {
    if Invariant(e) then Ok(e) else Err(AssertionFailure)
  }

  /** `read` of the name length byte: as written (`signed`) Java's signed `byte`; otherwise its unsigned value. */
  function NameLength(buf: seq<byte>, at: nat, signed: bool): (r: int)
    requires at < |buf|
    ensures !signed ==> r == buf[at]
    ensures signed ==> r == if buf[at] < 128 then buf[at] else buf[at] as int - 256
  {
    if signed then GetByte(buf, at) else buf[at]
  }

  /**
   * `read` at index `at` of a buffer whose limit is its end. The checks run in the source's order: the inode and
   * length fields must be there, the length must exceed ENTRY_MIN_LENGTH; an entry without inode reads as UNKNOWN
   * with no name; otherwise the name length, file type and name are read. The buffer then moves to the entry's
   * end, which must lie inside the buffer, and the constructor asserts the invariant.
   */
  function ReadAt(buf: seq<byte>, at: nat, signed: bool): (r: Result<Entry>)
    requires at <= |buf|
    ensures r.Ok? ==> var e := r.value;
              && e.position == at && e.length > ENTRY_MIN_LENGTH && e.End() <= |buf|
              && Invariant(e) && NullNamed(e) && !e.dirty
    ensures r.Ok? && !r.value.IsEmpty() ==> r.value.name == buf[at + ENTRY_MIN_LENGTH..at + ENTRY_MIN_LENGTH + |r.value.name|]
    ensures |buf| - at < 6 ==> r == Err(BufferUnderflow)
  {
    if |buf| - at < 4 then Err(BufferUnderflow)
    else if |buf| - at < 6 then Err(BufferUnderflow)
    else
      var inode := GetInt(buf, at);
      var length := GetShort(buf, at + 4);
      if length <= ENTRY_MIN_LENGTH then Err(IllegalArgument)
      else if inode == NULL then
        if at + length > |buf| then Err(IllegalArgument)
        else Checked(Entry(at, length, inode, FT.Unknown, [], false))
      else if |buf| - at < 7 then Err(BufferUnderflow)
      else
        var nameLength := NameLength(buf, at + 6, signed);
        match FT.Read(buf[at + 7..])
        case Err(err) => Err(err)
        case Ok(fileType) =>
          if nameLength < 0 then Err(NegativeArraySize)
          else if |buf| - (at + ENTRY_MIN_LENGTH) < nameLength then Err(BufferUnderflow)
          else if at + length > |buf| then Err(IllegalArgument)
          else Checked(Entry(at, length, inode, fileType, buf[at + ENTRY_MIN_LENGTH..at + ENTRY_MIN_LENGTH + nameLength], false))
  }

  /** Where each field sits in the header. */
  lemma {:induction false} HeaderParts(e: Entry)
    requires |e.name| <= NAME_MAX_LENGTH
    ensures var h := e.Header();
            && h[..4] == PutInt(e.inode) && h[4..6] == PutShort(e.length) && h[6] == |e.name|
            && h[7..] == FT.Write(e.fileType) + e.name && h[ENTRY_MIN_LENGTH..] == e.name
  {
  }

  /** The header does not depend on where the entry is. */
  lemma {:induction false} HeaderAnywhere(e: Entry, p: int)
    ensures e.(position := p).Header() == e.Header()
  {
  }

  /** The fields `read` decodes from a flushed header. */
  lemma {:induction false} HeaderFields(w: seq<byte>, p: nat, e: Entry)
    requires Invariant(e) && e.length > ENTRY_MIN_LENGTH && p + e.length <= |w|
    requires w[p..p + ENTRY_MIN_LENGTH + |e.name|] == e.Header()
    ensures p + ENTRY_MIN_LENGTH + |e.name| <= |w|
    ensures GetInt(w, p) == e.inode && GetShort(w, p + 4) == e.length && w[p + 6] == |e.name|
    ensures !e.IsEmpty() ==> FT.Read(w[p + 7..]) == Ok(e.fileType)
    ensures w[p + ENTRY_MIN_LENGTH..p + ENTRY_MIN_LENGTH + |e.name|] == e.name
  {
    var h := e.Header();
    HeaderParts(e);
    var hw := w[p..p + |h|];
    assert hw == h;
    assert |h| >= ENTRY_MIN_LENGTH == 8;
    assert w[p..p + 4] == hw[..4];
    GetIntOf(w, p, e.inode);
    assert w[p + 4] == hw[4] && w[p + 5] == hw[5];
    assert w[p + 4..p + 6] == hw[4..6];
    GetShortOf(w, p + 4, e.length);
    assert w[p + 6] == h[6];
    if !e.IsEmpty() {
      assert w[p + 7..] == h[7..] + w[p + |h|..];
      FT.ReadWrite(e.fileType, e.name + w[p + |h|..]);
    }
    assert w[p + ENTRY_MIN_LENGTH..p + ENTRY_MIN_LENGTH + |e.name|] == h[ENTRY_MIN_LENGTH..];
  }

  /** `read` at an index holding a flushed header gives back the entry, placed at that index. */
  lemma {:induction false} ReadHeader(w: seq<byte>, p: nat, e: Entry)
    requires Invariant(e) && e.length > ENTRY_MIN_LENGTH && p + e.length <= |w|
    requires w[p..p + ENTRY_MIN_LENGTH + |e.name|] == e.Header()
    ensures ReadAt(w, p, false) == Ok(e.(position := p).Normal())
  {
    HeaderFields(w, p, e);
  }

  /** `read` after `flush` gives the entry back (with the name length read unsigned). */
  lemma {:induction false} ReadFlush(buf: seq<byte>, e: Entry)
    requires Invariant(e) && 0 <= e.position && e.End() <= |buf| && e.length > ENTRY_MIN_LENGTH
    ensures ReadAt(e.Flush(buf), e.position, false) == Ok(e.Normal())
  {
    ReadHeader(e.Flush(buf), e.position, e);
    assert e.(position := e.position) == e;
  }

  /** A block of zeros holds no entry: its length field is 0. */
  lemma {:induction false} ReadZeros(n: nat, signed: bool)
    requires n >= 6
    ensures ReadAt(Zeros(n), 0, signed) == Err(IllegalArgument)
  {
    Pow256Values();
    assert Zeros(n)[4..6] == [0, 0];
    assert [0, 0][1..] == [0] && [0][1..] == [];
    assert DecodeLE([0, 0]) == 0;
    assert GetShort(Zeros(n), 4) == 0;
  }

  /**
   * As written, `read` takes the name length as a signed byte, so an entry whose name has 128 to 255 bytes is
   * flushed fine but cannot be read back: the negative length fails the name's array allocation.
   */
  lemma {:induction false} SignedNameLengthLosesLongNames()
    ensures var e := Entry(0, 136, 1, FT.RegularFile, seq(128, _ => 97), true);
            && Invariant(e)
            && ReadAt(e.Flush(Zeros(136)), 0, true) == Err(NegativeArraySize)
            && ReadAt(e.Flush(Zeros(136)), 0, false) == Ok(e.Flushed())
  {
    var e := Entry(0, 136, 1, FT.RegularFile, seq(128, _ => 97), true);
    assert Aligned(128) == 136;
    ReadFlush(Zeros(136), e);
    var w := e.Flush(Zeros(136));
    var h := e.Header();
    HeaderParts(e);
    assert w[..4] == h[..4];
    GetIntOf(w, 0, e.inode);
    assert w[4..6] == h[4..6];
    GetShortOf(w, 4, e.length);
    assert w[6] == h[6] == 128;
    assert w[7..] == h[7..] + w[|h|..];
    FT.ReadWrite(e.fileType, e.name + w[|h|..]);
  }

  /** A `DirEntry` object: the fields the mutators change in place. */
  class DirEntry {
    var position: int
    var length: int16
    var inode: int32
    var fileType: FT.FileType
    var name: seq<byte>
    var dirty: bool

    function View(): Entry
      reads this
    {
      Entry(position, length, inode, fileType, name, dirty)
    }

    constructor Of(e: Entry)
      ensures View() == e
    {
      position, length, inode, fileType, name, dirty := e.position, e.length, e.inode, e.fileType, e.name, e.dirty;
    }

    method Set(e: Entry)
      modifies this
      ensures View() == e
    {
      position, length, inode, fileType, name, dirty := e.position, e.length, e.inode, e.fileType, e.name, e.dirty;
    }

    /** `read`: a new object for the entry at `at`, with the name length read unsigned (see
        `SignedNameLengthLosesLongNames`). */
    static method Read(buf: seq<byte>, at: nat) returns (r: Result<DirEntry>)
      requires at <= |buf|
      ensures r.Ok? <==> ReadAt(buf, at, false).Ok?
      ensures r.Err? ==> r.error == ReadAt(buf, at, false).error
      ensures r.Ok? ==> fresh(r.value) && r.value.View() == ReadAt(buf, at, false).value
    {
      var read := ReadAt(buf, at, false);
      if read.Err? {
        return Err(read.error);
      }
      var entry := new DirEntry.Of(read.value);
      return Ok(entry);
    }

    method Flush(buf: seq<byte>) returns (written: seq<byte>)
      requires Invariant(View()) && 0 <= position && View().End() <= |buf|
      modifies this
      ensures written == old(View()).Flush(buf)
      ensures View() == old(View()).Flushed()
    {
      written := View().Flush(buf);
      dirty := false;
    }

    method Rename(newName: seq<byte>) returns (r: Result<bool>)
      requires Invariant(View())
      modifies this
      ensures View() == old(View()).Rename(newName).entry
      ensures r == old(View()).Rename(newName).result
    {
      var step := View().Rename(newName);
      Set(step.entry);
      r := step.result;
    }

    method Split(anotherInode: int32, anotherFileType: FT.FileType, anotherName: seq<byte>)
      returns (r: Result<DirEntry>)
      requires Invariant(View())
      modifies this
      ensures View() == old(View()).Split(anotherInode, anotherFileType, anotherName).entry
      ensures r.Ok? <==> old(View()).Split(anotherInode, anotherFileType, anotherName).result.Ok?
      ensures r.Err? ==> r.error == old(View()).Split(anotherInode, anotherFileType, anotherName).result.error
      ensures r.Ok? ==> fresh(r.value)
      ensures r.Ok? ==> r.value.View() == old(View()).Split(anotherInode, anotherFileType, anotherName).result.value
    {
      var step := View().Split(anotherInode, anotherFileType, anotherName);
      Set(step.entry);
      if step.result.Err? {
        return Err(step.result.error);
      }
      var another := new DirEntry.Of(step.result.value);
      return Ok(another);
    }

    method GrowBefore(size: int16) returns (r: Result<()>)
      modifies this
      ensures View() == old(View()).GrowBefore(size).entry
      ensures r == old(View()).GrowBefore(size).result
    {
      position := position - size;
      r := GrowAfter(size);
    }

    method GrowAfter(size: int16) returns (r: Result<()>)
      modifies this
      ensures View() == old(View()).GrowAfter(size).entry
      ensures r == old(View()).GrowAfter(size).result
    {
      length := Wrap16(length + size);
      dirty := true;
      r := if Invariant(View()) then Ok(()) else Err(AssertionFailure);
    }

    method Init(anotherInode: int32, anotherFileType: FT.FileType, anotherName: seq<byte>) returns (r: Result<()>)
      requires Invariant(View())
      modifies this
      ensures View() == old(View()).Init(anotherInode, anotherFileType, anotherName).entry
      ensures r == old(View()).Init(anotherInode, anotherFileType, anotherName).result
    {
      var step := View().Init(anotherInode, anotherFileType, anotherName);
      Set(step.entry);
      r := step.result;
    }

    method Delete()
      requires Invariant(View())
      modifies this
      ensures View() == old(View()).Delete()
    {
      if inode == NULL {
        return;
      }
      inode, name, dirty := NULL, [], true;
    }
  }
}
