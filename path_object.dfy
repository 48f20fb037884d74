/** The path object (AtlantPath): its file system and bytes never change; the name offsets and the
    resolved absolute form are computed on first use and kept in fields. */
module PathObject {
  import opened Wrappers
  import opened Bytes
  import opened PathNames
  import opened PathResolve
  import opened PathOps

  /** `getResolvedPath`: the path made absolute, then resolved. */
  function ResolvedPath(p: seq<byte>): (r: seq<byte>)
  {
    Resolved(ToAbsolute(p))
  }

  /** The resolved form is absolute, and a path already absolute is resolved as it is. */
  lemma ResolvedPathAbsolute(p: seq<byte>)
    ensures IsAbsolute(ResolvedPath(p))
    ensures IsAbsolute(p) ==> ResolvedPath(p) == Resolved(p)
  {
    ResolvedKeepsAbsolute(ToAbsolute(p));
  }

  class Path {
    /** The file system the path belongs to, by identity. */
    const fileSystem: nat
    const bytes: seq<byte>
    var offsets: Option<seq<nat>>
    var resolved: Option<seq<byte>>

    /** What the fields hold once filled. */
    ghost predicate Valid()
      reads this
    {
      (offsets.Some? ==> offsets.value == Offsets(bytes)) &&
      (resolved.Some? ==> resolved.value == ResolvedPath(bytes))
    }

    /** The constructor that keeps the bytes as given; nothing is computed yet. */
    constructor (fileSystem: nat, bytes: seq<byte>)
      ensures Valid() && this.fileSystem == fileSystem && this.bytes == bytes
      ensures offsets.None? && resolved.None?
    {
      this.fileSystem := fileSystem;
      this.bytes := bytes;
      offsets := None;
      resolved := None;
    }

    /** `initOffsets`: fills `offsets` unless already there. */
    method InitOffsets()
      requires Valid()
      modifies this
      ensures Valid() && offsets == Some(Offsets(bytes)) && resolved == old(resolved)
    {
      if offsets.Some? {
        return;
      }
      var result := PathNames.InitOffsets(bytes);
      offsets := Some(result);
    }

    /** `getNameCount`. */
    method GetNameCount() returns (n: nat)
      requires Valid()
      modifies this
      ensures Valid() && n == NameCount(bytes) && offsets == Some(Offsets(bytes)) && resolved == old(resolved)
    {
      InitOffsets();
      n := |offsets.value|;
    }

    /** `getResolvedPath`: the kept value, or the resolved form of this path when absolute, or of the
        path made absolute otherwise, then kept. */
    method GetResolvedPath() returns (r: seq<byte>)
      requires Valid()
      modifies this
      ensures Valid() && r == ResolvedPath(bytes) && resolved == Some(r) && offsets == old(offsets)
      decreases if IsAbsolute(bytes) then 0 else 1
    {
      if resolved.Some? {
        return resolved.value;
      }
      if IsAbsolute(bytes) {
        r := GetResolved(bytes);
      } else {
        var absolute := new Path(fileSystem, ToAbsolute(bytes));
        r := absolute.GetResolvedPath();
      }
      resolved := Some(r);
    }

    /** `equals`: a path of the same file system whose bytes compare equal. */
    method Equals(other: Path) returns (b: bool)
      ensures b <==> other.fileSystem == fileSystem && other.bytes == bytes
    {
      var cmp := CompareTo(bytes, other.bytes);
      b := other.fileSystem == fileSystem && cmp == 0;
      CompareZero(bytes, other.bytes);
    }
  }
}
