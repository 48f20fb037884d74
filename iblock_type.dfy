/** The one-byte code telling how an inode's i-block area is laid out, and which kind of file owns it. */
module IBlockType {
  import opened Wrappers
  import opened Bytes
  import FT = FileType

  datatype IBlockType =
    | FileInlineData | FileBlockMapping | FileExtentTree
    | DirInlineList | DirBlockMapping | DirTree
  {
    function Code(): byte {
      match this
      case FileInlineData => 1
      case FileBlockMapping => 2
      case FileExtentTree => 3
      case DirInlineList => 4
      case DirBlockMapping => 5
      case DirTree => 6
    }

    /** `getFileType`: the first three layouts belong to regular files, the last three to directories. */
    function FileType(): (t: FT.FileType)
      ensures t == FT.RegularFile <==> Code() <= 3
      ensures t == FT.Directory <==> Code() >= 4
    {
      if FileInlineData? || FileBlockMapping? || FileExtentTree? then FT.RegularFile else FT.Directory
    }
  }

  const LENGTH: nat := 1

  /** `IBlockType.read`: codes 1 to 6; any other byte, 0 included, is rejected. */
  function Read(s: seq<byte>): (r: Result<IBlockType>)
    ensures |s| == 0 ==> r == Err(BufferUnderflow)
    ensures |s| > 0 ==> (r.Ok? <==> 1 <= s[0] <= 6)
    ensures |s| > 0 && !(1 <= s[0] <= 6) ==> r == Err(IllegalArgument)
    ensures r.Ok? ==> r.value.Code() == s[0]
  {
    if |s| == 0 then Err(BufferUnderflow)
    else if s[0] == 1 then Ok(FileInlineData)
    else if s[0] == 2 then Ok(FileBlockMapping)
    else if s[0] == 3 then Ok(FileExtentTree)
    else if s[0] == 4 then Ok(DirInlineList)
    else if s[0] == 5 then Ok(DirBlockMapping)
    else if s[0] == 6 then Ok(DirTree)
    else Err(IllegalArgument)
  }

  function Write(t: IBlockType): (r: seq<byte>)
    ensures |r| == LENGTH && r[0] == t.Code()
  {
    [t.Code()]
  }

  /** Writing a layout code and reading it back gives the layout. */
  lemma {:induction false} ReadWrite(t: IBlockType, rest: seq<byte>)
    ensures Read(Write(t) + rest) == Ok(t)
  {
    assert (Write(t) + rest)[0] == t.Code();
  }

  /** Reading a valid code and writing it back gives the byte read. */
  lemma {:induction false} WriteRead(s: seq<byte>)
    requires Read(s).Ok?
    ensures Write(Read(s).value) == s[..1]
  {
  }
}

/** The later revision of the layout code (`IblockType`): the same six codes and owners, read from the factory table. */
module IblockType {
  import opened Wrappers
  import opened Bytes
  import FT = FileType
  import Old = IBlockType

  datatype IblockType =
    | FileInlineData | FileBlockMapping | FileExtentTree
    | DirInlineList | DirBlockMapping | DirTree
  {
    function Code(): byte {
      match this
      case FileInlineData => 1
      case FileBlockMapping => 2
      case FileExtentTree => 3
      case DirInlineList => 4
      case DirBlockMapping => 5
      case DirTree => 6
    }

    function FileType(): FT.FileType {
      if Code() <= 3 then FT.RegularFile else FT.Directory
    }
  }

  /** `IblockType.read`: codes 1 to 6; any other byte is rejected. */
  function Read(s: seq<byte>): (r: Result<IblockType>)
    ensures |s| > 0 ==> (r.Ok? <==> 1 <= s[0] <= 6)
    ensures r.Ok? ==> |s| > 0 && r.value.Code() == s[0]
  {
    if |s| == 0 then Err(BufferUnderflow)
    else match s[0]
      case 1 => Ok(FileInlineData)
      case 2 => Ok(FileBlockMapping)
      case 3 => Ok(FileExtentTree)
      case 4 => Ok(DirInlineList)
      case 5 => Ok(DirBlockMapping)
      case 6 => Ok(DirTree)
      case _ => Err(IllegalArgument)
  }

  function Write(t: IblockType): (r: seq<byte>)
    ensures |r| == 1 && r[0] == t.Code()
  {
    [t.Code()]
  }

  /** The two revisions agree on every byte: both accept the same codes, for the same owner, and reject the
      rest with the same error. */
  lemma {:induction false} AgreesWithIBlockType(s: seq<byte>)
    ensures Read(s).Ok? <==> Old.Read(s).Ok?
    ensures Read(s).Ok? ==> Read(s).value.Code() == Old.Read(s).value.Code()
    ensures Read(s).Ok? ==> Read(s).value.FileType() == Old.Read(s).value.FileType()
    ensures Read(s).Err? ==> Read(s).error == Old.Read(s).error
  {
  }

  lemma {:induction false} ReadWrite(t: IblockType)
    ensures Read(Write(t)) == Ok(t)
  {
  }
}
