/** The one-byte file type code stored in directory entries. */
module FileType {
  import opened Wrappers
  import opened Bytes

  datatype FileType = Unknown | RegularFile | Directory {
    function Code(): byte {
      match this
      case Unknown => 0
      case RegularFile => 1
      case Directory => 2
    }
  }

  /** Bytes a file type occupies. */
  const LENGTH: nat := 1

  /** `FileType.read`: the first byte names the type; any other code is rejected. */
  function Read(s: seq<byte>): (r: Result<FileType>)
    ensures |s| == 0 ==> r == Err(BufferUnderflow)
    ensures |s| > 0 ==> (r.Ok? <==> s[0] <= 2)
    ensures |s| > 0 && s[0] > 2 ==> r == Err(IllegalArgument)
    ensures r.Ok? ==> r.value.Code() == s[0]
  {
    if |s| == 0 then Err(BufferUnderflow)
    else if s[0] == 0 then Ok(Unknown)
    else if s[0] == 1 then Ok(RegularFile)
    else if s[0] == 2 then Ok(Directory)
    else Err(IllegalArgument)
  }

  /** `write`: one byte holding the type's code. */
  function Write(t: FileType): (r: seq<byte>)
    ensures |r| == LENGTH && r[0] == t.Code()
  {
    [t.Code()]
  }

  /** Writing a type and reading it back gives the type, whatever follows it in the buffer. */
  lemma {:induction false} ReadWrite(t: FileType, rest: seq<byte>)
    ensures Read(Write(t) + rest) == Ok(t)
  {
    assert (Write(t) + rest)[0] == t.Code();
  }

  /** Distinct types have distinct codes. */
  lemma {:induction false} CodeInjective(a: FileType, b: FileType)
    ensures a.Code() == b.Code() ==> a == b
  {
  }
}
