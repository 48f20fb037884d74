/** Outcomes of operations that the file system reports by throwing. */
module Wrappers {

  /** The exception kinds the modelled code throws, one constructor per kind. */
  datatype Error =
    | IllegalArgument      // IllegalArgumentException
    | IllegalState         // IllegalStateException
    | IndexOutOfBounds     // IndexOutOfBoundsException
    | BufferUnderflow      // reading past the end of a ByteBuffer
    | BufferOverflow       // writing past the end of a ByteBuffer
    | NegativeArraySize    // NegativeArraySizeException: an array allocated with a negative length
    | AssertionFailure     // a Java `assert` that does not hold (assertions enabled)
    | NullArgument         // NullPointerException from Objects.requireNonNull
    | NoSuchFile           // NoSuchFileException
    | DirectoryNotEmpty    // DirectoryNotEmptyException
    | InvalidPath          // InvalidPathException
    | NoSuchElement        // NoSuchElementException: `getFirst`/`getLast` of an empty list
    | BitmapRegionOutOfMemory
    | IndirectBlockNotEnoughSpace
    | DirEntryNotEnoughSpace
    | DirEntryListOutOfMemory
    | DirectoryOutOfMemory
    | DataOutOfMemory

  datatype Result<T> = Ok(value: T) | Err(error: Error) {
    predicate IsFailure() { Err? }
  }

  datatype Option<T> = None | Some(value: T)
}
