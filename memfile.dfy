/** The in-memory stream that the memory loaders read a whole book from:
    `MEMORY_FILE` with `mread`, `mseek` and `mtell` (src/read.c). */
module MemFile {
  import opened Common

  /** The origins mseek accepts, with the values of <stdio.h>. */
  const SEEK_SET: int := 0
  const SEEK_CUR: int := 1
  const SEEK_END: int := 2

  /** The position mseek moves to from `pos` in a stream of `length` bytes,
      or None when it refuses the request. Unlike fseek, SEEK_END counts the
      offset backwards from the end. */
  function SeekTarget(pos: int, length: int, offset: int, origin: int): (r: Option<int>)
    ensures r.Some? ==> 0 <= r.value <= length
    ensures origin != SEEK_SET && origin != SEEK_CUR && origin != SEEK_END ==> r.None?
  {
    if origin == SEEK_SET then
      if 0 <= offset <= length then Some(offset) else None
    else if origin == SEEK_CUR then
      if 0 <= offset + pos <= length then Some(offset + pos) else None
    else if origin == SEEK_END then
      if 0 <= offset <= length then Some(length - offset) else None
    else None
  }

  /** A relative seek that succeeds can be undone by the opposite one. */
  lemma SeekCurUndone(pos: int, length: int, diff: int)
    requires 0 <= pos <= length && SeekTarget(pos, length, diff, SEEK_CUR).Some?
    ensures SeekTarget(SeekTarget(pos, length, diff, SEEK_CUR).value, length, -diff, SEEK_CUR) == Some(pos)
  {
  }

  /** `MEMORY_FILE`: a buffer, its length and the current position. */
  class MemoryFile {
    const fileBuffer: seq<u8>
    const fileLength: int
    var currentFilePosition: int

    /** The stream invariant `0 <= pos <= len`. */
    predicate Valid()
      reads this
    {
      fileLength == |fileBuffer| && 0 <= currentFilePosition <= fileLength
    }

    /** The stream that loadmemory sets up over the caller's buffer. */
    constructor (buffer: seq<u8>)
      ensures Valid() && fileBuffer == buffer && currentFilePosition == 0
    {
      fileBuffer := buffer;
      fileLength := |buffer|;
      currentFilePosition := 0;
    }

    /** `mread`: copies up to `length` bytes from the current position and
        advances by the number copied, which it returns. */
    method Read(length: int) returns (data: seq<u8>, size: int)
      requires Valid() && length >= 0
      modifies this
      ensures Valid()
      ensures size == Min(length, fileLength - old(currentFilePosition))
      ensures currentFilePosition == old(currentFilePosition) + size
      ensures data == fileBuffer[old(currentFilePosition)..currentFilePosition]
    {
      size := length;
      if size + currentFilePosition > fileLength {
        size := fileLength - currentFilePosition;
      }
      data := fileBuffer[currentFilePosition..currentFilePosition + size];
      currentFilePosition := currentFilePosition + size;
    }

    /** `mseek`: returns 0 and moves when the target lies in the stream,
        otherwise returns 1 and stays. */
    method Seek(offset: int, origin: int) returns (r: int)
      requires Valid()
      modifies this
      ensures Valid()
      ensures r == (if SeekTarget(old(currentFilePosition), fileLength, offset, origin).Some? then 0 else 1)
      ensures currentFilePosition ==
        (if r == 0 then SeekTarget(old(currentFilePosition), fileLength, offset, origin).value
         else old(currentFilePosition))
    {
      if origin == SEEK_SET {
        if offset >= 0 && offset <= fileLength {
          currentFilePosition := offset;
          return 0;
        }
      } else if origin == SEEK_CUR {
        if offset + currentFilePosition >= 0 && offset + currentFilePosition <= fileLength {
          currentFilePosition := offset + currentFilePosition;
          return 0;
        }
      } else if origin == SEEK_END {
        if offset >= 0 && offset <= fileLength {
          currentFilePosition := fileLength - offset;
          return 0;
        }
      }
      return 1;
    }

    /** `mtell`. */
    method Tell() returns (p: int)
      requires Valid()
      ensures p == currentFilePosition && 0 <= p <= fileLength
    {
      p := currentFilePosition;
    }
  }
}
