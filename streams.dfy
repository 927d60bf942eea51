/** The two java.io streams the frame copies bytes through. Both work on a
    caller-supplied buffer, one chunk per call. */
module Streams {
  import opened Model

  /** An input stream over a fixed byte sequence (a file, or an HTTP response body).
      `read` may return fewer bytes than the buffer holds; which count it returns is
      not determined, so every chunking is covered. */
  class InputStream {
    const data: seq<Byte>
    var pos: nat

    ghost predicate Valid()
      reads this
    {
      pos <= |data|
    }

    constructor (data: seq<Byte>)
      ensures Valid() && this.data == data && pos == 0
    {
      this.data := data;
      pos := 0;
    }

    /** `read(buffer)`: -1 at end of stream, otherwise between 1 and
        `buffer.Length` of the next bytes, placed at the start of `buffer`. */
    method Read(buffer: array<Byte>) returns (n: int)
      requires Valid() && buffer.Length > 0
      modifies this, buffer
      ensures Valid()
      ensures old(pos) == |data| ==> n == -1 && pos == old(pos)
      ensures old(pos) < |data| ==>
        && 0 < n <= buffer.Length
        && pos == old(pos) + n
        && buffer[..n] == data[old(pos)..pos]
    {
      if pos == |data| {
        return -1;
      }
      n :| 0 < n <= buffer.Length && n <= |data| - pos;
      forall k | 0 <= k < n {
        buffer[k] := data[pos + k];
      }
      pos := pos + n;
    }
  }

  /** How the disk behaves for one destination path. */
  datatype Disk =
    | Writable                 // every write succeeds
    | OpenFails                // the file cannot be opened for writing
    | FullAfter(limit: nat)    // writes beyond `limit` bytes throw

  /** A `FileOutputStream` opened (and so truncated) on a path; `written` is what the
      file holds so far. */
  class FileOutputStream {
    const capacity: Option<nat>
    var written: seq<Byte>

    constructor (capacity: Option<nat>)
      ensures this.capacity == capacity && written == []
    {
      this.capacity := capacity;
      written := [];
    }

    /** `write(buffer, offset, len)`: appends the bytes, or as many as fit and then
        reports the exception (`ok == false`). */
    method Write(buffer: array<Byte>, offset: nat, len: nat) returns (ok: bool)
      requires offset + len <= buffer.Length
      requires capacity.Some? ==> |written| <= capacity.value
      modifies this
      ensures capacity.Some? ==> |written| <= capacity.value
      ensures ok <==> capacity.None? || |old(written)| + len <= capacity.value
      ensures ok ==> written == old(written) + buffer[offset..offset + len]
      ensures !ok ==> written == old(written) + buffer[offset..offset + (capacity.value - |old(written)|)]
    {
      if capacity.None? || |written| + len <= capacity.value {
        written := written + buffer[offset..offset + len];
        ok := true;
      } else {
        written := written + buffer[offset..offset + (capacity.value - |written|)];
        ok := false;
      }
    }
  }
}
