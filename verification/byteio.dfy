/**
 Byte-level reads and writes on a file's content, as performed by Python's
 binary file objects: `f.seek(offset)` followed by `f.read(n)` or
 `f.write(data)`. A file is modelled as its byte content only.
 */
module ByteIO {

  type byte = bv8
  type Bytes = seq<byte>

  function Max(a: int, b: int): int {
    if a < b then b else a
  }

  /**
   True when `file` holds `pattern` byte for byte starting at `offset`. The
   empty pattern is found everywhere, even past the end of the file.
   */
  predicate Matches(file: Bytes, offset: nat, pattern: Bytes) {
    || |pattern| == 0
    || (&& offset + |pattern| <= |file|
        && forall k :: 0 <= k < |pattern| ==> file[offset + k] == pattern[k])
  }

  /**
   Seek to `offset`, then read at most `n` bytes. Reading at or past the end
   of the file yields nothing; a read that crosses the end is cut short.
   */
  function ReadAt(file: Bytes, offset: nat, n: nat): (r: Bytes)
    ensures |r| <= n
    ensures |r| == n <==> offset + n <= |file| || n == 0
    ensures offset < |file| ==> |r| == Max(0, if offset + n <= |file| then n else |file| - offset)
    ensures offset >= |file| ==> r == []
    ensures forall k :: 0 <= k < |r| ==> offset + k < |file| && r[k] == file[offset + k]
  {
    if |file| <= offset then []
    else if offset + n <= |file| then file[offset..offset + n]
    else file[offset..]
  }

  /**
   Seek to `offset`, then write `data` over the bytes found there. The file
   keeps its other bytes; a non-empty write that runs past the end grows the
   file, and a gap between the old end and `offset` reads as zeros. Writing
   nothing leaves the file as it was, wherever the seek went.
   */
  function WriteAt(file: Bytes, offset: nat, data: Bytes): (r: Bytes)
    ensures |data| == 0 ==> r == file
    ensures |data| > 0 ==> |r| == Max(|file|, offset + |data|)
    ensures forall k :: 0 <= k < |data| ==> r[offset + k] == data[k]
    ensures forall i :: 0 <= i < |file| && !(offset <= i < offset + |data|) ==> r[i] == file[i]
    ensures |data| > 0 ==> forall i :: |file| <= i < offset ==> r[i] == 0
  {
    if |data| == 0 then file
    else
      var size := Max(|file|, offset + |data|);
      seq(size, i requires 0 <= i < size =>
        if offset <= i < offset + |data| then data[i - offset]
        else if i < |file| then file[i]
        else 0)
  }

  /** A window read back yields exactly `pattern` iff the file holds it there. */
  lemma ReadAtMatches(file: Bytes, offset: nat, pattern: Bytes)
    ensures ReadAt(file, offset, |pattern|) == pattern <==> Matches(file, offset, pattern)
  {
  }

  /** Bytes just written are found again by reading the same window. */
  lemma WriteAtThenMatches(file: Bytes, offset: nat, data: Bytes)
    ensures Matches(WriteAt(file, offset, data), offset, data)
    ensures ReadAt(WriteAt(file, offset, data), offset, |data|) == data
  {
  }

  /** Writing the same bytes at the same place a second time changes nothing. */
  lemma WriteAtIdempotent(file: Bytes, offset: nat, data: Bytes)
    ensures WriteAt(WriteAt(file, offset, data), offset, data) == WriteAt(file, offset, data)
  {
  }

  /** When the file already holds `data` at `offset`, writing it is a no-op. */
  lemma WriteAtMatchingIsNoop(file: Bytes, offset: nat, data: Bytes)
    requires Matches(file, offset, data)
    ensures WriteAt(file, offset, data) == file
  {
  }
}
