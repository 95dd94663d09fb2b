/**
 An in-memory stand-in for a file opened with "rb": a fixed byte sequence
 and a read cursor, with Python's `read(n)` and absolute `seek(offset, 0)`.
 */
module ByteStream {

  newtype byte = x: int | 0 <= x < 0x100

  function Min(a: nat, b: nat): nat
  {
    if a <= b then a else b
  }

  /**
   What `read(n)` returns at cursor pos: at most n bytes, fewer near the end,
   none at or past the end (a cursor may lie past the end after a seek).
   */
  function Slice(s: seq<byte>, pos: nat, n: nat): (chunk: seq<byte>)
    ensures |chunk| == if pos < |s| then Min(n, |s| - pos) else 0
    ensures pos < |s| ==> chunk == s[pos..pos + |chunk|]
  {
    if pos < |s| then s[pos..Min(pos + n, |s|)] else []
  }

  /** A read is full exactly when the n bytes lie inside the file. */
  lemma SliceFull(s: seq<byte>, pos: nat, n: nat)
    ensures |Slice(s, pos, n)| == n <==> n == 0 || pos + n <= |s|
    ensures pos + n <= |s| ==> Slice(s, pos, n) == s[pos..pos + n]
  {
  }

  class FileHandle {
    const bytes: seq<byte>
    var pos: nat

    /** A freshly opened file: the cursor is at the start. */
    constructor (contents: seq<byte>)
      ensures bytes == contents && pos == 0
    {
      bytes := contents;
      pos := 0;
    }

    /** `read(n)`: returns the next bytes and moves the cursor past them. */
    method Read(n: nat) returns (chunk: seq<byte>)
      modifies this
      ensures chunk == Slice(bytes, old(pos), n)
      ensures pos == old(pos) + |chunk|
    {
      chunk := Slice(bytes, pos, n);
      pos := pos + |chunk|;
    }

    /** `seek(offset, 0)`: moves the cursor to an absolute position. */
    method Seek(offset: nat)
      modifies this
      ensures pos == offset
    {
      pos := offset;
    }
  }
}
