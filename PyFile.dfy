/** Python binary file objects, as far as the tool uses them: an input file opened
    with "rb" (a read-only byte sequence and a cursor) and an output file opened
    with "wb" (truncated on open, appended to by write). */
module PyFile {

  /** One element of a Python `bytes` object. */
  type byte = bv8

  function Min(a: int, b: int): int { if a <= b then a else b }

  /** What `read(n)` returns when the cursor is at `pos`: at most `n` bytes, fewer
      when the file ends first, and nothing at or past the end of the file. */
  function ReadAt(data: seq<byte>, pos: nat, n: nat): (r: seq<byte>)
    ensures |r| == if pos < |data| then Min(n, |data| - pos) else 0
    ensures forall i :: 0 <= i < |r| ==> r[i] == data[pos + i]
  {
    if pos < |data| then data[pos..Min(pos + n, |data|)] else []
  }

  /** Reading one byte. */
  lemma {:induction false} ReadOne(data: seq<byte>, pos: nat)
    ensures ReadAt(data, pos, 1) == if pos < |data| then [data[pos]] else []
  {
  }

  /** Reading two bytes: both, or fewer at the end of the file. */
  lemma {:induction false} ReadTwo(data: seq<byte>, pos: nat)
    ensures pos + 2 <= |data| ==> ReadAt(data, pos, 2) == [data[pos], data[pos + 1]]
    ensures pos + 2 > |data| ==> |ReadAt(data, pos, 2)| < 2
  {
  }

  /** A file opened for binary reading. The contents never change; only the
      cursor moves. The cursor may be placed past the end by `seek`. */
  class InputFile {
    const data: seq<byte>
    var pos: nat

    constructor Open(contents: seq<byte>)
      ensures data == contents && pos == 0
    {
      data := contents;
      pos := 0;
    }

    /** `tell()` */
    method Tell() returns (p: nat)
      ensures p == pos
    {
      p := pos;
    }

    /** `read(n)`: returns the available bytes and moves the cursor past them. */
    method Read(n: nat) returns (b: seq<byte>)
      modifies this
      ensures b == ReadAt(data, old(pos), n)
      ensures pos == old(pos) + |b|
    {
      b := ReadAt(data, pos, n);
      pos := pos + |b|;
    }

    /** `seek(p)`: absolute positioning, allowed past the end of the file. */
    method Seek(p: nat)
      modifies this
      ensures pos == p
    {
      pos := p;
    }

    /** `seek(off, 1)`: positioning relative to the cursor. */
    method SeekRelative(off: int)
      requires pos + off >= 0
      modifies this
      ensures pos == old(pos) + off
    {
      pos := pos + off;
    }

    /** `seek(0, 2)`: positioning at the end of the file. */
    method SeekEnd()
      modifies this
      ensures pos == |data|
    {
      pos := |data|;
    }
  }

  /** A file opened for binary writing: opening truncates it. */
  class OutputFile {
    var contents: seq<byte>

    constructor Create()
      ensures contents == []
    {
      contents := [];
    }

    /** `write(b)`: appends at the end. */
    method Write(b: seq<byte>)
      modifies this
      ensures contents == old(contents) + b
    {
      contents := contents + b;
    }
  }
}
