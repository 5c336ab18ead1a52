/** The marker scanner and segment rewriter of ajfiftool.py.

    Each Python function becomes a method over an `InputFile` (its cursor moves
    exactly as the Python code moves it) and is proved equal to a function that
    says what it computes. Properties of those functions are in AjfifToolProofs. */
module AjfifTool {
  import opened PyFile
  import opened Markers

  /** `seek_next` with the cursor at `loc`: the entry it returns and the cursor it
      leaves. The entry's length counts the marker, so the cursor always ends at
      `loc + len`; for SOS and EOI that is the end of the file. */
  function NextSegment(data: seq<byte>, loc: nat): (r: Result<(Entry, nat)>)
    ensures r.Ok? ==> loc + 2 <= |data| && data[loc] == MarkerLead
    ensures r.Ok? ==> r.value.0.loc == loc && r.value.0.tag == data[loc + 1]
    ensures r.Ok? ==> r.value.0.len >= 2 && r.value.1 == loc + r.value.0.len
    ensures r.Ok? && (r.value.0.tag == SOS || r.value.0.tag == EOI) ==> r.value.1 == |data|
    ensures r.Ok? && r.value.0.tag != SOS && r.value.0.tag != EOI ==>
      loc + 4 <= |data| && r.value.0.len == BigEndian16(data[loc + 2], data[loc + 3]) + 2
    ensures r.Ok? <==> (loc + 2 <= |data| && data[loc] == MarkerLead &&
      (data[loc + 1] == SOS || data[loc + 1] == EOI || loc + 4 <= |data|))
  {
    if |data| < loc + 2 || data[loc] != MarkerLead then Fail
    else if data[loc + 1] == SOS || data[loc + 1] == EOI then
      Ok((Entry(loc, data[loc + 1], |data| - loc), |data|))
    else if |data| < loc + 4 then Fail
    else
      var field := BigEndian16(data[loc + 2], data[loc + 3]);
      Ok((Entry(loc, data[loc + 1], field + 2), loc + field + 2))
  }

  /** The loop of `create_toc` from cursor `pos`: entries up to and including the
      first SOS. */
  function TocFrom(data: seq<byte>, pos: nat): Result<seq<Entry>>
    decreases |data| - pos
  {
    match NextSegment(data, pos)
    case Fail => Fail
    case Ok((e, next)) =>
      if e.tag == SOS then Ok([e])
      else PrependAll([e], TocFrom(data, next))
  }

  /** `create_toc`: the table of contents after the SOI marker, or failure. */
  function Toc(data: seq<byte>): Result<seq<Entry>>
  {
    if |data| < 2 || data[0] != MarkerLead || data[1] != SOI then Fail
    else TocFrom(data, 2)
  }

  /** `check_holokote`: an APP0 entry whose bytes at `loc` are FF E0 and whose 15
      bytes after the 2-byte length field are the signature. */
  predicate IsWatermark(data: seq<byte>, e: Entry)
  {
    e.tag == APP0 && e.loc + 19 <= |data| &&
    data[e.loc] == MarkerLead && data[e.loc + 1] == APP0 &&
    data[e.loc + 4..e.loc + 19] == Signature
  }

  /** What the loop of `patch_command` writes after the SOI marker for the entries
      of `toc` from index `i` on, with the input cursor at `cursor`: one `Piece`
      per entry. */
  function PatchedBody(data: seq<byte>, toc: seq<Entry>, i: nat, cursor: nat, patchSize: nat): seq<byte>
    decreases |toc| - i
  {
    if |toc| <= i then []
    else
      Piece(data, toc[i], cursor, patchSize) +
      PatchedBody(data, toc, i + 1, CursorAfter(data, toc[i], cursor, patchSize), patchSize)
  }

  /** What `patch_command` writes for entry `e`: for a watermark, the next
      `patchSize` bytes of the INPUT file from the cursor; for any other entry,
      its own bytes as `read_entry` returns them. */
  function Piece(data: seq<byte>, e: Entry, cursor: nat, patchSize: nat): seq<byte>
  {
    if IsWatermark(data, e) then ReadAt(data, cursor, patchSize) else ReadAt(data, e.loc, e.len)
  }

  /** Where the input cursor is after `Piece` has been read. */
  function CursorAfter(data: seq<byte>, e: Entry, cursor: nat, patchSize: nat): nat
  {
    if IsWatermark(data, e) then cursor + |ReadAt(data, cursor, patchSize)|
    else e.loc + |ReadAt(data, e.loc, e.len)|
  }

  /** The piece of a watermark entry is read from the cursor, whatever the entry. */
  lemma {:induction false} WatermarkPiece(data: seq<byte>, e: Entry, cursor: nat, patchSize: nat)
    requires IsWatermark(data, e)
    ensures Piece(data, e, cursor, patchSize) == ReadAt(data, cursor, patchSize)
    ensures CursorAfter(data, e, cursor, patchSize) == cursor + |ReadAt(data, cursor, patchSize)|
  {
  }

  /** The piece of any other entry is the entry itself, whatever the cursor. */
  lemma {:induction false} CopiedPiece(data: seq<byte>, e: Entry, cursor: nat, patchSize: nat)
    requires !IsWatermark(data, e)
    ensures Piece(data, e, cursor, patchSize) == ReadAt(data, e.loc, e.len)
    ensures CursorAfter(data, e, cursor, patchSize) == e.loc + |ReadAt(data, e.loc, e.len)|
  {
  }

  lemma {:induction false} AppendAssoc(a: seq<byte>, b: seq<byte>, c: seq<byte>)
    ensures a + (b + c) == (a + b) + c
  {
  }

  /** Where the input cursor is once the loop of `patch_command` has handled the
      first `n` entries of `toc`, having started at `start`. */
  function CursorAt(data: seq<byte>, toc: seq<Entry>, n: nat, start: nat, patchSize: nat): nat
    requires n <= |toc|
  {
    if n == 0 then start
    else CursorAfter(data, toc[n - 1], CursorAt(data, toc, n - 1, start, patchSize), patchSize)
  }

  /** The output file once the loop of `patch_command` has handled the first `n`
      entries, `before` being what it held when the loop began. */
  function Written(data: seq<byte>, toc: seq<Entry>, n: nat, start: nat, patchSize: nat, before: seq<byte>): seq<byte>
    requires n <= |toc|
  {
    if n == 0 then before else
      Written(data, toc, n - 1, start, patchSize, before) +
      Piece(data, toc[n - 1], CursorAt(data, toc, n - 1, start, patchSize), patchSize)
  }

  /** What is written so far, then `PatchedBody` from the current entry and cursor
      on, is always what was there plus the whole `PatchedBody`: the loop neither
      loses nor repeats a piece. */
  lemma {:induction false} WrittenThenRest(data: seq<byte>, toc: seq<Entry>, n: nat, start: nat, patchSize: nat, before: seq<byte>)
    requires n <= |toc|
    ensures Written(data, toc, n, start, patchSize, before) +
      PatchedBody(data, toc, n, CursorAt(data, toc, n, start, patchSize), patchSize) ==
      before + PatchedBody(data, toc, 0, start, patchSize)
  {
    if n > 0 {
      var k := n - 1;
      var c := CursorAt(data, toc, k, start, patchSize);
      WrittenThenRest(data, toc, k, start, patchSize, before);
      AppendAssoc(Written(data, toc, k, start, patchSize, before), Piece(data, toc[k], c, patchSize),
        PatchedBody(data, toc, n, CursorAfter(data, toc[k], c, patchSize), patchSize));
    }
  }

  /** Once every entry has been handled, the loop has appended all of `PatchedBody`. */
  lemma {:induction false} WrittenAll(data: seq<byte>, toc: seq<Entry>, start: nat, patchSize: nat, before: seq<byte>)
    ensures Written(data, toc, |toc|, start, patchSize, before) == before + PatchedBody(data, toc, 0, start, patchSize)
  {
    WrittenThenRest(data, toc, |toc|, start, patchSize, before);
    assert PatchedBody(data, toc, |toc|, CursorAt(data, toc, |toc|, start, patchSize), patchSize) == [];
  }

  /** What `patch_command` evidently means to write: the patch file's contents in
      place of each watermark entry, every other entry verbatim. */
  function IntendedPatchedBody(data: seq<byte>, toc: seq<Entry>, i: nat, patch: seq<byte>): seq<byte>
    decreases |toc| - i
  {
    if |toc| <= i then []
    else IntendedPiece(data, toc[i], patch) + IntendedPatchedBody(data, toc, i + 1, patch)
  }

  /** What the corrected patch writes for entry `e`. */
  function IntendedPiece(data: seq<byte>, e: Entry, patch: seq<byte>): seq<byte>
  {
    if IsWatermark(data, e) then patch else ReadAt(data, e.loc, e.len)
  }

  /** The index of the last watermark entry, which is the one `dump_command` leaves
      in its output file. */
  function LastWatermarkIndex(data: seq<byte>, toc: seq<Entry>): (r: Option<nat>)
    ensures r.None? <==> forall j :: 0 <= j < |toc| ==> !IsWatermark(data, toc[j])
    ensures r.Some? ==> r.value < |toc| && IsWatermark(data, toc[r.value])
    ensures r.Some? ==> forall j :: r.value < j < |toc| ==> !IsWatermark(data, toc[j])
    decreases |toc|
  {
    if |toc| == 0 then None
    else if IsWatermark(data, toc[|toc| - 1]) then Some(|toc| - 1)
    else LastWatermarkIndex(data, toc[..|toc| - 1])
  }

  /** The first half of `seek_next`: the 0xFF lead byte and the tag byte. A
      missing or wrong lead byte, or no tag byte, raises. */
  method ReadMarker(f: InputFile) returns (tag: Result<byte>)
    modifies f
    ensures tag.Ok? <==> old(f.pos) + 2 <= |f.data| && f.data[old(f.pos)] == MarkerLead
    ensures tag.Ok? ==> tag.value == f.data[old(f.pos) + 1] && f.pos == old(f.pos) + 2
  {
    ReadOne(f.data, f.pos);
    var lead := f.Read(1);
    if lead != [MarkerLead] {
      return Fail;
    }
    ReadOne(f.data, f.pos);
    var tagByte := f.Read(1);
    tag := UnpackByte(tagByte);
  }

  /** The big-endian length field of `seek_next`; fewer than two bytes left
      raises. */
  method ReadLength(f: InputFile) returns (len: Result<nat>)
    modifies f
    ensures len.Ok? <==> old(f.pos) + 2 <= |f.data|
    ensures len.Ok? ==> len.value == BigEndian16(f.data[old(f.pos)], f.data[old(f.pos) + 1])
    ensures len.Ok? ==> f.pos == old(f.pos) + 2
  {
    ReadTwo(f.data, f.pos);
    var lengthField := f.Read(2);
    len := UnpackBE16(lengthField);
  }

  /** `seek_next`. */
  method SeekNext(f: InputFile) returns (r: Result<Entry>)
    modifies f
    ensures r.Ok? == NextSegment(f.data, old(f.pos)).Ok?
    ensures r.Ok? ==> NextSegment(f.data, old(f.pos)).value == (r.value, f.pos)
  {
    var loc := f.Tell();
    var tag := ReadMarker(f);
    if tag.Fail? {
      return Fail;
    }
    if tag.value == SOS || tag.value == EOI {
      f.SeekEnd();
      var end := f.Tell();
      return Ok(Entry(loc, tag.value, end - loc));
    }
    var len := ReadLength(f);
    if len.Fail? {
      return Fail;
    }
    f.SeekRelative(len.value as int - 2);
    return Ok(Entry(loc, tag.value, len.value + 2));
  }

  /** `create_toc`: on success the cursor is back at the start of the file. */
  method CreateToc(f: InputFile) returns (r: Result<seq<Entry>>)
    modifies f
    ensures r == Toc(f.data)
    ensures r.Ok? ==> f.pos == 0
  {
    f.Seek(0);
    var magic := f.Read(2);
    if magic != [MarkerLead, SOI] {
      return Fail;
    }
    assert f.pos == 2 && Toc(f.data) == TocFrom(f.data, 2);
    var toc: seq<Entry> := [];
    PrependNothing(TocFrom(f.data, f.pos));
    while true
      invariant Toc(f.data) == PrependAll(toc, TocFrom(f.data, f.pos))
      decreases |f.data| - f.pos
    {
      ghost var here := f.pos;
      var e := SeekNext(f);
      if e.Fail? {
        return Fail;
      }
      assert TocFrom(f.data, here) == if e.value.tag == SOS then Ok([e.value])
        else PrependAll([e.value], TocFrom(f.data, f.pos));
      PrependTwice(toc, e.value, TocFrom(f.data, f.pos));
      toc := toc + [e.value];
      if e.value.tag == SOS {
        f.Seek(0);
        return Ok(toc);
      }
    }
  }

  /** `check_holokote`: the cursor is restored on every path. */
  method CheckHolokote(f: InputFile, e: Entry) returns (b: bool)
    modifies f
    ensures b == IsWatermark(f.data, e)
    ensures f.pos == old(f.pos)
  {
    if e.tag != APP0 {
      return false;
    }
    var saved := f.Tell();
    f.Seek(e.loc);
    var b0 := f.Read(1);
    if b0 != [MarkerLead] {
      f.Seek(saved);
      return false;
    }
    var b1 := f.Read(1);
    if b1 != [APP0] {
      f.Seek(saved);
      return false;
    }
    var _ := f.Read(2);
    var signature := f.Read(15);
    f.Seek(saved);
    return signature == Signature;
  }

  /** `seek_entry`. */
  method SeekEntry(f: InputFile, e: Entry)
    modifies f
    ensures f.pos == e.loc
  {
    f.Seek(e.loc);
  }

  /** `read_entry`: the entry's bytes as far as the file has them; the cursor is
      left after them. */
  method ReadEntry(f: InputFile, e: Entry) returns (b: seq<byte>)
    modifies f
    ensures b == ReadAt(f.data, e.loc, e.len)
    ensures f.pos == e.loc + |b|
  {
    SeekEntry(f, e);
    b := f.Read(e.len);
  }

  /** One turn of the loop of `patch_command`: a watermark entry is replaced by
      `patchSize` bytes read at the cursor, any other entry is read in full. */
  method PatchPiece(fin: InputFile, e: Entry, patchSize: nat) returns (piece: seq<byte>)
    modifies fin
    ensures piece == Piece(fin.data, e, old(fin.pos), patchSize)
    ensures fin.pos == CursorAfter(fin.data, e, old(fin.pos), patchSize)
  {
    ghost var cursor := fin.pos;
    var matched := CheckHolokote(fin, e);
    if matched {
      piece := fin.Read(patchSize);
      WatermarkPiece(fin.data, e, cursor, patchSize);
    } else {
      piece := ReadEntry(fin, e);
      CopiedPiece(fin.data, e, cursor, patchSize);
    }
  }

  /** One turn of the loop of `patch_command`, for entry `i`. */
  method PatchStep(fin: InputFile, fout: OutputFile, toc: seq<Entry>, i: nat, ghost start: nat, patchSize: nat, ghost before: seq<byte>)
    requires i < |toc|
    requires fin.pos == CursorAt(fin.data, toc, i, start, patchSize)
    requires fout.contents == Written(fin.data, toc, i, start, patchSize, before)
    modifies fin, fout
    ensures fin.pos == CursorAt(fin.data, toc, i + 1, start, patchSize)
    ensures fout.contents == Written(fin.data, toc, i + 1, start, patchSize, before)
  {
    var piece := PatchPiece(fin, toc[i], patchSize);
    fout.Write(piece);
  }

  /** The loop of `patch_command` over the entries `toc`. */
  method PatchEntries(fin: InputFile, fout: OutputFile, toc: seq<Entry>, patchSize: nat)
    modifies fin, fout
    ensures fout.contents == old(fout.contents) + PatchedBody(fin.data, toc, 0, old(fin.pos), patchSize)
  {
    ghost var start, before := fin.pos, fout.contents;
    var i := 0;
    while i < |toc|
      invariant 0 <= i <= |toc|
      invariant fin.pos == CursorAt(fin.data, toc, i, start, patchSize)
      invariant fout.contents == Written(fin.data, toc, i, start, patchSize, before)
    {
      PatchStep(fin, fout, toc, i, start, patchSize, before);
      i := i + 1;
    }
    WrittenAll(fin.data, toc, start, patchSize, before);
  }

  /** `patch_command`. The output file is opened (empty) before the scan, so a
      failed scan leaves it empty. The patch file is only measured: its size is
      `patchSize`. */
  method PatchCommand(fin: InputFile, patchSize: nat) returns (fout: OutputFile, ok: bool)
    modifies fin
    ensures fresh(fout)
    ensures ok == Toc(fin.data).Ok?
    ensures !ok ==> fout.contents == []
    ensures ok ==> fout.contents == [MarkerLead, SOI] + PatchedBody(fin.data, Toc(fin.data).value, 0, 0, patchSize)
  {
    fout := new OutputFile.Create();
    var t := CreateToc(fin);
    if t.Fail? {
      return fout, false;
    }
    fout.Write([MarkerLead, SOI]);
    PatchEntries(fin, fout, t.value, patchSize);
    return fout, true;
  }

  /** One turn of the corrected loop: the patch in place of a watermark entry, any
      other entry's own bytes. What is written plus what remains to be written
      stays the same. */
  method CorrectedPatchStep(fin: InputFile, fout: OutputFile, toc: seq<Entry>, i: nat, patch: seq<byte>)
    requires i < |toc|
    modifies fin, fout
    ensures fout.contents + IntendedPatchedBody(fin.data, toc, i + 1, patch) ==
      old(fout.contents) + IntendedPatchedBody(fin.data, toc, i, patch)
  {
    var matched := CheckHolokote(fin, toc[i]);
    var piece;
    if matched {
      piece := patch;
    } else {
      piece := ReadEntry(fin, toc[i]);
    }
    AppendAssoc(old(fout.contents), piece, IntendedPatchedBody(fin.data, toc, i + 1, patch));
    fout.Write(piece);
  }

  /** `patch_command` as evidently intended: the contents `patch` of the patch file
      in place of every watermark entry, every other entry verbatim. */
  method PatchCommandCorrected(fin: InputFile, patch: seq<byte>) returns (fout: OutputFile, ok: bool)
    modifies fin
    ensures fresh(fout)
    ensures ok == Toc(fin.data).Ok?
    ensures !ok ==> fout.contents == []
    ensures ok ==> fout.contents == [MarkerLead, SOI] + IntendedPatchedBody(fin.data, Toc(fin.data).value, 0, patch)
  {
    fout := new OutputFile.Create();
    var t := CreateToc(fin);
    if t.Fail? {
      return fout, false;
    }
    fout.Write([MarkerLead, SOI]);
    var toc := t.value;
    var i := 0;
    while i < |toc|
      invariant 0 <= i <= |toc|
      invariant fout.contents + IntendedPatchedBody(fin.data, toc, i, patch) ==
        [MarkerLead, SOI] + IntendedPatchedBody(fin.data, toc, 0, patch)
    {
      CorrectedPatchStep(fin, fout, toc, i, patch);
      i := i + 1;
    }
    assert fout.contents + [] == fout.contents;
    return fout, true;
  }

  /** `dump_command`. Every watermark entry reopens the output file (truncating it)
      and writes the entry's bytes, so the last one wins; with none, no output file
      is created (`fout == null`). */
  method DumpCommand(fin: InputFile) returns (ok: bool, fout: OutputFile?)
    modifies fin
    ensures ok == Toc(fin.data).Ok?
    ensures !ok ==> fout == null
    ensures ok ==> (fout == null <==> LastWatermarkIndex(fin.data, Toc(fin.data).value).None?)
    ensures fout != null ==> fresh(fout)
    ensures ok && fout != null ==>
      var e := Toc(fin.data).value[LastWatermarkIndex(fin.data, Toc(fin.data).value).value];
      fout.contents == ReadAt(fin.data, e.loc, e.len)
  {
    fout := null;
    var t := CreateToc(fin);
    if t.Fail? {
      return false, null;
    }
    var toc := t.value;
    var i := 0;
    while i < |toc|
      invariant 0 <= i <= |toc|
      invariant fout == null <==> LastWatermarkIndex(fin.data, toc[..i]).None?
      invariant fout != null ==> fresh(fout)
      invariant fout != null ==>
        var k := LastWatermarkIndex(fin.data, toc[..i]).value;
        k < i && fout.contents == ReadAt(fin.data, toc[k].loc, toc[k].len)
    {
      var e := toc[i];
      assert toc[..i + 1][..i] == toc[..i];
      var matched := CheckHolokote(fin, e);
      if matched {
        fout := new OutputFile.Create();
        SeekEntry(fin, e);
        var len := e.len;
        var segment := fin.Read(len);
        fout.Write(segment);
      }
      i := i + 1;
    }
    assert toc[..i] == toc;
    return true, fout;
  }
}
