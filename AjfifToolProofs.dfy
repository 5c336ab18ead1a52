/** What the table of contents built by ajfiftool.py guarantees, and what the
    patch and dump commands write as a consequence. */
module AjfifToolProofs {
  import opened PyFile
  import opened Markers
  import opened AjfifTool

  /** The entries tile the byte range [from, to): the first starts at `from`, each
      next one starts where the previous one ends, and the last ends at `to`. */
  ghost predicate Contiguous(toc: seq<Entry>, from: nat, to: nat)
    decreases |toc|
  {
    |toc| > 0 && toc[0].loc == from &&
    if |toc| == 1 then from + toc[0].len == to
    else Contiguous(toc[1..], from + toc[0].len, to)
  }

  /** Where entry `k` ends. */
  function EndOf(toc: seq<Entry>, k: nat): nat
    requires k < |toc|
  {
    toc[k].loc + toc[k].len
  }

  /** `Contiguous` by index: every entry lies inside [from, to), each next one
      starts where the previous one ends, and the first and last entries touch the
      ends of the range. */
  ghost predicate Tiled(toc: seq<Entry>, from: nat, to: nat)
  {
    |toc| > 0 && toc[0].loc == from && EndOf(toc, |toc| - 1) == to &&
    (forall k {:trigger EndOf(toc, k)} :: 0 <= k < |toc| ==> from <= toc[k].loc && EndOf(toc, k) <= to) &&
    (forall k :: 0 <= k < |toc| - 1 ==> EndOf(toc, k) == toc[k + 1].loc)
  }

  /** The entry lies inside the file, counts at least its marker, and the file
      holds its marker bytes where the entry says. */
  ghost predicate Framed(data: seq<byte>, e: Entry)
  {
    e.len >= 2 && e.loc + e.len <= |data| &&
    data[e.loc] == MarkerLead && data[e.loc + 1] == e.tag
  }

  /** The marker at `pos` stops the `create_toc` loop with an exception: no 0xFF
      lead byte, a truncated tag, EOI before SOS, a truncated length field, or a
      length field below 2. */
  ghost predicate ScanStopsAt(data: seq<byte>, pos: nat)
  {
    |data| < pos + 2 || data[pos] != MarkerLead || data[pos + 1] == EOI ||
    (data[pos + 1] != SOS &&
      (|data| < pos + 4 || BigEndian16(data[pos + 2], data[pos + 3]) < 2))
  }

  lemma {:induction false} SliceSplit(s: seq<byte>, a: nat, b: nat, c: nat)
    requires a <= b <= c <= |s|
    ensures s[a..c] == s[a..b] + s[b..c]
  {
  }

  lemma {:induction false} Regroup(a: seq<byte>, b: seq<byte>, c: seq<byte>, d: seq<byte>)
    ensures a + (b + (c + d)) == (a + b) + c + d
  {
  }

  function TotalLen(toc: seq<Entry>): nat
  {
    if |toc| == 0 then 0 else toc[0].len + TotalLen(toc[1..])
  }

  lemma {:induction false} ContiguousTotal(toc: seq<Entry>, from: nat, to: nat)
    requires Contiguous(toc, from, to)
    ensures from + TotalLen(toc) == to
    decreases |toc|
  {
    if |toc| > 1 {
      ContiguousTotal(toc[1..], from + toc[0].len, to);
    }
  }

  /** Entry `i` lies inside [from, to) and, unless it is the last, the next one
      starts where it ends. */
  lemma {:induction false} ContiguousAt(toc: seq<Entry>, from: nat, to: nat, i: nat)
    requires Contiguous(toc, from, to)
    requires i < |toc|
    ensures from <= toc[i].loc && toc[i].loc + toc[i].len <= to
    ensures i + 1 < |toc| ==> toc[i].loc + toc[i].len == toc[i + 1].loc
    ensures i + 1 == |toc| ==> toc[i].loc + toc[i].len == to
    decreases |toc|
  {
    if |toc| > 1 {
      if i == 0 {
        ContiguousAt(toc[1..], from + toc[0].len, to, 0);
      } else {
        ContiguousAt(toc[1..], from + toc[0].len, to, i - 1);
      }
    }
  }

  lemma {:induction false} ContiguousIncreasing(toc: seq<Entry>, from: nat, to: nat, i: nat, j: nat)
    requires Contiguous(toc, from, to)
    requires i < j < |toc|
    ensures toc[i].loc + toc[i].len <= toc[j].loc
    decreases |toc|
  {
    if i == 0 {
      ContiguousAt(toc[1..], from + toc[0].len, to, j - 1);
    } else {
      ContiguousIncreasing(toc[1..], from + toc[0].len, to, i - 1, j - 1);
    }
  }

  lemma {:induction false} ContiguousTiled(toc: seq<Entry>, from: nat, to: nat)
    requires Contiguous(toc, from, to)
    ensures Tiled(toc, from, to)
  {
    forall k | 0 <= k < |toc|
      ensures from <= toc[k].loc && EndOf(toc, k) <= to
    {
      ContiguousAt(toc, from, to, k);
    }
    forall k | 0 <= k < |toc| - 1
      ensures EndOf(toc, k) == toc[k + 1].loc
    {
      ContiguousAt(toc, from, to, k);
    }
    ContiguousAt(toc, from, to, |toc| - 1);
  }

  /** A scan that succeeds from `pos` yields contiguous, framed entries that end at
      the end of the file with the first SOS, and contain no EOI. */
  lemma {:induction false} TocFromShape(data: seq<byte>, pos: nat, toc: seq<Entry>)
    requires TocFrom(data, pos) == Ok(toc)
    ensures Contiguous(toc, pos, |data|)
    ensures toc[|toc| - 1].tag == SOS
    ensures forall i :: 0 <= i < |toc| - 1 ==> toc[i].tag != SOS && toc[i].tag != EOI
    ensures forall i :: 0 <= i < |toc| ==> Framed(data, toc[i])
    decreases |data| - pos
  {
    var (e, next) := NextSegment(data, pos).value;
    if e.tag == SOS {
      assert toc == [e];
    } else {
      var rest := TocFrom(data, next).value;
      assert toc == [e] + rest;
      TocFromShape(data, next, rest);
      assert toc[1..] == rest;
      assert Framed(data, rest[0]);
    }
  }

  /** `create_toc` succeeds only on a file that starts with SOI; its entries then
      tile the rest of the file, are framed, and only the last is SOS. */
  lemma {:induction false} TocWellFormed(data: seq<byte>, toc: seq<Entry>)
    requires Toc(data) == Ok(toc)
    ensures |data| >= 2 && data[0] == MarkerLead && data[1] == SOI
    ensures Contiguous(toc, 2, |data|)
    ensures toc[|toc| - 1].tag == SOS
    ensures forall i :: 0 <= i < |toc| - 1 ==> toc[i].tag != SOS && toc[i].tag != EOI
    ensures forall i :: 0 <= i < |toc| ==> Framed(data, toc[i])
    ensures forall i :: 0 <= i < |toc| - 1 ==>
      toc[i].loc + 4 <= |data| &&
      toc[i].len == BigEndian16(data[toc[i].loc + 2], data[toc[i].loc + 3]) + 2
  {
    TocFromShape(data, 2, toc);
    forall i | 0 <= i < |toc| - 1
      ensures toc[i].loc + 4 <= |data|
      ensures toc[i].len == BigEndian16(data[toc[i].loc + 2], data[toc[i].loc + 3]) + 2
    {
      TocLengthField(data, toc, i);
    }
  }

  /** Every entry before the final SOS carries its big-endian length field plus
      the two marker bytes. */
  lemma {:induction false} TocLengthField(data: seq<byte>, toc: seq<Entry>, i: nat)
    requires Toc(data) == Ok(toc)
    requires i < |toc| - 1
    ensures toc[i].loc + 4 <= |data|
    ensures toc[i].len == BigEndian16(data[toc[i].loc + 2], data[toc[i].loc + 3]) + 2
  {
    TocFromShape(data, 2, toc);
    TocFromSuffix(data, 2, toc, i);
    var e := NextSegment(data, toc[i].loc).value.0;
    assert TocFrom(data, toc[i].loc) == PrependAll([e], TocFrom(data, NextSegment(data, toc[i].loc).value.1));
    assert toc[i..][0] == e;
  }

  /** The part of TocWellFormed most proofs need. */
  lemma {:induction false} TocStartsAndTiles(data: seq<byte>, toc: seq<Entry>)
    requires Toc(data) == Ok(toc)
    ensures |data| >= 2 && data[..2] == [MarkerLead, SOI]
    ensures Tiled(toc, 2, |data|)
  {
    TocWellFormed(data, toc);
    ContiguousTiled(toc, 2, |data|);
  }

  /** The SOI marker and the entries' lengths add up to the file size. */
  lemma {:induction false} TocCoversFile(data: seq<byte>, toc: seq<Entry>)
    requires Toc(data) == Ok(toc)
    ensures 2 + TotalLen(toc) == |data|
  {
    TocWellFormed(data, toc);
    ContiguousTotal(toc, 2, |data|);
  }

  /** Each entry's length leads exactly to the next entry's location. */
  lemma {:induction false} TocContiguousAt(data: seq<byte>, toc: seq<Entry>, i: nat)
    requires Toc(data) == Ok(toc)
    requires i + 1 < |toc|
    ensures toc[i].loc + toc[i].len == toc[i + 1].loc
  {
    TocWellFormed(data, toc);
    ContiguousAt(toc, 2, |data|, i);
  }

  /** Entries are in stream order: each ends at or before the next one starts, so
      locations strictly increase. */
  lemma {:induction false} TocLocIncreasing(data: seq<byte>, toc: seq<Entry>, i: nat, j: nat)
    requires Toc(data) == Ok(toc)
    requires i < j < |toc|
    ensures toc[i].loc + toc[i].len <= toc[j].loc
    ensures toc[i].loc < toc[j].loc
  {
    TocWellFormed(data, toc);
    ContiguousIncreasing(toc, 2, |data|, i, j);
  }

  /** A marker where the scan stops makes the whole scan fail. */
  lemma {:induction false} TocFromFails(data: seq<byte>, pos: nat)
    requires ScanStopsAt(data, pos)
    ensures TocFrom(data, pos) == Fail
  {
    if |data| >= pos + 2 && data[pos] == MarkerLead {
      if data[pos + 1] == EOI {
        assert NextSegment(data, |data|).Fail?;
      } else if |data| >= pos + 4 {
        var field := BigEndian16(data[pos + 2], data[pos + 3]);
        assert data[pos + 2] == 0 && data[pos + 3] < 2;
        if field == 0 {
          assert NextSegment(data, pos + 2).Fail?;
        } else {
          assert NextSegment(data, pos + 3).Fail?;
        }
      }
    }
  }

  /** The scan restarted at any entry of a successful scan yields the rest of it. */
  lemma {:induction false} TocFromSuffix(data: seq<byte>, pos: nat, toc: seq<Entry>, i: nat)
    requires TocFrom(data, pos) == Ok(toc)
    requires i < |toc|
    ensures TocFrom(data, toc[i].loc) == Ok(toc[i..])
    decreases |data| - pos
  {
    var (e, next) := NextSegment(data, pos).value;
    if i == 0 {
      assert toc[0] == e && toc[0..] == toc;
    } else {
      var rest := TocFrom(data, next).value;
      assert toc == [e] + rest;
      TocFromSuffix(data, next, rest, i - 1);
      assert rest[i - 1..] == toc[i..];
    }
  }

  /** Conversely, no entry of a successful scan sits at a marker where the scan
      stops. */
  lemma {:induction false} TocAvoidsStops(data: seq<byte>, toc: seq<Entry>, i: nat)
    requires Toc(data) == Ok(toc)
    requires i < |toc|
    ensures !ScanStopsAt(data, toc[i].loc)
  {
    TocFromSuffix(data, 2, toc, i);
    if ScanStopsAt(data, toc[i].loc) {
      TocFromFails(data, toc[i].loc);
      assert false;
    }
  }

  /** `read_entry` on an entry of a successful scan returns exactly `len` bytes: the
      entry's own bytes. */
  lemma {:induction false} ReadEntryInToc(data: seq<byte>, toc: seq<Entry>, i: nat)
    requires Toc(data) == Ok(toc)
    requires i < |toc|
    ensures toc[i].loc + toc[i].len <= |data|
    ensures ReadAt(data, toc[i].loc, toc[i].len) == data[toc[i].loc..toc[i].loc + toc[i].len]
    ensures |ReadAt(data, toc[i].loc, toc[i].len)| == toc[i].len
  {
    TocWellFormed(data, toc);
    assert Framed(data, toc[i]);
  }

  /** On an entry of a successful scan the re-check of the FF E0 bytes always passes:
      only the tag and the signature decide, and a watermark is never the SOS entry. */
  lemma {:induction false} WatermarkInToc(data: seq<byte>, toc: seq<Entry>, i: nat)
    requires Toc(data) == Ok(toc)
    requires i < |toc|
    ensures IsWatermark(data, toc[i]) <==>
      toc[i].tag == APP0 && toc[i].loc + 19 <= |data| &&
      data[toc[i].loc + 4..toc[i].loc + 19] == Signature
    ensures IsWatermark(data, toc[i]) ==> i < |toc| - 1
  {
    TocWellFormed(data, toc);
    assert Framed(data, toc[i]);
  }

  /** An entry inside the file: `read_entry` returns exactly its bytes. */
  lemma {:induction false} ReadInside(data: seq<byte>, e: Entry)
    requires e.loc + e.len <= |data|
    ensures ReadAt(data, e.loc, e.len) == data[e.loc..e.loc + e.len]
  {
  }

  /** An entry that is not a watermark is copied verbatim, and the cursor ends up
      right after it. */
  lemma {:induction false} CopyEntry(data: seq<byte>, toc: seq<Entry>, k: nat, cursor: nat, patchSize: nat)
    requires k < |toc| && EndOf(toc, k) <= |data| && !IsWatermark(data, toc[k])
    ensures PatchedBody(data, toc, k, cursor, patchSize) ==
      data[toc[k].loc..EndOf(toc, k)] + PatchedBody(data, toc, k + 1, EndOf(toc, k), patchSize)
  {
    PatchUnfold(data, toc, k, cursor, patchSize);
    CopiedInside(data, toc[k], cursor, patchSize);
  }

  /** The piece of an entry inside the file that is not a watermark is its slice
      of the input, and the cursor ends right after it. */
  lemma {:induction false} CopiedInside(data: seq<byte>, e: Entry, cursor: nat, patchSize: nat)
    requires e.loc + e.len <= |data| && !IsWatermark(data, e)
    ensures Piece(data, e, cursor, patchSize) == data[e.loc..e.loc + e.len]
    ensures CursorAfter(data, e, cursor, patchSize) == e.loc + e.len
  {
    CopiedPiece(data, e, cursor, patchSize);
    ReadInside(data, e);
  }

  /** At a watermark, the loop writes `patchSize` bytes read at the cursor, and the
      cursor moves past them. */
  lemma {:induction false} WatermarkEntry(data: seq<byte>, toc: seq<Entry>, k: nat, cursor: nat, patchSize: nat)
    requires k < |toc| && IsWatermark(data, toc[k])
    ensures PatchedBody(data, toc, k, cursor, patchSize) ==
      ReadAt(data, cursor, patchSize) +
      PatchedBody(data, toc, k + 1, cursor + |ReadAt(data, cursor, patchSize)|, patchSize)
  {
    PatchUnfold(data, toc, k, cursor, patchSize);
    WatermarkPiece(data, toc[k], cursor, patchSize);
  }

  lemma {:induction false} PatchUnfold(data: seq<byte>, toc: seq<Entry>, k: nat, cursor: nat, patchSize: nat)
    requires k < |toc|
    ensures PatchedBody(data, toc, k, cursor, patchSize) ==
      Piece(data, toc[k], cursor, patchSize) +
      PatchedBody(data, toc, k + 1, CursorAfter(data, toc[k], cursor, patchSize), patchSize)
  {
  }

  /** Entries that are not watermarks are copied verbatim, whatever the cursor: from
      entry `k` on, the loop writes the input from that entry's location to the end
      of the tiling. */
  lemma {:induction false} PatchedBodyVerbatim(data: seq<byte>, toc: seq<Entry>, from: nat, to: nat, k: nat, cursor: nat, patchSize: nat)
    requires Tiled(toc, from, to) && to <= |data|
    requires k < |toc|
    requires forall j :: k <= j < |toc| ==> !IsWatermark(data, toc[j])
    ensures toc[k].loc <= to
    ensures PatchedBody(data, toc, k, cursor, patchSize) == data[toc[k].loc..to]
    decreases |toc| - k
  {
    CopyEntry(data, toc, k, cursor, patchSize);
    if k + 1 < |toc| {
      assert EndOf(toc, k) == toc[k + 1].loc;
      PatchedBodyVerbatim(data, toc, from, to, k + 1, EndOf(toc, k), patchSize);
      SliceSplit(data, toc[k].loc, EndOf(toc, k), to);
    } else {
      assert PatchedBody(data, toc, k + 1, EndOf(toc, k), patchSize) == [];
    }
  }

  /** With no watermark in the file, `patch_command` writes the input unchanged. */
  lemma {:induction false} PatchWithoutWatermarkCopiesInput(data: seq<byte>, toc: seq<Entry>, patchSize: nat)
    requires Toc(data) == Ok(toc)
    requires forall i :: 0 <= i < |toc| ==> !IsWatermark(data, toc[i])
    ensures [MarkerLead, SOI] + PatchedBody(data, toc, 0, 0, patchSize) == data
  {
    TocStartsAndTiles(data, toc);
    assert PatchedBody(data, toc, 0, 0, patchSize) == data[2..] by {
      PatchedBodyVerbatim(data, toc, 2, |data|, 0, 0, patchSize);
    }
    assert data == data[..2] + data[2..];
  }

  /** Before the first watermark, entries are copied verbatim and the cursor ends up
      at the start of entry `i`. */
  lemma {:induction false} PatchedBodyUpTo(data: seq<byte>, toc: seq<Entry>, from: nat, to: nat, k: nat, i: nat, cursor: nat, patchSize: nat)
    requires Tiled(toc, from, to) && to <= |data|
    requires k < i < |toc|
    requires forall j :: k <= j < i ==> !IsWatermark(data, toc[j])
    ensures toc[k].loc <= toc[i].loc <= |data|
    ensures PatchedBody(data, toc, k, cursor, patchSize) ==
      data[toc[k].loc..toc[i].loc] + PatchedBody(data, toc, i, toc[i].loc, patchSize)
    decreases i - k
  {
    assert EndOf(toc, k) == toc[k + 1].loc && EndOf(toc, i) <= to;
    if k + 1 < i {
      PatchedBodyUpTo(data, toc, from, to, k + 1, i, EndOf(toc, k), patchSize);
      CopyBefore(data, toc, k, cursor, patchSize, toc[i].loc, PatchedBody(data, toc, i, toc[i].loc, patchSize));
    } else {
      CopyEntry(data, toc, k, cursor, patchSize);
    }
  }

  /** A copied entry in front of input bytes up to `stop` and then `rest` extends
      them to the input bytes from its own location. */
  lemma {:induction false} CopyBefore(data: seq<byte>, toc: seq<Entry>, k: nat, cursor: nat, patchSize: nat, stop: nat, rest: seq<byte>)
    requires k + 1 < |toc| && EndOf(toc, k) == toc[k + 1].loc && toc[k + 1].loc <= stop <= |data|
    requires !IsWatermark(data, toc[k])
    requires PatchedBody(data, toc, k + 1, toc[k + 1].loc, patchSize) == data[toc[k + 1].loc..stop] + rest
    ensures PatchedBody(data, toc, k, cursor, patchSize) == data[toc[k].loc..stop] + rest
  {
    CopyEntry(data, toc, k, cursor, patchSize);
    JoinPrefix(data, toc[k].loc, EndOf(toc, k), stop, rest);
  }

  lemma {:induction false} JoinPrefix(data: seq<byte>, from: nat, mid: nat, loc: nat, rest: seq<byte>)
    requires from <= mid <= loc <= |data|
    ensures data[from..mid] + (data[mid..loc] + rest) == data[from..loc] + rest
  {
    SliceSplit(data, from, mid, loc);
    AppendAssoc(data[from..mid], data[mid..loc], rest);
  }

  /** When the first entry is the watermark, `patch_command` writes the first
      `patchSize` bytes of the INPUT file, starting with its SOI marker: the cursor
      is at offset 0 because `create_toc` rewound the file. */
  lemma {:induction false} PatchFirstEntryWatermark(data: seq<byte>, toc: seq<Entry>, patchSize: nat)
    requires Toc(data) == Ok(toc)
    requires IsWatermark(data, toc[0])
    ensures [MarkerLead, SOI] + PatchedBody(data, toc, 0, 0, patchSize) ==
      [MarkerLead, SOI] + ReadAt(data, 0, patchSize) +
      PatchedBody(data, toc, 1, |ReadAt(data, 0, patchSize)|, patchSize)
  {
    var chunk := ReadAt(data, 0, patchSize);
    var rest := PatchedBody(data, toc, 1, |chunk|, patchSize);
    assert PatchedBody(data, toc, 0, 0, patchSize) == chunk + rest by {
      WatermarkPiece(data, toc[0], 0, patchSize);
    }
    AppendAssoc([MarkerLead, SOI], chunk, rest);
  }

  /** Whenever the watermark is the first entry and the patch file holds at least
      two bytes, `patch_command` as written does not reproduce its input: the
      output repeats the SOI marker where the input has its APP0 marker. */
  lemma {:induction false} PatchFirstWatermarkChangesInput(data: seq<byte>, toc: seq<Entry>, patchSize: nat)
    requires Toc(data) == Ok(toc)
    requires IsWatermark(data, toc[0])
    requires patchSize >= 2
    ensures [MarkerLead, SOI] + PatchedBody(data, toc, 0, 0, patchSize) != data
  {
    TocWellFormed(data, toc);
    PatchFirstEntryWatermark(data, toc, patchSize);
    var written := [MarkerLead, SOI] + PatchedBody(data, toc, 0, 0, patchSize);
    assert written[3] == data[1] == SOI;
    assert data[3] == APP0;
  }

  /** When entries were copied before the first watermark, the cursor is at the
      watermark's own location, so `patch_command` writes the next `patchSize` bytes
      of the INPUT file from there. */
  lemma {:induction false} PatchLaterWatermark(data: seq<byte>, toc: seq<Entry>, i: nat, patchSize: nat)
    requires Toc(data) == Ok(toc)
    requires 0 < i < |toc| && IsWatermark(data, toc[i])
    requires forall j :: 0 <= j < i ==> !IsWatermark(data, toc[j])
    ensures toc[i].loc <= |data|
    ensures [MarkerLead, SOI] + PatchedBody(data, toc, 0, 0, patchSize) ==
      data[..toc[i].loc] + ReadAt(data, toc[i].loc, patchSize) +
      PatchedBody(data, toc, i + 1, toc[i].loc + |ReadAt(data, toc[i].loc, patchSize)|, patchSize)
  {
    TocStartsAndTiles(data, toc);
    PatchAtWatermark(data, toc, i, patchSize);
  }

  /** `PatchLaterWatermark` for any entries that tile the file after its SOI. */
  lemma {:induction false} PatchAtWatermark(data: seq<byte>, toc: seq<Entry>, i: nat, patchSize: nat)
    requires Tiled(toc, 2, |data|) && |data| >= 2 && data[..2] == [MarkerLead, SOI]
    requires 0 < i < |toc| && IsWatermark(data, toc[i])
    requires forall j :: 0 <= j < i ==> !IsWatermark(data, toc[j])
    ensures toc[i].loc <= |data|
    ensures [MarkerLead, SOI] + PatchedBody(data, toc, 0, 0, patchSize) ==
      data[..toc[i].loc] + ReadAt(data, toc[i].loc, patchSize) +
      PatchedBody(data, toc, i + 1, toc[i].loc + |ReadAt(data, toc[i].loc, patchSize)|, patchSize)
  {
    WatermarkEntry(data, toc, i, toc[i].loc, patchSize);
    PatchedBodyUpTo(data, toc, 2, |data|, 0, i, 0, patchSize);
    Reassemble(data, toc[i].loc, PatchedBody(data, toc, 0, 0, patchSize), PatchedBody(data, toc, i, toc[i].loc, patchSize),
      ReadAt(data, toc[i].loc, patchSize), PatchedBody(data, toc, i + 1, toc[i].loc + |ReadAt(data, toc[i].loc, patchSize)|, patchSize));
  }

  /** The magic number and a body made of the copied prefix, then `chunk` and `rest`,
      is the input up to `loc`, then `chunk` and `rest`. */
  lemma {:induction false} Reassemble(data: seq<byte>, loc: nat, body: seq<byte>, head: seq<byte>, chunk: seq<byte>, rest: seq<byte>)
    requires 2 <= loc <= |data| && data[..2] == [MarkerLead, SOI]
    requires body == data[2..loc] + head
    requires head == chunk + rest
    ensures [MarkerLead, SOI] + body == data[..loc] + chunk + rest
  {
    SliceSplit(data, 0, 2, loc);
    Regroup(data[..2], data[2..loc], chunk, rest);
    assert data[..loc] == data[0..loc];
  }

  /** So the patch file's contents never reach the output: with a single watermark
      that is not the first entry, a patch file of the segment's size leaves the
      input unchanged. */
  lemma {:induction false} PatchSameSizeCopiesInput(data: seq<byte>, toc: seq<Entry>, i: nat, patchSize: nat)
    requires Toc(data) == Ok(toc)
    requires 0 < i < |toc| && IsWatermark(data, toc[i])
    requires forall j :: 0 <= j < |toc| && j != i ==> !IsWatermark(data, toc[j])
    requires patchSize == toc[i].len
    ensures [MarkerLead, SOI] + PatchedBody(data, toc, 0, 0, patchSize) == data
  {
    WatermarkInToc(data, toc, i);
    TocStartsAndTiles(data, toc);
    assert EndOf(toc, i) == toc[i + 1].loc;
    PatchLaterWatermark(data, toc, i, patchSize);
    ReadInside(data, toc[i]);
    PatchedBodyVerbatim(data, toc, 2, |data|, i + 1, toc[i].loc + |ReadAt(data, toc[i].loc, patchSize)|, patchSize);
    Concat3(data, toc[i].loc, toc[i + 1].loc);
  }

  lemma {:induction false} Concat3(s: seq<byte>, a: nat, b: nat)
    requires a <= b <= |s|
    ensures s[..a] + s[a..b] + s[b..|s|] == s
  {
    assert s[..a] + s[a..b] == s[..b];
    assert s[..b] + s[b..|s|] == s;
  }

  /** The corrected patch copies an entry verbatim when it is no watermark or its
      bytes equal the patch. */
  lemma {:induction false} IntendedEntry(data: seq<byte>, toc: seq<Entry>, k: nat, patch: seq<byte>)
    requires k < |toc| && EndOf(toc, k) <= |data|
    requires IsWatermark(data, toc[k]) ==> ReadAt(data, toc[k].loc, toc[k].len) == patch
    ensures IntendedPatchedBody(data, toc, k, patch) ==
      data[toc[k].loc..EndOf(toc, k)] + IntendedPatchedBody(data, toc, k + 1, patch)
  {
    IntendedUnfold(data, toc, k, patch);
    ReadInside(data, toc[k]);
  }

  lemma {:induction false} IntendedUnfold(data: seq<byte>, toc: seq<Entry>, k: nat, patch: seq<byte>)
    requires k < |toc|
    ensures IntendedPatchedBody(data, toc, k, patch) ==
      IntendedPiece(data, toc[k], patch) + IntendedPatchedBody(data, toc, k + 1, patch)
  {
  }

  /** The corrected patch writes back every segment whose bytes equal the patch. */
  lemma {:induction false} IntendedBodyVerbatim(data: seq<byte>, toc: seq<Entry>, from: nat, to: nat, k: nat, patch: seq<byte>)
    requires Tiled(toc, from, to) && to <= |data|
    requires k < |toc|
    requires forall j :: k <= j < |toc| && IsWatermark(data, toc[j]) ==>
      ReadAt(data, toc[j].loc, toc[j].len) == patch
    ensures toc[k].loc <= to
    ensures IntendedPatchedBody(data, toc, k, patch) == data[toc[k].loc..to]
    decreases |toc| - k
  {
    var a, b := toc[k].loc, EndOf(toc, k);
    assert IntendedPatchedBody(data, toc, k, patch) == data[a..b] + IntendedPatchedBody(data, toc, k + 1, patch) by {
      IntendedEntry(data, toc, k, patch);
    }
    if k + 1 < |toc| {
      assert IntendedPatchedBody(data, toc, k + 1, patch) == data[b..to] by {
        IntendedBodyVerbatim(data, toc, from, to, k + 1, patch);
      }
      SliceSplit(data, a, b, to);
    } else {
      assert IntendedPatchedBody(data, toc, k + 1, patch) == [];
    }
  }

  /** Corrected patch: replacing every watermark by a patch equal to its own bytes
      reproduces the input. */
  lemma {:induction false} IntendedPatchRoundTrip(data: seq<byte>, toc: seq<Entry>, patch: seq<byte>)
    requires Toc(data) == Ok(toc)
    requires forall i :: 0 <= i < |toc| && IsWatermark(data, toc[i]) ==>
      ReadAt(data, toc[i].loc, toc[i].len) == patch
    ensures [MarkerLead, SOI] + IntendedPatchedBody(data, toc, 0, patch) == data
  {
    TocStartsAndTiles(data, toc);
    assert IntendedPatchedBody(data, toc, 0, patch) == data[2..] by {
      IntendedBodyVerbatim(data, toc, 2, |data|, 0, patch);
    }
    assert data == data[..2] + data[2..];
  }

  /** Corrected patch: feeding the output of `dump_command` back as the patch file
      reproduces the input when the file has one watermark. */
  lemma {:induction false} DumpThenPatchRoundTrip(data: seq<byte>, toc: seq<Entry>)
    requires Toc(data) == Ok(toc)
    requires LastWatermarkIndex(data, toc).Some?
    requires forall j :: 0 <= j < |toc| && j != LastWatermarkIndex(data, toc).value ==>
      !IsWatermark(data, toc[j])
    ensures
      var e := toc[LastWatermarkIndex(data, toc).value];
      [MarkerLead, SOI] + IntendedPatchedBody(data, toc, 0, ReadAt(data, e.loc, e.len)) == data
  {
    var k := LastWatermarkIndex(data, toc).value;
    IntendedPatchRoundTrip(data, toc, ReadAt(data, toc[k].loc, toc[k].len));
  }

  /** The smallest file with a watermark: SOI, one APP0 segment whose length field
      is 19 and whose payload starts with the signature, then SOS. */
  const Scenario: seq<byte> :=
    [MarkerLead, SOI, MarkerLead, APP0, 0x00, 0x13] + Signature + [0x00, 0x00, MarkerLead, SOS]

  /** The scan of `Scenario` finds the APP0 entry at offset 2 with length 21 and the
      SOS entry at offset 23, and the APP0 entry is a watermark. */
  lemma {:induction false} ScenarioScan()
    ensures Toc(Scenario) == Ok([Entry(2, APP0, 21), Entry(23, SOS, 2)])
    ensures IsWatermark(Scenario, Entry(2, APP0, 21))
  {
    assert |Scenario| == 25;
    assert Scenario[2..4] == [MarkerLead, APP0] && Scenario[4] == 0x00 && Scenario[5] == 0x13;
    assert Scenario[6..21] == Signature;
    assert Scenario[23] == MarkerLead && Scenario[24] == SOS;
    assert NextSegment(Scenario, 2) == Ok((Entry(2, APP0, 21), 23));
    assert NextSegment(Scenario, 23) == Ok((Entry(23, SOS, 2), 25));
    assert TocFrom(Scenario, 23) == Ok([Entry(23, SOS, 2)]);
    assert TocFrom(Scenario, 2) == PrependAll([Entry(2, APP0, 21)], TocFrom(Scenario, 23));
    assert [Entry(2, APP0, 21)] + [Entry(23, SOS, 2)] == [Entry(2, APP0, 21), Entry(23, SOS, 2)];
    assert Toc(Scenario) == TocFrom(Scenario, 2);
  }

  /** As written, `patch_command` does not reproduce `Scenario` when given the dumped
      watermark as the patch file: it writes the first 21 bytes of the input (from
      the rewound cursor) in place of the watermark, so the output repeats SOI where
      APP0 should be. The corrected patch reproduces it. */
  lemma {:induction false} PatchAsWrittenIgnoresPatchFile()
    ensures Toc(Scenario).Ok?
    ensures
      var toc := Toc(Scenario).value;
      var dumped := ReadAt(Scenario, 2, 21);
      [MarkerLead, SOI] + PatchedBody(Scenario, toc, 0, 0, |dumped|) != Scenario &&
      [MarkerLead, SOI] + IntendedPatchedBody(Scenario, toc, 0, dumped) == Scenario
  {
    ScenarioScan();
    var toc := Toc(Scenario).value;
    var dumped := ReadAt(Scenario, 2, 21);
    PatchFirstEntryWatermark(Scenario, toc, 21);
    var written := [MarkerLead, SOI] + PatchedBody(Scenario, toc, 0, 0, 21);
    assert written[3] == Scenario[1] == SOI;
    assert Scenario[3] == APP0;
    IntendedPatchRoundTrip(Scenario, toc, dumped);
  }
}
