# jfif_fun in Dafny

A model of the two JPEG/JFIF marker scanners of jfif_fun and of the
watermark tooling built on the first one.

- `ajfiftool.py` walks the marker segments of a JFIF file into a table of
  contents of `(loc, tag, len)` entries. It recognises the vendor watermark:
  an APP0 segment whose payload starts with the 15 ASCII bytes
  `ULTRAIDHOLOKOTE`. It can then `patch` a file (replace each watermark
  segment) or `dump` it (write the watermark segment to a file of its own).
- `parse_jfif.py` is a second scanner. It reports the raw length field of each
  segment up to the first SOS marker.

Marker codes are those of Table B.1 of ITU-T T.81: SOI 0xFFD8, EOI 0xFFD9,
SOS 0xFFDA and APP0 0xFFE0. The two-byte big-endian length field counts
itself but not the marker (clause B.1.1.4 of ITU-T T.81).

## Modules

| file | contents |
|---|---|
| `PyFile.dfy` | A Python binary file object. `InputFile` has the immutable contents `data: seq<bv8>` and a cursor `pos`. Its `read`, `seek`, `seek(off, 1)`, `seek(0, 2)` and `tell` behave as Python's: a read past the end returns fewer bytes, or none. `OutputFile` is a byte sequence that `write` appends to. |
| `Markers.dfy` | Marker constants, the `Entry` record, `Result`/`Option`, the `struct.unpack` decodings and the watermark signature. |
| `AjfifTool.dfy` | The functions of `ajfiftool.py` as methods on an `InputFile`. Each is proved equal to a specification function (`NextSegment`, `TocFrom`/`Toc`, `IsWatermark`, `PatchedBody`, `LastWatermarkIndex`). |
| `AjfifToolProofs.dfy` | What a successful `create_toc` guarantees, and what `patch` and `dump` therefore write. |
| `ParseJfif.dfy` | `read_tag` and `read_jfif` as methods, proved equal to `TagAt` and `ReportedFrom`/`Reported`. |
| `ParseJfifProofs.dfy` | What a successful `read_jfif` guarantees, and how its entries relate to those of `create_toc`. |

Any exception on a path becomes `Fail`. This covers `raise Exception`, a
`struct.error` from unpacking a short read, and the failed `0xFF` check after
a backwards relative seek.

The patch file enters the model only through its size, `patchSize`. The code
measures it and never reads its contents.

## Model

| member | source | states |
|---|---|---|
| PyFile.ReadAt | ajfiftool.py:96-98 | `read(n)` at `pos` returns `n` bytes, fewer where the file ends first, and nothing at or past the end; byte `i` of the result is byte `pos + i` of the file |
| PyFile.InputFile.Read | ajfiftool.py:98 | returns the bytes `ReadAt` gives at the cursor and moves the cursor past exactly those bytes |
| PyFile.InputFile.SeekRelative | ajfiftool.py:54 | `seek(off, 1)` moves the cursor by `off` |
| PyFile.InputFile.SeekEnd | ajfiftool.py:49 | `seek(0, 2)` puts the cursor at the end of the file |
| Markers.BigEndian16 | ajfiftool.py:53 | `struct.unpack('>H')` is below 0x10000, its high byte is the first byte and its low byte the second; it is below 2 exactly when the first byte is 0 and the second below 2 |
| AjfifTool.NextSegment | ajfiftool.py:42-55 | succeeds exactly when a 0xFF byte and a tag are at the cursor and, unless the tag is SOS or EOI, two length bytes follow. The entry's location is the cursor and its tag the second byte. For SOS and EOI the length reaches the end of the file. For any other tag it is the big-endian length field plus 2. The cursor ends at `loc + len` |
| AjfifTool.ReadMarker | ajfiftool.py:43-47 | succeeds exactly when a 0xFF byte and a tag byte are at the cursor, yields that tag and leaves the cursor after it |
| AjfifTool.ReadLength | ajfiftool.py:53 | succeeds exactly when two bytes remain; yields their big-endian value and leaves the cursor after them |
| AjfifTool.SeekNext | ajfiftool.py:42-55 | `seek_next` fails exactly when `NextSegment` does; otherwise it returns its entry and leaves the cursor where `NextSegment` says |
| AjfifTool.CreateToc | ajfiftool.py:58-69 | `create_toc` returns exactly `Toc` of the file, and on success leaves the cursor at 0 |
| AjfifTool.CheckHolokote | ajfiftool.py:72-89 | `check_holokote` is true exactly for an APP0 entry with FF E0 at its location and the signature 4 bytes further on; the cursor is restored on every path |
| AjfifTool.SeekEntry | ajfiftool.py:92-93 | the cursor is at the entry's location |
| AjfifTool.ReadEntry | ajfiftool.py:96-98 | returns the entry's bytes as far as the file has them, and leaves the cursor right after them |
| AjfifTool.LastWatermarkIndex | ajfiftool.py:136-144 | the index of a watermark entry with no watermark after it; absent exactly when no entry is a watermark |
| AjfifTool.PatchPiece | ajfiftool.py:118-129 | one turn of the patch loop: a watermark yields `patchSize` bytes of the input read at the cursor, any other entry yields its own bytes |
| AjfifTool.PatchStep | ajfiftool.py:117-129 | after turn `i`, the output holds the pieces of the first `i + 1` entries and the cursor is where they leave it |
| AjfifTool.WrittenThenRest | ajfiftool.py:117-129 | the pieces written so far, followed by the pieces still to come, are the whole `PatchedBody`: no piece is lost or repeated |
| AjfifTool.WrittenAll | ajfiftool.py:117-129 | once every entry has been handled, the loop has appended exactly `PatchedBody` |
| AjfifTool.PatchEntries | ajfiftool.py:117-129 | the loop appends `PatchedBody` of the entries, starting from the cursor it finds |
| AjfifTool.PatchCommand | ajfiftool.py:109-129 | on a failed scan the (already opened) output stays empty. Otherwise it holds FF D8 followed by `PatchedBody` from cursor 0 |
| AjfifTool.DumpCommand | ajfiftool.py:132-144 | no output file exists exactly when no entry is a watermark. Otherwise it holds exactly the bytes of the last watermark entry, because each match truncates the file again |
| AjfifTool.CorrectedPatchStep | ajfiftool.py:117-129 | one turn of the corrected loop: what is written plus what remains to be written does not change |
| AjfifTool.PatchCommandCorrected | ajfiftool.py:109-129 | the corrected `patch`: on a failed scan the output stays empty. Otherwise it holds FF D8, then the patch contents in place of each watermark entry and every other entry verbatim |
| AjfifToolProofs.TocFromShape | ajfiftool.py:64-69 | a successful scan from `pos` yields entries that tile the file from `pos` to its end and are framed by their markers. The last entry is the first SOS, and no EOI occurs |
| AjfifToolProofs.TocWellFormed | ajfiftool.py:58-69 | `create_toc` succeeds only on a file starting FF D8. Its entries then tile the rest of the file, only the last one is SOS, and every other entry's length is its big-endian length field plus 2 |
| AjfifToolProofs.TocLengthField | ajfiftool.py:53-55 | every entry before the final SOS has its length field inside the file, and its length is that field plus 2 |
| AjfifToolProofs.TocStartsAndTiles | ajfiftool.py:58-69 | on success the first two bytes are the SOI marker and the entries tile the file from offset 2 to its end |
| AjfifToolProofs.TocCoversFile | ajfiftool.py:48-55 | 2 plus the sum of the entries' lengths is the file size |
| AjfifToolProofs.TocContiguousAt | ajfiftool.py:53-55 | every entry's length leads exactly to the next entry's location |
| AjfifToolProofs.TocLocIncreasing | ajfiftool.py:53-55 | entries are in stream order and their locations strictly increase |
| AjfifToolProofs.TocFromFails | ajfiftool.py:44-54 | any of these makes the whole scan fail: a missing 0xFF byte, a truncated tag, an EOI before SOS, a truncated length field, or a length field below 2 |
| AjfifToolProofs.TocFromSuffix | ajfiftool.py:64-69 | restarting the scan at any entry of a successful scan yields the rest of its entries |
| AjfifToolProofs.TocAvoidsStops | ajfiftool.py:64-69 | no entry of a successful scan sits at a marker where the scan fails |
| AjfifToolProofs.ReadEntryInToc | ajfiftool.py:96-98 | for an entry of a successful scan, `read_entry` returns exactly `len` bytes, and they are the entry's own |
| AjfifToolProofs.WatermarkInToc | ajfiftool.py:72-89 | for an entry of a successful scan, the FF E0 check always passes, so only the tag and the signature decide; a watermark is never the last (SOS) entry |
| AjfifToolProofs.ContiguousTotal | ajfiftool.py:53-55 | entries tiling `[from, to)` have lengths summing to `to - from` |
| AjfifToolProofs.ContiguousIncreasing | ajfiftool.py:53-55 | in a tiling, each entry ends at or before any later one starts |
| AjfifToolProofs.PatchedBodyVerbatim | ajfiftool.py:126-129 | entries that are not watermarks are written verbatim, whatever the cursor: the output is the input slice they tile |
| AjfifToolProofs.PatchWithoutWatermarkCopiesInput | ajfiftool.py:116-129 | with no watermark entry, `patch` writes the input unchanged |
| AjfifToolProofs.PatchedBodyUpTo | ajfiftool.py:126-129 | the entries before the first watermark are copied verbatim, and the cursor is then at the watermark's location |
| AjfifToolProofs.PatchFirstEntryWatermark | ajfiftool.py:59-125 | when the first entry is a watermark, `patch` writes the first `patchSize` bytes of the input, because `create_toc` rewound the cursor to 0 |
| AjfifToolProofs.PatchFirstWatermarkChangesInput | ajfiftool.py:59-125 | when the first entry is a watermark and the patch file holds at least two bytes, the output of `patch` differs from its input: it repeats the SOI marker where the input has APP0 |
| AjfifToolProofs.PatchLaterWatermark | ajfiftool.py:118-129 | when entries were copied before the first watermark, `patch` writes the input up to it, then `patchSize` input bytes from its location |
| AjfifToolProofs.PatchSameSizeCopiesInput | ajfiftool.py:118-129 | with a single watermark that is not the first entry, and a patch of the watermark's length, `patch` writes the input unchanged, whatever the patch file contains |
| AjfifToolProofs.IntendedPatchRoundTrip | ajfiftool.py:118-125 | the corrected patch, given a replacement equal to each watermark's bytes, reproduces the input |
| AjfifToolProofs.DumpThenPatchRoundTrip | ajfiftool.py:118-144 | with one watermark, the corrected patch fed the output of `dump` reproduces the input |
| AjfifToolProofs.ScenarioScan | ajfiftool.py:58-89 | the 25-byte file with one watermark APP0 segment scans to an APP0 entry at 2 (length 21) and an SOS entry at 23, and the APP0 entry is a watermark |
| AjfifToolProofs.PatchAsWrittenIgnoresPatchFile | ajfiftool.py:125 | on that file, the patch as written, fed the dumped watermark, does not reproduce the input; the corrected patch does |
| ParseJfif.TagAt | parse_jfif.py:44-62 | `read_tag` finds an entry exactly when a 0xFF byte and a tag byte are at the cursor and, unless the tag is SOS or EOI, two length bytes follow. SOS and EOI get length 2 and nothing more is read. Any other tag gets the raw big-endian field and the cursor moves 4 bytes |
| ParseJfif.ReadTag | parse_jfif.py:44-62 | `read_tag` fails exactly when `TagAt` does; otherwise it returns its entry and leaves the cursor where `TagAt` says |
| ParseJfif.ReadJfif | parse_jfif.py:64-77 | `read_jfif` returns exactly `Reported` from the cursor it is given (it does not rewind) |
| ParseJfifProofs.ReportedFromChain | parse_jfif.py:69-77 | a successful loop reports chained entries, each starting where the previous one's segment ends, and stops at an SOS marker inside the file |
| ParseJfifProofs.ReportedFromEntries | parse_jfif.py:73-77 | every reported entry is framed, is not SOS, has a length of at least 2, and lies inside the file with its payload |
| ParseJfifProofs.ReportedStep | parse_jfif.py:69-77 | one turn of a successful loop reads a tag; at SOS it reports nothing more, otherwise the whole payload was in the file |
| ParseJfifProofs.ReportedShape | parse_jfif.py:64-77 | `read_jfif` succeeds only with FF D8 at the cursor; its entries are chained, lie inside the file, and are followed by an SOS marker |
| ParseJfifProofs.ReportedFromFails | parse_jfif.py:44-75 | any of these makes the run fail: a missing 0xFF byte, a truncated tag or length field, or a length field below 2 |
| ParseJfifProofs.EoiIsNotTerminator | parse_jfif.py:50-72 | EOI is reported with length 2 and the scan resumes right after it; a stream ending at EOI fails |
| ParseJfifProofs.ReportedAtSos | parse_jfif.py:70-72 | at an SOS marker the loop stops without reporting it |
| ParseJfifProofs.ScannersAgree | parse_jfif.py:64-77 | whenever `create_toc` succeeds, `read_jfif` from offset 0 succeeds too. It reports the same entries minus the final SOS, with the same locations and tags and lengths 2 smaller |

## Left out

- Argument parsing, `__main__` dispatch and the `path.isfile` check: these are command-line glue.
- Opening and closing files, and every `print`, are left out; the output file of `patch` and `dump` is an `OutputFile` value.
- `list_command` is `create_toc` followed by printing. It is covered by `CreateToc`.
- The `get_jpeg_tag_name` tables only produce display strings.
- Measuring the patch file with `seek(0, 2)` and `tell` (ajfiftool.py:121-124) is not modelled: its result is the parameter `patchSize`. The patch file's contents are never read by the code, so they do not appear.
- Exception types are not distinguished: `Exception` and `struct.error` both become `Fail`.
- The entropy-coded data after SOS is one opaque tail of the SOS entry, as in the code.
- PyFile.InputFile.SeekRelative: requires that the new cursor is not negative. Python raises on a negative absolute position, but the code only seeks backwards by at most 2 (a length field of 0 or 1), after having read 4 bytes.
- PyFile.InputFile: the cursor is a `nat`, and a cursor past the end of the file is allowed, as in Python.
- Cursor positions on failing paths are not stated: the code raises there, and no caller continues afterwards.

What `patch` writes differs from what the program's own help text promises
("Patch APP0 section in file.", ajfiftool.py:156; "Patch to put into the APP0
section.", ajfiftool.py:159). The model follows the code:

- `patch` copies `len` bytes of the input file, read at its cursor, and never reads the patch file (ajfiftool.py:125; see Findings).
- Feeding the output of `dump` back to `patch` does not reproduce the input when the watermark is the first entry and the patch file holds at least two bytes (`PatchFirstWatermarkChangesInput`; see also `PatchAsWrittenIgnoresPatchFile`). When copied entries come before it, the input is reproduced only by coincidence (`PatchSameSizeCopiesInput`): the cursor then sits at the watermark's own location.
- `patch` replaces every matching segment, while `dump` keeps only the last one (`DumpCommand`).

## Findings

| source | as written | input that shows it | evidently intended | confidence | as-written member | corrected member |
|---|---|---|---|---|---|---|
| ajfiftool.py:125 | `fout.write(fin.read(len))` writes `len` bytes of the INPUT file, read at the input cursor. It never reads the patch file, which was only opened and measured | `FF D8 FF E0 00 13` + `ULTRAIDHOLOKOTE` + `00 00 FF DA`, patched with its own dumped 21-byte APP0 segment: the watermark is the first entry, the cursor is still 0 after `create_toc`, so the output repeats `FF D8 FF E0 …` from offset 0 and differs from the input at byte 3 | `fout.write(patch.read())`: write the patch file's contents in place of each watermark segment | not executed | AjfifToolProofs.PatchAsWrittenIgnoresPatchFile | AjfifToolProofs.DumpThenPatchRoundTrip |
