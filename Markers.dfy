/** Marker codes and the segment descriptor shared by both scanners.
    Marker codes are those of Table B.1 of ITU-T T.81 (ISO/IEC 10918-1). */
module Markers {
  import opened PyFile

  /** Every marker starts with this byte. */
  const MarkerLead: byte := 0xFF
  /** Start of image. */
  const SOI: byte := 0xD8
  /** End of image. */
  const EOI: byte := 0xD9
  /** Start of scan. */
  const SOS: byte := 0xDA
  /** Application segment 0 (JFIF). */
  const APP0: byte := 0xE0

  /** One scanned segment: where its marker starts, the byte after 0xFF, and a length
      whose meaning depends on the scanner that produced it. */
  datatype Entry = Entry(loc: nat, tag: byte, len: nat)

  /** Every exception the scanners raise is one failure outcome. */
  datatype Result<T> = Ok(value: T) | Fail

  datatype Option<T> = None | Some(value: T)

  /** `struct.unpack('>H', b)` on two bytes. */
  function BigEndian16(hi: byte, lo: byte): (v: nat)
    ensures v < 0x1_0000
    ensures v / 0x100 == hi as nat && v % 0x100 == lo as nat
    ensures v < 2 <==> hi == 0 && lo < 2
  {
    hi as nat * 0x100 + lo as nat
  }

  /** The 15 ASCII bytes "ULTRAIDHOLOKOTE" that identify the vendor watermark. */
  const Signature: seq<byte> :=
    [0x55, 0x4C, 0x54, 0x52, 0x41, 0x49, 0x44, 0x48, 0x4F, 0x4C, 0x4F, 0x4B, 0x4F, 0x54, 0x45]

  /** `struct.unpack('B', b)`: one unsigned byte; any other length raises. */
  function UnpackByte(b: seq<byte>): Result<byte>
  {
    if |b| == 1 then Ok(b[0]) else Fail
  }

  /** `struct.unpack('>H', b)`: a big-endian 16-bit number; any other length
      raises. */
  function UnpackBE16(b: seq<byte>): Result<nat>
  {
    if |b| == 2 then Ok(BigEndian16(b[0], b[1])) else Fail
  }

  /** The entries `p` in front of the entries of a scan that succeeded. */
  function PrependAll(p: seq<Entry>, r: Result<seq<Entry>>): (q: Result<seq<Entry>>)
    ensures q.Ok? == r.Ok?
    ensures q.Ok? ==> q.value == p + r.value
  {
    match r
    case Fail => Fail
    case Ok(s) => Ok(p + s)
  }

  lemma {:induction false} PrependNothing(r: Result<seq<Entry>>)
    ensures PrependAll([], r) == r
  {
    if r.Ok? {
      assert [] + r.value == r.value;
    }
  }

  lemma {:induction false} PrependTwice(p: seq<Entry>, e: Entry, r: Result<seq<Entry>>)
    ensures PrependAll(p, PrependAll([e], r)) == PrependAll(p + [e], r)
  {
    if r.Ok? {
      assert p + ([e] + r.value) == (p + [e]) + r.value;
    }
  }
}
