/** The second scanner, parse_jfif.py. Its bookkeeping differs from ajfiftool.py:
    it reports the raw length field (which does not count the marker), gives SOS
    and EOI the length 2 without reading a length field, rejects a length below 2
    explicitly, and stops at the first SOS without reporting it. */
module ParseJfif {
  import opened PyFile
  import opened Markers

  /** `read_tag` with the cursor at `loc`: the entry and the cursor it leaves. */
  function TagAt(data: seq<byte>, loc: nat): (r: Result<(Entry, nat)>)
    ensures r.Ok? ==> loc + 2 <= r.value.1 <= |data| && data[loc] == MarkerLead
    ensures r.Ok? ==> r.value.0.loc == loc && r.value.0.tag == data[loc + 1]
    ensures r.Ok? && (r.value.0.tag == SOS || r.value.0.tag == EOI) ==>
      r.value.0.len == 2 && r.value.1 == loc + 2
    ensures r.Ok? && r.value.0.tag != SOS && r.value.0.tag != EOI ==>
      r.value.1 == loc + 4 && r.value.0.len == BigEndian16(data[loc + 2], data[loc + 3])
    ensures r.Ok? <==> (loc + 2 <= |data| && data[loc] == MarkerLead &&
      (data[loc + 1] == SOS || data[loc + 1] == EOI || loc + 4 <= |data|))
  {
    if |data| < loc + 2 || data[loc] != MarkerLead then Fail
    else if data[loc + 1] == SOS || data[loc + 1] == EOI then
      Ok((Entry(loc, data[loc + 1], 2), loc + 2))
    else if |data| < loc + 4 then Fail
    else Ok((Entry(loc, data[loc + 1], BigEndian16(data[loc + 2], data[loc + 3])), loc + 4))
  }

  /** Where the cursor ends after `read(n)` from `pos` whose bytes are dropped: at
      most `n` further on, and never past the end of the file. */
  function SkipTo(data: seq<byte>, pos: nat, n: nat): nat
  {
    if pos + n <= |data| then pos + n else if pos < |data| then |data| else pos
  }

  /** The loop of `read_jfif` from cursor `pos`: the entries it prints, up to but
      not including the first SOS. The payload read may come up short at the end
      of the file without an error. */
  function ReportedFrom(data: seq<byte>, pos: nat): Result<seq<Entry>>
    decreases |data| - pos
  {
    match TagAt(data, pos)
    case Fail => Fail
    case Ok((e, cursor)) =>
      if e.tag == SOS then Ok([])
      else if e.len < 2 then Fail
      else PrependAll([e], ReportedFrom(data, SkipTo(data, cursor, e.len - 2)))
  }

  /** `read_jfif` with the cursor at `pos`; it does not rewind first. */
  function Reported(data: seq<byte>, pos: nat): Result<seq<Entry>>
  {
    if |data| < pos + 2 || data[pos] != MarkerLead || data[pos + 1] != SOI then Fail
    else ReportedFrom(data, pos + 2)
  }

  /** `read_tag`. */
  method ReadTag(f: InputFile) returns (r: Result<Entry>)
    modifies f
    ensures r.Ok? == TagAt(f.data, old(f.pos)).Ok?
    ensures r.Ok? ==> TagAt(f.data, old(f.pos)).value == (r.value, f.pos)
  {
    var loc := f.Tell();
    ReadOne(f.data, loc);
    var lead := f.Read(1);
    if lead != [MarkerLead] {
      return Fail;
    }
    ReadOne(f.data, loc + 1);
    var tagByte := f.Read(1);
    var tag := UnpackByte(tagByte);
    if tag.Fail? {
      return Fail;
    }
    if tag.value == SOS || tag.value == EOI {
      return Ok(Entry(loc, tag.value, 2));
    }
    ReadTwo(f.data, loc + 2);
    var lengthField := f.Read(2);
    var len := UnpackBE16(lengthField);
    if len.Fail? {
      return Fail;
    }
    return Ok(Entry(loc, tag.value, len.value));
  }

  /** `read_jfif`: the entries it prints, or failure. */
  method ReadJfif(f: InputFile) returns (r: Result<seq<Entry>>)
    modifies f
    ensures r == Reported(f.data, old(f.pos))
  {
    var magic := f.Read(2);
    if magic != [MarkerLead, SOI] {
      return Fail;
    }
    assert Reported(f.data, old(f.pos)) == ReportedFrom(f.data, f.pos);
    var reported: seq<Entry> := [];
    PrependNothing(ReportedFrom(f.data, f.pos));
    while true
      invariant Reported(f.data, old(f.pos)) == PrependAll(reported, ReportedFrom(f.data, f.pos))
      decreases |f.data| - f.pos
    {
      ghost var here := f.pos;
      var t := ReadTag(f);
      if t.Fail? {
        return Fail;
      }
      var tag := t.value;
      if tag.tag == SOS {
        break;
      }
      var len := tag.len;
      if len < 2 {
        return Fail;
      }
      len := len - 2;
      ghost var cursor := f.pos;
      var payload := f.Read(len);
      assert f.pos == SkipTo(f.data, cursor, len);
      assert ReportedFrom(f.data, here) == PrependAll([tag], ReportedFrom(f.data, f.pos));
      PrependTwice(reported, tag, ReportedFrom(f.data, f.pos));
      reported := reported + [tag];
    }
    assert reported + [] == reported;
    return Ok(reported);
  }
}
