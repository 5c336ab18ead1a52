/** What a successful run of parse_jfif.py guarantees about the entries it prints,
    and how they relate to the table of contents of ajfiftool.py. */
module ParseJfifProofs {
  import opened PyFile
  import opened Markers
  import opened ParseJfif
  import AjfifTool
  import AjfifToolProofs

  /** Bytes a reported entry's turn of the loop consumes: the marker, plus for a
      marker other than EOI the length field and payload it counts. */
  function Size(e: Entry): nat
  {
    if e.tag == EOI then 2 else 2 + e.len
  }

  /** Each reported entry starts where the previous one's turn of the loop ended. */
  ghost predicate Chain(es: seq<Entry>, from: nat)
    decreases |es|
  {
    |es| == 0 || (es[0].loc == from && Chain(es[1..], from + Size(es[0])))
  }

  /** Bytes covered by the reported entries. */
  function Span(es: seq<Entry>): nat
  {
    if |es| == 0 then 0 else Size(es[0]) + Span(es[1..])
  }

  /** A reported entry: its marker is in the file where it says, it is not SOS, its
      length is at least 2 (exactly 2 for EOI), and its whole segment lies inside
      the file. */
  ghost predicate Reportable(data: seq<byte>, e: Entry)
  {
    e.loc + Size(e) <= |data| &&
    data[e.loc] == MarkerLead && data[e.loc + 1] == e.tag &&
    e.tag != SOS && e.len >= 2 && (e.tag == EOI ==> e.len == 2)
  }

  /** The marker at `pos` makes `read_tag` or the length check raise. */
  ghost predicate ReportStopsAt(data: seq<byte>, pos: nat)
  {
    |data| < pos + 2 || data[pos] != MarkerLead ||
    (data[pos + 1] != SOS && data[pos + 1] != EOI &&
      (|data| < pos + 4 || BigEndian16(data[pos + 2], data[pos + 3]) < 2))
  }

  /** When the payload lies inside the file, dropping it leaves the cursor right
      after the entry's turn of the loop. */
  lemma {:induction false} SkipPayload(data: seq<byte>, pos: nat)
    requires TagAt(data, pos).Ok? && TagAt(data, pos).value.0.tag != SOS
    requires TagAt(data, pos).value.0.len >= 2
    requires pos + Size(TagAt(data, pos).value.0) <= |data|
    ensures var (e, cursor) := TagAt(data, pos).value;
      SkipTo(data, cursor, e.len - 2) == pos + Size(e)
  {
    var (e, cursor) := TagAt(data, pos).value;
    if e.tag == EOI {
      assert cursor == pos + 2 && e.len - 2 == 0;
    } else {
      assert cursor == pos + 4 && cursor + (e.len - 2) == pos + Size(e);
    }
  }

  /** One turn of the loop when the whole payload is in the file: the entry `r`
      is reported and the scan goes on right after the payload. */
  lemma {:induction false} ReportedUnfold(data: seq<byte>, pos: nat, r: Entry)
    requires TagAt(data, pos).Ok? && TagAt(data, pos).value.0 == r
    requires r.tag != SOS && r.len >= 2 && pos + Size(r) <= |data|
    ensures ReportedFrom(data, pos) == PrependAll([r], ReportedFrom(data, pos + Size(r)))
  {
    SkipPayload(data, pos);
  }

  /** One turn of a loop that succeeds: a payload read that came up short would
      leave the cursor at the end of the file, where the next `read_tag` raises. */
  lemma {:induction false} ReportedStep(data: seq<byte>, pos: nat)
    requires ReportedFrom(data, pos).Ok?
    ensures TagAt(data, pos).Ok?
    ensures TagAt(data, pos).value.0.tag == SOS ==> ReportedFrom(data, pos).value == []
    ensures TagAt(data, pos).value.0.tag != SOS ==>
      var e := TagAt(data, pos).value.0;
      e.len >= 2 && pos + Size(e) + 2 <= |data| &&
      ReportedFrom(data, pos + Size(e)).Ok? &&
      ReportedFrom(data, pos).value == [e] + ReportedFrom(data, pos + Size(e)).value
  {
    var (e, cursor) := TagAt(data, pos).value;
    if e.tag != SOS {
      var next := SkipTo(data, cursor, e.len - 2);
      assert ReportedFrom(data, pos) == PrependAll([e], ReportedFrom(data, next));
      assert TagAt(data, next).Ok?;
      assert next == pos + Size(e);
    }
  }

  /** A loop that succeeds starts on a marker inside the file. */
  lemma {:induction false} ReportedInside(data: seq<byte>, pos: nat)
    requires ReportedFrom(data, pos).Ok?
    ensures pos + 2 <= |data|
  {
  }

  /** A loop that succeeds from `pos` reports chained entries and ends at an SOS
      marker that lies inside the file. */
  lemma {:induction false} ReportedFromChain(data: seq<byte>, pos: nat, es: seq<Entry>)
    requires ReportedFrom(data, pos) == Ok(es)
    ensures Chain(es, pos)
    ensures pos + Span(es) + 2 <= |data|
    ensures data[pos + Span(es)] == MarkerLead && data[pos + Span(es) + 1] == SOS
    decreases |data| - pos
  {
    ReportedStep(data, pos);
    var e := TagAt(data, pos).value.0;
    if e.tag != SOS {
      var next := pos + Size(e);
      var rest := ReportedFrom(data, next).value;
      ReportedFromChain(data, next, rest);
      assert es[1..] == rest;
    }
  }

  /** Every entry a successful loop reports lies inside the file with its marker
      where it says, is not SOS, and has a length of at least 2 (exactly 2 for EOI). */
  lemma {:induction false} ReportedFromEntries(data: seq<byte>, pos: nat, es: seq<Entry>)
    requires ReportedFrom(data, pos) == Ok(es)
    ensures forall i :: 0 <= i < |es| ==> Reportable(data, es[i])
    decreases |data| - pos
  {
    ReportedStep(data, pos);
    var e := TagAt(data, pos).value.0;
    if e.tag != SOS {
      var next := pos + Size(e);
      var rest := ReportedFrom(data, next).value;
      ReportedFromEntries(data, next, rest);
      assert Reportable(data, e);
      forall i | 0 <= i < |es|
        ensures Reportable(data, es[i])
      {
        if i > 0 {
          assert es[i] == rest[i - 1];
        }
      }
    }
  }

  /** `read_jfif` succeeds only on a stream with SOI at the cursor; its entries
      then start right after SOI, are chained and inside the file, and the scan
      ended at an SOS marker that was not reported. */
  lemma {:induction false} ReportedShape(data: seq<byte>, pos: nat, es: seq<Entry>)
    requires Reported(data, pos) == Ok(es)
    ensures pos + 2 <= |data| && data[pos] == MarkerLead && data[pos + 1] == SOI
    ensures Chain(es, pos + 2)
    ensures forall i :: 0 <= i < |es| ==> Reportable(data, es[i])
    ensures pos + 2 + Span(es) + 2 <= |data|
    ensures data[pos + 2 + Span(es)] == MarkerLead && data[pos + 2 + Span(es) + 1] == SOS
  {
    ReportedFromChain(data, pos + 2, es);
    ReportedFromEntries(data, pos + 2, es);
  }

  /** A marker where `read_tag` or the length check raises makes the whole run
      fail; a length field below 2 is one of them. */
  lemma {:induction false} ReportedFromFails(data: seq<byte>, pos: nat)
    requires ReportStopsAt(data, pos)
    ensures ReportedFrom(data, pos) == Fail
  {
  }

  /** EOI does not end the loop: it is reported with length 2 and the scan goes on
      right after it, so a stream that ends after EOI fails. */
  lemma {:induction false} EoiIsNotTerminator(data: seq<byte>, pos: nat)
    requires pos + 2 <= |data| && data[pos] == MarkerLead && data[pos + 1] == EOI
    ensures ReportedFrom(data, pos) == PrependAll([Entry(pos, EOI, 2)], ReportedFrom(data, pos + 2))
    ensures pos + 2 == |data| ==> ReportedFrom(data, pos) == Fail
  {
  }

  /** The entries `es` of parse_jfif.py are the entries `toc` of ajfiftool.py
      without the final SOS entry, with the same locations and tags, and lengths
      that are 2 smaller. */
  ghost predicate Agree(es: seq<Entry>, toc: seq<Entry>)
  {
    |es| + 1 == |toc| &&
    forall i :: 0 <= i < |es| ==>
      es[i].loc == toc[i].loc && es[i].tag == toc[i].tag && es[i].len + 2 == toc[i].len
  }

  /** The loop stops, reporting nothing more, at an SOS marker. */
  lemma {:induction false} ReportedAtSos(data: seq<byte>, pos: nat)
    requires pos + 2 <= |data| && data[pos] == MarkerLead && data[pos + 1] == SOS
    ensures ReportedFrom(data, pos) == Ok([])
  {
    assert TagAt(data, pos) == Ok((Entry(pos, SOS, 2), pos + 2));
  }

  /** On a segment with a length field of at least 2, `read_tag` reads the same
      marker as `seek_next`, with the raw field as its length. */
  lemma {:induction false} TagMatchesSegment(data: seq<byte>, pos: nat, e: Entry, next: nat)
    requires AjfifTool.NextSegment(data, pos) == Ok((e, next))
    requires !AjfifToolProofs.ScanStopsAt(data, pos) && e.tag != SOS
    ensures TagAt(data, pos).Ok? && TagAt(data, pos).value.0 == Entry(pos, e.tag, e.len - 2)
    ensures e.len - 2 >= 2 && Size(Entry(pos, e.tag, e.len - 2)) == e.len
    ensures pos + Size(Entry(pos, e.tag, e.len - 2)) == next
  {
  }

  /** On a segment that both scanners accept, parse_jfif.py reports the entry with
      the raw length field and goes on where ajfiftool.py goes on. */
  lemma {:induction false} ReportedMatchesSegment(data: seq<byte>, pos: nat, e: Entry, next: nat)
    requires AjfifTool.NextSegment(data, pos) == Ok((e, next))
    requires !AjfifToolProofs.ScanStopsAt(data, pos) && e.tag != SOS
    requires ReportedFrom(data, next).Ok?
    ensures ReportedFrom(data, pos) == Ok([Entry(pos, e.tag, e.len - 2)] + ReportedFrom(data, next).value)
  {
    TagMatchesSegment(data, pos, e, next);
    ReportedAfterTag(data, pos, Entry(pos, e.tag, e.len - 2), next);
  }

  /** A reported entry whose turn of the loop ends at `next`, where the loop then
      succeeds, is followed by what the loop reports from `next`. */
  lemma {:induction false} ReportedAfterTag(data: seq<byte>, pos: nat, r: Entry, next: nat)
    requires TagAt(data, pos).Ok? && TagAt(data, pos).value.0 == r
    requires r.tag != SOS && r.len >= 2 && pos + Size(r) == next
    requires ReportedFrom(data, next).Ok?
    ensures ReportedFrom(data, pos) == Ok([r] + ReportedFrom(data, next).value)
  {
    ReportedInside(data, next);
    ReportedUnfold(data, pos, r);
  }

  lemma {:induction false} ScannersAgreeFrom(data: seq<byte>, pos: nat, toc: seq<Entry>)
    requires AjfifTool.TocFrom(data, pos) == Ok(toc)
    ensures ReportedFrom(data, pos).Ok?
    ensures Agree(ReportedFrom(data, pos).value, toc)
    decreases |data| - pos
  {
    var (e, next) := AjfifTool.NextSegment(data, pos).value;
    if e.tag == SOS {
      assert toc == [e];
      ReportedAtSos(data, pos);
    } else {
      var rest := AjfifTool.TocFrom(data, next).value;
      assert toc == [e] + rest;
      if AjfifToolProofs.ScanStopsAt(data, pos) {
        AjfifToolProofs.TocFromFails(data, pos);
        assert false;
      }
      ScannersAgreeFrom(data, next, rest);
      ReportedMatchesSegment(data, pos, e, next);
      var reported := Entry(pos, e.tag, e.len - 2);
      var restReported := ReportedFrom(data, next).value;
      forall i | 0 <= i < |[reported] + restReported|
        ensures ([reported] + restReported)[i].loc == toc[i].loc
        ensures ([reported] + restReported)[i].tag == toc[i].tag
        ensures ([reported] + restReported)[i].len + 2 == toc[i].len
      {
        if i > 0 {
          assert ([reported] + restReported)[i] == restReported[i - 1];
          assert toc[i] == rest[i - 1];
        }
      }
    }
  }

  /** Whenever ajfiftool.py builds a table of contents, parse_jfif.py (with the
      cursor at the start) succeeds on the same file and prints the same entries
      except the final SOS one, each with a length 2 smaller. */
  lemma {:induction false} ScannersAgree(data: seq<byte>, toc: seq<Entry>)
    requires AjfifTool.Toc(data) == Ok(toc)
    ensures Reported(data, 0).Ok?
    ensures Agree(Reported(data, 0).value, toc)
  {
    ScannersAgreeFrom(data, 2, toc);
  }
}
