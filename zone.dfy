/**
 * `Zone` of src/dns/zone.rs: a name, an origin and an append-only list of
 * records, rendered one record per line.
 */
module DnsZone {
  import opened Text
  import opened DnsRecord

  /** A zone as a value: what the registry's view of a zone holds. */
  datatype ZoneValue = ZoneValue(name: string, origin: string, records: seq<Record>)

  /** `add_record` on a zone value: one record at the end; name and origin stay. */
  function WithRecord(z: ZoneValue, r: Record): ZoneValue
  {
    z.(records := z.records + [r])
  }

  /** The rendered text of each record, in order. */
  function Texts(records: seq<Record>, showV6: ShowIpv6): seq<string>
  {
    seq(|records|, i requires 0 <= i < |records| => DnsRecord.Render(records[i], showV6))
  }

  /** The zone's `Display`: the records' lines joined by newlines. */
  function ZoneText(records: seq<Record>, showV6: ShowIpv6): string
  {
    Join("\n", Texts(records, showV6))
  }

  /** Appending a record appends its line, after a newline unless it is the first. */
  lemma ZoneTextSnoc(records: seq<Record>, r: Record, showV6: ShowIpv6)
    ensures ZoneText(records + [r], showV6)
      == if |records| == 0 then DnsRecord.Render(r, showV6) else ZoneText(records, showV6) + "\n" + DnsRecord.Render(r, showV6)
  {
    assert Texts(records + [r], showV6) == Texts(records, showV6) + [DnsRecord.Render(r, showV6)];
    JoinSnoc("\n", Texts(records, showV6), DnsRecord.Render(r, showV6));
  }

  /** An empty zone renders as the empty string. */
  lemma EmptyZoneText(showV6: ShowIpv6)
    ensures ZoneText([], showV6) == ""
  {
  }

  /** A one-record zone renders exactly that record's line. */
  lemma SingleRecordZoneText(r: Record, showV6: ShowIpv6)
    ensures ZoneText([r], showV6) == DnsRecord.Render(r, showV6)
  {
    ZoneTextSnoc([], r, showV6);
  }

  /**
   * When no field of any record holds a newline, splitting the zone text at
   * its newlines gives back the records' lines in insertion order: no line is
   * lost, none is added before the first or after the last.
   */
  lemma ZoneLines(records: seq<Record>, showV6: ShowIpv6)
    requires |records| >= 1
    requires forall i :: 0 <= i < |records| ==> FieldsAvoid(records[i], showV6, '\n')
    ensures Split(ZoneText(records, showV6), '\n') == Texts(records, showV6)
  {
    var texts := Texts(records, showV6);
    forall i | 0 <= i < |texts|
      ensures '\n' !in texts[i]
    {
      RenderOneLine(records[i], showV6);
    }
    SplitJoin(texts, '\n');
  }

  class Zone {
    const name: string
    const origin: string
    var records: seq<Record>

    /** `Zone::new`: the name and origin, and no records yet. */
    constructor (name: string, origin: string)
      ensures this.name == name && this.origin == origin && records == []
    {
      this.name := name;
      this.origin := origin;
      records := [];
    }

    /** The zone as a value. */
    function Value(): ZoneValue
      reads this
    {
      ZoneValue(name, origin, records)
    }

    /** `add_record`: one record at the end, the earlier ones kept in order. */
    method AddRecord(r: Record)
      modifies this
      ensures records == old(records) + [r]
      ensures Value() == WithRecord(old(Value()), r)
    {
      records := records + [r];
    }

    /** `impl Display for Zone`: the `first`-flag loop writes the records newline-separated. */
    method Render(showV6: ShowIpv6) returns (text: string)
      ensures text == ZoneText(records, showV6)
    {
      var rs := records;
      ghost var lines := Texts(rs, showV6);
      text := "";
      var first := true;
      var i := 0;
      while i < |rs|
        invariant 0 <= i <= |rs|
        invariant first <==> i == 0
        invariant text == Join("\n", lines[..i])
      {
        var line := DnsRecord.Render(rs[i], showV6);
        assert line == lines[i];
        TakeSnoc(lines, i);
        JoinSnoc("\n", lines[..i], line);
        if first {
          text := text + line;
          first := false;
        } else {
          text := text + "\n" + line;
        }
        i := i + 1;
      }
      TakeAll(lines);
    }
  }
}
