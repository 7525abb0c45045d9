/**
 * `Record` of src/dns/record.rs and its `Display`: one master-file line in
 * the layout of section 5.1 of RFC 1035 without a TTL column, i.e. owner,
 * class `IN`, type and rdata separated by tabs.
 */
module DnsRecord {
  import opened Octets
  import opened Text
  import opened AddrText

  type i32 = x: int | -0x8000_0000 <= x < 0x8000_0000
  type usize = x: int | 0 <= x < 0x1_0000_0000_0000_0000

  /** `Display` of an `Ipv6Addr`, which belongs to the standard library. */
  type ShowIpv6 = Ipv6Addr -> string

  datatype Record =
    | Soa(name: string, domain: string, email: string,
          serial: i32, refresh: i32, retry: i32, expire: i32, nct: i32)
    | Ns(name: string, domain: string)
    | A(name: string, address: Ipv4Addr)
    | Aaaa(name: string, address6: Ipv6Addr)
    | Mx(name: string, priority: usize, domain: string)
    | Cname(name: string, alias: string)
    | Txt(name: string, value: string)
    | Ptr(name: string, domain: string)
    | Blank

  /** The SOA timers as the text after the email: ` ( serial refresh retry expire nct )`. */
  function SoaTimers(serial: i32, refresh: i32, retry: i32, expire: i32, nct: i32): string
  {
    " ( " + SignedDecimal(serial) + " " + SignedDecimal(refresh) + " " + SignedDecimal(retry)
      + " " + SignedDecimal(expire) + " " + SignedDecimal(nct) + " )"
  }

  /** `impl Display for Record`: the `write!` templates, one literal piece at a time. */
  function Render(r: Record, showV6: ShowIpv6): string
  {
    match r
    case Soa(name, domain, email, serial, refresh, retry, expire, nct) =>
      name + "\t" + "IN" + "\t" + "SOA" + "\t" + domain + "\t" + (email + SoaTimers(serial, refresh, retry, expire, nct))
    case Ns(name, domain) => name + "\t" + "IN" + "\t" + "NS" + "\t" + domain
    case A(name, address) => name + "\t" + "IN" + "\t" + "A" + "\t" + Ipv4Text(address)
    case Aaaa(name, address) => name + "\t" + "IN" + "\t" + "AAAA" + "\t" + showV6(address)
    case Mx(name, priority, domain) => name + "\t" + "IN" + "\t" + "MX" + "\t" + Decimal(priority) + "\t" + domain
    case Cname(name, alias) => name + "\t" + "IN" + "\t" + "CNAME" + "\t" + alias
    case Txt(name, value) => name + "\t" + "IN" + "\t" + "TXT" + "\t" + value
    case Ptr(name, domain) => name + "\t" + "IN" + "\t" + "PTR" + "\t" + domain
    case Blank => ""
  }

  /** The type mnemonic of a record that is not `Blank`. */
  function Mnemonic(r: Record): string
    requires !r.Blank?
  {
    match r
    case Soa(_, _, _, _, _, _, _, _) => "SOA"
    case Ns(_, _) => "NS"
    case A(_, _) => "A"
    case Aaaa(_, _) => "AAAA"
    case Mx(_, _, _) => "MX"
    case Cname(_, _) => "CNAME"
    case Txt(_, _) => "TXT"
    case Ptr(_, _) => "PTR"
  }

  /** The rdata fields, in the order the line lists them; the SOA timers ride on the email field. */
  function Rdata(r: Record, showV6: ShowIpv6): seq<string>
    requires !r.Blank?
  {
    match r
    case Soa(_, domain, email, serial, refresh, retry, expire, nct) =>
      [domain, email + SoaTimers(serial, refresh, retry, expire, nct)]
    case Ns(_, domain) => [domain]
    case A(_, address) => [Ipv4Text(address)]
    case Aaaa(_, address) => [showV6(address)]
    case Mx(_, priority, domain) => [Decimal(priority), domain]
    case Cname(_, alias) => [alias]
    case Txt(_, value) => [value]
    case Ptr(_, domain) => [domain]
  }

  /** The tab-separated fields of a line: owner, `IN`, mnemonic, then the rdata. A `Blank` has none. */
  function Fields(r: Record, showV6: ShowIpv6): seq<string>
  {
    if r.Blank? then [] else [r.name, "IN", Mnemonic(r)] + Rdata(r, showV6)
  }

  lemma Join4(sep: string, a: string, b: string, c: string, d: string)
    ensures Join(sep, [a, b, c, d]) == a + sep + b + sep + c + sep + d
  {
    assert [a, b][..1] == [a];
    assert Join(sep, [a, b]) == a + sep + b;
    assert [a, b, c][..2] == [a, b];
    assert Join(sep, [a, b, c]) == a + sep + b + sep + c;
    assert [a, b, c, d][..3] == [a, b, c];
  }

  lemma Join5(sep: string, a: string, b: string, c: string, d: string, e: string)
    ensures Join(sep, [a, b, c, d, e]) == a + sep + b + sep + c + sep + d + sep + e
  {
    assert [a, b, c, d, e][..4] == [a, b, c, d];
    Join4(sep, a, b, c, d);
  }

  /**
   * Every line is its fields joined by tabs: owner, class `IN`, type, then
   * the rdata, with no TTL column, and `Blank` is the empty line.
   */
  lemma RenderIsTabSeparated(r: Record, showV6: ShowIpv6)
    ensures Render(r, showV6) == Join("\t", Fields(r, showV6))
  {
    if !r.Blank? {
      var f := Fields(r, showV6);
      if r.Soa? || r.Mx? {
        assert f == [f[0], f[1], f[2], f[3], f[4]];
        Join5("\t", f[0], f[1], f[2], f[3], f[4]);
      } else {
        assert f == [f[0], f[1], f[2], f[3]];
        Join4("\t", f[0], f[1], f[2], f[3]);
      }
    }
  }

  /** No field of r holds the character c. */
  predicate FieldsAvoid(r: Record, showV6: ShowIpv6, c: char)
  {
    forall i :: 0 <= i < |Fields(r, showV6)| ==> c !in Fields(r, showV6)[i]
  }

  /** When no field holds a tab, splitting a rendered line at its tabs gives the fields back. */
  lemma FieldsRecoverable(r: Record, showV6: ShowIpv6)
    requires !r.Blank? && FieldsAvoid(r, showV6, '\t')
    ensures Split(Render(r, showV6), '\t') == Fields(r, showV6)
  {
    RenderIsTabSeparated(r, showV6);
    SplitJoin(Fields(r, showV6), '\t');
  }

  /** A line holds a newline only if one of its fields does: each record is one line. */
  lemma RenderOneLine(r: Record, showV6: ShowIpv6)
    requires FieldsAvoid(r, showV6, '\n')
    ensures '\n' !in Render(r, showV6)
  {
    RenderIsTabSeparated(r, showV6);
    JoinAvoids("\t", Fields(r, showV6), '\n');
  }

  /**
   * The SOA line: the tab-separated `name`, `IN`, `SOA`, `domain` and
   * `email`, then ` ( serial refresh retry expire nct )` on the same line.
   */
  lemma SoaLine(name: string, domain: string, email: string, serial: i32, refresh: i32, retry: i32, expire: i32, nct: i32, showV6: ShowIpv6)
    ensures Render(Soa(name, domain, email, serial, refresh, retry, expire, nct), showV6)
      == Join("\t", [name, "IN", "SOA", domain, email]) + SoaTimers(serial, refresh, retry, expire, nct)
  {
    Join5("\t", name, "IN", "SOA", domain, email);
  }

  /** The timers in signed decimal add no newline: an SOA record is one line when its names are. */
  lemma SoaOneLine(name: string, domain: string, email: string, serial: i32, refresh: i32, retry: i32, expire: i32, nct: i32, showV6: ShowIpv6)
    requires '\n' !in name && '\n' !in domain && '\n' !in email
    ensures '\n' !in Render(Soa(name, domain, email, serial, refresh, retry, expire, nct), showV6)
  {
    SoaTimersOneLine(serial, refresh, retry, expire, nct);
    TextAvoids(name, "\t" + "IN" + "\t" + "SOA" + "\t", domain, "\t", email + SoaTimers(serial, refresh, retry, expire, nct));
  }

  lemma TextAvoids(a: string, b: string, c: string, d: string, e: string)
    requires '\n' !in a && '\n' !in b && '\n' !in c && '\n' !in d && '\n' !in e
    ensures '\n' !in a + b + c + d + e
  {
  }

  lemma SoaTimersOneLine(serial: i32, refresh: i32, retry: i32, expire: i32, nct: i32)
    ensures '\n' !in SoaTimers(serial, refresh, retry, expire, nct)
  {
    NumeralHasNoNewline(serial);
    NumeralHasNoNewline(refresh);
    NumeralHasNoNewline(retry);
    NumeralHasNoNewline(expire);
    NumeralHasNoNewline(nct);
  }

  lemma NumeralHasNoNewline(i: int)
    ensures '\n' !in SignedDecimal(i)
  {
    SignedDecimalRoundTrip(i);
    if i < 0 {
      assert SignedDecimal(i) == "-" + Decimal(-i);
    }
  }

  /** The MX line puts the priority, in decimal, and then the domain after the mnemonic. */
  lemma MxLayout(name: string, priority: usize, domain: string, showV6: ShowIpv6)
    ensures Render(Mx(name, priority, domain), showV6) == Join("\t", Fields(Mx(name, priority, domain), showV6))
    ensures Fields(Mx(name, priority, domain), showV6)[3 .. 5] == [Decimal(priority), domain]
    ensures ParseDecimal(Fields(Mx(name, priority, domain), showV6)[3]) == priority
  {
    assert Fields(Mx(name, priority, domain), showV6) == [name, "IN", "MX", Decimal(priority), domain];
    Join5("\t", name, "IN", "MX", Decimal(priority), domain);
    DecimalRoundTrip(priority);
  }
}
