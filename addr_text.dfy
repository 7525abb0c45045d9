/**
 * The `Display` text of an `Ipv4Addr` (dotted decimal, as section 2.1 of
 * RFC 1123 writes host numbers) and its inverse. The `Display` text of an
 * `Ipv6Addr` is that of the standard library and is taken as a parameter
 * where it is needed.
 */
module AddrText {
  import opened Wrappers
  import opened Octets
  import opened Text

  /** The decimal text of each octet, in the given order. */
  function OctetTexts(octets: seq<u8>): (r: seq<string>)
    ensures |r| == |octets|
    ensures forall i :: 0 <= i < |r| ==> r[i] == Decimal(octets[i])
  {
    if |octets| == 0 then [] else OctetTexts(octets[..|octets| - 1]) + [Decimal(octets[|octets| - 1])]
  }

  /** The octets joined by dots, e.g. `192.168.0.1`. */
  function DottedText(octets: seq<u8>): string
  {
    Join(".", OctetTexts(octets))
  }

  /** One more octet: written alone when it is the first, after a dot otherwise. */
  lemma DottedSnoc(octets: seq<u8>, x: u8)
    ensures DottedText(octets + [x]) == if |octets| == 0 then Decimal(x) else DottedText(octets) + "." + Decimal(x)
  {
    assert (octets + [x])[..|octets|] == octets;
    JoinSnoc(".", OctetTexts(octets), Decimal(x));
  }

  /** `Ipv4Addr`'s `Display`. */
  function Ipv4Text(addr: Ipv4Addr): string
  {
    DottedText(addr)
  }

  /** A decimal numeral of one to three digits whose value is an octet. */
  predicate IsOctetText(s: string)
  {
    1 <= |s| <= 3 && AllDigits(s) && ParseDecimal(s) < 256
  }

  /** The octets of text made of dot-separated octet numerals. */
  function ParseDotted(s: string): Option<seq<u8>>
  {
    var parts := Split(s, '.');
    if forall i :: 0 <= i < |parts| ==> IsOctetText(parts[i]) then
      Some(seq(|parts|, i requires 0 <= i < |parts| => ParseDecimal(parts[i]) as u8))
    else None
  }

  /** Dotted text reads back as the octets it was written from. */
  lemma DottedRoundTrip(octets: seq<u8>)
    requires |octets| >= 1
    ensures ParseDotted(DottedText(octets)) == Some(octets)
  {
    var parts := OctetTexts(octets);
    forall i | 0 <= i < |parts|
      ensures '.' !in parts[i] && IsOctetText(parts[i]) && ParseDecimal(parts[i]) == octets[i]
    {
      OctetDigits(octets[i]);
      DecimalRoundTrip(octets[i]);
    }
    SplitJoin(parts, '.');
    assert Split(DottedText(octets), '.') == parts;
    var back := seq(|parts|, i requires 0 <= i < |parts| => ParseDecimal(parts[i]) as u8);
    assert back == octets;
  }

  /** The `Display` text of an IPv4 address determines the address. */
  lemma Ipv4TextRoundTrip(addr: Ipv4Addr)
    ensures ParseDotted(Ipv4Text(addr)) == Some(addr)
  {
    DottedRoundTrip(addr);
  }

  /** Dotted text never holds more than four characters per octet. */
  lemma DottedLength(octets: seq<u8>)
    requires |octets| >= 1
    ensures |octets| * 2 - 1 <= |DottedText(octets)| <= |octets| * 4 - 1
  {
    var parts := OctetTexts(octets);
    JoinLength(".", parts);
    TotalLengthBounds(octets);
  }

  lemma {:induction false} TotalLengthBounds(octets: seq<u8>)
    ensures |octets| <= TotalLength(OctetTexts(octets)) <= 3 * |octets|
  {
    if |octets| > 0 {
      var init := octets[..|octets| - 1];
      assert OctetTexts(octets)[..|octets| - 1] == OctetTexts(init);
      TotalLengthBounds(init);
      OctetDigits(octets[|octets| - 1]);
    }
  }
}
