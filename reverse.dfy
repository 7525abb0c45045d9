/**
 * The reverse-lookup names of src/dns/mod.rs: an IPv4 address as its
 * octets in reverse order under `in-addr.arpa.` (section 3.5 of RFC 1035),
 * an IPv6 address as its 32 nibbles, least significant first, under
 * `ip6.arpa.` (section 2.5 of RFC 3596).
 */
module DnsReverse {
  import opened Wrappers
  import opened Bitwise
  import opened Octets
  import opened Text
  import opened AddrText

  function Reversed<T>(s: seq<T>): (r: seq<T>)
    ensures |r| == |s|
    ensures forall i :: 0 <= i < |s| ==> r[i] == s[|s| - 1 - i]
  {
    seq(|s|, i requires 0 <= i < |s| => s[|s| - 1 - i])
  }

  lemma ReversedTwice<T>(s: seq<T>)
    ensures Reversed(Reversed(s)) == s
  {
  }

  const Ipv4Suffix := ".in-addr.arpa."
  const Ipv6Suffix := ".ip6.arpa."

  // ---------------------------------------------------------------------
  // IPv4

  /** `ipv4_reverse_string(addr, suffix)`: the octets last to first, dot-separated, then the suffix if asked for. */
  function Ipv4ReverseName(addr: Ipv4Addr, includeSuffix: bool): string
  {
    DottedText(Reversed(addr)) + (if includeSuffix then Ipv4Suffix else "")
  }

  /** `ipv4_reverse_string`: the `first`-flag loop over the octets in reverse. */
  method Ipv4ReverseString(addr: Ipv4Addr, includeSuffix: bool) returns (rtn: string)
    ensures rtn == Ipv4ReverseName(addr, includeSuffix)
  {
    rtn := "";
    var first := true;
    ghost var rev := Reversed(addr);
    var i := 0;
    while i < 4
      invariant 0 <= i <= 4
      invariant first <==> i == 0
      invariant rtn == DottedText(rev[..i])
    {
      var octet := addr[3 - i];
      if first {
        rtn := rtn + Decimal(octet);
        first := false;
      } else {
        rtn := rtn + "." + Decimal(octet);
      }
      assert rtn == DottedText(rev[..i + 1]) by {
        TakeSnoc(rev, i);
        DottedSnoc(rev[..i], octet);
      }
      i := i + 1;
    }
    TakeAll(rev);
    if includeSuffix {
      rtn := rtn + Ipv4Suffix;
    }
  }

  /** `d.c.b.a` reads back as the octets of `a.b.c.d` in reverse: the name determines the address. */
  lemma Ipv4ReverseNameInverse(addr: Ipv4Addr)
    ensures ParseDotted(Ipv4ReverseName(addr, false)) == Some(Reversed(addr))
    ensures Reversed(Reversed(addr)) == addr
  {
    assert Ipv4ReverseName(addr, false) == DottedText(Reversed(addr));
    DottedRoundTrip(Reversed(addr));
  }

  /** The name holds 7 to 15 characters, 21 to 29 with the suffix. */
  lemma Ipv4ReverseNameLength(addr: Ipv4Addr, includeSuffix: bool)
    ensures !includeSuffix ==> 7 <= |Ipv4ReverseName(addr, includeSuffix)| <= 15
    ensures includeSuffix ==> 21 <= |Ipv4ReverseName(addr, includeSuffix)| <= 29
  {
    DottedLength(Reversed(addr));
  }

  // ---------------------------------------------------------------------
  // IPv6

  /** `format!("{:04x}", seg)`: four lowercase hex digits, most significant first, zeros kept. */
  function Hex4(seg: u16): (r: seq<char>)
    ensures |r| == 4
  {
    seq(4, i requires 0 <= i < 4 => HexDigit(seg / Pow2(4 * (3 - i)) % 16))
  }

  /**
   * The characters the loop has emitted once it has handled segments 7
   * down to `index`: each segment's hex text reversed.
   */
  function NibbleChars(addr: Ipv6Addr, index: nat): (r: seq<char>)
    requires index <= 8
    ensures |r| == 4 * (8 - index)
    decreases 8 - index
  {
    if index == 8 then [] else NibbleChars(addr, index + 1) + SegmentChars(Segment(addr, index))
  }

  /** The `{:04x}` text of a segment reversed: its nibbles, least significant first. */
  function SegmentChars(seg: u16): (r: seq<char>)
    ensures |r| == 4
  {
    Reversed(Hex4(seg))
  }

  /** The characters as one-character labels separated by dots. */
  function DottedChars(chars: seq<char>): (r: string)
    ensures |r| == if |chars| == 0 then 0 else 2 * |chars| - 1
  {
    if |chars| == 0 then ""
    else if |chars| == 1 then [chars[0]]
    else DottedChars(chars[..|chars| - 1]) + "." + [chars[|chars| - 1]]
  }

  /** `ipv6_reverse_string(addr, suffix)`: the 32 nibble labels, dot-separated, then the suffix if asked for. */
  function Ipv6ReverseName(addr: Ipv6Addr, includeSuffix: bool): string
  {
    DottedChars(NibbleChars(addr, 0)) + (if includeSuffix then Ipv6Suffix else "")
  }

  lemma DottedCharsSnoc(chars: seq<char>, c: char)
    ensures DottedChars(chars + [c]) == if |chars| == 0 then [c] else DottedChars(chars) + "." + [c]
  {
    assert (chars + [c])[..|chars|] == chars;
  }

  /** Splitting at the dots gives back the characters, one label each. */
  lemma {:induction false} DottedCharsSplit(chars: seq<char>)
    requires |chars| >= 1 && '.' !in chars
    ensures Split(DottedChars(chars), '.') == seq(|chars|, i requires 0 <= i < |chars| => [chars[i]])
  {
    var labels := seq(|chars|, i requires 0 <= i < |chars| => [chars[i]]);
    DottedCharsJoin(chars);
    forall i | 0 <= i < |labels|
      ensures '.' !in labels[i]
    {
      assert labels[i] == [chars[i]];
      assert chars[i] in chars;
    }
    SplitJoin(labels, '.');
  }

  lemma {:induction false} DottedCharsJoin(chars: seq<char>)
    ensures DottedChars(chars) == Join(".", seq(|chars|, i requires 0 <= i < |chars| => [chars[i]]))
  {
    if |chars| > 1 {
      var init := chars[..|chars| - 1];
      DottedCharsJoin(init);
      var labels := seq(|chars|, i requires 0 <= i < |chars| => [chars[i]]);
      assert labels[..|chars| - 1] == seq(|init|, i requires 0 <= i < |init| => [init[i]]);
    }
  }

  /**
   * The inner loop of `ipv6_reverse_string`: each character of a segment's
   * reversed hex text, alone if nothing was written yet and after a dot
   * otherwise.
   */
  method WriteLabels(rtn0: string, first0: bool, ghost emitted: seq<char>, hex: seq<char>) returns (rtn: string, first: bool)
    requires rtn0 == DottedChars(emitted) && (first0 <==> |emitted| == 0)
    ensures rtn == DottedChars(emitted + hex) && (first <==> |emitted + hex| == 0)
  {
    rtn, first := rtn0, first0;
    ghost var out := emitted;
    var j := 0;
    while j < |hex|
      invariant 0 <= j <= |hex|
      invariant out == emitted + hex[..j]
      invariant first <==> |out| == 0
      invariant rtn == DottedChars(out)
    {
      var c := hex[j];
      DottedCharsSnoc(out, c);
      if first {
        rtn := rtn + [c];
        first := false;
      } else {
        rtn := rtn + "." + [c];
      }
      out := out + [c];
      TakeSnoc(hex, j);
      j := j + 1;
    }
    TakeAll(hex);
  }

  /** `ipv6_reverse_string`: segments 7 down to 0, each one's `{:04x}` text reversed, one `first`-flag loop over all characters. */
  method Ipv6ReverseString(addr: Ipv6Addr, includeSuffix: bool) returns (rtn: string)
    ensures rtn == Ipv6ReverseName(addr, includeSuffix)
  {
    rtn := "";
    var first := true;
    var index := 8;
    while index > 0
      invariant 0 <= index <= 8
      invariant first <==> |NibbleChars(addr, index)| == 0
      invariant rtn == DottedChars(NibbleChars(addr, index))
    {
      index := index - 1;
      var hex := SegmentChars(Segment(addr, index));
      ghost var before := NibbleChars(addr, index + 1);
      assert NibbleChars(addr, index) == before + hex;
      rtn, first := WriteLabels(rtn, first, before, hex);
    }
    if includeSuffix {
      rtn := rtn + Ipv6Suffix;
    }
  }

  /** Position h of a segment's characters is its nibble h, counting from the least significant. */
  lemma SegmentCharsNibble(seg: u16, h: nat)
    requires h < 4
    ensures SegmentChars(seg)[h] == HexDigit(seg / Pow2(4 * h) % 16)
  {
    assert SegmentChars(seg)[h] == Hex4(seg)[3 - h];
  }

  /** Character j of what segments 7 down to `index` produce comes from segment 7 - j / 4, at position j % 4. */
  lemma {:induction false} NibbleCharsAt(addr: Ipv6Addr, index: nat, j: nat)
    requires index <= 8 && j < 4 * (8 - index)
    ensures NibbleChars(addr, index)[j] == SegmentChars(Segment(addr, 7 - j / 4))[j % 4]
    decreases 8 - index
  {
    var prev := NibbleChars(addr, index + 1);
    assert NibbleChars(addr, index) == prev + SegmentChars(Segment(addr, index));
    if j < 4 * (7 - index) {
      NibbleCharsAt(addr, index + 1, j);
    } else {
      assert j / 4 == 7 - index && j % 4 == j - |prev|;
      assert NibbleChars(addr, index)[j] == SegmentChars(Segment(addr, index))[j - |prev|];
    }
  }

  /**
   * The nibble labels in the order section 2.5 of RFC 3596 asks for:
   * character j is the lowercase hex digit of bits 4j .. 4j + 3 of the
   * address read as a `u128`, i.e. the least significant nibble first.
   */
  lemma NibbleOrder(addr: Ipv6Addr, j: nat)
    requires j < 32
    ensures NibbleChars(addr, 0)[j] == HexDigit(Ipv6ToU128(addr) / Pow2(4 * j) % 16)
  {
    var m, h := j / 4, j % 4;
    NibbleCharsAt(addr, 0, j);
    SegmentCharsNibble(Segment(addr, 7 - m), h);
    SegmentOfValue(addr, m);
    GroupNibbles(h);
    NibblePosition(j);
    DigitOfGroup(BeValue(addr), Pow2(16 * m), Pow2(4 * h), 16, Pow2(12 - 4 * h));
  }

  /** In a dotted run of one-character labels, position 2j holds character j and the odd positions the dots. */
  lemma {:induction false} DottedCharsAt(chars: seq<char>, j: nat)
    requires j < |chars|
    ensures DottedChars(chars)[2 * j] == chars[j]
    ensures j + 1 < |chars| ==> DottedChars(chars)[2 * j + 1] == '.'
  {
    if |chars| > 1 {
      var init := chars[..|chars| - 1];
      if j < |init| {
        DottedCharsAt(init, j);
        if j + 1 < |init| {
          assert DottedChars(chars)[2 * j + 1] == DottedChars(init)[2 * j + 1];
        }
      }
    }
  }

  lemma PrefixAt(a: string, b: string, k: nat)
    requires k < |a|
    ensures (a + b)[k] == a[k]
  {
  }

  /**
   * `ipv6_reverse_string` writes all 32 nibbles, zeros included (63
   * characters, 73 with the suffix), and puts nibble j of
   * `ipv6_to_u128(addr)`, counting from the least significant, at position
   * 2j, with a dot after every nibble but the last.
   */
  lemma Ipv6ReverseNameNibbles(addr: Ipv6Addr, includeSuffix: bool, j: nat)
    requires j < 32
    ensures |Ipv6ReverseName(addr, includeSuffix)| == if includeSuffix then 73 else 63
    ensures Ipv6ReverseName(addr, includeSuffix)[2 * j] == HexDigit(Ipv6ToU128(addr) / Pow2(4 * j) % 16)
    ensures j < 31 ==> Ipv6ReverseName(addr, includeSuffix)[2 * j + 1] == '.'
  {
    var chars := NibbleChars(addr, 0);
    var dotted := DottedChars(chars);
    var suffix := if includeSuffix then Ipv6Suffix else "";
    assert |dotted| == 63 && |suffix| == if includeSuffix then 10 else 0;
    assert Ipv6ReverseName(addr, includeSuffix) == dotted + suffix;
    DottedCharsAt(chars, j);
    PrefixAt(dotted, suffix, 2 * j);
    if j < 31 {
      PrefixAt(dotted, suffix, 2 * j + 1);
    }
    NibbleOrder(addr, j);
  }


  // ---------------------------------------------------------------------
  // Either family

  /** `ip_reverse_string`: the name of the address's own family, with the same suffix flag. */
  function IpReverseName(ip: IpAddr, includeSuffix: bool): string
  {
    match ip
    case V4Addr(v4) => Ipv4ReverseName(v4, includeSuffix)
    case V6Addr(v6) => Ipv6ReverseName(v6, includeSuffix)
  }

  /** `ip_reverse_string`: dispatches on the family. */
  method IpReverseString(ip: IpAddr, includeSuffix: bool) returns (rtn: string)
    ensures ip.V4Addr? ==> rtn == Ipv4ReverseName(ip.v4, includeSuffix)
    ensures ip.V6Addr? ==> rtn == Ipv6ReverseName(ip.v6, includeSuffix)
  {
    match ip
    case V4Addr(v4) => rtn := Ipv4ReverseString(v4, includeSuffix);
    case V6Addr(v6) => rtn := Ipv6ReverseString(v6, includeSuffix);
  }
}
