/**
 * Fixed-width unsigned integers and the two address types of `std::net`:
 * an `Ipv4Addr` is its four octets and an `Ipv6Addr` its sixteen, most
 * significant first, as `octets()` returns them.
 */
module Octets {
  import opened Bitwise

  type u8 = x: int | 0 <= x < 256
  type u16 = x: int | 0 <= x < 65536

  type Ipv4Addr = s: seq<u8> | |s| == 4 witness [0, 0, 0, 0]
  type Ipv6Addr = s: seq<u8> | |s| == 16 witness [0, 0, 0, 0, 0, 0, 0, 0, 0, 0, 0, 0, 0, 0, 0, 0]

  /** `std::net::IpAddr` */
  datatype IpAddr = V4Addr(v4: Ipv4Addr) | V6Addr(v6: Ipv6Addr)

  /** `Ipv6Addr::segments`: the eight 16-bit groups, each read high octet first. */
  function Segment(addr: Ipv6Addr, i: nat): u16
    requires i < 8
  {
    addr[2 * i] as int * 256 + addr[2 * i + 1] as int
  }

  /** `uN::from_be_bytes`: the octets read as one number, most significant first. */
  function BeValue(s: seq<u8>): nat
  {
    if |s| == 0 then 0 else BeValue(s[..|s| - 1]) * 256 + s[|s| - 1]
  }

  /** `uN::to_be_bytes` for an n-octet integer: the low 8n bits of v, most significant octet first. */
  function BeBytes(n: nat, v: nat): (r: seq<u8>)
    ensures |r| == n
  {
    if n == 0 then [] else BeBytes(n - 1, v / 256) + [v % 256]
  }

  lemma Pow2Of8()
    ensures Pow2(8) == 256
  {
  }

  /** n octets hold a value below 2^(8n). */
  lemma {:induction false} BeValueBound(s: seq<u8>)
    ensures BeValue(s) < Pow2(8 * |s|)
  {
    if |s| > 0 {
      var init := s[..|s| - 1];
      BeValueBound(init);
      Pow2Add(8 * |init|, 8);
      Pow2Of8();
      assert 8 * |s| == 8 * |init| + 8;
      ByteAppendBound(BeValue(init), s[|s| - 1], Pow2(8 * |init|));
    }
  }

  lemma ByteAppendBound(v: nat, b: u8, p: nat)
    requires v < p
    ensures v * 256 + b < p * 256
  {
    MulMonotone(v + 1, p, 256);
  }

  /** Reading back the octets of a value that fits gives the value. */
  lemma {:induction false} BeValueOfBytes(n: nat, v: nat)
    requires v < Pow2(8 * n)
    ensures BeValue(BeBytes(n, v)) == v
  {
    if n > 0 {
      var bytes := BeBytes(n, v);
      assert bytes[..n - 1] == BeBytes(n - 1, v / 256);
      QuotientFits(n, v);
      BeValueOfBytes(n - 1, v / 256);
    }
  }

  lemma QuotientFits(n: nat, v: nat)
    requires n > 0 && v < Pow2(8 * n)
    ensures v / 256 < Pow2(8 * (n - 1))
  {
    Pow2Add(8 * (n - 1), 8);
    Pow2Of8();
    assert 8 * n == 8 * (n - 1) + 8;
    DivModUnique(v, 256, v / 256, v % 256);
  }

  /** Writing out the value of some octets gives the same octets back. */
  lemma {:induction false} BytesOfBeValue(s: seq<u8>)
    ensures BeBytes(|s|, BeValue(s)) == s
  {
    if |s| > 0 {
      var init := s[..|s| - 1];
      DivModUnique(BeValue(s), 256, BeValue(init), s[|s| - 1]);
      BytesOfBeValue(init);
      assert s == init + [s[|s| - 1]];
    }
  }

  /** Octet k of a big-endian value, counting from the least significant, is the k-th octet from the end. */
  lemma {:induction false} BeByte(s: seq<u8>, k: nat)
    requires k < |s|
    ensures BeValue(s) / Pow2(8 * k) % 256 == s[|s| - 1 - k]
  {
    var init := s[..|s| - 1];
    var v := BeValue(s);
    assert v == BeValue(init) * 256 + s[|s| - 1];
    DivModUnique(v, 256, BeValue(init), s[|s| - 1]);
    if k > 0 {
      Pow2Add(8, 8 * (k - 1));
      Pow2Of8();
      assert 8 * k == 8 + 8 * (k - 1);
      DivDiv(v, 256, Pow2(8 * (k - 1)));
      BeByte(init, k - 1);
      assert init[|init| - 1 - (k - 1)] == s[|s| - 1 - k];
    }
  }

  /** The low octet of the 16-bit group m of a big-endian value. */
  lemma BeGroupLow(s: seq<u8>, m: nat)
    requires 2 * m + 1 < |s|
    ensures BeValue(s) / Pow2(16 * m) % 65536 % 256 == s[|s| - 1 - 2 * m]
  {
    var x := BeValue(s) / Pow2(16 * m);
    ModMod(x, 256, 256);
    assert Pow2(16 * m) == Pow2(8 * (2 * m));
    BeByte(s, 2 * m);
  }

  /** The high octet of the 16-bit group m of a big-endian value. */
  lemma BeGroupHigh(s: seq<u8>, m: nat)
    requires 2 * m + 1 < |s|
    ensures BeValue(s) / Pow2(16 * m) % 65536 / 256 == s[|s| - 2 - 2 * m]
  {
    var v := BeValue(s);
    var x := v / Pow2(16 * m);
    ModDiv(x, 256, 256);
    DivDiv(v, Pow2(16 * m), 256);
    Pow2Add(16 * m, 8);
    Pow2Of8();
    assert Pow2(16 * m) * 256 == Pow2(8 * (2 * m + 1));
    BeByte(s, 2 * m + 1);
  }

  /** The 16-bit group at position m from the low end of a big-endian value is made of two adjacent octets. */
  lemma BeGroup(s: seq<u8>, m: nat)
    requires 2 * m + 1 < |s|
    ensures BeValue(s) / Pow2(16 * m) % 65536 == s[|s| - 2 - 2 * m] as int * 256 + s[|s| - 1 - 2 * m] as int
  {
    var y := BeValue(s) / Pow2(16 * m) % 65536;
    BeGroupLow(s, m);
    BeGroupHigh(s, m);
    assert y == (y / 256) * 256 + y % 256;
  }

  /** Segment 7 - m of an address is the 16-bit group m, from the low end, of its `u128`. */
  lemma SegmentOfValue(addr: Ipv6Addr, m: nat)
    requires m < 8
    ensures Segment(addr, 7 - m) as int == BeValue(addr) / Pow2(16 * m) % 65536
  {
    BeGroup(addr, m);
    assert 2 * (7 - m) == 16 - 2 - 2 * m;
  }

  /** `ipv4_to_u32`: the address as a big-endian `u32`. */
  function Ipv4ToU32(addr: Ipv4Addr): (r: nat)
    ensures r < Pow2(32)
  {
    BeValueBound(addr);
    BeValue(addr)
  }

  /** `ipv4_to_u32(a.b.c.d)` is a * 2^24 + b * 2^16 + c * 2^8 + d. */
  lemma Ipv4ToU32Octets(s: Ipv4Addr)
    ensures Ipv4ToU32(s) == s[0] as int * 16777216 + s[1] as int * 65536 + s[2] as int * 256 + s[3] as int
  {
    var s3, s2, s1 := s[..3], s[..2], s[..1];
    assert s3[..2] == s2 && s2[..1] == s1 && s1[..0] == [];
    assert BeValue(s1) == s[0];
    assert BeValue(s2) == s[0] as int * 256 + s[1] as int;
    assert BeValue(s3) == BeValue(s2) * 256 + s[2] as int;
  }

  /** `Ipv4Addr::from(u32)`: the four octets of a `u32`. */
  function Ipv4FromU32(v: nat): (r: Ipv4Addr)
    requires v < Pow2(32)
    ensures Ipv4ToU32(r) == v
  {
    BeValueOfBytes(4, v);
    BeBytes(4, v)
  }

  /** `ipv6_to_u128`: the address as a big-endian `u128`. */
  function Ipv6ToU128(addr: Ipv6Addr): (r: nat)
    ensures r < Pow2(128)
  {
    BeValueBound(addr);
    BeValue(addr)
  }

  /** `Ipv6Addr::from(u128)`: the sixteen octets of a `u128`. */
  function Ipv6FromU128(v: nat): (r: Ipv6Addr)
    requires v < Pow2(128)
    ensures Ipv6ToU128(r) == v
  {
    BeValueOfBytes(16, v);
    BeBytes(16, v)
  }

  /** An IPv4 address and its `u32` determine each other. */
  lemma Ipv4RoundTrip(addr: Ipv4Addr)
    ensures Ipv4FromU32(Ipv4ToU32(addr)) == addr
  {
    BytesOfBeValue(addr);
  }

  /** An IPv6 address and its `u128` determine each other. */
  lemma Ipv6RoundTrip(addr: Ipv6Addr)
    ensures Ipv6FromU128(Ipv6ToU128(addr)) == addr
  {
    BytesOfBeValue(addr);
  }

  /** `Ipv6Addr::new(a, …, h)`: eight 16-bit segments, each stored high octet first. */
  function Ipv6FromSegments(segs: seq<u16>): (r: Ipv6Addr)
    requires |segs| == 8
    ensures forall i :: 0 <= i < 8 ==> r[2 * i] as int * 256 + r[2 * i + 1] as int == segs[i] as int
  {
    seq(16, j requires 0 <= j < 16 => (if j % 2 == 0 then segs[j / 2] as int / 256 else segs[j / 2] as int % 256) as u8)
  }
}
