/**
 * `Ipv4AddrCidr`, `Ipv6AddrCidr` and `IpAddrCidr` of src/net/mod.rs: an
 * address with a prefix length, whose block arithmetic is that of module
 * Cidr at width 32 and 128.
 */
module Net {
  import opened Wrappers
  import opened Bitwise
  import opened Octets
  import Cidr

  /** The errors of src/net/error.rs. */
  datatype NetError = InvalidV4Cidr(cidr: u8) | InvalidV6Cidr(cidr: u8)

  class Ipv4AddrCidr {
    var addr: Ipv4Addr
    var cidr: u8

    /** `check_cidr`: flags a prefix length outside 1 ..= 32. */
    static predicate CheckCidr(c: u8)
    {
      Cidr.CheckCidr(32, c)
    }

    /** The state `new` and `from_addr` establish: a usable prefix length. */
    predicate Valid()
      reads this
    {
      !CheckCidr(cidr)
    }

    constructor (addr: Ipv4Addr, cidr: u8)
      requires !CheckCidr(cidr)
      ensures this.addr == addr && this.cidr == cidr && Valid()
    {
      this.addr := addr;
      this.cidr := cidr;
    }

    /** `Ipv4AddrCidr::new(a, b, c, d, cidr)`. */
    static method New(a: u8, b: u8, c: u8, d: u8, cidr: u8) returns (r: Result<Ipv4AddrCidr, NetError>)
      ensures r.Err? <==> cidr < 1 || cidr > 32
      ensures r.Err? ==> r.error == InvalidV4Cidr(cidr)
      ensures r.Ok? ==> fresh(r.value) && r.value.addr == [a, b, c, d] && r.value.cidr == cidr && r.value.Valid()
    {
      r := FromAddr([a, b, c, d], cidr);
    }

    /** `Ipv4AddrCidr::from_addr(addr, cidr)`. */
    static method FromAddr(addr: Ipv4Addr, cidr: u8) returns (r: Result<Ipv4AddrCidr, NetError>)
      ensures r.Err? <==> cidr < 1 || cidr > 32
      ensures r.Err? ==> r.error == InvalidV4Cidr(cidr)
      ensures r.Ok? ==> fresh(r.value) && r.value.addr == addr && r.value.cidr == cidr && r.value.Valid()
    {
      if CheckCidr(cidr) {
        r := Err(InvalidV4Cidr(cidr));
      } else {
        var block := new Ipv4AddrCidr(addr, cidr);
        r := Ok(block);
      }
    }

    /** `set_addr`: replaces the address, keeps the prefix length. */
    method SetAddr(addr: Ipv4Addr)
      modifies this
      ensures this.addr == addr && cidr == old(cidr)
    {
      this.addr := addr;
    }

    /** `set_cidr` as written: it stores `c` and answers true only when `check_cidr(c)` flags it. */
    method SetCidr(c: u8) returns (ok: bool)
      modifies this
      ensures (cidr, ok) == Cidr.SetCidrAsWritten(32, old(cidr), c)
      ensures addr == old(addr)
    {
      if CheckCidr(c) {
        cidr := c;
        ok := true;
      } else {
        ok := false;
      }
    }

    /** `set_cidr` with the guard the validity invariant needs: a usable `c` is stored. */
    method SetCidrChecked(c: u8) returns (ok: bool)
      modifies this
      ensures (cidr, ok) == Cidr.SetCidrChecked(32, old(cidr), c)
      ensures addr == old(addr)
      ensures old(Valid()) ==> Valid()
    {
      if !CheckCidr(c) {
        cidr := c;
        ok := true;
      } else {
        ok := false;
      }
    }

    /** `available_addresses`: 2^(32 - cidr), which never exceeds 2^31. */
    function AvailableAddresses(): (r: nat)
      reads this
      requires Valid()
      ensures r == Pow2(32 - cidr) && r <= Pow2(31)
    {
      Cidr.Avail(32, cidr)
    }

    /** `as_u32` */
    function AsU32(): (r: nat)
      reads this
      ensures r < Pow2(32)
    {
      Ipv4ToU32(addr)
    }

    /** `start_u32`: the address with its low 32 - cidr bits cleared. */
    function StartU32(): (r: nat)
      reads this
      requires Valid()
      ensures r == AsU32() - AsU32() % AvailableAddresses()
      ensures r % AvailableAddresses() == 0 && r <= AsU32()
    {
      Cidr.StartValue(32, AsU32(), cidr);
      Cidr.Start(32, AsU32(), cidr)
    }

    /** `start` */
    function Start(): (r: Ipv4Addr)
      reads this
      requires Valid()
      ensures Ipv4ToU32(r) == StartU32()
    {
      Ipv4FromU32(StartU32())
    }

    /** `finish_u32`: the address with its low 32 - cidr bits set. */
    function FinishU32(): (r: nat)
      reads this
      requires Valid()
      ensures r == StartU32() + AvailableAddresses() - 1
      ensures AsU32() <= r < Pow2(32)
    {
      Cidr.FinishValue(32, AsU32(), cidr);
      Cidr.Finish(32, AsU32(), cidr)
    }

    /** `finish` */
    function Finish(): (r: Ipv4Addr)
      reads this
      requires Valid()
      ensures Ipv4ToU32(r) == FinishU32()
    {
      Ipv4FromU32(FinishU32())
    }

    /** `in_range`: `check` lies in start ..= finish, i.e. shares the top `cidr` bits of the address. */
    predicate InRange(check: Ipv4Addr)
      reads this
      requires Valid()
      ensures InRange(check) <==> StartU32() <= Ipv4ToU32(check) <= FinishU32()
      ensures InRange(check) <==> Ipv4ToU32(check) / AvailableAddresses() == AsU32() / AvailableAddresses()
    {
      Cidr.InRangeBounds(32, AsU32(), cidr, Ipv4ToU32(check));
      Cidr.InRangeSameBlock(32, AsU32(), cidr, Ipv4ToU32(check));
      Cidr.InRange(32, AsU32(), cidr, Ipv4ToU32(check))
    }
  }

  class Ipv6AddrCidr {
    var addr: Ipv6Addr
    var cidr: u8

    /** `check_cidr`: flags a prefix length outside 1 ..= 128. */
    static predicate CheckCidr(c: u8)
    {
      Cidr.CheckCidr(128, c)
    }

    /** The state `new` and `from_addr` establish: a usable prefix length. */
    predicate Valid()
      reads this
    {
      !CheckCidr(cidr)
    }

    constructor (addr: Ipv6Addr, cidr: u8)
      requires !CheckCidr(cidr)
      ensures this.addr == addr && this.cidr == cidr && Valid()
    {
      this.addr := addr;
      this.cidr := cidr;
    }

    /** `Ipv6AddrCidr::new(a, …, h, cidr)`: eight 16-bit segments. */
    static method New(segments: seq<u16>, cidr: u8) returns (r: Result<Ipv6AddrCidr, NetError>)
      requires |segments| == 8
      ensures r.Err? <==> cidr < 1 || cidr > 128
      ensures r.Err? ==> r.error == InvalidV6Cidr(cidr)
      ensures r.Ok? ==> fresh(r.value) && r.value.addr == Ipv6FromSegments(segments) && r.value.cidr == cidr && r.value.Valid()
    {
      r := FromAddr(Ipv6FromSegments(segments), cidr);
    }

    /** `Ipv6AddrCidr::from_addr(addr, cidr)`. */
    static method FromAddr(addr: Ipv6Addr, cidr: u8) returns (r: Result<Ipv6AddrCidr, NetError>)
      ensures r.Err? <==> cidr < 1 || cidr > 128
      ensures r.Err? ==> r.error == InvalidV6Cidr(cidr)
      ensures r.Ok? ==> fresh(r.value) && r.value.addr == addr && r.value.cidr == cidr && r.value.Valid()
    {
      if CheckCidr(cidr) {
        r := Err(InvalidV6Cidr(cidr));
      } else {
        var block := new Ipv6AddrCidr(addr, cidr);
        r := Ok(block);
      }
    }

    /** `set_cidr` as written: it stores `c` and answers true only when `check_cidr(c)` flags it. */
    method SetCidr(c: u8) returns (ok: bool)
      modifies this
      ensures (cidr, ok) == Cidr.SetCidrAsWritten(128, old(cidr), c)
      ensures addr == old(addr)
    {
      if CheckCidr(c) {
        cidr := c;
        ok := true;
      } else {
        ok := false;
      }
    }

    /** `set_cidr` with the guard the validity invariant needs: a usable `c` is stored. */
    method SetCidrChecked(c: u8) returns (ok: bool)
      modifies this
      ensures (cidr, ok) == Cidr.SetCidrChecked(128, old(cidr), c)
      ensures addr == old(addr)
      ensures old(Valid()) ==> Valid()
    {
      if !CheckCidr(c) {
        cidr := c;
        ok := true;
      } else {
        ok := false;
      }
    }

    /** `available_addresses`: 2^(128 - cidr), which never exceeds 2^127. */
    function AvailableAddresses(): (r: nat)
      reads this
      requires Valid()
      ensures r == Pow2(128 - cidr) && r <= Pow2(127)
    {
      Cidr.Avail(128, cidr)
    }

    /** `as_u128` */
    function AsU128(): (r: nat)
      reads this
      ensures r < Pow2(128)
    {
      Ipv6ToU128(addr)
    }

    /** `start_u128`: the address with its low 128 - cidr bits cleared. */
    function StartU128(): (r: nat)
      reads this
      requires Valid()
      ensures r == AsU128() - AsU128() % AvailableAddresses()
      ensures r % AvailableAddresses() == 0 && r <= AsU128()
    {
      Cidr.StartValue(128, AsU128(), cidr);
      Cidr.Start(128, AsU128(), cidr)
    }

    /** `start` */
    function Start(): (r: Ipv6Addr)
      reads this
      requires Valid()
      ensures Ipv6ToU128(r) == StartU128()
    {
      Ipv6FromU128(StartU128())
    }

    /** `finish_u128`: the address with its low 128 - cidr bits set. */
    function FinishU128(): (r: nat)
      reads this
      requires Valid()
      ensures r == StartU128() + AvailableAddresses() - 1
      ensures AsU128() <= r < Pow2(128)
    {
      Cidr.FinishValue(128, AsU128(), cidr);
      Cidr.Finish(128, AsU128(), cidr)
    }

    /** `finish` */
    function Finish(): (r: Ipv6Addr)
      reads this
      requires Valid()
      ensures Ipv6ToU128(r) == FinishU128()
    {
      Ipv6FromU128(FinishU128())
    }

    /** `in_range`: `check` lies in start ..= finish, i.e. shares the top `cidr` bits of the address. */
    predicate InRange(check: Ipv6Addr)
      reads this
      requires Valid()
      ensures InRange(check) <==> StartU128() <= Ipv6ToU128(check) <= FinishU128()
      ensures InRange(check) <==> Ipv6ToU128(check) / AvailableAddresses() == AsU128() / AvailableAddresses()
    {
      Cidr.InRangeBounds(128, AsU128(), cidr, Ipv6ToU128(check));
      Cidr.InRangeSameBlock(128, AsU128(), cidr, Ipv6ToU128(check));
      Cidr.InRange(128, AsU128(), cidr, Ipv6ToU128(check))
    }
  }

  /** `IpAddrCidr`: a block of either family. */
  datatype IpAddrCidr = V4(v4: Ipv4AddrCidr) | V6(v6: Ipv6AddrCidr)
  {
    /** `is_ipv4`: exactly the blocks that are not IPv6. */
    predicate IsIpv4()
      ensures IsIpv4() <==> !IsIpv6()
    {
      match this
      case V4(_) => true
      case V6(_) => false
    }

    /** `is_ipv6` */
    predicate IsIpv6()
    {
      match this
      case V4(_) => false
      case V6(_) => true
    }
  }
}
