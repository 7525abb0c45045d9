/**
 * The free functions of src/net.rs, an older variant of the CIDR helpers:
 * the block is the half-open range [start, start + 2^(w - cidr)) from a
 * start address that is taken as given, not masked to a block boundary.
 *
 * As written, two computations overflow their w-bit type: the block size
 * of prefix length 0, and `start + avail` near the top of the address
 * space. `CidrCalcAsWritten` and `InCidrRangeAsWritten` show those inputs;
 * `CidrCalc` and `InCidrRange` are the corrected functions, which refuse
 * prefix length 0 as `check_cidr` of src/net/mod.rs does and compare
 * without the overflowing sum.
 */
module NetLegacy {
  import opened Wrappers
  import opened Bitwise
  import opened Octets
  import Cidr

  /** A w-bit computation: its value, or the overflow that panics. */
  datatype Checked<T> = Fits(value: T) | Overflows

  // ---------------------------------------------------------------------
  // as written

  /** `v4_cidr_calc` / `v6_cidr_calc` as written: only prefix lengths above w are refused. */
  function CidrCalcAsWritten(w: Width, classless: u8): Checked<Option<nat>>
  {
    if classless > w then Fits(None)
    else if Pow2(w - classless) >= Pow2(w) then Overflows
    else Fits(Some(Pow2(w - classless)))
  }

  /** `v4_in_cidr_range` / `v6_in_cidr_range` as written, on the numeric values: the sum is taken in w bits. */
  function InCidrRangeAsWritten(w: Width, check: nat, start: nat, cidr: u8): Checked<Option<bool>>
  {
    match CidrCalcAsWritten(w, cidr)
    case Overflows => Overflows
    case Fits(None) => Fits(None)
    case Fits(Some(avail)) =>
      if start + avail >= Pow2(w) then Overflows
      else Fits(Some(check < start + avail && check >= start))
  }

  /** Prefix length 0 passes the guard and its block size, 2^w, does not fit in w bits. */
  lemma CidrCalcAsWrittenOverflows(w: Width)
    ensures CidrCalcAsWritten(w, 0) == Overflows
  {
  }

  /**
   * The top address is not in its own /32 block: the sum 2^32 - 1 + 1
   * overflows; and every start with prefix length 0 overflows too.
   */
  lemma InCidrRangeAsWrittenOverflows()
    ensures InCidrRangeAsWritten(32, Pow2(32) - 1, Pow2(32) - 1, 32) == Overflows
    ensures InCidrRangeAsWritten(32, 0, 0, 0) == Overflows
  {
    assert Pow2(0) == 1;
  }

  // ---------------------------------------------------------------------
  // corrected

  /**
   * `v4_cidr_calc` / `v6_cidr_calc` at width w: the block size, or None for
   * a prefix length that is 0 or above w.
   */
  function CidrCalc(w: Width, classless: u8): (r: Option<nat>)
    ensures r.None? <==> classless < 1 || classless > w
    ensures r.Some? ==> r.value == Pow2(w - classless) && 1 <= r.value < Pow2(w)
  {
    if classless < 1 || classless > w then None
    else
      Pow2Strict(w - classless, w);
      Some(Pow2(w - classless))
  }

  /** `v4_cidr_calc` */
  function V4CidrCalc(classless: u8): (r: Option<nat>)
    ensures r.None? <==> classless < 1 || classless > 32
    ensures r.Some? ==> r.value == Pow2(32 - classless) && r.value < Pow2(32)
  {
    CidrCalc(32, classless)
  }

  /** `v6_cidr_calc` */
  function V6CidrCalc(classless: u8): (r: Option<nat>)
    ensures r.None? <==> classless < 1 || classless > 128
    ensures r.Some? ==> r.value == Pow2(128 - classless) && r.value < Pow2(128)
  {
    CidrCalc(128, classless)
  }

  /**
   * The corrected block size exists exactly for the prefix lengths
   * `check_cidr` accepts, and is then the block size of
   * `Ipv4AddrCidr`/`Ipv6AddrCidr`; where the original does not overflow it
   * gives the same answer.
   */
  lemma CidrCalcIsAvail(w: Width, classless: u8)
    ensures CidrCalc(w, classless).Some? <==> !Cidr.CheckCidr(w, classless)
    ensures !Cidr.CheckCidr(w, classless) ==> CidrCalc(w, classless) == Some(Cidr.Avail(w, classless))
    ensures CidrCalcAsWritten(w, classless).Fits? ==> CidrCalcAsWritten(w, classless).value == CidrCalc(w, classless)
  {
    if 1 <= classless <= w {
      Pow2Strict(w - classless, w);
    }
  }

  /** `v4_in_addr_range` / `v6_in_addr_range` on the numeric values: start <= check < end. */
  predicate InAddrRange(check: nat, start: nat, end: nat)
  {
    check < end && check >= start
  }

  /** An empty or reversed range holds nothing. */
  lemma InAddrRangeEmpty(check: nat, start: nat, end: nat)
    requires start >= end
    ensures !InAddrRange(check, start, end)
  {
  }

  /**
   * `v4_in_cidr_range` / `v6_in_cidr_range` on the numeric values, with the
   * comparison against the block's end made without a w-bit sum.
   */
  function InCidrRange(w: Width, check: nat, start: nat, cidr: u8): (r: Option<bool>)
    ensures r.None? <==> cidr < 1 || cidr > w
    ensures r.Some? ==> (r.value <==> InAddrRange(check, start, start + Pow2(w - cidr)))
  {
    match CidrCalc(w, cidr)
    case None => None
    case Some(avail) => Some(check >= start && check - start < avail)
  }

  /** Where the original does not overflow, the corrected test answers as it does. */
  lemma InCidrRangeAgrees(w: Width, check: nat, start: nat, cidr: u8)
    requires InCidrRangeAsWritten(w, check, start, cidr).Fits?
    ensures InCidrRangeAsWritten(w, check, start, cidr).value == InCidrRange(w, check, start, cidr)
  {
    CidrCalcIsAvail(w, cidr);
  }

  /** Every start lies in its own block, the top address included. */
  lemma StartInOwnBlock(w: Width, start: nat, cidr: u8)
    requires 1 <= cidr <= w
    ensures InCidrRange(w, start, start, cidr) == Some(true)
  {
  }

  /** `v4_in_cidr_range` */
  function V4InCidrRange(check: Ipv4Addr, start: Ipv4Addr, cidr: u8): (r: Option<bool>)
    ensures r.None? <==> cidr < 1 || cidr > 32
    ensures r.Some? ==> (r.value <==> Ipv4ToU32(start) <= Ipv4ToU32(check) < Ipv4ToU32(start) + Pow2(32 - cidr))
  {
    InCidrRange(32, Ipv4ToU32(check), Ipv4ToU32(start), cidr)
  }

  /** `v4_in_addr_range` (declared without a return type in the source; it yields the comparison). */
  predicate V4InAddrRange(check: Ipv4Addr, start: Ipv4Addr, end: Ipv4Addr)
  {
    InAddrRange(Ipv4ToU32(check), Ipv4ToU32(start), Ipv4ToU32(end))
  }

  /** `v6_in_cidr_range` */
  function V6InCidrRange(check: Ipv6Addr, start: Ipv6Addr, cidr: u8): (r: Option<bool>)
    ensures r.None? <==> cidr < 1 || cidr > 128
    ensures r.Some? ==> (r.value <==> Ipv6ToU128(start) <= Ipv6ToU128(check) < Ipv6ToU128(start) + Pow2(128 - cidr))
  {
    InCidrRange(128, Ipv6ToU128(check), Ipv6ToU128(start), cidr)
  }

  /** `v6_in_addr_range` (declared without a return type in the source; it yields the comparison). */
  predicate V6InAddrRange(check: Ipv6Addr, start: Ipv6Addr, end: Ipv6Addr)
  {
    InAddrRange(Ipv6ToU128(check), Ipv6ToU128(start), Ipv6ToU128(end))
  }

  /** The CIDR test is the address-range test with end = start + block size. */
  lemma InCidrRangeIsAddrRange(w: Width, check: nat, start: nat, cidr: u8)
    requires 1 <= cidr <= w
    ensures InCidrRange(w, check, start, cidr) == Some(InAddrRange(check, start, start + Cidr.Avail(w, cidr)))
  {
  }

  /** From a start on a block boundary the legacy test agrees with `in_range` of the masked variant. */
  lemma AlignedAgreesWithMasked(w: Width, check: nat, start: nat, cidr: u8)
    requires 1 <= cidr <= w && start < Pow2(w)
    requires start % Cidr.Avail(w, cidr) == 0
    ensures InCidrRange(w, check, start, cidr) == Some(Cidr.InRange(w, start, cidr, check))
  {
    Cidr.InRangeBounds(w, start, cidr, check);
    Cidr.StartValue(w, start, cidr);
    Cidr.FinishValue(w, start, cidr);
  }

  /** From an unaligned start the two disagree: 5 with /30 covers 5 ..= 8 here, but the block 4 ..= 7 there. */
  lemma UnalignedStartDisagrees()
    ensures InCidrRange(32, 8, 5, 30) == Some(true)
    ensures !Cidr.InRange(32, 5, 30, 8)
  {
    Cidr.InRangeBounds(32, 5, 30, 8);
    Cidr.StartValue(32, 5, 30);
    Cidr.FinishValue(32, 5, 30);
    assert Cidr.Avail(32, 30) == 4;
  }
}
