/**
 * The CIDR block arithmetic of `Ipv4AddrCidr` and `Ipv6AddrCidr`, once for
 * both widths: an address x of w bits with prefix length `cidr` (section 3.1
 * of RFC 4632) lies in the block of 2^(w - cidr) addresses that share its
 * top `cidr` bits.
 */
module Cidr {
  import opened Bitwise

  /** `check_cidr`: true when the prefix length is NOT usable (outside 1 ..= w). */
  predicate CheckCidr(w: Width, cidr: nat)
  {
    cidr < 1 || cidr > w
  }

  /**
   * `available_addresses`: `2.pow(w - cidr)`. For a usable prefix length
   * the block size is at most 2^(w-1), so the `pow` does not overflow.
   */
  function Avail(w: Width, cidr: nat): (r: nat)
    requires !CheckCidr(w, cidr)
    ensures r == Pow2(w - cidr)
    ensures r <= Pow2(w - 1) < Pow2(w)
  {
    Pow2Monotone(w - cidr, w - 1);
    Pow2(w - cidr)
  }

  /** `start_*`: `x & !(avail - 1)`, the first address of the block. */
  function Start(w: Width, x: nat, cidr: nat): nat
    requires x < Pow2(w) && !CheckCidr(w, cidr)
  {
    And(x, Not(w, Avail(w, cidr) - 1))
  }

  /** `finish_*`: `x | (avail - 1)`, the last address of the block. */
  function Finish(w: Width, x: nat, cidr: nat): nat
    requires x < Pow2(w) && !CheckCidr(w, cidr)
  {
    Or(x, Avail(w, cidr) - 1)
  }

  /**
   * `in_range`: the check value lies between `start` and `finish`, where
   * `finish` is recomputed as `start | (avail - 1)`.
   */
  predicate InRange(w: Width, x: nat, cidr: nat, check: nat)
    requires x < Pow2(w) && !CheckCidr(w, cidr)
  {
    var avail := Avail(w, cidr);
    var start := And(x, Not(w, avail - 1));
    var finish := Or(start, avail - 1);
    check >= start && check <= finish
  }

  /** `start` is x with its low w - cidr bits cleared: the largest multiple of the block size not above x. */
  lemma StartValue(w: Width, x: nat, cidr: nat)
    requires x < Pow2(w) && !CheckCidr(w, cidr)
    ensures Start(w, x, cidr) == x - x % Avail(w, cidr)
    ensures Start(w, x, cidr) % Avail(w, cidr) == 0
    ensures Start(w, x, cidr) / Avail(w, cidr) == x / Avail(w, cidr)
    ensures Start(w, x, cidr) <= x < Start(w, x, cidr) + Avail(w, cidr)
  {
    var m := Not(w, Avail(w, cidr) - 1);
    NotLowMask(w, w - cidr, Avail(w, cidr) - 1);
    AndHighMaskParts(w, x, w - cidr, Avail(w, cidr), m, And(x, m));
  }

  /** `finish` is x with its low w - cidr bits set: the last address of the same block. */
  lemma FinishValue(w: Width, x: nat, cidr: nat)
    requires x < Pow2(w) && !CheckCidr(w, cidr)
    ensures Finish(w, x, cidr) == Start(w, x, cidr) + Avail(w, cidr) - 1
    ensures x <= Finish(w, x, cidr) < Pow2(w)
  {
    StartValue(w, x, cidr);
    OrLowMaskParts(w, x, w - cidr, Avail(w, cidr), Avail(w, cidr) - 1, Or(x, Avail(w, cidr) - 1));
  }

  /** `start | (avail - 1)` is the block's `finish`, so `in_range` tests start ..= finish. */
  lemma InRangeBounds(w: Width, x: nat, cidr: nat, check: nat)
    requires x < Pow2(w) && !CheckCidr(w, cidr)
    ensures InRange(w, x, cidr, check) <==> Start(w, x, cidr) <= check <= Finish(w, x, cidr)
  {
    var start := Start(w, x, cidr);
    StartValue(w, x, cidr);
    FinishValue(w, x, cidr);
    OrLowMaskParts(w, start, w - cidr, Avail(w, cidr), Avail(w, cidr) - 1, Or(start, Avail(w, cidr) - 1));
  }

  /** The block holds exactly `available_addresses` addresses, the address itself among them. */
  lemma BlockSize(w: Width, x: nat, cidr: nat)
    requires x < Pow2(w) && !CheckCidr(w, cidr)
    ensures Finish(w, x, cidr) - Start(w, x, cidr) + 1 == Avail(w, cidr)
    ensures Start(w, x, cidr) <= x <= Finish(w, x, cidr)
  {
    FinishValue(w, x, cidr);
    StartValue(w, x, cidr);
  }

  /** Membership means sharing the top `cidr` bits: the same quotient by the block size. */
  lemma InRangeSameBlock(w: Width, x: nat, cidr: nat, check: nat)
    requires x < Pow2(w) && !CheckCidr(w, cidr)
    ensures InRange(w, x, cidr, check) <==> check / Avail(w, cidr) == x / Avail(w, cidr)
  {
    InRangeBounds(w, x, cidr, check);
    StartValue(w, x, cidr);
    FinishValue(w, x, cidr);
    var p := Avail(w, cidr);
    SameQuotient(x, check, p, Start(w, x, cidr));
  }

  /** check / p == x / p exactly when check lies in [s, s + p) for s the multiple of p at or below x. */
  lemma SameQuotient(x: nat, check: nat, p: nat, s: nat)
    requires p > 0 && s == x - x % p
    ensures s <= check < s + p <==> check / p == x / p
  {
    var q := x / p;
    assert s == q * p;
    if s <= check < s + p {
      DivModUnique(check, p, q, check - s);
    }
    if check / p == q {
      assert check == q * p + check % p;
    }
  }

  /** A block always contains its own address. */
  lemma OwnAddressInRange(w: Width, x: nat, cidr: nat)
    requires x < Pow2(w) && !CheckCidr(w, cidr)
    ensures InRange(w, x, cidr, x)
  {
    InRangeBounds(w, x, cidr, x);
    BlockSize(w, x, cidr);
  }

  /** With the full prefix length (a host route) only the address itself is in range. */
  lemma HostRoute(w: Width, x: nat, check: nat)
    requires x < Pow2(w)
    ensures InRange(w, x, w, check) <==> check == x
  {
    InRangeBounds(w, x, w, check);
    BlockSize(w, x, w);
    assert Avail(w, w) == 1;
  }

  /** Addresses of one block have the same start: the block does not depend on which member names it. */
  lemma SameBlockSameStart(w: Width, x: nat, cidr: nat, y: nat)
    requires x < Pow2(w) && y < Pow2(w) && !CheckCidr(w, cidr)
    requires InRange(w, x, cidr, y)
    ensures Start(w, y, cidr) == Start(w, x, cidr)
  {
    InRangeSameBlock(w, x, cidr, y);
    StartValue(w, x, cidr);
    StartValue(w, y, cidr);
    var p := Avail(w, cidr);
    SplitAt(x, w - cidr);
    SplitAt(y, w - cidr);
  }

  /** The stored state and result of `set_cidr` as written: it stores `c` only when `check_cidr(c)` flags it. */
  function SetCidrAsWritten(w: Width, current: nat, c: nat): (nat, bool)
  {
    if CheckCidr(w, c) then (c, true) else (current, false)
  }

  /** As written, a successful `set_cidr` always leaves an unusable prefix length behind. */
  lemma SetCidrAsWrittenBreaksValidity(w: Width, current: nat, c: nat)
    requires !CheckCidr(w, current)
    ensures SetCidrAsWritten(w, current, c).1 ==> CheckCidr(w, SetCidrAsWritten(w, current, c).0)
    ensures !CheckCidr(w, c) ==> SetCidrAsWritten(w, current, c) == (current, false)
  {
  }

  /** A concrete witness: setting /0 on a /24 block succeeds and stores 0. */
  lemma SetCidrAsWrittenExample()
    ensures SetCidrAsWritten(32, 24, 0) == (0, true)
    ensures SetCidrAsWritten(32, 24, 16) == (24, false)
  {
  }

  /** The evidently intended `set_cidr`: store `c` exactly when it is usable. */
  function SetCidrChecked(w: Width, current: nat, c: nat): (nat, bool)
  {
    if !CheckCidr(w, c) then (c, true) else (current, false)
  }

  /** The corrected `set_cidr` preserves the 1 ..= w invariant and accepts every usable length. */
  lemma SetCidrCheckedKeepsValidity(w: Width, current: nat, c: nat)
    requires !CheckCidr(w, current)
    ensures !CheckCidr(w, SetCidrChecked(w, current, c).0)
    ensures SetCidrChecked(w, current, c).1 <==> 1 <= c <= w
    ensures SetCidrChecked(w, current, c).1 ==> SetCidrChecked(w, current, c).0 == c
  {
  }
}
