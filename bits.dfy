/**
 * The bit helpers of src/bits.rs. Each Rust function takes `given: &mut uN`
 * and a bit count; here the caller's value goes in as `given` and comes back
 * as `updated`, and `ok` is the function's boolean result. One method covers
 * the `u32` and the `u128` variant of each helper (w is 32 or 128).
 *
 * As written, `flip_on_*` with a count of 0 and `flip_off_*` with a count of
 * w shift `uN::MAX` by the full width, which overflows; `FlipAsWritten`
 * shows those inputs. The methods are the corrected helpers: there a shift
 * by the full width yields an empty mask, so setting 0 bits changes nothing
 * and clearing w bits clears everything.
 */
module Bits {
  import opened Wrappers
  import opened Bitwise
  import opened Octets

  /** Which of the four helpers. */
  datatype Helper = OnLeft | OnRight | OffLeft | OffRight

  /**
   * The helpers as written, with `None` for the shift overflow: `flip_on_*`
   * shifts by w - bits and `flip_off_*` by bits, and a shift by w or more
   * panics.
   */
  function FlipAsWritten(h: Helper, w: Width, given: nat, bits: nat): Option<(bool, nat)>
    requires given < Pow2(w)
  {
    if bits > w then Some((false, given))
    else
      var shift := if h == OnLeft || h == OnRight then w - bits else bits;
      if shift >= w then None
      else Some((true, match h
        case OnLeft => Or(given, Shl(w, Max(w), shift))
        case OnRight => Or(given, Shr(w, Max(w), shift))
        case OffLeft => And(given, Shr(w, Max(w), shift))
        case OffRight => And(given, Shl(w, Max(w), shift))))
  }

  /**
   * Setting 0 bits and clearing all w bits, both within the accepted range,
   * overflow the shift; every other accepted count shifts by less than w.
   */
  lemma FlipAsWrittenOverflows(h: Helper, w: Width, given: nat, bits: nat)
    requires given < Pow2(w)
    ensures (h == OnLeft || h == OnRight) ==> FlipAsWritten(h, w, given, 0).None?
    ensures (h == OffLeft || h == OffRight) ==> FlipAsWritten(h, w, given, w).None?
    ensures FlipAsWritten(h, w, given, bits).None? <==>
      if h == OnLeft || h == OnRight then bits == 0 else bits == w
  {
  }

  /** `flip_on_left_*`, corrected: `*given |= uN::MAX << (w - bits)`, i.e. set the top `bits` bits. */
  method FlipOnLeft(w: Width, given: nat, bits: u8) returns (ok: bool, updated: nat)
    requires given < Pow2(w)
    ensures ok <==> bits <= w
    ensures !ok ==> updated == given
    ensures ok ==> updated < Pow2(w)
    ensures ok ==> updated / Pow2(w - bits) == Pow2(bits) - 1
    ensures ok ==> updated % Pow2(w - bits) == given % Pow2(w - bits)
    ensures And(given, updated) == given
    ensures ok ==> Or(updated, HighMask(w, w - bits)) == updated
  {
    if bits > w {
      ok, updated := false, given;
      AndSelf(given);
    } else {
      var mask := if bits == 0 then 0 else Shl(w, Max(w), w - bits);
      updated := Or(given, mask);
      ok := true;
      assert mask == HighMask(w, w - bits) by {
        if bits > 0 {
          ShlMax(w, w - bits);
        }
      }
      assert w - (w - bits) == bits;
      OrHighMaskParts(w, given, w - bits, Pow2(w - bits), mask, updated);
      OrKeepsBits(given, mask);
      OrIdempotent(given, mask);
    }
  }

  /** `flip_on_right_*`, corrected: `*given |= uN::MAX >> (w - bits)`, i.e. set the low `bits` bits. */
  method FlipOnRight(w: Width, given: nat, bits: u8) returns (ok: bool, updated: nat)
    requires given < Pow2(w)
    ensures ok <==> bits <= w
    ensures !ok ==> updated == given
    ensures ok ==> updated < Pow2(w)
    ensures ok ==> updated % Pow2(bits) == Pow2(bits) - 1
    ensures ok ==> updated / Pow2(bits) == given / Pow2(bits)
    ensures And(given, updated) == given
    ensures ok ==> Or(updated, Pow2(bits) - 1) == updated
  {
    if bits > w {
      ok, updated := false, given;
      AndSelf(given);
    } else {
      var mask := if bits == 0 then 0 else Shr(w, Max(w), w - bits);
      updated := Or(given, mask);
      ok := true;
      assert mask == Pow2(bits) - 1 by {
        if bits > 0 {
          ShrMax(w, w - bits);
        }
      }
      OrLowMaskParts(w, given, bits, Pow2(bits), mask, updated);
      OrKeepsBits(given, mask);
      OrIdempotent(given, mask);
    }
  }

  /** `flip_off_left_*`, corrected: `*given &= uN::MAX >> bits`, i.e. clear the top `bits` bits. */
  method FlipOffLeft(w: Width, given: nat, bits: u8) returns (ok: bool, updated: nat)
    requires given < Pow2(w)
    ensures ok <==> bits <= w
    ensures !ok ==> updated == given
    ensures ok ==> updated < Pow2(w - bits)
    ensures ok ==> updated % Pow2(w - bits) == given % Pow2(w - bits)
    ensures And(updated, given) == updated
    ensures ok ==> And(updated, Pow2(w - bits) - 1) == updated
  {
    if bits > w {
      ok, updated := false, given;
      AndSelf(given);
    } else {
      var mask := if bits as nat == w then 0 else Shr(w, Max(w), bits);
      updated := And(given, mask);
      ok := true;
      assert mask == Pow2(w - bits) - 1 by {
        if bits as nat < w {
          ShrMax(w, bits);
        }
      }
      AndLowMaskParts(given, w - bits, Pow2(w - bits), mask, updated);
      AndAddsNoBits(given, mask);
      AndIdempotent(given, mask);
    }
  }

  /** `flip_off_right_*`, corrected: `*given &= uN::MAX << bits`, i.e. clear the low `bits` bits. */
  method FlipOffRight(w: Width, given: nat, bits: u8) returns (ok: bool, updated: nat)
    requires given < Pow2(w)
    ensures ok <==> bits <= w
    ensures !ok ==> updated == given
    ensures ok ==> updated % Pow2(bits) == 0
    ensures ok ==> updated / Pow2(bits) == given / Pow2(bits)
    ensures And(updated, given) == updated
    ensures ok ==> And(updated, HighMask(w, bits)) == updated
  {
    if bits > w {
      ok, updated := false, given;
      AndSelf(given);
    } else {
      var mask := if bits as nat == w then 0 else Shl(w, Max(w), bits);
      updated := And(given, mask);
      ok := true;
      assert mask == HighMask(w, bits) by {
        if bits as nat < w {
          ShlMax(w, bits);
        }
      }
      AndHighMaskParts(w, given, bits, Pow2(bits), mask, updated);
      AndAddsNoBits(given, mask);
      AndIdempotent(given, mask);
    }
  }
}
