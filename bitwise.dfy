/**
 * Rust's unsigned integer operators (`&`, `|`, `!`, `<<`, `>>`, `pow`) on
 * values of a fixed width w (32 for `u32`, 128 for `u128`), written on
 * mathematical naturals, with the facts about masks that the CIDR and bit
 * helpers rely on.
 */
module Bitwise {

  /**
   * A bit width. Everything here holds for any positive width; the
   * repository uses 32 (`u32`) and 128 (`u128`).
   */
  type Width = w: nat | w > 0 witness 32

  function Pow2(n: nat): (r: nat)
    ensures r >= 1
  {
    if n == 0 then 1 else 2 * Pow2(n - 1)
  }

  /** `uN::MAX` */
  function Max(w: nat): nat {
    Pow2(w) - 1
  }

  /** `a & b`, bit by bit from the least significant end. */
  function And(a: nat, b: nat): nat
    decreases a
  {
    if a == 0 || b == 0 then 0
    else 2 * And(a / 2, b / 2) + (if a % 2 == 1 && b % 2 == 1 then 1 else 0)
  }

  /** `a | b`, bit by bit from the least significant end. */
  function Or(a: nat, b: nat): nat
    decreases a + b
  {
    if a == 0 then b
    else if b == 0 then a
    else 2 * Or(a / 2, b / 2) + (if a % 2 == 1 || b % 2 == 1 then 1 else 0)
  }

  /** `!x` on a w-bit value. */
  function Not(w: nat, x: nat): nat
    requires x < Pow2(w)
  {
    Pow2(w) - 1 - x
  }

  /** `x << s` on a w-bit value; Rust rejects a shift by w or more. */
  function Shl(w: nat, x: nat, s: nat): nat
    requires s < w
  {
    (x * Pow2(s)) % Pow2(w)
  }

  /** The mask 2^w - 2^k: bits k .. w-1 set. */
  function HighMask(w: nat, k: nat): (r: nat)
    requires k <= w
    ensures r < Pow2(w)
  {
    Pow2Monotone(k, w);
    Pow2(w) - Pow2(k)
  }

  /** `x >> s` on a w-bit value; Rust rejects a shift by w or more. */
  function Shr(w: nat, x: nat, s: nat): nat
    requires s < w
  {
    DivBounds(x, Pow2(s));
    x / Pow2(s)
  }

  // ---------------------------------------------------------------------
  // Arithmetic helpers

  lemma {:induction false} Pow2Add(a: nat, b: nat)
    ensures Pow2(a + b) == Pow2(a) * Pow2(b)
  {
    if a > 0 {
      Pow2Add(a - 1, b);
    }
  }

  lemma {:induction false} Pow2Monotone(a: nat, b: nat)
    requires a <= b
    ensures Pow2(a) <= Pow2(b)
  {
    if a < b {
      Pow2Monotone(a, b - 1);
    }
  }

  lemma {:induction false} MulAtLeast(d: int, m: int)
    requires d >= 1 && m > 0
    ensures d * m >= m
  {
    if d > 1 {
      MulAtLeast(d - 1, m);
      assert d * m == (d - 1) * m + m;
    }
  }

  lemma {:induction false} Pow2Strict(a: nat, b: nat)
    requires a < b
    ensures Pow2(a) < Pow2(b)
  {
    Pow2Monotone(a, b - 1);
  }

  /** Dividing a natural by a positive divisor gives a natural no larger. */
  lemma DivBounds(x: nat, p: int)
    requires p >= 1
    ensures 0 <= x / p <= x
  {
    var q, r := x / p, x % p;
    assert x == q * p + r && 0 <= r < p;
    if q < 0 {
      MulAtLeast(-q, p);
    } else if q > x {
      MulAtLeast(p, q);
    }
  }

  lemma DivModUnique(x: int, m: int, q: int, r: int)
    requires m > 0 && 0 <= r < m && x == q * m + r
    ensures x / m == q && x % m == r
  {
    var q', r' := x / m, x % m;
    assert x == q' * m + r';
    if q > q' {
      MulAtLeast(q - q', m);
    } else if q < q' {
      MulAtLeast(q' - q, m);
    }
  }

  /** Splitting off the lowest bit: x mod 2^(k+1) and x div 2^(k+1) in terms of x / 2. */
  lemma HalfStep(x: nat, k: nat)
    ensures x % Pow2(k + 1) == 2 * ((x / 2) % Pow2(k)) + x % 2
    ensures x / Pow2(k + 1) == (x / 2) / Pow2(k)
  {
    var p := Pow2(k);
    var h := x / 2;
    assert x == 2 * h + x % 2;
    assert h == (h / p) * p + h % p;
    assert x == (h / p) * (2 * p) + (2 * (h % p) + x % 2);
    DivModUnique(x, 2 * p, h / p, 2 * (h % p) + x % 2);
  }

  // ---------------------------------------------------------------------
  // Masks

  /** `x & (2^k - 1)` keeps the low k bits. */
  lemma {:induction false} AndLowMask(x: nat, k: nat)
    ensures And(x, Pow2(k) - 1) == x % Pow2(k)
  {
    if k == 0 {
      DivModUnique(x, 1, x, 0);
    } else if x == 0 {
      DivModUnique(x, Pow2(k), 0, 0);
    } else {
      AndLowMask(x / 2, k - 1);
      AndLowMaskStep(x, k);
    }
  }

  lemma AndLowMaskStep(x: nat, k: nat)
    requires 0 < k && 0 < x
    requires And(x / 2, Pow2(k - 1) - 1) == (x / 2) % Pow2(k - 1)
    ensures And(x, Pow2(k) - 1) == x % Pow2(k)
  {
    var m, m' := Pow2(k) - 1, Pow2(k - 1) - 1;
    DivModUnique(m, 2, m', 1);
    DivModUnique(x, 2, x / 2, x % 2);
    assert And(x, m) == 2 * And(x / 2, m') + x % 2;
    HalfStep(x, k - 1);
  }

  /** `x & (2^w - 2^k)` clears the low k bits of a w-bit value. */
  lemma {:induction false} AndHighMask(w: nat, x: nat, k: nat)
    requires k <= w && x < Pow2(w)
    ensures And(x, HighMask(w, k)) == x - x % Pow2(k)
  {
    if k == w {
      DivModUnique(x, Pow2(k), 0, x);
      assert HighMask(w, k) == 0;
    } else if k == 0 {
      AndLowMask(x, w);
      DivModUnique(x, Pow2(w), 0, x);
      DivModUnique(x, 1, x, 0);
      assert HighMask(w, k) == Pow2(w) - 1;
    } else if x == 0 {
      DivModUnique(x, Pow2(k), 0, 0);
    } else {
      DivModUnique(x, 2, x / 2, x % 2);
      AndHighMask(w - 1, x / 2, k - 1);
      AndHighMaskStep(w, x, k);
    }
  }

  /** The inductive step of AndHighMask: drop the lowest bit of x and of the mask. */
  lemma AndHighMaskStep(w: nat, x: nat, k: nat)
    requires 0 < k < w && 0 < x < Pow2(w)
    requires And(x / 2, HighMask(w - 1, k - 1)) == x / 2 - (x / 2) % Pow2(k - 1)
    ensures And(x, HighMask(w, k)) == x - x % Pow2(k)
  {
    var m, m' := HighMask(w, k), HighMask(w - 1, k - 1);
    Pow2Strict(k - 1, w - 1);
    assert m == 2 * m' && m' > 0;
    DivModUnique(m, 2, m', 0);
    assert And(x, m) == 2 * And(x / 2, m');
    HalfStep(x, k - 1);
  }

  /** `x | (2^k - 1)` sets the low k bits. */
  lemma {:induction false} OrLowMask(x: nat, k: nat)
    ensures Or(x, Pow2(k) - 1) == x - x % Pow2(k) + Pow2(k) - 1
  {
    if k == 0 {
      DivModUnique(x, 1, x, 0);
    } else if x == 0 {
      DivModUnique(x, Pow2(k), 0, 0);
    } else {
      OrLowMask(x / 2, k - 1);
      OrLowMaskStep(x, k);
    }
  }

  lemma OrLowMaskStep(x: nat, k: nat)
    requires 0 < k && 0 < x
    requires Or(x / 2, Pow2(k - 1) - 1) == x / 2 - (x / 2) % Pow2(k - 1) + Pow2(k - 1) - 1
    ensures Or(x, Pow2(k) - 1) == x - x % Pow2(k) + Pow2(k) - 1
  {
    var m, m' := Pow2(k) - 1, Pow2(k - 1) - 1;
    DivModUnique(m, 2, m', 1);
    DivModUnique(x, 2, x / 2, x % 2);
    assert Or(x, m) == 2 * Or(x / 2, m') + 1;
    HalfStep(x, k - 1);
  }

  /** `x | (2^w - 2^k)` sets the bits k .. w-1 of a w-bit value. */
  lemma {:induction false} OrHighMask(w: nat, x: nat, k: nat)
    requires k <= w && x < Pow2(w)
    ensures Or(x, HighMask(w, k)) == Pow2(w) - Pow2(k) + x % Pow2(k)
  {
    if k == w {
      DivModUnique(x, Pow2(k), 0, x);
      assert HighMask(w, k) == 0;
    } else if k == 0 {
      OrLowMask(x, w);
      DivModUnique(x, Pow2(w), 0, x);
      DivModUnique(x, 1, x, 0);
      assert HighMask(w, k) == Pow2(w) - 1;
    } else if x == 0 {
      DivModUnique(x, Pow2(k), 0, 0);
    } else {
      DivModUnique(x, 2, x / 2, x % 2);
      OrHighMask(w - 1, x / 2, k - 1);
      OrHighMaskStep(w, x, k);
    }
  }

  lemma OrHighMaskStep(w: nat, x: nat, k: nat)
    requires 0 < k < w && 0 < x < Pow2(w)
    requires Or(x / 2, HighMask(w - 1, k - 1)) == Pow2(w - 1) - Pow2(k - 1) + (x / 2) % Pow2(k - 1)
    ensures Or(x, HighMask(w, k)) == Pow2(w) - Pow2(k) + x % Pow2(k)
  {
    var m, m' := HighMask(w, k), HighMask(w - 1, k - 1);
    Pow2Strict(k - 1, w - 1);
    assert m == 2 * m' && m' > 0;
    DivModUnique(m, 2, m', 0);
    DivModUnique(x, 2, x / 2, x % 2);
    assert Or(x, m) == 2 * Or(x / 2, m') + x % 2;
    HalfStep(x, k - 1);
  }

  /** `uN::MAX << s` is the mask of the top w - s bits. */
  lemma ShlMax(w: nat, s: nat)
    requires s < w
    ensures Shl(w, Max(w), s) == HighMask(w, s)
  {
    Pow2Strict(s, w);
    var p, q := Pow2(w), Pow2(s);
    assert Max(w) * q == (q - 1) * p + (p - q);
    DivModUnique(Max(w) * q, p, q - 1, p - q);
  }

  /** `uN::MAX >> s` is the mask of the low w - s bits. */
  lemma ShrMax(w: nat, s: nat)
    requires s < w
    ensures Shr(w, Max(w), s) == Pow2(w - s) - 1
  {
    var p, q := Pow2(w - s), Pow2(s);
    Pow2Add(w - s, s);
    assert Max(w) == (p - 1) * q + (q - 1);
    DivModUnique(Max(w), q, p - 1, q - 1);
  }

  /** `!(2^k - 1)` is the mask of bits k .. w-1. */
  lemma NotLowMask(w: nat, k: nat, low: nat)
    requires k <= w && low == Pow2(k) - 1
    ensures low < Pow2(w) && Not(w, low) == HighMask(w, k)
  {
    Pow2Monotone(k, w);
  }

  // ---------------------------------------------------------------------
  // Bit by bit

  /** Bit i of x (bit 0 is the least significant). */
  function Bit(x: nat, i: nat): nat
  {
    if i == 0 then x % 2 else Bit(x / 2, i - 1)
  }

  lemma {:induction false} BitOfZero(i: nat)
    ensures Bit(0, i) == 0
  {
    if i > 0 {
      BitOfZero(i - 1);
    }
  }

  lemma {:induction false} AndBit(a: nat, b: nat, i: nat)
    ensures Bit(And(a, b), i) == if Bit(a, i) == 1 && Bit(b, i) == 1 then 1 else 0
    decreases a
  {
    if a == 0 || b == 0 {
      BitOfZero(i);
    } else {
      var c := if a % 2 == 1 && b % 2 == 1 then 1 else 0;
      DivModUnique(And(a, b), 2, And(a / 2, b / 2), c);
      if i > 0 {
        AndBit(a / 2, b / 2, i - 1);
      }
    }
  }

  lemma {:induction false} OrBit(a: nat, b: nat, i: nat)
    ensures Bit(Or(a, b), i) == if Bit(a, i) == 1 || Bit(b, i) == 1 then 1 else 0
    decreases a + b
  {
    if a == 0 {
      BitOfZero(i);
      BitIsBinary(b, i);
    } else if b == 0 {
      BitOfZero(i);
      BitIsBinary(a, i);
    } else {
      var c := if a % 2 == 1 || b % 2 == 1 then 1 else 0;
      DivModUnique(Or(a, b), 2, Or(a / 2, b / 2), c);
      if i > 0 {
        OrBit(a / 2, b / 2, i - 1);
      }
    }
  }

  lemma {:induction false} BitIsBinary(x: nat, i: nat)
    ensures Bit(x, i) == 0 || Bit(x, i) == 1
  {
    if i > 0 {
      BitIsBinary(x / 2, i - 1);
    }
  }

  /** Two naturals with the same bits are equal. */
  lemma {:induction false} BitsExtensional(x: nat, y: nat)
    requires forall i: nat :: Bit(x, i) == Bit(y, i)
    ensures x == y
    decreases x + y
  {
    assert Bit(x, 0) == Bit(y, 0);
    if x / 2 != y / 2 {
      forall i: nat ensures Bit(x / 2, i) == Bit(y / 2, i) {
        assert Bit(x, i + 1) == Bit(y, i + 1);
      }
      if x + y > 0 {
        BitsExtensional(x / 2, y / 2);
      }
    }
  }

  // ---------------------------------------------------------------------
  // `|=` and `&=` on a value

  /** `x |= m` never clears a bit of x. */
  lemma OrKeepsBits(x: nat, m: nat)
    ensures And(x, Or(x, m)) == x
  {
    forall i: nat ensures Bit(And(x, Or(x, m)), i) == Bit(x, i) {
      AndBit(x, Or(x, m), i);
      OrBit(x, m, i);
      BitIsBinary(x, i);
    }
    BitsExtensional(And(x, Or(x, m)), x);
  }

  /** `x &= m` never sets a bit that x does not have. */
  lemma AndAddsNoBits(x: nat, m: nat)
    ensures And(And(x, m), x) == And(x, m)
  {
    forall i: nat ensures Bit(And(And(x, m), x), i) == Bit(And(x, m), i) {
      AndBit(And(x, m), x, i);
      AndBit(x, m, i);
      BitIsBinary(x, i);
      BitIsBinary(m, i);
    }
    BitsExtensional(And(And(x, m), x), And(x, m));
  }

  /** Doing `x |= m` twice is doing it once. */
  lemma OrIdempotent(x: nat, m: nat)
    ensures Or(Or(x, m), m) == Or(x, m)
  {
    forall i: nat ensures Bit(Or(Or(x, m), m), i) == Bit(Or(x, m), i) {
      OrBit(Or(x, m), m, i);
      OrBit(x, m, i);
    }
    BitsExtensional(Or(Or(x, m), m), Or(x, m));
  }

  /** Doing `x &= m` twice is doing it once. */
  lemma AndIdempotent(x: nat, m: nat)
    ensures And(And(x, m), m) == And(x, m)
  {
    forall i: nat ensures Bit(And(And(x, m), m), i) == Bit(And(x, m), i) {
      AndBit(And(x, m), m, i);
      AndBit(x, m, i);
      BitIsBinary(x, i);
      BitIsBinary(m, i);
    }
    BitsExtensional(And(And(x, m), m), And(x, m));
  }

  lemma NonNegModX(x: nat, m: nat)
    requires m > 0
    ensures 0 <= x % m < m && x % m <= x
  {
    DivModUnique(x, m, x / m, x % m);
    if x < m {
      DivModUnique(x, m, 0, x);
    }
  }

  /** `x & x == x` */
  lemma AndSelf(x: nat)
    ensures And(x, x) == x
  {
    forall i: nat ensures Bit(And(x, x), i) == Bit(x, i) {
      AndBit(x, x, i);
      BitIsBinary(x, i);
    }
    BitsExtensional(And(x, x), x);
  }

  /** Splitting a value at bit k: x == (x / 2^k) * 2^k + x % 2^k. */
  lemma SplitAt(x: nat, k: nat)
    ensures x == (x / Pow2(k)) * Pow2(k) + x % Pow2(k)
    ensures 0 <= x % Pow2(k) < Pow2(k)
  {
  }

  /** r == x | HighMask(w, k), with p == 2^k: bits k .. w-1 all set, bits below k kept. */
  lemma OrHighMaskParts(w: nat, x: nat, k: nat, p: nat, m: nat, r: nat)
    requires k <= w && x < Pow2(w) && p == Pow2(k) && m == HighMask(w, k) && r == Or(x, m)
    ensures r < Pow2(w)
    ensures r / p == Pow2(w - k) - 1
    ensures r % p == x % p
  {
    OrHighMask(w, x, k);
    var a := Pow2(w - k);
    SplitAt(x, k);
    Pow2Add(w - k, k);
    MulPred(a, p);
    assert m == (a - 1) * p;
    DivModUnique(r, p, a - 1, x % p);
  }

  /** r == x | (p - 1), with p == 2^k: bits below k all set, bits from k up kept. */
  lemma OrLowMaskParts(w: nat, x: nat, k: nat, p: nat, m: nat, r: nat)
    requires k <= w && x < Pow2(w) && p == Pow2(k) && m == p - 1 && r == Or(x, m)
    ensures r == x - x % p + m && x <= r < Pow2(w)
    ensures r % p == m
    ensures r / p == x / p
  {
    OrLowMask(x, k);
    var q := x / p;
    SplitAt(x, k);
    assert r == q * p + m;
    DivModUnique(r, p, q, m);
    OrLowMaskBound(w, x, k, q);
  }

  lemma OrLowMaskBound(w: nat, x: nat, k: nat, q: int)
    requires k <= w && x < Pow2(w) && q == x / Pow2(k)
    ensures q * Pow2(k) + Pow2(k) <= Pow2(w)
  {
    DivBounds(x, Pow2(k));
    SplitAt(x, k);
    Pow2Add(w - k, k);
    QuotientBound(x, q, Pow2(k), Pow2(w - k));
  }

  /** If q * b <= x < c * b then q < c. */
  lemma QuotientBound(x: nat, q: nat, b: nat, c: nat)
    requires b > 0 && q * b <= x < c * b
    ensures q * b + b <= c * b
  {
    if q >= c {
      MulMonotone(c, q, b);
    }
    MulMonotone(q + 1, c, b);
    MulPred(q + 1, b);
  }

  lemma MulPred(a: int, b: int)
    ensures (a - 1) * b == a * b - b
  {
  }

  /** r == x & (p - 1), with p == 2^k: only the bits below k remain. */
  lemma AndLowMaskParts(x: nat, k: nat, p: nat, m: nat, r: nat)
    requires p == Pow2(k) && m == p - 1 && r == And(x, m)
    ensures r == x % p && r < p
    ensures r % p == x % p
  {
    AndLowMask(x, k);
    SplitAt(x, k);
    DivModUnique(r, p, 0, r);
  }

  /** r == x & HighMask(w, k), with p == 2^k: bits below k cleared, bits from k up kept. */
  lemma AndHighMaskParts(w: nat, x: nat, k: nat, p: nat, m: nat, r: nat)
    requires k <= w && x < Pow2(w) && p == Pow2(k) && m == HighMask(w, k) && r == And(x, m)
    ensures r == x - x % p && r <= x < r + p
    ensures r % p == 0
    ensures r / p == x / p
  {
    AndHighMask(w, x, k);
    var q := x / p;
    SplitAt(x, k);
    assert r == q * p + 0;
    DivModUnique(r, p, q, 0);
  }

  lemma MulMonotone(a: nat, b: nat, c: nat)
    requires a <= b
    ensures a * c <= b * c
  {
  }

  /** Dividing by a and then by b is dividing by a * b. */
  lemma DivDiv(v: nat, a: nat, b: nat)
    requires a > 0 && b > 0
    ensures a * b > 0 && v / a / b == v / (a * b)
  {
    var q, r := v / a, v % a;
    var q2, r2 := q / b, q % b;
    assert v == q * a + r;
    assert q == q2 * b + r2;
    assert v == q2 * (a * b) + (r2 * a + r) by {
      assert q * a == q2 * b * a + r2 * a;
    }
    assert r2 * a + r < a * b by {
      MulMonotone(r2, b - 1, a);
      assert (b - 1) * a == a * b - a;
    }
    DivModUnique(v, a * b, q2, r2 * a + r);
  }

  /** The part of x below b * c, divided by b, is the digit of x / b below c. */
  lemma ModDiv(x: nat, b: nat, c: nat)
    requires b > 0 && c > 0
    ensures b * c > 0 && (x % (b * c)) / b == (x / b) % c
  {
    var q, r := x / (b * c), x % (b * c);
    assert x == q * (b * c) + r;
    var d, e := r / b, r % b;
    assert r == d * b + e;
    assert d < c by {
      if d >= c {
        MulMonotone(c, d, b);
      }
    }
    assert x == (q * c + d) * b + e by {
      assert (q * c + d) * b == q * (b * c) + d * b;
    }
    DivModUnique(x, b, q * c + d, e);
    DivModUnique(x / b, c, q, d);
  }

  /** Reducing modulo a multiple of d and then modulo d is reducing modulo d. */
  lemma ModMod(y: nat, d: nat, e: nat)
    requires d > 0 && e > 0
    ensures d * e > 0 && (y % (d * e)) % d == y % d
  {
    var q, r := y / (d * e), y % (d * e);
    assert y == q * (d * e) + r;
    assert y == (q * e + r / d) * d + r % d by {
      assert r == (r / d) * d + r % d;
      assert q * (d * e) == (q * e) * d;
    }
    DivModUnique(y, d, q * e + r / d, r % d);
  }
  /** Nibble j lies in 16-bit group j / 4, at nibble j % 4 of the group. */
  lemma NibblePosition(j: nat)
    ensures Pow2(16 * (j / 4)) * Pow2(4 * (j % 4)) == Pow2(4 * j)
  {
    Pow2Add(16 * (j / 4), 4 * (j % 4));
    assert 16 * (j / 4) + 4 * (j % 4) == 4 * j;
  }

  /** 2^(4h) * 16 * 2^(12 - 4h) == 2^16 for a nibble position h of a 16-bit group. */
  lemma GroupNibbles(h: nat)
    requires h < 4
    ensures Pow2(4 * h) * (16 * Pow2(12 - 4 * h)) == 65536
  {
    Pow2Add(4, 12 - 4 * h);
    Pow2Add(4 * h, 16 - 4 * h);
    Pow2Add(8, 8);
    assert Pow2(4) == 16 && Pow2(8) == 256;
  }

  /** A digit of base c at position b within the group at position a of v is a digit of v itself. */
  lemma DigitOfGroup(v: nat, a: nat, b: nat, c: nat, e: nat)
    requires a > 0 && b > 0 && c > 0 && e > 0
    ensures b * (c * e) > 0 && a * b > 0
    ensures (v / a % (b * (c * e))) / b % c == v / (a * b) % c
  {
    var x := v / a;
    ModDiv(x, b, c * e);
    ModMod(x / b, c, e);
    DivDiv(v, a, b);
  }

}
