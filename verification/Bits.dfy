/** Unsigned words as naturals, with the bit operators defined one binary digit at a time.
    A `w`-bit word is a natural below `Pow2(w)`; wrap-around is written out where it occurs. */
module Bits {

  function Pow2(n: nat): (p: nat)
    ensures p > 0
  {
    if n == 0 then 1 else 2 * Pow2(n - 1)
  }

  predicate Bit(x: nat, i: nat) {
    if i == 0 then x % 2 == 1 else Bit(x / 2, i - 1)
  }

  function And(a: nat, b: nat): nat {
    if a == 0 || b == 0 then 0
    else (if a % 2 == 1 && b % 2 == 1 then 1 else 0) + 2 * And(a / 2, b / 2)
  }

  function Or(a: nat, b: nat): nat {
    if a == 0 then b else if b == 0 then a
    else (if a % 2 == 1 || b % 2 == 1 then 1 else 0) + 2 * Or(a / 2, b / 2)
  }

  function Shr(x: nat, s: nat): nat {
    if s == 0 then x else Shr(x / 2, s - 1)
  }

  function Shl(x: nat, s: nat): nat {
    if s == 0 then x else 2 * Shl(x, s - 1)
  }

  /** The lowest `m` bits of `x`. */
  function Low(x: nat, m: nat): nat {
    if m == 0 then 0 else x % 2 + 2 * Low(x / 2, m - 1)
  }

  /** The number of binary digits of `x`. */
  function Len(x: nat): nat {
    if x == 0 then 0 else 1 + Len(x / 2)
  }

  // ---------- Shifts and low bits as division by a power of two ----------

  lemma MulAtLeast(k: int, d: int)
    requires k >= 1 && d >= 0
    ensures k * d >= d
  {
    if k > 1 { MulAtLeast(k - 1, d); }
  }

  lemma DivModUnique(x: int, d: int, q: int, r: int)
    requires 0 <= r < d && x == q * d + r
    ensures x / d == q && x % d == r
  {
    var q', r' := x / d, x % d;
    assert (q - q') * d == r' - r;
    if q' < q {
      MulAtLeast(q - q', d);
    } else if q' > q {
      MulAtLeast(q' - q, d);
    }
  }

  lemma ScaledMod(d: int, n: nat)
    requires n > 0
    ensures (8 * d) % (8 * n) == 8 * (d % n)
  {
    var m, e := d / n, d % n;
    assert m * (8 * n) == 8 * (m * n);
    DivModUnique(8 * d, 8 * n, m, 8 * e);
  }

  lemma {:induction false} ShlIsMul(x: nat, s: nat)
    ensures Shl(x, s) == x * Pow2(s)
  {
    if s > 0 { ShlIsMul(x, s - 1); }
  }

  lemma {:induction false} LowBound(x: nat, m: nat)
    ensures Low(x, m) < Pow2(m)
  {
    if m > 0 { LowBound(x / 2, m - 1); }
  }

  lemma {:induction false} SplitAt(x: nat, m: nat)
    ensures x == Shl(Shr(x, m), m) + Low(x, m)
  {
    if m > 0 { SplitAt(x / 2, m - 1); ShlStep(Shr(x / 2, m - 1), m); }
  }

  lemma ShlStep(x: nat, m: nat)
    requires m > 0
    ensures Shl(x, m) == 2 * Shl(x, m - 1)
  {
  }

  /** `x >> m` and `x & (2^m - 1)` in arithmetic. */
  lemma ShrLowAreDivMod(x: nat, m: nat)
    ensures Shr(x, m) == x / Pow2(m) && Low(x, m) == x % Pow2(m)
  {
    SplitAt(x, m);
    ShlIsMul(Shr(x, m), m);
    LowBound(x, m);
    DivModUnique(x, Pow2(m), Shr(x, m), Low(x, m));
  }

  lemma {:induction false} Pow2Add(m: nat, n: nat)
    ensures Pow2(m + n) == Pow2(m) * Pow2(n)
  {
    if m > 0 { Pow2Add(m - 1, n); }
  }

  /** The powers that occur as field widths. */
  lemma Pow2Values()
    ensures Pow2(3) == 8 && Pow2(4) == 16 && Pow2(7) == 0x80 && Pow2(8) == 0x100
    ensures Pow2(12) == 0x1000 && Pow2(15) == 0x8000 && Pow2(16) == 0x1_0000
    ensures Pow2(20) == 0x10_0000 && Pow2(23) == 0x80_0000 && Pow2(24) == 0x100_0000
    ensures Pow2(28) == 0x1000_0000 && Pow2(32) == 0x1_0000_0000
  {
    assert Pow2(8) == 0x100;
    assert Pow2(12) == 0x1000;
    assert Pow2(16) == 0x1_0000;
    assert Pow2(20) == 0x10_0000;
    assert Pow2(24) == 0x100_0000;
    assert Pow2(28) == 0x1000_0000;
  }

  lemma {:induction false} Pow2Monotone(m: nat, n: nat)
    requires m < n
    ensures 2 * Pow2(m) <= Pow2(n)
  {
    if m + 1 < n { Pow2Monotone(m, n - 1); }
  }

  // ---------- Digits ----------

  lemma {:induction false} BitOfZero(i: nat)
    ensures !Bit(0, i)
  {
    if i > 0 { BitOfZero(i - 1); }
  }

  lemma {:induction false} BitOfOr(a: nat, b: nat, i: nat)
    ensures Bit(Or(a, b), i) <==> Bit(a, i) || Bit(b, i)
  {
    BitOfZero(i);
    if a != 0 && b != 0 && i > 0 {
      BitOfOr(a / 2, b / 2, i - 1);
    }
  }

  lemma {:induction false} BitOfShr(x: nat, s: nat, i: nat)
    ensures Bit(Shr(x, s), i) <==> Bit(x, i + s)
  {
    if s > 0 { BitOfShr(x / 2, s - 1, i); }
  }

  lemma {:induction false} BitAboveWidth(x: nat, w: nat, i: nat)
    requires x < Pow2(w) && w <= i
    ensures !Bit(x, i)
  {
    if w == 0 {
      BitOfZero(i);
    } else {
      BitAboveWidth(x / 2, w - 1, i - 1);
    }
  }

  lemma {:induction false} SameBits(x: nat, y: nat, w: nat)
    requires x < Pow2(w) && y < Pow2(w)
    requires forall i: nat :: i < w ==> (Bit(x, i) <==> Bit(y, i))
    ensures x == y
  {
    if w > 0 {
      assert Bit(x, 0) <==> Bit(y, 0);
      forall i: nat | i < w - 1 ensures Bit(x / 2, i) <==> Bit(y / 2, i) {
        assert Bit(x, i + 1) <==> Bit(y, i + 1);
      }
      SameBits(x / 2, y / 2, w - 1);
    }
  }

  lemma {:induction false} OrBound(a: nat, b: nat, w: nat)
    requires a < Pow2(w) && b < Pow2(w)
    ensures Or(a, b) < Pow2(w)
  {
    if a != 0 && b != 0 && w > 0 { OrBound(a / 2, b / 2, w - 1); }
  }

  lemma {:induction false} ShlBound(x: nat, s: nat, w: nat)
    requires x < Pow2(w)
    ensures Shl(x, s) < Pow2(s + w)
  {
    if s > 0 { ShlBound(x, s - 1, w); }
  }

  lemma {:induction false} ShrBound(x: nat, s: nat)
    ensures Shr(x, s) <= x
  {
    if s > 0 { ShrBound(x / 2, s - 1); }
  }

  lemma {:induction false} LenBounds(x: nat)
    ensures x < Pow2(Len(x))
    ensures x > 0 ==> Len(x) > 0 && Pow2(Len(x) - 1) <= x
  {
    if x > 0 { LenBounds(x / 2); }
  }

  lemma LenUnique(x: nat, n: nat)
    requires n > 0 && Pow2(n - 1) <= x < Pow2(n)
    ensures Len(x) == n
  {
    LenBounds(x);
    if Len(x) < n && Len(x) < n - 1 { Pow2Monotone(Len(x), n - 1); }
    if Len(x) > n && n < Len(x) - 1 { Pow2Monotone(n, Len(x) - 1); }
  }

  // ---------- Fields of a word ----------

  /** `x & (2^m - 1)` */
  lemma {:induction false} AndLowMask(x: nat, m: nat)
    ensures And(x, Pow2(m) - 1) == Low(x, m)
  {
    if x == 0 {
      LowOfZero(m);
    } else if m > 0 {
      AndLowMask(x / 2, m - 1);
      assert (Pow2(m) - 1) / 2 == Pow2(m - 1) - 1;
    }
  }

  lemma {:induction false} LowOfZero(m: nat)
    ensures Low(0, m) == 0
  {
    if m > 0 { LowOfZero(m - 1); }
  }

  lemma {:induction false} ZeroShifts(s: nat)
    ensures Shl(0, s) == 0 && Shr(0, s) == 0
  {
    if s > 0 { ZeroShifts(s - 1); }
  }

  /** Masking the `len` bits that start at bit `lo`. */
  lemma {:induction false} AndField(x: nat, lo: nat, len: nat)
    ensures And(x, Shl(Pow2(len) - 1, lo)) == Shl(Low(Shr(x, lo), len), lo)
  {
    if lo == 0 {
      AndLowMask(x, len);
    } else {
      AndField(x / 2, lo - 1, len);
      if x == 0 {
        ZeroShifts(lo);
        LowOfZero(len);
      }
      AndHalf(x, Shl(Pow2(len) - 1, lo - 1));
    }
  }

  lemma AndHalf(x: nat, y: nat)
    ensures And(x, 2 * y) == 2 * And(x / 2, y)
  {
  }

  /** Fields that do not overlap are or-ed together by adding them. */
  lemma {:induction false} OrDisjoint(a: nat, b: nat, m: nat)
    requires a < Pow2(m)
    ensures Or(a, Shl(b, m)) == a + Shl(b, m)
  {
    if a != 0 && m > 0 {
      OrDisjoint(a / 2, b, m - 1);
      ShlStep(b, m);
    }
  }

  /** Or-ing above bit `m` leaves the low bits alone. */
  lemma {:induction false} OrAbove(x: nat, b: nat, m: nat)
    ensures Or(x, Shl(b, m)) == Low(x, m) + Shl(Or(Shr(x, m), b), m)
  {
    if m > 0 {
      OrAbove(x / 2, b, m - 1);
      OrHalf(x, Shl(b, m - 1));
    }
  }

  lemma OrHalf(x: nat, y: nat)
    ensures Or(x, 2 * y) == x % 2 + 2 * Or(x / 2, y)
  {
  }

  lemma OrOne(x: nat)
    ensures Or(x, 1) == x - x % 2 + 1
  {
  }

  lemma {:induction false} OrCommutes(a: nat, b: nat)
    ensures Or(a, b) == Or(b, a)
  {
    if a != 0 && b != 0 { OrCommutes(a / 2, b / 2); }
  }
}
