/** Bit fields of a 32-bit word, put in place by shift-and-mask and read back by mask-and-shift. */
module Fields {
  import opened Bits

  /** `len` ones from bit `lo` on. */
  function Mask(lo: nat, len: nat): nat {
    Shl(Pow2(len) - 1, lo)
  }

  /** `mask & ((IMG_UINT32) x << lo)`: the shift loses what leaves the word. */
  function Place(x: nat, lo: nat, len: nat): nat {
    And(Low(Shl(x, lo), 32), Mask(lo, len))
  }

  /** `(word & mask) >> lo` */
  function Read(word: nat, lo: nat, len: nat): nat {
    Shr(And(word, Mask(lo, len)), lo)
  }

  lemma {:induction false} ShrOfShl(x: nat, s: nat)
    ensures Shr(Shl(x, s), s) == x
  {
    if s > 0 { ShrOfShl(x, s - 1); }
  }

  lemma {:induction false} ShrOfLongerShl(x: nat, s: nat, t: nat)
    requires t <= s
    ensures Shr(Shl(x, s), t) == Shl(x, s - t)
  {
    if t > 0 { ShrOfLongerShl(x, s - 1, t - 1); }
  }

  lemma {:induction false} LowOfShl(x: nat, s: nat, w: nat)
    requires s <= w
    ensures Low(Shl(x, s), w) == Shl(Low(x, w - s), s)
  {
    if s > 0 {
      LowOfShl(x, s - 1, w - 1);
      LowOfEven(Shl(x, s - 1), w);
    }
  }

  lemma LowOfEven(y: nat, w: nat)
    requires w > 0
    ensures Low(2 * y, w) == 2 * Low(y, w - 1)
  {
    assert (2 * y) / 2 == y;
  }

  lemma {:induction false} LowOfLow(x: nat, m: nat, n: nat)
    requires n <= m
    ensures Low(Low(x, m), n) == Low(x, n)
  {
    if n > 0 { LowOfLow(x / 2, m - 1, n - 1); }
  }

  lemma {:induction false} LowOfSmall(x: nat, m: nat)
    requires x < Pow2(m)
    ensures Low(x, m) == x
  {
    if m > 0 { LowOfSmall(x / 2, m - 1); }
  }

  lemma {:induction false} ShrOfSmall(x: nat, s: nat)
    requires x < Pow2(s)
    ensures Shr(x, s) == 0
  {
    if s > 0 { ShrOfSmall(x / 2, s - 1); }
  }

  lemma {:induction false} ShrOfOr(a: nat, b: nat, s: nat)
    ensures Shr(Or(a, b), s) == Or(Shr(a, s), Shr(b, s))
  {
    ZeroShifts(s);
    if s > 0 && a != 0 && b != 0 {
      ShrOfOr(a / 2, b / 2, s - 1);
    }
  }

  lemma {:induction false} LowOfOr(a: nat, b: nat, m: nat)
    ensures Low(Or(a, b), m) == Or(Low(a, m), Low(b, m))
  {
    LowOfZero(m);
    if m > 0 && a != 0 && b != 0 {
      LowOfOr(a / 2, b / 2, m - 1);
      OrHalves(a, b);
      OrOfDigits(a % 2, b % 2, Low(a / 2, m - 1), Low(b / 2, m - 1));
    }
  }

  lemma OrHalves(a: nat, b: nat)
    ensures Or(a, b) % 2 == (if a % 2 == 1 || b % 2 == 1 then 1 else 0) && Or(a, b) / 2 == Or(a / 2, b / 2)
  {
  }

  lemma OrOfDigits(p: nat, q: nat, x: nat, y: nat)
    requires p < 2 && q < 2
    ensures Or(p + 2 * x, q + 2 * y) == (if p == 1 || q == 1 then 1 else 0) + 2 * Or(x, y)
  {
  }

  /** What is put in place, and what a getter reads, in terms of low bits. */
  lemma PlaceIsLow(x: nat, lo: nat, len: nat)
    requires lo + len <= 32
    ensures Place(x, lo, len) == Shl(Low(x, len), lo)
  {
    LowOfShl(x, lo, 32);
    AndField(Low(Shl(x, lo), 32), lo, len);
    ShrOfShl(Low(x, 32 - lo), lo);
    LowOfLow(x, 32 - lo, len);
  }

  lemma ReadIsLow(word: nat, lo: nat, len: nat)
    ensures Read(word, lo, len) == Low(Shr(word, lo), len) == word / Pow2(lo) % Pow2(len)
  {
    AndField(word, lo, len);
    ShrOfShl(Low(Shr(word, lo), len), lo);
    ShrLowAreDivMod(word, lo);
    ShrLowAreDivMod(Shr(word, lo), len);
  }

  /** Reading a field of words that were or-ed together. */
  lemma ReadOr(a: nat, b: nat, lo: nat, len: nat)
    ensures Read(Or(a, b), lo, len) == Or(Read(a, lo, len), Read(b, lo, len))
  {
    ReadIsLow(Or(a, b), lo, len);
    ReadIsLow(a, lo, len);
    ReadIsLow(b, lo, len);
    ShrOfOr(a, b, lo);
    LowOfOr(Shr(a, lo), Shr(b, lo), len);
  }

  /** A field is read back as far as it fits ... */
  lemma ReadOwn(x: nat, lo: nat, len: nat)
    requires lo + len <= 32
    ensures Read(Place(x, lo, len), lo, len) == x % Pow2(len)
  {
    PlaceIsLow(x, lo, len);
    ReadIsLow(Place(x, lo, len), lo, len);
    ShrOfShl(Low(x, len), lo);
    LowOfLow(x, len, len);
    ShrLowAreDivMod(x, len);
  }

  /** ... and leaves no trace in the others. */
  lemma ReadOther(x: nat, lo: nat, len: nat, lo': nat, len': nat)
    requires lo + len <= 32 && (lo + len <= lo' || lo' + len' <= lo)
    ensures Read(Place(x, lo, len), lo', len') == 0
  {
    PlaceIsLow(x, lo, len);
    ReadIsLow(Place(x, lo, len), lo', len');
    LowOfZero(len');
    if lo' + len' <= lo {
      ShrOfLongerShl(Low(x, len), lo, lo');
      LowOfShl(Low(x, len), lo - lo', lo - lo');
      LowOfLow(Shl(Low(x, len), lo - lo'), lo - lo', len');
      ZeroShifts(lo - lo');
    } else {
      LowBound(x, len);
      ShlBound(Low(x, len), lo, len);
      if lo + len < lo' { Pow2Monotone(lo + len, lo'); }
      ShrOfSmall(Shl(Low(x, len), lo), lo');
    }
  }
}
