/** The integer log2 kit of `include/log2.h`: the versions built on the count-leading-zeros
    intrinsic (`...Clz`, functions of the word and its width) and the fallback versions
    (methods, as the header writes them). */
module Log2 {
  import opened Bits

  // ---------- The intrinsic and the versions built on it ----------

  /** `__builtin_clz`: zero bits above the highest set bit of a `w`-bit word. */
  function Clz(n: nat, w: nat): (r: nat)
    ensures r <= w
  {
    if w == 0 || Bit(n, w - 1) then 0 else 1 + Clz(n, w - 1)
  }

  function FloorLog2Clz(n: nat, w: nat): int {
    if n == 0 then 0 else w - Clz(n, w) - 1
  }

  function CeilLog2Clz(n: nat, w: nat): int {
    if n == 0 || n == 1 then 0 else w - Clz(n - 1, w)
  }

  function ExactLog2Clz(n: nat, w: nat): int {
    w - Clz(n, w) - 1
  }

  /** Decrement with the wrap-around of a `w`-bit unsigned. */
  function Dec(n: nat, w: nat): nat
    requires n < Pow2(w)
  {
    if n == 0 then Pow2(w) - 1 else n - 1
  }

  function Inc(n: nat, w: nat): nat
    requires n < Pow2(w)
  {
    if n == Pow2(w) - 1 then 0 else n + 1
  }

  predicate IsPower2(n: nat, w: nat)
    requires n < Pow2(w)
  {
    And(n, Dec(n, w)) == 0
  }

  function RoundUpClz(n: nat, w: nat): nat
    requires w > 0 && n < Pow2(w)
  {
    if n == 0 || n > Pow2(w - 1) then 0
    else if IsPower2(n, w) then n
    else Pow2(w - Clz(n, w))
  }

  lemma {:induction false} ClzCountsAboveLen(n: nat, w: nat)
    requires n < Pow2(w)
    ensures Len(n) <= w && Clz(n, w) == w - Len(n)
  {
    if w > 0 {
      LenBounds(n);
      if n < Pow2(w - 1) {
        BitAboveWidth(n, w - 1, w - 1);
        ClzCountsAboveLen(n, w - 1);
      } else {
        TopBit(n, w);
        LenUnique(n, w);
      }
    }
  }

  lemma {:induction false} TopBit(n: nat, w: nat)
    requires w > 0 && Pow2(w - 1) <= n < Pow2(w)
    ensures Bit(n, w - 1)
  {
    if w > 1 { TopBit(n / 2, w - 1); }
  }

  // ---------- Powers of two ----------

  lemma {:induction false} AndSelf(n: nat)
    ensures And(n, n) == n
  {
    if n > 0 { AndSelf(n / 2); }
  }

  ghost predicate PowerOfTwo(n: nat) {
    exists k: nat :: n == Pow2(k)
  }

  lemma PowerOfTwoHalves(n: nat)
    requires n > 0 && n % 2 == 0
    ensures PowerOfTwo(n) <==> PowerOfTwo(n / 2)
  {
    if PowerOfTwo(n) {
      var k: nat :| n == Pow2(k);
      assert n / 2 == Pow2(k - 1);
    }
    if PowerOfTwo(n / 2) {
      var k: nat :| n / 2 == Pow2(k);
      assert n == Pow2(k + 1);
    }
  }

  lemma {:induction false} AndWithPredecessor(n: nat)
    requires n > 0
    ensures And(n, n - 1) == 0 <==> PowerOfTwo(n)
  {
    if n % 2 == 1 {
      AndSelf(n / 2);
      assert (n - 1) / 2 == n / 2;
      if n == 1 { assert n == Pow2(0); }
    } else {
      AndWithPredecessor(n / 2);
      PowerOfTwoHalves(n);
    }
  }

  /** `IsPower2` answers true for 0 and for exactly the powers of two. */
  lemma IsPower2Meaning(n: nat, w: nat)
    requires n < Pow2(w)
    ensures IsPower2(n, w) <==> n == 0 || PowerOfTwo(n)
  {
    if n > 0 { AndWithPredecessor(n); }
  }

  // ---------- Floor and ceiling ----------

  lemma FloorLog2Bounds(n: nat, w: nat)
    requires 0 < n < Pow2(w)
    ensures 0 <= FloorLog2Clz(n, w) < w
    ensures Pow2(FloorLog2Clz(n, w)) <= n < Pow2(FloorLog2Clz(n, w) + 1)
  {
    ClzCountsAboveLen(n, w);
    LenBounds(n);
  }

  lemma CeilLog2Bounds(n: nat, w: nat)
    requires 1 < n < Pow2(w)
    ensures 0 < CeilLog2Clz(n, w) <= w
    ensures Pow2(CeilLog2Clz(n, w) - 1) < n <= Pow2(CeilLog2Clz(n, w))
  {
    ClzCountsAboveLen(n - 1, w);
    LenBounds(n - 1);
  }

  /** The fallback loop, for either width. */
  method FloorLog2(word: nat, ghost w: nat) returns (log2: nat)
    requires word < Pow2(w)
    ensures log2 == FloorLog2Clz(word, w)
  {
    ClzCountsAboveLen(word, w);
    var n: nat := word;
    log2 := 0;
    n := n / 2;
    while n != 0
      invariant Len(word) == if word == 0 then 0 else log2 + Len(n) + 1
      invariant word == 0 ==> n == 0 && log2 == 0
    {
      log2 := log2 + 1;
      n := n / 2;
    }
  }

  method CeilLog2(word: nat, ghost w: nat) returns (log2: nat)
    requires word < Pow2(w)
    ensures log2 == CeilLog2Clz(word, w)
  {
    log2 := 0;
    if word == 0 {
      return;
    }
    ClzCountsAboveLen(word - 1, w);
    var n: nat := word - 1;
    while n != 0
      invariant Len(word - 1) == log2 + Len(n)
    {
      log2 := log2 + 1;
      n := n / 2;
    }
  }

  // ---------- Rounding up by smearing ----------

  function SmearStep(n: nat, s: nat): nat {
    Or(n, Shr(n, s))
  }

  /** Shift-or steps by 1, 2, 4, ..., 2^(k-1). */
  function Smear(n: nat, k: nat): nat {
    if k == 0 then n else SmearStep(Smear(n, k - 1), Pow2(k - 1))
  }

  /** Some bit of `x` among the `n` bits from bit `i` up is set. */
  predicate AnyBit(x: nat, i: nat, n: nat)
    decreases n
  {
    n > 0 && (Bit(x, i) || AnyBit(x, i + 1, n - 1))
  }

  lemma {:induction false} AnyBitSplits(x: nat, i: nat, m: nat, n: nat)
    ensures AnyBit(x, i, m + n) <==> AnyBit(x, i, m) || AnyBit(x, i + m, n)
    decreases m
  {
    if m > 0 { AnyBitSplits(x, i + 1, m - 1, n); }
  }

  lemma {:induction false} BitOfSmear(n: nat, k: nat, i: nat)
    ensures Bit(Smear(n, k), i) <==> AnyBit(n, i, Pow2(k))
  {
    if k == 0 {
      assert AnyBit(n, i, 1) <==> Bit(n, i) || AnyBit(n, i + 1, 0);
    } else {
      var p := Pow2(k - 1);
      BitOfOr(Smear(n, k - 1), Shr(Smear(n, k - 1), p), i);
      BitOfShr(Smear(n, k - 1), p, i);
      BitOfSmear(n, k - 1, i);
      BitOfSmear(n, k - 1, i + p);
      AnyBitSplits(n, i, p, p);
    }
  }

  lemma {:induction false} SmearBound(n: nat, k: nat, w: nat)
    requires n < Pow2(w)
    ensures Smear(n, k) < Pow2(w)
  {
    if k > 0 {
      SmearBound(n, k - 1, w);
      ShrBound(Smear(n, k - 1), Pow2(k - 1));
      OrBound(Smear(n, k - 1), Shr(Smear(n, k - 1), Pow2(k - 1)), w);
    }
  }

  /** Looking at all bits from `i` up in a word decides whether it reaches `2^i`. */
  lemma {:induction false} AnyBitAbove(x: nat, i: nat, n: nat)
    requires x < Pow2(i + n)
    ensures AnyBit(x, i, n) <==> i < Len(x)
    decreases n
  {
    LenBounds(x);
    if n == 0 {
      if i < Len(x) - 1 { Pow2Monotone(i, Len(x) - 1); }
    } else if x < Pow2(i) {
      BitAboveWidth(x, i, i);
      Pow2Monotone(i, i + 1);
      AnyBitWider(x, i + 1, n - 1);
      if i < Len(x) - 1 { Pow2Monotone(i, Len(x) - 1); }
    } else {
      if i + 1 < Len(x) {
        AnyBitAbove(x, i + 1, n - 1);
      } else {
        if Len(x) < i { Pow2Monotone(Len(x), i); }
        TopBit(x, i + 1);
      }
    }
  }

  lemma {:induction false} AnyBitWider(x: nat, i: nat, n: nat)
    requires x < Pow2(i)
    ensures !AnyBit(x, i, n)
    decreases n
  {
    if n > 0 {
      BitAboveWidth(x, i, i);
      AnyBitWider(x, i + 1, n - 1);
    }
  }

  lemma {:induction false} BitOfAllOnes(m: nat, i: nat)
    ensures Bit(Pow2(m) - 1, i) <==> i < m
  {
    if m == 0 {
      BitOfZero(i);
    } else if i > 0 {
      assert (Pow2(m) - 1) / 2 == Pow2(m - 1) - 1;
      BitOfAllOnes(m - 1, i - 1);
    }
  }

  /** `k` smear steps fill a word of `2^k` bits below its highest set bit. */
  lemma SmearFills(n: nat, k: nat)
    requires n < Pow2(Pow2(k))
    ensures Smear(n, k) == Pow2(Len(n)) - 1
  {
    var w := Pow2(k);
    ClzCountsAboveLen(n, w);
    SmearBound(n, k, w);
    if Len(n) < w { Pow2Monotone(Len(n), w); }
    forall i: nat | i < w ensures Bit(Smear(n, k), i) <==> Bit(Pow2(Len(n)) - 1, i) {
      BitOfSmear(n, k, i);
      AnyBitReaches(n, i, w);
      BitOfAllOnes(Len(n), i);
    }
    SameBits(Smear(n, k), Pow2(Len(n)) - 1, w);
  }

  lemma AnyBitReaches(x: nat, i: nat, w: nat)
    requires x < Pow2(w)
    ensures AnyBit(x, i, w) <==> i < Len(x)
  {
    if i > 0 { Pow2Monotone(w, i + w); }
    AnyBitAbove(x, i, w);
  }

  /** The smear form and the leading-zero form of `RoundUpToNextPowerOfTwo` agree on every
      word of `2^k` bits: on 0 and above the top power of two both give 0. */
  lemma SmearAgreesWithClz(n: nat, k: nat)
    requires n < Pow2(Pow2(k))
    ensures Smear(Dec(n, Pow2(k)), k) < Pow2(Pow2(k))
    ensures Inc(Smear(Dec(n, Pow2(k)), k), Pow2(k)) == RoundUpClz(n, Pow2(k))
  {
    var w := Pow2(k);
    var m := Dec(n, w);
    SmearFills(m, k);
    SmearBound(m, k, w);
    ClzCountsAboveLen(n, w);
    if n == 0 {
      Pow2Monotone(w - 1, w);
      LenUnique(m, w);
    } else if n > Pow2(w - 1) {
      LenUnique(m, w);
    } else {
      ClzCountsAboveLen(m, w);
      LenOfPredecessor(n, w);
    }
  }

  lemma LenOfPredecessor(n: nat, w: nat)
    requires w > 0 && 0 < n <= Pow2(w - 1)
    ensures n < Pow2(w) && Len(n - 1) < w && Pow2(Len(n - 1)) < Pow2(w)
    ensures Pow2(Len(n - 1)) == RoundUpClz(n, w)
  {
    Pow2Monotone(w - 1, w);
    ClzCountsAboveLen(n, w);
    ClzCountsAboveLen(n - 1, w - 1);
    if Len(n - 1) < w - 1 { Pow2Monotone(Len(n - 1), w - 1); }
    IsPower2Meaning(n, w);
    LenBounds(n - 1);
    if IsPower2(n, w) {
      var k: nat :| n == Pow2(k);
      if n > 1 {
        assert k > 0;
        LenUnique(n - 1, k);
      }
    } else {
      assert n != Pow2(Len(n - 1));
      assert n != Pow2(0);
      LenUnique(n, Len(n - 1));
    }
  }

  /** Rounding up is two to the ceiling of the logarithm. */
  lemma RoundUpIsPow2OfCeil(n: nat, w: nat)
    requires w > 0 && 0 < n <= Pow2(w - 1)
    ensures n < Pow2(w) && CeilLog2Clz(n, w) >= 0
    ensures RoundUpClz(n, w) == Pow2(CeilLog2Clz(n, w))
  {
    LenOfPredecessor(n, w);
    ClzCountsAboveLen(n - 1, w);
  }

  /** The five lines of the 32-bit fallback, and the six of the 64-bit one. */
  function Smear32(n: nat): nat {
    SmearStep(SmearStep(SmearStep(SmearStep(SmearStep(n, 1), 2), 4), 8), 16)
  }

  function Smear64(n: nat): nat {
    SmearStep(Smear32(n), 32)
  }

  lemma SmearUnrolls(n: nat)
    ensures Smear32(n) == Smear(n, 5) && Smear64(n) == Smear(n, 6)
  {
    assert Smear(n, 1) == SmearStep(n, 1);
    assert Smear(n, 2) == SmearStep(Smear(n, 1), 2);
    assert Smear(n, 3) == SmearStep(Smear(n, 2), 4);
    assert Smear(n, 4) == SmearStep(Smear(n, 3), 8);
    assert Smear(n, 5) == SmearStep(Smear(n, 4), 16);
  }

  lemma Smear32Agrees(n: nat)
    requires n < Pow2(32)
    ensures Smear32(Dec(n, 32)) < Pow2(32) && Inc(Smear32(Dec(n, 32)), 32) == RoundUpClz(n, 32)
  {
    SmearAgreesWithClz(n, 5);
    SmearUnrolls(Dec(n, 32));
  }

  lemma Smear64Agrees(n: nat)
    requires n < Pow2(64)
    ensures Smear64(Dec(n, 64)) < Pow2(64) && Inc(Smear64(Dec(n, 64)), 64) == RoundUpClz(n, 64)
  {
    SmearAgreesWithClz(n, 6);
    SmearUnrolls(Dec(n, 64));
  }

  /** `n |= n >> s` */
  method ShiftOr(n: nat, s: nat) returns (m: nat)
    ensures m == SmearStep(n, s)
  {
    m := Or(n, Shr(n, s));
  }

  method RoundUpToNextPowerOfTwo(word: nat) returns (n: nat)
    requires word < Pow2(32)
    ensures n == RoundUpClz(word, 32)
  {
    Smear32Agrees(word);
    n := Dec(word, 32);
    n := ShiftOr(n, 1);
    n := ShiftOr(n, 2);
    n := ShiftOr(n, 4);
    n := ShiftOr(n, 8);
    n := ShiftOr(n, 16);
    n := Inc(n, 32);
  }

  method RoundUpToNextPowerOfTwo64(word: nat) returns (n: nat)
    requires word < Pow2(64)
    ensures n == RoundUpClz(word, 64)
  {
    Smear64Agrees(word);
    n := Dec(word, 64);
    n := ShiftOr(n, 1);
    n := ShiftOr(n, 2);
    n := ShiftOr(n, 4);
    n := ShiftOr(n, 8);
    n := ShiftOr(n, 16);
    n := ShiftOr(n, 32);
    n := Inc(n, 64);
  }

  // ---------- Mask-table logarithm ----------

  /** The word of `2^k` bits whose bit `i` is bit `j` of `i`. */
  function Mask(j: nat, k: nat): nat
    requires j < k
  {
    if k == j + 1 then Shl(Pow2(Pow2(j)) - 1, Pow2(j))
    else Mask(j, k - 1) + Shl(Mask(j, k - 1), Pow2(k - 1))
  }

  lemma {:induction false} BitOfShl(x: nat, s: nat, i: nat)
    ensures Bit(Shl(x, s), i) <==> i >= s && Bit(x, i - s)
  {
    if s > 0 && i > 0 { BitOfShl(x, s - 1, i - 1); }
  }

  lemma {:induction false} BitOfIndex(i: nat, j: nat, k: nat)
    requires j < k && i < Pow2(k)
    ensures k == j + 1 ==> (Bit(i, j) <==> i >= Pow2(j))
    ensures k > j + 1 && i >= Pow2(k - 1) ==> (Bit(i, j) <==> Bit(i - Pow2(k - 1), j))
  {
    if j > 0 {
      BitOfIndex(i / 2, j - 1, k - 1);
    }
  }

  lemma {:induction false} MaskBits(j: nat, k: nat, i: nat)
    requires j < k
    ensures Mask(j, k) < Pow2(Pow2(k))
    ensures i < Pow2(k) ==> (Bit(Mask(j, k), i) <==> Bit(i, j))
  {
    if i < Pow2(k) { BitOfIndex(i, j, k); }
    if k == j + 1 {
      var p := Pow2(j);
      ShlBound(Pow2(p) - 1, p, p);
      BitOfShl(Pow2(p) - 1, p, i);
      if i >= p { BitOfAllOnes(p, i - p); }
    } else {
      var p := Pow2(k - 1);
      var half := Mask(j, k - 1);
      MaskBits(j, k - 1, if i < p then i else i - p);
      ShlBound(half, p, p);
      OrDisjoint(half, half, p);
      OrBound2(half, Shl(half, p), p);
      BitOfOr(half, Shl(half, p), i);
      BitOfShl(half, p, i);
      if i >= p { BitAboveWidth(half, p, i); }
    }
  }

  lemma OrBound2(a: nat, b: nat, p: nat)
    requires a < Pow2(p) && b < Pow2(p + p)
    ensures Or(a, b) < Pow2(p + p)
  {
    if p > 0 { Pow2Monotone(p, p + p); }
    OrBound(a, b, p + p);
  }

  lemma {:induction false} AndWithPower(e: nat, m: nat)
    ensures And(Pow2(e), m) != 0 <==> Bit(m, e)
  {
    BitOfZero(e);
    if e > 0 && m != 0 { AndWithPower(e - 1, m / 2); }
  }

  // The header's tables, for 32 and for 64 bits.
  const TABLE32: seq<nat> := [0xAAAAAAAA, 0xCCCCCCCC, 0xF0F0F0F0, 0xFF00FF00, 0xFFFF0000]
  const TABLE64: seq<nat> := [0xAAAAAAAAAAAAAAAA, 0xCCCCCCCCCCCCCCCC, 0xF0F0F0F0F0F0F0F0,
                              0xFF00FF00FF00FF00, 0xFFFF0000FFFF0000, 0xFFFFFFFF00000000]

  lemma MaskFirst(j: nat)
    ensures Mask(j, j + 1) == (Pow2(Pow2(j)) - 1) * Pow2(Pow2(j))
  {
    ShlIsMul(Pow2(Pow2(j)) - 1, Pow2(j));
  }

  lemma MaskDoubles(j: nat, k: nat)
    requires j < k
    ensures Mask(j, k + 1) == Mask(j, k) + Mask(j, k) * Pow2(Pow2(k))
  {
    ShlIsMul(Mask(j, k), Pow2(k));
  }

  lemma Pow2OfFive()
    ensures Pow2(5) == 32 && Pow2(Pow2(5)) == 0x1_0000_0000
  {
    Pow2Values();
  }

  lemma Mask0Values()
    ensures Mask(0, 5) == 0xAAAAAAAA && Mask(0, 6) == 0xAAAAAAAAAAAAAAAA
  {
    Pow2OfFive();
    MaskFirst(0);
    assert Mask(0, 1) == 0x2;
    MaskDoubles(0, 1);
    assert Mask(0, 2) == 0xA;
    MaskDoubles(0, 2);
    assert Mask(0, 3) == 0xAA;
    MaskDoubles(0, 3);
    assert Mask(0, 4) == 0xAAAA;
    MaskDoubles(0, 4);
    assert Mask(0, 5) == 0xAAAAAAAA;
    MaskDoubles(0, 5);
    assert Mask(0, 6) == 0xAAAAAAAAAAAAAAAA;
  }

  lemma Mask1Values()
    ensures Mask(1, 5) == 0xCCCCCCCC && Mask(1, 6) == 0xCCCCCCCCCCCCCCCC
  {
    Pow2OfFive();
    MaskFirst(1);
    assert Mask(1, 2) == 0xC;
    MaskDoubles(1, 2);
    assert Mask(1, 3) == 0xCC;
    MaskDoubles(1, 3);
    assert Mask(1, 4) == 0xCCCC;
    MaskDoubles(1, 4);
    assert Mask(1, 5) == 0xCCCCCCCC;
    MaskDoubles(1, 5);
    assert Mask(1, 6) == 0xCCCCCCCCCCCCCCCC;
  }

  lemma Mask2Values()
    ensures Mask(2, 5) == 0xF0F0F0F0 && Mask(2, 6) == 0xF0F0F0F0F0F0F0F0
  {
    Pow2OfFive();
    MaskFirst(2);
    assert Mask(2, 3) == 0xF0;
    MaskDoubles(2, 3);
    assert Mask(2, 4) == 0xF0F0;
    MaskDoubles(2, 4);
    assert Mask(2, 5) == 0xF0F0F0F0;
    MaskDoubles(2, 5);
    assert Mask(2, 6) == 0xF0F0F0F0F0F0F0F0;
  }

  lemma Mask3Values()
    ensures Mask(3, 5) == 0xFF00FF00 && Mask(3, 6) == 0xFF00FF00FF00FF00
  {
    Pow2OfFive();
    MaskFirst(3);
    assert Mask(3, 4) == 0xFF00;
    MaskDoubles(3, 4);
    assert Mask(3, 5) == 0xFF00FF00;
    MaskDoubles(3, 5);
    assert Mask(3, 6) == 0xFF00FF00FF00FF00;
  }

  lemma Mask4Values()
    ensures Mask(4, 5) == 0xFFFF0000 && Mask(4, 6) == 0xFFFF0000FFFF0000
  {
    Pow2OfFive();
    MaskFirst(4);
    assert Mask(4, 5) == 0xFFFF0000;
    MaskDoubles(4, 5);
    assert Mask(4, 6) == 0xFFFF0000FFFF0000;
  }

  lemma Mask5Values()
    ensures Mask(5, 6) == 0xFFFFFFFF00000000
  {
    Pow2OfFive();
    MaskFirst(5);
    assert Mask(5, 6) == 0xFFFFFFFF00000000;
  }

  /** The header's tables are the masks of 32 and of 64 bits. */
  lemma TablesAreMasks(j: nat)
    ensures j < 5 ==> TABLE32[j] == Mask(j, 5)
    ensures j < 6 ==> TABLE64[j] == Mask(j, 6)
  {
    match j
    case 0 => Mask0Values();
    case 1 => Mask1Values();
    case 2 => Mask2Values();
    case 3 => Mask3Values();
    case 4 => Mask4Values();
    case 5 => Mask5Values();
    case _ =>
  }

  lemma {:induction false} BitOfPow2(p: nat, i: nat)
    ensures Bit(Pow2(p), i) <==> i == p
  {
    if p == 0 {
      if i > 0 { BitOfZero(i - 1); }
    } else if i > 0 {
      BitOfPow2(p - 1, i - 1);
    }
  }

  /** The contribution of table entry `p` to the result. */
  function Digit(c: bool, p: nat): nat {
    if c then Pow2(p) else 0
  }

  lemma BitOfDigit(c: bool, p: nat, i: nat)
    ensures Bit(Digit(c, p), i) <==> c && i == p
  {
    BitOfPow2(p, i);
    BitOfZero(i);
  }

  lemma DigitBound(c: bool, p: nat, w: nat)
    requires p < w
    ensures Digit(c, p) < Pow2(w)
  {
    Pow2Monotone(p, w);
  }

  /** Or-ing in one more digit. */
  lemma OrDigit(r: nat, c: bool, p: nat, i: nat, w: nat)
    requires r < Pow2(w) && p < w
    ensures Or(r, Digit(c, p)) < Pow2(w)
    ensures Bit(Or(r, Digit(c, p)), i) <==> Bit(r, i) || (c && i == p)
  {
    BitOfOr(r, Digit(c, p), i);
    BitOfDigit(c, p, i);
    DigitBound(c, p, w);
    OrBound(r, Digit(c, p), w);
  }

  /** A mask catches a power of two exactly when the index has the mask's bit. */
  lemma MaskCatches(j: nat, k: nat, e: nat)
    requires j < k && e < Pow2(k)
    ensures And(Pow2(e), Mask(j, k)) != 0 <==> Bit(e, j)
  {
    AndWithPower(e, Mask(j, k));
    MaskBits(j, k, e);
  }

  lemma Digit32(n: nat, e: nat, j: nat, v: nat)
    requires e < 32 && n == Pow2(e) && j < 5 && v == Pow2(j)
    ensures (if And(n, TABLE32[j]) != 0 then v else 0) == Digit(Bit(e, j), j)
  {
    TablesAreMasks(j);
    MaskCatches(j, 5, e);
  }

  lemma Digit64(n: nat, e: nat, j: nat, v: nat)
    requires e < 64 && n == Pow2(e) && j < 6 && v == Pow2(j)
    ensures (if And(n, TABLE64[j]) != 0 then v else 0) == Digit(Bit(e, j), j)
  {
    TablesAreMasks(j);
    MaskCatches(j, 6, e);
  }

  /** Or-ing in the digits of `e` at `ps`, in that order, after digit 0. */
  function OrDigits(r: nat, e: nat, ps: seq<nat>): nat
    decreases |ps|
  {
    if ps == [] then r else OrDigits(Or(r, Digit(Bit(e, ps[0]), ps[0])), e, ps[1..])
  }

  lemma {:induction false} BitOfOrDigits(r: nat, e: nat, ps: seq<nat>, i: nat, w: nat)
    requires r < Pow2(w) && forall k :: 0 <= k < |ps| ==> ps[k] < w
    ensures OrDigits(r, e, ps) < Pow2(w)
    ensures Bit(OrDigits(r, e, ps), i) <==> Bit(r, i) || (i in ps && Bit(e, i))
    decreases |ps|
  {
    if ps != [] {
      OrDigit(r, Bit(e, ps[0]), ps[0], i, w);
      BitOfOrDigits(Or(r, Digit(Bit(e, ps[0]), ps[0])), e, ps[1..], i, w);
    }
  }

  /** With every digit or-ed in, the result is `e`. */
  lemma Collect(e: nat, ps: seq<nat>, w: nat)
    requires 0 < w && e < Pow2(w) && forall k :: 0 <= k < |ps| ==> ps[k] < w
    requires forall i: nat :: 0 < i < w ==> i in ps
    ensures OrDigits(Digit(Bit(e, 0), 0), e, ps) == e
  {
    var r := Digit(Bit(e, 0), 0);
    DigitBound(Bit(e, 0), 0, w);
    forall i: nat | i < w
      ensures OrDigits(r, e, ps) < Pow2(w) && (Bit(OrDigits(r, e, ps), i) <==> Bit(e, i))
    {
      BitOfDigit(Bit(e, 0), 0, i);
      BitOfOrDigits(r, e, ps, i, w);
    }
    BitOfOrDigits(r, e, ps, 0, w);
    SameBits(OrDigits(r, e, ps), e, w);
  }

  lemma OrDigitsUnroll(r: nat, e: nat, p: nat, ps: seq<nat>)
    ensures OrDigits(r, e, [p] + ps) == OrDigits(Or(r, Digit(Bit(e, p), p)), e, ps)
  {
    assert ([p] + ps)[1..] == ps;
  }

  /** The 32-bit fallback. */
  method ExactLog2(n: nat, ghost e: nat) returns (r: nat)
    requires e < 32 && n == Pow2(e)
    ensures r == e
  {
    r := if And(n, TABLE32[0]) != 0 then 1 else 0;
    Digit32(n, e, 0, 1);
    Collect(e, [4, 3, 2, 1], 5);
    r := OrNext32(r, n, 4, 16, e, [3, 2, 1]);
    r := OrNext32(r, n, 3, 8, e, [2, 1]);
    r := OrNext32(r, n, 2, 4, e, [1]);
    r := OrNext32(r, n, 1, 2, e, []);
  }

  /** One line of the fallback: `ps` are the digits still to come. */
  method OrNext32(r: nat, n: nat, j: nat, v: nat, ghost e: nat, ghost ps: seq<nat>) returns (r': nat)
    requires e < 32 && n == Pow2(e) && j < 5 && v == Pow2(j)
    ensures OrDigits(r', e, ps) == OrDigits(r, e, [j] + ps)
  {
    Digit32(n, e, j, v);
    OrDigitsUnroll(r, e, j, ps);
    r' := Or(r, if And(n, TABLE32[j]) != 0 then v else 0);
  }

  /** The 64-bit fallback. */
  method ExactLog2Of64(n: nat, ghost e: nat) returns (r: nat)
    requires e < 64 && n == Pow2(e)
    ensures r == e
  {
    r := if And(n, TABLE64[0]) != 0 then 1 else 0;
    Digit64(n, e, 0, 1);
    Collect(e, [5, 4, 3, 2, 1], 6);
    r := OrNext64(r, n, 5, 32, e, [4, 3, 2, 1]);
    r := OrNext64(r, n, 4, 16, e, [3, 2, 1]);
    r := OrNext64(r, n, 3, 8, e, [2, 1]);
    r := OrNext64(r, n, 2, 4, e, [1]);
    r := OrNext64(r, n, 1, 2, e, []);
  }

  method OrNext64(r: nat, n: nat, j: nat, v: nat, ghost e: nat, ghost ps: seq<nat>) returns (r': nat)
    requires e < 64 && n == Pow2(e) && j < 6 && v == Pow2(j)
    ensures OrDigits(r', e, ps) == OrDigits(r, e, [j] + ps)
  {
    Digit64(n, e, j, v);
    OrDigitsUnroll(r, e, j, ps);
    r' := Or(r, if And(n, TABLE64[j]) != 0 then v else 0);
  }

  /** On powers of two the table, the intrinsic and the floor agree. */
  lemma ExactLog2Agrees(e: nat, w: nat)
    requires e < w
    ensures Pow2(e) < Pow2(w)
    ensures ExactLog2Clz(Pow2(e), w) == e && FloorLog2Clz(Pow2(e), w) == e
  {
    Pow2Monotone(e, w);
    ClzCountsAboveLen(Pow2(e), w);
    LenUnique(Pow2(e), e + 1);
  }

  // ---------- Mip levels ----------

  function Max(a: nat, b: nat): nat {
    if a > b then a else b
  }

  function NumMipLevels(x: nat, y: nat, z: nat): int {
    FloorLog2Clz(Max(Max(x, y), z), 32) + 1
  }

  function Halved(d: nat): nat {
    Max(1, d / 2)
  }

  /** The levels of a texture: each dimension halves, but not below one texel, until none
      is larger than one. */
  function MipChain(x: nat, y: nat, z: nat): seq<(nat, nat, nat)>
    decreases Max(Max(x, y), z)
  {
    if Max(Max(x, y), z) <= 1 then [(x, y, z)]
    else [(x, y, z)] + MipChain(Halved(x), Halved(y), Halved(z))
  }

  lemma {:induction false} MipChainLength(x: nat, y: nat, z: nat)
    ensures |MipChain(x, y, z)| == if Max(Max(x, y), z) == 0 then 1 else Len(Max(Max(x, y), z))
    decreases Max(Max(x, y), z)
  {
    var m := Max(Max(x, y), z);
    if m > 1 {
      assert Max(Max(Halved(x), Halved(y)), Halved(z)) == m / 2;
      MipChainLength(Halved(x), Halved(y), Halved(z));
    }
  }

  lemma {:induction false} MipChainEnds(x: nat, y: nat, z: nat)
    requires x > 0 && y > 0 && z > 0
    ensures MipChain(x, y, z) != [] && MipChain(x, y, z)[|MipChain(x, y, z)| - 1] == (1, 1, 1)
    decreases Max(Max(x, y), z)
  {
    if Max(Max(x, y), z) > 1 { MipChainEnds(Halved(x), Halved(y), Halved(z)); }
  }

  /** `NumMipLevels` counts the levels of the chain, which ends in a single texel. */
  lemma NumMipLevelsCountsChain(x: nat, y: nat, z: nat)
    requires x < Pow2(32) && y < Pow2(32) && z < Pow2(32)
    ensures NumMipLevels(x, y, z) == |MipChain(x, y, z)|
    ensures x > 0 && y > 0 && z > 0 ==> MipChain(x, y, z)[NumMipLevels(x, y, z) - 1] == (1, 1, 1)
  {
    MipChainLength(x, y, z);
    ClzCountsAboveLen(Max(Max(x, y), z), 32);
    if x > 0 && y > 0 && z > 0 { MipChainEnds(x, y, z); }
  }
}
