/** Packet headers of the transport layer, `include/pvrsrv_tlcommon.h`, with the alignment
    macro of `include/img_defs.h`. A header is two 32-bit words and data follows it in
    units of 8 bytes, so a stream buffer is an array of two-word cells. */
module TlPacket {
  import opened Bits
  import opened Fields

  const WORD: nat := 0x1_0000_0000
  type U32 = x: nat | x < 0x1_0000_0000

  const ALIGNMENT: nat := 8
  const HDR_SIZE: nat := 8
  const RESERVED: U32 := 0x31504C54
  const SIZE_MASK: nat := 0xFFFF
  const MAX_PACKET_SIZE: nat := 0xFFF0
  const TYPE_MASK: nat := 0xFF00_0000
  const DROPPED_MASK: nat := 0x0080_0000

  const TYPE_UNDEF: nat := 0
  const TYPE_DATA: nat := 1
  const TYPE_WRITE_FAILED: nat := 2
  const TYPE_PADDING: nat := 3
  const TYPE_LAST: nat := 8

  // ---------- Alignment ----------

  function WrappingSum(x: U32, y: U32): (s: U32)
    ensures s == if x + y < WORD then x + y else x + y - WORD
  {
    (x + y) % WORD
  }

  /** `PVR_ALIGN` on 32-bit operands: the sum wraps, and `~(n - 1)` is `2^32 - n`. */
  function PvrAlign(x: U32, n: U32): nat
    requires n > 0
  {
    And(WrappingSum(x, n - 1), WORD - n)
  }

  lemma WordIsPow2()
    ensures Pow2(32) == WORD
  {
    Pow2Values();
  }

  lemma PowerFitsWord(k: nat)
    requires k < 32
    ensures 0 < Pow2(k) < WORD
  {
    WordIsPow2();
    Pow2Monotone(k, 32);
  }

  lemma MaskClearsLowBits(y: nat, k: nat)
    requires k < 32 && y < WORD
    ensures 0 < Pow2(k) < WORD
    ensures And(y, WORD - Pow2(k)) == Shl(Shr(y, k), k)
  {
    PowerFitsWord(k);
    MaskFrom(k);
    AndField(y, k, 32 - k);
    ShrFits(y, k);
    LowOfSmall(Shr(y, k), 32 - k);
  }

  lemma ClearedIsMultiple(y: nat, k: nat)
    ensures Shl(Shr(y, k), k) % Pow2(k) == 0
    ensures y - Pow2(k) < Shl(Shr(y, k), k) <= y
    ensures y < Pow2(k) ==> Shl(Shr(y, k), k) == 0
  {
    SplitAt(y, k);
    LowBound(y, k);
    ShlIsMul(Shr(y, k), k);
    DivModUnique(Shl(Shr(y, k), k), Pow2(k), Shr(y, k), 0);
    if y < Pow2(k) {
      LowOfSmall(y, k);
    }
  }

  /** For a power of two the macro gives the least multiple that is not below `x`, as long
      as the sum fits a word; otherwise it gives 0. */
  lemma PvrAlignIsLeastMultiple(x: U32, k: nat)
    requires k < 32
    ensures 0 < Pow2(k) < WORD
    ensures PvrAlign(x, Pow2(k)) % Pow2(k) == 0
    ensures x + Pow2(k) - 1 < WORD ==> x <= PvrAlign(x, Pow2(k)) < x + Pow2(k)
    ensures x + Pow2(k) - 1 >= WORD ==> PvrAlign(x, Pow2(k)) == 0
  {
    PowerFitsWord(k);
    var p := Pow2(k);
    var y := WrappingSum(x, p - 1);
    MaskClearsLowBits(y, k);
    ClearedIsMultiple(y, k);
  }

  /** The mask `~(2^k - 1)` is the field of the upper bits. */
  lemma MaskFrom(k: nat)
    requires k <= 32
    ensures Shl(Pow2(32 - k) - 1, k) == WORD - Pow2(k)
  {
    WordIsPow2();
    ShlIsMul(Pow2(32 - k) - 1, k);
    Pow2Add(32 - k, k);
    assert (Pow2(32 - k) - 1) * Pow2(k) == Pow2(32 - k) * Pow2(k) - Pow2(k);
  }

  lemma ShrFits(y: nat, k: nat)
    requires k <= 32 && y < WORD
    ensures Shr(y, k) < Pow2(32 - k)
  {
    WordIsPow2();
    ShrFitsWidth(y, k, 32);
  }

  lemma {:induction false} ShrFitsWidth(y: nat, k: nat, w: nat)
    requires k <= w && y < Pow2(w)
    ensures Shr(y, k) < Pow2(w - k)
  {
    if k > 0 { ShrFitsWidth(y / 2, k - 1, w - 1); }
  }

  /** `PVRSRVTL_ALIGN` in arithmetic; above `2^32 - 8` the sum wraps and the result is 0. */
  function Align(x: U32): (r: nat)
    ensures r % 8 == 0 && (x + 7 < WORD ==> x <= r < x + 8)
  {
    if x + 7 < WORD then (x + 7) / 8 * 8 else 0
  }

  lemma AlignIsMacro(x: U32)
    ensures PvrAlign(x, ALIGNMENT) == Align(x)
  {
    Pow2Values();
    PvrAlignIsLeastMultiple(x, 3);
  }

  /** An offset that has reached the end of a circular buffer goes back to its start. */
  function Wrap(offset: nat, size: nat): nat {
    if offset == size then 0 else offset
  }

  // ---------- The header word ----------

  /** `PVRSRVTL_SET_PACKET_HDR` */
  function HdrWord(len: U32, kind: U32): (word: nat)
    requires kind < 0x100
    ensures word < WORD
  {
    Pow2Values();
    ShlBound(kind, 24, 8);
    OrBound(len, Shl(kind, 24), 32);
    Or(len, Shl(kind, 24))
  }

  /** `GET_PACKET_DATA_LEN` in arithmetic. */
  function DataLen(word: nat): (len: nat)
    ensures len < 0x1_0000
  {
    word % 0x1_0000
  }

  /** `GET_PACKET_TYPE` in arithmetic. */
  function PacketType(word: nat): (kind: nat)
    ensures kind < 0x100
  {
    word / 0x100_0000 % 0x100
  }

  /** `CHECK_PACKETS_DROPPED` in arithmetic. */
  predicate IsDropped(word: nat) {
    word / 0x80_0000 % 2 == 1
  }

  /** `SET_PACKETS_DROPPED` in arithmetic. */
  function SetDropped(word: U32): U32 {
    if IsDropped(word) then word else word + 0x80_0000
  }

  /** The header's masks and shifts compute these fields. */
  lemma FieldsAreMasks(word: U32)
    ensures And(word, SIZE_MASK) == DataLen(word)
    ensures Shr(And(word, TYPE_MASK), 24) == PacketType(word)
    ensures Shr(And(word, DROPPED_MASK), 23) != 0 <==> IsDropped(word)
    ensures Or(word, Shl(1, 23)) == SetDropped(word)
  {
    Pow2Values();
    AndLowMask(word, 16);
    ShrLowAreDivMod(word, 16);
    ShlIsMul(0xFF, 24);
    ReadIsLow(word, 24, 8);
    ShlIsMul(1, 23);
    ReadIsLow(word, 23, 1);
    OrFlag(word);
  }

  lemma OrOfFields(len: nat, kind: nat)
    requires len < 0x100_0000 && kind < 0x100
    ensures Or(len, Shl(kind, 24)) == len + kind * 0x100_0000
  {
    Pow2Values();
    OrDisjoint(len, kind, 24);
    ShlIsMul(kind, 24);
  }

  /** The fields of a header word do not disturb each other: what was put in comes back. */
  lemma HdrWordFields(len: U32, kind: U32)
    requires len <= SIZE_MASK && kind < 0x100
    ensures DataLen(HdrWord(len, kind)) == len && PacketType(HdrWord(len, kind)) == kind
    ensures !IsDropped(HdrWord(len, kind))
  {
    OrOfFields(len, kind);
    var word := HdrWord(len, kind);
    FieldsOfSum(len, kind, word);
  }

  lemma FieldsOfSum(len: nat, kind: nat, word: nat)
    requires len < 0x1_0000 && kind < 0x100 && word == len + kind * 0x100_0000
    ensures word < WORD && word % 0x1_0000 == len && word / 0x100_0000 == kind
    ensures word / 0x80_0000 == 2 * kind
  {
    DivModUnique(word, 0x1_0000, kind * 0x100, len);
    DivModUnique(word, 0x100_0000, kind, len);
    DivModUnique(word, 0x80_0000, 2 * kind, len);
  }

  /** A length that does not fit its field runs into the type; only its low half is read back. */
  lemma HdrWordLen(len: U32, kind: U32)
    requires kind < 0x100
    ensures DataLen(HdrWord(len, kind)) == len % 0x1_0000
  {
    Pow2Values();
    OrAbove(len, kind, 24);
    ShrLowAreDivMod(len, 24);
    ShlIsMul(Or(Shr(len, 24), kind), 24);
    LowHalf(len, len % 0x100_0000, Or(Shr(len, 24), kind), HdrWord(len, kind));
  }

  lemma LowHalf(len: nat, low: nat, upper: nat, word: nat)
    requires low == len % 0x100_0000 && word == low + upper * 0x100_0000
    ensures word % 0x1_0000 == len % 0x1_0000
  {
    var b := len / 0x100_0000;
    DivModUnique(word, 0x1_0000, len / 0x1_0000 + 0x100 * (upper - b), len % 0x1_0000);
  }

  /** Setting the flag keeps length and type, whatever the word. */
  lemma SetDroppedFields(word: U32)
    ensures IsDropped(SetDropped(word))
    ensures DataLen(SetDropped(word)) == DataLen(word) && PacketType(SetDropped(word)) == PacketType(word)
  {
  }

  lemma OrFlag(word: nat)
    ensures Or(word, Shl(1, 23)) == if word / 0x80_0000 % 2 == 1 then word else word + 0x80_0000
  {
    Pow2Values();
    OrAbove(word, 1, 23);
    ShrLowAreDivMod(word, 23);
    var h := word / 0x80_0000;
    OrOne(h);
    ShlIsMul(Or(h, 1), 23);
  }

  /** Eight bytes of stream buffer, seen as two words. */
  datatype Cell = Cell(lo: U32, hi: U32)

  /** A packet as a reader sees it: `data` is the cells after the header. */
  datatype Packet = Packet(kind: nat, dropped: bool, len: nat, data: seq<Cell>)
}
