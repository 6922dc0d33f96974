/** HWPerf packets, `include/rgx_hwperf_common.h`, and their nesting in transport-layer data
    packets. A header is three cells: signature and size, type id and ordinal, time stamp. */
module HwPerf {
  import opened Bits
  import opened Fields
  import opened TlPacket
  import opened PacketChain

  const EVENT_HDR_SIZE: nat := 24
  const MAX_EVENT_SIZE: nat := 0xC00
  const MAX_PAYLOAD: nat := MAX_EVENT_SIZE - EVENT_HDR_SIZE

  // ---------- Sizes ----------

  /** `RGX_HWPERF_MAKE_SIZE_VARIABLE` */
  function MakeSizeVariable(n: U32): (size: nat)
    ensures size < 0x1_0000
  {
    ReadSize(WrappingSum(EVENT_HDR_SIZE, PvrAlignWord(n)));
    And(WrappingSum(EVENT_HDR_SIZE, PvrAlignWord(n)), SIZE_MASK)
  }

  function PvrAlignWord(n: U32): U32 {
    AlignIsMacro(n);
    PvrAlign(n, ALIGNMENT)
  }

  /** `RGX_HWPERF_GET_SIZE` */
  function GetSize(word: U32): (size: nat)
    ensures size == word % 0x1_0000
  {
    ReadSize(word);
    And(word, SIZE_MASK)
  }

  lemma ReadSize(word: nat)
    ensures And(word, SIZE_MASK) == word % 0x1_0000
  {
    Pow2Values();
    AndLowMask(word, 16);
    ShrLowAreDivMod(word, 16);
  }

  lemma MakeSizeInArithmetic(n: U32)
    ensures MakeSizeVariable(n) == (EVENT_HDR_SIZE + Align(n)) % 0x1_0000
  {
    hide Align, PvrAlign, WrappingSum, And;
    AlignIsMacro(n);
    ReadSize(WrappingSum(EVENT_HDR_SIZE, PvrAlignWord(n)));
  }

  lemma AlignCases(n: U32)
    ensures n <= 0xFFE0 ==> Align(n) == (n + 7) / 8 * 8 <= 0xFFE0
    ensures 0xFFE0 < n ==> Align(n) == 0 || Align(n) >= 0xFFE8
    ensures 0xFFE0 < n ==> EVENT_HDR_SIZE + (n + 7) / 8 * 8 >= 0x1_0000
    ensures n <= MAX_PAYLOAD ==> Align(n) <= MAX_PAYLOAD
  {
  }

  /** Sizes in cells, for `q` cells of payload. */
  lemma SizeInCells(q: nat)
    ensures (EVENT_HDR_SIZE + 8 * q) % 0x1_0000 == 8 * ((3 + q) % 0x2000)
    ensures (3 + q) % 0x2000 == 3 + q <==> q < 0x1FFD
  {
  }

  /** The size is the header and the payload rounded up to whole cells, and is read back as
      such, exactly up to a payload of 65504 bytes; that is far above the largest payload. */
  lemma SizeIsExactIff(n: U32)
    ensures GetSize(MakeSizeVariable(n)) == MakeSizeVariable(n) && MakeSizeVariable(n) % 8 == 0
    ensures MakeSizeVariable(n) == EVENT_HDR_SIZE + (n + 7) / 8 * 8 <==> n <= 0xFFE0
    ensures n <= MAX_PAYLOAD ==> EVENT_HDR_SIZE <= MakeSizeVariable(n) <= MAX_EVENT_SIZE
  {
    MakeSizeInArithmetic(n);
    AlignCases(n);
    hide Align, MakeSizeVariable, GetSize;
    var q := Align(n) / 8;
    SizeInCells(q);
    var cells := (3 + q) % 0x2000;
    assert MakeSizeVariable(n) == 8 * cells;
  }

  // ---------- Type ids ----------

  const EVENT_MASK: nat := 0x0000_7FFF
  const THREAD_MASK: nat := 0x0000_8000
  const STREAM_MASK: nat := 0x0007_0000
  const META_DMA_MASK: nat := 0x0008_0000
  const M_CORE_MASK: nat := 0x0010_0000
  const OSID_MASK: nat := 0x0700_0000

  datatype TypeId = TypeId(stream: nat, kind: nat, thread: nat, metaDma: nat, osid: nat, mCore: nat)

  /** `RGX_HWPERF_MAKE_TYPEID` */
  function MakeTypeId(t: TypeId): nat {
    Or(Or(Or(Or(Or(
      And(Low(Shl(t.stream, 16), 32), STREAM_MASK),
      And(Low(Shl(t.thread, 15), 32), THREAD_MASK)),
      And(Low(t.kind, 32), EVENT_MASK)),
      And(Low(Shl(t.metaDma, 19), 32), META_DMA_MASK)),
      And(Low(Shl(t.osid, 24), 32), OSID_MASK)),
      And(Low(Shl(t.mCore, 20), 32), M_CORE_MASK))
  }

  /** The getters, from `RGX_HWPERF_GET_STREAM_ID` to `RGX_HWPERF_GET_M_CORE`. */
  function GetTypeId(word: nat): TypeId {
    TypeId(Shr(And(word, STREAM_MASK), 16), And(word, EVENT_MASK), Shr(And(word, THREAD_MASK), 15),
           Shr(And(word, META_DMA_MASK), 19), Shr(And(word, OSID_MASK), 24), Shr(And(word, M_CORE_MASK), 20))
  }

  predicate TypeIdInRange(t: TypeId) {
    t.stream < 8 && t.kind < 0x8000 && t.thread < 2 && t.metaDma < 2 && t.osid < 8 && t.mCore < 2
  }

  lemma MasksAreFields()
    ensures EVENT_MASK == Mask(0, 15) && THREAD_MASK == Mask(15, 1) && STREAM_MASK == Mask(16, 3)
    ensures META_DMA_MASK == Mask(19, 1) && M_CORE_MASK == Mask(20, 1) && OSID_MASK == Mask(24, 3)
  {
    Pow2Values();
    assert Pow2(19) == 0x8_0000;
    ShlIsMul(1, 15);
    ShlIsMul(7, 16);
    ShlIsMul(1, 19);
    ShlIsMul(1, 20);
    ShlIsMul(7, 24);
  }

  function Six(a: nat, b: nat, c: nat, d: nat, e: nat, f: nat): nat {
    Or(Or(Or(Or(Or(a, b), c), d), e), f)
  }

  lemma ReadSix(a: nat, b: nat, c: nat, d: nat, e: nat, f: nat, lo: nat, len: nat)
    ensures Read(Six(a, b, c, d, e, f), lo, len)
         == Six(Read(a, lo, len), Read(b, lo, len), Read(c, lo, len),
                Read(d, lo, len), Read(e, lo, len), Read(f, lo, len))
  {
    var ab, abc := Or(a, b), Or(Or(a, b), c);
    ReadOr(a, b, lo, len);
    ReadOr(ab, c, lo, len);
    ReadOr(abc, d, lo, len);
    ReadOr(Or(abc, d), e, lo, len);
    ReadOr(Or(Or(abc, d), e), f, lo, len);
  }

  lemma MakeTypeIdIsSix(t: TypeId)
    ensures MakeTypeId(t) == Six(Place(t.stream, 16, 3), Place(t.thread, 15, 1), Place(t.kind, 0, 15),
                                 Place(t.metaDma, 19, 1), Place(t.osid, 24, 3), Place(t.mCore, 20, 1))
  {
    MasksAreFields();
  }

  /** Reading the field at `lo`: of the six, only the one placed there shows. */
  lemma ReadField(t: TypeId, lo: nat, len: nat)
    requires (lo, len) in [(16, 3), (15, 1), (0, 15), (19, 1), (24, 3), (20, 1)]
    ensures Read(MakeTypeId(t), lo, len) ==
              (if lo == 16 then t.stream else if lo == 15 then t.thread else if lo == 0 then t.kind
               else if lo == 19 then t.metaDma else if lo == 24 then t.osid else t.mCore) % Pow2(len)
  {
    MakeTypeIdIsSix(t);
    ReadSix(Place(t.stream, 16, 3), Place(t.thread, 15, 1), Place(t.kind, 0, 15),
            Place(t.metaDma, 19, 1), Place(t.osid, 24, 3), Place(t.mCore, 20, 1), lo, len);
    ReadOwnOrOther(t.stream, 16, 3, lo, len);
    ReadOwnOrOther(t.thread, 15, 1, lo, len);
    ReadOwnOrOther(t.kind, 0, 15, lo, len);
    ReadOwnOrOther(t.metaDma, 19, 1, lo, len);
    ReadOwnOrOther(t.osid, 24, 3, lo, len);
    ReadOwnOrOther(t.mCore, 20, 1, lo, len);
  }

  lemma ReadOwnOrOther(x: nat, lo: nat, len: nat, lo': nat, len': nat)
    requires lo + len <= 32 && ((lo, len) == (lo', len') || lo + len <= lo' || lo' + len' <= lo)
    requires 0 < len && 0 < len'
    ensures Read(Place(x, lo, len), lo', len') == if lo == lo' then x % Pow2(len) else 0
  {
    if lo == lo' { ReadOwn(x, lo, len); } else { ReadOther(x, lo, len, lo', len'); }
  }

  lemma Pow2OfOne()
    ensures Pow2(1) == 2
  {
  }

  lemma GettersAreReads(word: nat)
    ensures GetTypeId(word) == TypeId(Read(word, 16, 3), Read(word, 0, 15), Read(word, 15, 1),
                                      Read(word, 19, 1), Read(word, 24, 3), Read(word, 20, 1))
  {
    hide And, Pow2;
    MasksAreFields();
  }

  /** Every getter returns what fits of the value put in; so a type id comes back unchanged
      exactly when all its fields are in range. */
  lemma TypeIdRoundTrip(t: TypeId)
    ensures GetTypeId(MakeTypeId(t)) ==
              TypeId(t.stream % 8, t.kind % 0x8000, t.thread % 2, t.metaDma % 2, t.osid % 8, t.mCore % 2)
    ensures GetTypeId(MakeTypeId(t)) == t <==> TypeIdInRange(t)
  {
    hide GetTypeId, MakeTypeId, Read, Pow2;
    GettersAreReads(MakeTypeId(t));
    Pow2Values();
    assert Pow2(1) == 2 by { Pow2OfOne(); }
    ReadField(t, 16, 3);
    ReadField(t, 15, 1);
    ReadField(t, 0, 15);
    ReadField(t, 19, 1);
    ReadField(t, 24, 3);
    ReadField(t, 20, 1);
  }

  lemma TypeIdIsWord(t: TypeId)
    ensures MakeTypeId(t) < WORD
  {
    MakeTypeIdIsSix(t);
    PlaceIsWord(t.stream, 16, 3);
    PlaceIsWord(t.thread, 15, 1);
    PlaceIsWord(t.kind, 0, 15);
    PlaceIsWord(t.metaDma, 19, 1);
    PlaceIsWord(t.osid, 24, 3);
    PlaceIsWord(t.mCore, 20, 1);
    SixIsWord(Place(t.stream, 16, 3), Place(t.thread, 15, 1), Place(t.kind, 0, 15),
              Place(t.metaDma, 19, 1), Place(t.osid, 24, 3), Place(t.mCore, 20, 1));
  }

  lemma PlaceIsWord(x: nat, lo: nat, len: nat)
    requires lo + len <= 32
    ensures Place(x, lo, len) < Pow2(32)
  {
    PlaceIsLow(x, lo, len);
    LowBound(x, len);
    ShlBound(Low(x, len), lo, len);
    if lo + len < 32 { Pow2Monotone(lo + len, 32); }
  }

  lemma SixIsWord(a: nat, b: nat, c: nat, d: nat, e: nat, f: nat)
    requires a < Pow2(32) && b < Pow2(32) && c < Pow2(32) && d < Pow2(32) && e < Pow2(32) && f < Pow2(32)
    ensures Six(a, b, c, d, e, f) < WORD
  {
    Pow2Values();
    OrBound(a, b, 32);
    OrBound(Or(a, b), c, 32);
    OrBound(Or(Or(a, b), c), d, 32);
    OrBound(Or(Or(Or(a, b), c), d), e, 32);
    OrBound(Or(Or(Or(Or(a, b), c), d), e), f, 32);
  }

  // ---------- Lists of packets ----------

  datatype Event = Event(sig: U32, typeId: TypeId, ordinal: U32, time: Cell, data: seq<Cell>)

  predicate EventOk(e: Event) {
    TypeIdInRange(e.typeId) && 8 * |e.data| <= MAX_PAYLOAD
  }

  predicate EventsOk(es: seq<Event>) {
    forall i :: 0 <= i < |es| ==> EventOk(es[i])
  }

  function Encode(e: Event): (cells: seq<Cell>)
    requires EventOk(e)
    ensures |cells| == 3 + |e.data|
  {
    TypeIdIsWord(e.typeId);
    SizeIsExactIff(8 * |e.data|);
    [Cell(e.sig, MakeSizeVariable(8 * |e.data|)), Cell(MakeTypeId(e.typeId), e.ordinal), e.time] + e.data
  }

  function Layout(es: seq<Event>): seq<Cell>
    requires EventsOk(es)
  {
    if es == [] then [] else Encode(es[0]) + Layout(es[1..])
  }

  function EventAt(cells: seq<Cell>, end: nat): Event
    requires 3 <= end <= |cells|
  {
    Event(cells[0].lo, GetTypeId(cells[1].lo), cells[1].hi, cells[2], cells[3..end])
  }

  datatype Events = Events(list: seq<Event>) | Garbled

  /** A reader steps with `RGX_HWPERF_GET_NEXT_PACKET` from header to header until the end. */
  function ReadEvents(cells: seq<Cell>): Events {
    if cells == [] then Events([])
    else
      var end := GetSize(cells[0].hi) / 8;
      if end < 3 || end > |cells| then Garbled
      else
        match ReadEvents(cells[end..])
        case Events(rest) => Events([EventAt(cells, end)] + rest)
        case Garbled => Garbled
  }

  /** The words of `RGX_HWPERF_V2_PACKET_HDR`: signature and size, type id and ordinal, time. */
  lemma HeaderWords(e: Event)
    requires EventOk(e)
    ensures Encode(e)[0].lo == e.sig && Encode(e)[0].hi == 24 + 8 * |e.data|
    ensures Encode(e)[1].lo == MakeTypeId(e.typeId) && Encode(e)[1].hi == e.ordinal
    ensures Encode(e)[2] == e.time && Encode(e)[3..] == e.data
  {
    hide MakeSizeVariable, MakeTypeId;
    SizeIsExactIff(8 * |e.data|);
    assert (8 * |e.data| + 7) / 8 == |e.data|;
  }

  /** The size in a packet's header is the packet's size. */
  lemma EncodedSize(e: Event)
    requires EventOk(e)
    ensures GetSize(Encode(e)[0].hi) == 8 * |Encode(e)|
  {
    hide MakeSizeVariable, GetSize, MakeTypeId;
    SizeIsExactIff(8 * |e.data|);
    assert (8 * |e.data| + 7) / 8 == |e.data|;
  }

  lemma ReadFirst(e: Event, rest: seq<Cell>)
    requires EventOk(e)
    ensures var cells := Encode(e) + rest; var end := GetSize(cells[0].hi) / 8;
            end == 3 + |e.data| && EventAt(cells, end) == e && cells[end..] == rest
  {
    EncodedSize(e);
    TypeIdRoundTrip(e.typeId);
    hide MakeSizeVariable, GetSize, MakeTypeId, GetTypeId;
    var cells := Encode(e) + rest;
    assert cells[3..3 + |e.data|] == e.data;
  }

  /** The reader gets back the list that was laid out, with every field. */
  lemma {:induction false} ReadEventsInvertsLayout(es: seq<Event>)
    requires EventsOk(es)
    ensures ReadEvents(Layout(es)) == Events(es)
  {
    if es != [] {
      ReadFirst(es[0], Layout(es[1..]));
      ReadEventsInvertsLayout(es[1..]);
      assert [es[0]] + es[1..] == es;
    }
  }

  lemma {:induction false} LayoutConcat(es: seq<Event>, fs: seq<Event>)
    requires EventsOk(es) && EventsOk(fs)
    ensures Layout(es + fs) == Layout(es) + Layout(fs)
  {
    hide Encode, EventOk;
    if es == [] {
      assert es + fs == fs;
    } else {
      LayoutConcat(es[1..], fs);
      assert (es + fs)[1..] == es[1..] + fs && (es + fs)[0] == es[0];
    }
  }

  // ---------- Nesting ----------

  function Appended(x: Events, y: Events): Events {
    match (x, y)
    case (Events(es), Events(fs)) => Events(es + fs)
    case _ => Garbled
  }

  /** What the data packets of a transport-layer stream hold, each read on its own. */
  function EventsIn(ps: seq<Packet>): Events {
    if ps == [] then Events([])
    else if ps[0].kind == TYPE_DATA then Appended(ReadEvents(ps[0].data), EventsIn(ps[1..]))
    else EventsIn(ps[1..])
  }

  lemma {:induction false} EventsInConcat(ps: seq<Packet>, qs: seq<Packet>)
    ensures EventsIn(ps + qs) == Appended(EventsIn(ps), EventsIn(qs))
  {
    if ps == [] {
      assert ps + qs == qs;
      assert EventsIn(qs).Events? ==> [] + EventsIn(qs).list == EventsIn(qs).list;
    } else {
      EventsInConcat(ps[1..], qs);
      assert (ps + qs)[1..] == ps[1..] + qs;
      AppendedIsAssociative(ReadEvents(ps[0].data), EventsIn(ps[1..]), EventsIn(qs));
    }
  }

  lemma AppendedIsAssociative(x: Events, y: Events, z: Events)
    ensures Appended(Appended(x, y), z) == Appended(x, Appended(y, z))
  {
    if x.Events? && y.Events? && z.Events? {
      assert (x.list + y.list) + z.list == x.list + (y.list + z.list);
    }
  }

  predicate ChunkFits(es: seq<Event>) {
    EventsOk(es) && 8 * |Layout(es)| <= MAX_PACKET_SIZE
  }

  function DataPacket(es: seq<Event>): Packet
    requires ChunkFits(es)
  {
    Packet(TYPE_DATA, false, 8 * |Layout(es)|, Layout(es))
  }

  function Flatten(chunks: seq<seq<Event>>): seq<Event> {
    if chunks == [] then [] else chunks[0] + Flatten(chunks[1..])
  }

  function DataPackets(chunks: seq<seq<Event>>): seq<Packet>
    requires forall i :: 0 <= i < |chunks| ==> ChunkFits(chunks[i])
  {
    if chunks == [] then [] else [DataPacket(chunks[0])] + DataPackets(chunks[1..])
  }

  lemma {:induction false} ChunksReadBack(chunks: seq<seq<Event>>)
    requires forall i :: 0 <= i < |chunks| ==> ChunkFits(chunks[i])
    ensures EventsIn(DataPackets(chunks)) == Events(Flatten(chunks))
  {
    if chunks != [] {
      ChunksReadBack(chunks[1..]);
      ReadEventsInvertsLayout(chunks[0]);
      assert DataPackets(chunks)[1..] == DataPackets(chunks[1..]);
    }
  }

  lemma {:induction false} DataPacketsAreOk(chunks: seq<seq<Event>>)
    requires forall i :: 0 <= i < |chunks| ==> ChunkFits(chunks[i])
    ensures PacketsOk(DataPackets(chunks))
  {
    hide ChunkFits, EventsOk, Layout;
    if chunks != [] {
      DataPacketsAreOk(chunks[1..]);
      DataPacketIsOk(chunks[0]);
      var ps := DataPackets(chunks[1..]);
      forall i | 0 <= i < |ps| + 1 ensures PacketOk(([DataPacket(chunks[0])] + ps)[i]) {
        if i > 0 { assert PacketOk(ps[i - 1]); }
      }
    }
  }

  lemma DataPacketIsOk(es: seq<Event>)
    requires ChunkFits(es)
    ensures PacketOk(DataPacket(es))
  {
  }

  /** However a list of events is cut into chunks, the chunks laid out as data packets are
      walked to exactly those packets, and their events are the list. */
  lemma NestedFormatsReadBack(chunks: seq<seq<Event>>)
    requires forall k :: 0 <= k < |chunks| ==> ChunkFits(chunks[k])
    ensures PacketsOk(DataPackets(chunks))
    ensures var cells := PacketCells(DataPackets(chunks));
            Walk(cells, 0, |cells|).Walked? && EventsIn(Walk(cells, 0, |cells|).packets) == Events(Flatten(chunks))
  {
    hide ChunkFits, Layout, EventsIn, Flatten, PacketOk, Walk;
    DataPacketsAreOk(chunks);
    WalkInvertsLayout(DataPackets(chunks));
    ChunksReadBack(chunks);
  }
}
