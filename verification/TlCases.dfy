/** Streams in which the conditions found for `services/server/common/tlstream.c` fail: each is
    reached from its creation by calls that the source accepts. */
module TlCases {
  import opened TlPacket
  import opened PacketChain
  import opened StreamRing
  import opened TlStream
  import opened TlTrace
  import opened TlSession

  const SMALL: nat := 152

  function Words(cells: nat, word: U32): (data: seq<Cell>)
    ensures |data| == cells
  {
    seq(cells, _ => Cell(word, 0))
  }

  /** A packet whose data tells it from others. */
  function Plain(cells: nat, word: U32): (p: Packet)
    requires cells <= 8
  {
    Packet(TYPE_DATA, false, 8 * cells, Words(cells, word))
  }

  lemma PlainDiffer(cells: nat)
    requires 0 < cells <= 8
    ensures Plain(cells, 1) != Plain(cells, 2)
  {
    assert Words(cells, 1)[0] != Words(cells, 2)[0];
  }

  lemma SmallSizes()
    ensures GoodSize(SMALL) && MaxPacketSize(SMALL) == 64 && TakesMaxWhenEmpty(SMALL)
  {
    TakesMaxWhenEmptyIff(SMALL);
  }

  ghost predicate Small(s: Stream)
    reads s, s.buf
  {
    s.Valid() && s.size == SMALL && s.maxPacket == 64 && s.pending == NOTHING_PENDING
  }

  method Create(mode: Mode) returns (s: Stream)
    ensures fresh(s) && fresh(s.buf) && Small(s) && s.mode == mode && !s.readPending
    ensures s.read == 0 && s.write == 0 && s.Raw() == SMALL && s.Queue() == [] && s.gone == [] && s.dropped == []
  {
    hide Live, Unflagged, Cells;
    SmallSizes();
    s := new Stream(SMALL, mode);
  }

  /** A packet that fits in and does not need padding. */
  method Put(s: Stream, n: nat, word: U32)
    requires Small(s) && n <= 8 && s.write + 8 * n + 8 <= SMALL && 8 * n + 24 <= s.Raw()
    modifies s, s.buf
    ensures Small(s) && s.mode == old(s.mode) && s.readPending == old(s.readPending)
    ensures s.Queue() == old(s.Queue()) + [Plain(n, word)] && s.gone == old(s.gone) && s.dropped == old(s.dropped)
    ensures s.read == old(s.read) && s.write == Wrap(old(s.write) + 8 * n + 8, SMALL)
    ensures s.Raw() == old(s.Raw()) - 8 * n - 8
  {
    hide Live, Unflagged, Cells, DataOf, JustEnough, Marked, HasFlag;
    SmallSizes();
    s.LargeStreamMakesRoom(8 * n);
    var outcome, k, pads := s.Write(Words(n, word), 8 * n);
  }

  /** When the only packet is dropped, no packet tells of it. */
  method FlagIsLost() returns (s: Stream)
    ensures fresh(s) && s.Valid() && s.gone == s.dropped == [Plain(8, 1)]
    ensures s.Queue() == [Plain(8, 2)] && !HasFlag(s.Queue())
  {
    s := Create(DropOldest);
    Put(s, 8, 1);
    DropOnly(s);
  }

  /** A second packet of the same size takes the place of the first. */
  method DropOnly(s: Stream)
    requires Small(s) && s.mode == DropOldest && !s.readPending
    requires s.Queue() == [Plain(8, 1)] && s.write == 72 && s.Raw() == 80
    modifies s, s.buf
    ensures Small(s) && s.mode == DropOldest && !s.readPending
    ensures s.gone == old(s.gone) + [Plain(8, 1)] && s.dropped == old(s.dropped) + [Plain(8, 1)]
    ensures s.Queue() == [Plain(8, 2)] && !HasFlag(s.Queue()) && s.write == 144
  {
    hide Live, Unflagged, Cells, DataOf, TakesMaxWhenEmpty, Dropping;
    SmallSizes();
    s.LargeStreamMakesRoom(64);
    ghost var all, gone, dropped := s.Queue(), s.gone, s.dropped;
    var outcome, k, pads := s.Write(Words(8, 2), 64);
    SomeMustGo(all, k, 64, 72, SMALL);
    assert all[..1] == all;
    DroppedIs(gone, dropped, s.gone, s.dropped, all);
  }

  /** A stream with room for one packet of 8 bytes, or a note, at the most. */
  method TwoPackets(mode: Mode) returns (s: Stream)
    ensures fresh(s) && fresh(s.buf) && Small(s) && s.mode == mode && !s.readPending
    ensures s.Queue() == [Plain(8, 1), Plain(7, 2)] && s.gone == [] && s.dropped == []
    ensures s.write == 136 && s.Raw() == 16
  {
    hide Stream.Valid, Words;
    s := Create(mode);
    Put(s, 8, 1);
    Put(s, 7, 2);
  }

  /** A packet is refused and the refusal noted in the last free cells but one. */
  method FullWithNote() returns (s: Stream)
    ensures fresh(s) && fresh(s.buf) && Small(s) && s.mode == DropNewer && !s.readPending && s.gone == []
    ensures s.Raw() == 8 && |s.Queue()| == 3 && s.Queue()[0] == Plain(8, 1)
  {
    s := TwoPackets(DropNewer);
    Refuse(s);
  }

  method Refuse(s: Stream)
    requires Small(s) && s.mode == DropNewer && !s.readPending && s.Raw() == 16 && s.write == 136
    requires s.Queue() == [Plain(8, 1), Plain(7, 2)]
    modifies s, s.buf
    ensures Small(s) && s.mode == DropNewer && !s.readPending && s.gone == old(s.gone)
    ensures s.Raw() == 8 && |s.Queue()| == 3 && s.Queue()[0] == Plain(8, 1)
  {
    hide Live, Unflagged, Cells, DataOf, JustEnough, Marked, HasFlag;
    NewestCell(s.buf[..], s.r, s.w, s.first, s.second);
    var outcome, k, pads := s.Write(Words(1, 3), 8);
  }

  /** A stream with such a note in it, once it is switched to dropping the oldest packets, takes
      no packet: it drops nothing, but flags its oldest packet. */
  method OneFreeCell() returns (s: Stream)
    ensures fresh(s) && s.Valid() && s.mode == DropOldest && !s.readPending && s.pending == NOTHING_PENDING
    ensures s.Raw() == 8 && s.gone == [] && |s.Queue()| == 3 && s.Queue()[0] == Plain(8, 1).(dropped := true)
  {
    hide Live, Unflagged, Cells, DataOf, JustEnough, HasFlag, TakesMaxWhenEmpty;
    s := FullWithNote();
    var ok := s.Reconfigure(DropOldest);
    SmallSizes();
    s.LargeStreamMakesRoom(8);
    var outcome, k, pads := s.Write(Words(1, 3), 8);
  }

  /** A commit of less than was reserved leaves a header that points past the write offset. */
  method ShortCommit() returns (s: Stream)
    ensures fresh(s) && s.read == 0 && s.write == 16 && s.buf.Length >= 2 && Walk(s.buf[..], 0, 2) == Lost
  {
    hide Live, Unflagged, Cells, TakesMaxWhenEmpty, HdrWord, SuggestAllocSize, Marked, JustEnough;
    SmallSizes();
    s := new Stream(SMALL, Block);
    var outcome, avail, overwrote, k, pads := s.Reserve(16, 16, TYPE_DATA, false);
    HdrWordFields(16, TYPE_DATA);
    var ok := s.Commit(8);
  }

  /** A request of `2^32 - 1` bytes is granted 8. Committed, its header is not that of a packet
      that ends at the write offset either. */
  method HugeRequest() returns (s: Stream)
    ensures fresh(s) && s.read == 0 && s.write == 8 && s.buf.Length >= 1 && Walk(s.buf[..], 0, 1) == Lost
  {
    hide Live, Unflagged, Cells, TakesMaxWhenEmpty, HdrWord, SuggestAllocSize, Marked, JustEnough;
    SmallSizes();
    s := new Stream(SMALL, Block);
    var outcome, avail, overwrote, k, pads := s.Reserve(0xFFFF_FFFF, 1, TYPE_DATA, false);
    HdrWordLen(0xFFFF_FFFF, TYPE_DATA);
    var ok := s.Commit(0xFFFF_FFFF);
  }

  /** The policy is switched while a piece is held. The writer then drops that piece and puts
      another packet in its place; the reader's release, of all it had acquired and so not
      checked, passes over that packet, which is neither received nor dropped. */
  method SwitchLosesPacket() returns (s: Stream, received: seq<Packet>)
    ensures fresh(s) && s.Valid() && s.Queue() == [] && s.gone == [Plain(8, 1), Plain(8, 2)]
    ensures received == s.dropped == [Plain(8, 1)]
    ensures Plain(8, 2) !in received && Plain(8, 2) !in s.dropped
  {
    hide Live, Unflagged, Stream.NeverFull, Stream.Accounted, Words;
    PlainDiffer(8);
    s := Create(DropNewer);
    Put(s, 8, 1);
    var len;
    len, received := HoldOnly(s);
    var ok := s.Reconfigure(DropOldest);
    DropOnly(s);
    ReleaseOnly(s, len);
  }

  /** A reader acquires the only packet and reads it, but keeps it. */
  method HoldOnly(s: Stream) returns (len: nat, read: seq<Packet>)
    requires Small(s) && s.mode == DropNewer && s.Queue() == [Plain(8, 1)] && s.gone == [] && s.dropped == []
    modifies s`readPending
    ensures Small(s) && s.readPending == old(s.readPending) && len == 72 && read == [Plain(8, 1)]
  {
    hide Live, Unflagged, DataOf, Merged, Cells;
    var reader := new Session(s);
    reader.Acquire();
    PieceOfOne(s, reader.piece);
    var passed;
    passed, read := reader.ReadPackets(1);
    len := reader.len;
  }

  lemma PieceOfOne(s: Stream, piece: seq<Packet>)
    requires piece != [] && piece <= s.Queue() && |s.Queue()| == 1
    ensures piece == s.Queue() && Cells(piece) == 1 + |s.Queue()[0].data|
  {
    CellsOfOne(piece[0]);
    assert piece == [piece[0]];
  }

  lemma CellsOfOne(p: Packet)
    ensures Cells([p]) == 1 + |p.data|
  {
    assert [p][1..] == [];
  }

  method ReleaseOnly(s: Stream, len: nat)
    requires Small(s) && s.Queue() == [Plain(8, 2)] && len == 72
    modifies s
    ensures Small(s) && s.Queue() == [] && s.gone == old(s.gone) + [Plain(8, 2)] && s.dropped == old(s.dropped)
  {
    hide Live, Unflagged, Cells;
    s.PieceIsFirst();
    PieceOfOne(s, s.first);
    assert s.first[..1] == s.first;
    ghost var end;
    var ok;
    ok, end := s.AdvanceReadPos(len, len, 1);
  }

  /** A reader acquires in one mode and releases in another. Afterwards it holds nothing, and yet
      the stream takes its piece for held: a writer without room waits, and nothing is dropped. */
  method StaleReader() returns (reader: Session)
    ensures fresh(reader) && fresh(reader.s) && reader.Valid() && !reader.holds && reader.received == [Plain(8, 1)]
    ensures reader.s.mode == DropOldest && reader.s.pending == NOTHING_PENDING && reader.s.readPending
    ensures reader.s.Queue() == [Plain(7, 2)] && reader.s.Wants(64) && !reader.s.Fits(64)
  {
    hide Live, Unflagged, Cells, Words, Merged;
    var s := TwoPackets(DropOldest);
    reader := new Session(s);
    AcquireAndSwitch(reader);
    ReleaseOne(reader);
    reader.SetMode(DropOldest);
  }

  method AcquireAndSwitch(reader: Session)
    requires reader.Valid() && !reader.holds && reader.s.Queue() != []
    requires reader.s.mode == DropOldest && reader.s.pending == NOTHING_PENDING
    modifies reader, reader.s
    ensures reader.Valid() && reader.holds && reader.s.mode == DropNewer && reader.s.readPending
    ensures reader.received == old(reader.received) && FirstPiece(old(SightOf(reader.s)), reader.piece)
    ensures SightOf(reader.s) == old(SightOf(reader.s)).(mode := DropNewer, readPending := true)
  {
    hide Session.Valid, FirstPiece;
    reader.Acquire();
    reader.SetMode(DropNewer);
  }

  method ReleaseOne(reader: Session)
    requires reader.Valid() && reader.holds && reader.s.mode == DropNewer && reader.s.readPending
    requires Small(reader.s) && reader.s.write == 136 && reader.s.Raw() == 16
    requires reader.s.Queue() == [Plain(8, 1), Plain(7, 2)] && reader.received == []
    modifies reader, reader.s
    ensures reader.Valid() && !reader.holds && reader.received == [Plain(8, 1)] && reader.s.Queue() == [Plain(7, 2)]
    ensures reader.s.mode == DropNewer && reader.s.readPending && Small(reader.s)
    ensures reader.s.write == 136 && reader.s.Raw() == 88
  {
    hide Live, Unflagged, Words, Merged, Cells;
    ghost var all, one := reader.s.Queue(), [Plain(8, 1)];
    CellsOfOne(one[0]);
    assert all[..1] == one && all[1..] == [Plain(7, 2)];
    var k := reader.Release(1);
    assert reader.piece[..1] == one;
  }
}
