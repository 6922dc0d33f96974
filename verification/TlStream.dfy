/** A circular transport-layer stream: reserve, commit, acquire and advance of
    `services/server/common/tlstream.c`, with its three overflow policies. */
module TlStream {
  import opened Bits
  import opened TlPacket
  import opened PacketChain
  import opened StreamRing

  const NOTHING_PENDING: nat := 0xFFFF_FFFF

  datatype Mode = Block | DropOldest | DropNewer

  datatype Outcome =
    | Reserved(offset: nat)   // where the caller may write its data
    | NotReady
    | SizeLimit
    | StreamFull
    | StreamError
    | WouldBlock              // the source waits here for the reader

  /** A `U32` difference taken as unsigned. */
  function AsUnsigned(x: int): int {
    if x < 0 then x + WORD else x
  }

  class Stream {
    const size: nat
    ghost const cells: nat
    ghost const maxCells: nat
    const maxPacket: nat
    const buf: array<Cell>
    var mode: Mode
    var read: nat
    var write: nat
    var pending: nat
    var readPending: bool

    // The offsets in cells.
    ghost var r: nat
    ghost var w: nat

    // The live packets as StreamRing.Live sees them, everything ever put into the stream,
    // everything that has left it at the front (read or dropped), and what of it was dropped.
    ghost var first: seq<Packet>
    ghost var second: seq<Packet>
    ghost var sent: seq<Packet>
    ghost var gone: seq<Packet>
    ghost var dropped: seq<Packet>

    ghost function Queue(): seq<Packet>
      reads `first, `second
    {
      first + second
    }

    /** Bytes not occupied by live packets. */
    function Raw(): int
      reads this
    {
      SpaceLeft(read, write, size) + RESERVED_SPACE
    }

    /** The cell before the write offset. */
    ghost function Before(): nat
      reads this
      requires cells > 0
    {
      if w > 0 then w - 1 else cells - 1
    }

    ghost predicate Dims() {
      && 16 <= size < 0x8000_0000 && size == 8 * cells && buf.Length == cells
      && maxPacket == 8 * maxCells && maxPacket <= MAX_PACKET_SIZE && maxPacket == MaxPacketSize(size)
    }

    ghost predicate Shape()
      reads this
    {
      && Dims()
      && read == 8 * r && write == 8 * w && r < cells && w < cells
      && (pending == NOTHING_PENDING ||
          (8 <= pending <= maxPacket + 8 && write + pending <= size && pending + 16 <= Raw()))
    }

    /** A full buffer never looks like an empty one: at least one cell is free, and it is the
        only free one just when a write-failed header stands before the write offset. */
    ghost predicate NeverFull()
      reads this, buf
    {
      Shape() && (Raw() >= 16 || (Raw() == 8 && PacketType(buf[Before()].lo) == TYPE_WRITE_FAILED))
    }

    /** What was put in is what has left, followed by what is live; only drop flags differ. */
    ghost predicate Accounted()
      reads this
    {
      Unflagged(gone + Queue()) == sent
    }

    ghost predicate Valid()
      reads this, buf
    {
      && NeverFull()
      && Live(buf[..], r, w, first, second)
      && Accounted()
    }

    lemma HasShape()
      requires Valid()
      ensures Shape()
    {
    }

    constructor (size: nat, mode: Mode)
      requires GoodSize(size) && size >= 16
      ensures Valid() && this.size == size && this.mode == mode && maxPacket == MaxPacketSize(size) && fresh(buf)
      ensures 5 * 0xFFF0 <= 2 * size ==> maxPacket == 0xFFF0
      ensures 2 * size < 5 * 0xFFF0 ==> maxPacket % 8 == 0 && 2 * size < 5 * (maxPacket + 1) <= 2 * size + 40
      ensures Queue() == [] && sent == [] && gone == [] && dropped == [] && pending == NOTHING_PENDING && !readPending
      ensures read == 0 && write == 0 && Raw() == size
    {
      MaxPacketIsUnderHalf(size);
      MaxPacketIsTwoFifths(size);
      this.size, this.mode, maxPacket := size, mode, MaxPacketSize(size);
      cells, maxCells, r, w := size / 8, MaxPacketSize(size) / 8, 0, 0;
      buf := new Cell[size / 8](_ => Cell(0, 0));
      read, write, pending, readPending := 0, 0, NOTHING_PENDING, false;
      first, second, sent, gone, dropped := [], [], [], [], [];
    }

    /** `DoTLSetPacketHeader` */
    method SetHeader(i: nat, word: U32)
      requires i < buf.Length
      modifies buf
      ensures buf[..] == old(buf[..])[i := Cell(word, RESERVED)]
    {
      buf[i] := Cell(word, RESERVED);
    }

    /** Passes the packet at `lread`, wrapping to the start of the buffer at its end. */
    method PassOne(lread: nat, ghost all: seq<Packet>, ghost k: nat) returns (next: nat)
      requires Dims() && lread == 8 * r && write == 8 * w && r != w
      requires PassedTo(buf[..], r, w, all, k, first, second)
      modifies this`r, this`first, this`second
      ensures next == 8 * r && r < cells
      ensures PassedTo(buf[..], r, w, all, k + 1, first, second)
      ensures SpaceLeft(next, write, size) == SpaceLeft(lread, write, size) + 8 * (1 + |all[k].data|)
    {
      PassedRoom(buf[..], r, w, all, k, first, second);
      PassStep(buf[..], r, w, all, k, first, second);
      ghost var span := Span(buf[r].lo);
      next := lread + HDR_SIZE + Align(DataLen(buf[lread / 8].lo));
      assert next == 8 * (r + span);
      if next >= size {
        next := 0;
        r, first, second := 0, second, [];
      } else {
        r, first := r + span, first[1..];
      }
    }

    /** Finds the read offset that leaves `create` bytes free, passing `k` packets. */
    method PassUntil(create: nat) returns (lread: nat, ghost k: nat)
      requires Valid() && create <= size - 16
      modifies this`r, this`first, this`second
      ensures lread == 8 * r && r < cells
      ensures PassedTo(buf[..], r, w, old(Queue()), k, first, second)
      ensures old(Raw()) == 8 ==> lread == read && k == 0
      ensures SpaceLeft(lread, write, size) == SpaceLeft(read, write, size) + 8 * Cells(old(Queue())[..k])
      ensures old(Raw()) >= 16 ==> Fewest(old(Queue()), k, SpaceLeft(read, write, size), create)
    {
      hide Live, Unflagged, Cells;
      NoCells(Queue());
      ghost var all := Queue();
      k := 0;
      lread := read;
      assert all[0..] == all;
      while create > AsUnsigned(SpaceLeft(lread, write, size))
        invariant lread == 8 * r && r < cells
        invariant PassedTo(buf[..], r, w, all, k, first, second)
        invariant old(Raw()) == 8 ==> lread == read && k == 0
        invariant SpaceLeft(lread, write, size) == SpaceLeft(read, write, size) + 8 * Cells(all[..k])
        invariant old(Raw()) >= 16 && k > 0 ==> SpaceLeft(read, write, size) + 8 * Cells(all[..k - 1]) < create
        decreases |all| - k
      {
        lread := PassOne(lread, all, k);
        CellsSnoc(all, k);
        k := k + 1;
      }
    }

    /** Moves the read offset over the oldest packets until `create` bytes are free; `k`
        packets are passed. */
    method PassOldest(create: nat) returns (ghost k: nat)
      requires Valid() && create <= size - 16
      modifies this`read, this`r, this`first, this`second, this`gone, this`dropped
      ensures Valid() && Dropping(old(gone), old(dropped), gone, dropped)
      ensures k <= |old(Queue())| && Queue() == old(Queue())[k..]
      ensures gone == old(gone) + old(Queue())[..k]
      ensures old(Raw()) == 8 ==> read == old(read) && k == 0
      ensures old(Raw()) >= 16 ==> Fewest(old(Queue()), k, old(Raw()) - 16, create)
      ensures Raw() == old(Raw()) + 8 * Cells(old(Queue())[..k])
    {
      hide Live;
      ghost var all := Queue();
      read, k := PassUntil(create);
      RejoinSplit(gone, all, k);
      dropped := dropped + all[..k];
      gone := gone + all[..k];
    }

    /** Flags the packet at the read offset. */
    method FlagOldest()
      requires Valid() && pending == NOTHING_PENDING
      modifies this`first, buf
      ensures Valid() && Queue() == Marked(old(Queue()))
    {
      LiveMark(buf[..], r, w, first, second);
      MarkedConcat(buf[..], r, w, first, second);
      SetDroppedFields(buf[read / 8].lo);
      UnflaggedMarked(gone, Queue());
      SetHeader(read / 8, SetDropped(buf[read / 8].lo));
      first := Marked(first);
    }

    /** `DROP_OLDEST`: makes room and flags the packet that is now the oldest. */
    method MakeRoom(needed: nat) returns (ghost k: nat)
      requires Valid() && pending == NOTHING_PENDING && needed <= size - 16
      modifies this`read, this`r, this`first, this`second, this`gone, this`dropped, buf
      ensures Valid() && Dropping(old(gone), old(dropped), gone, dropped)
      ensures k <= |old(Queue())| && Queue() == Marked(old(Queue())[k..])
      ensures gone == old(gone) + old(Queue())[..k]
      ensures old(Raw()) == 8 ==> read == old(read) && k == 0
      ensures old(Raw()) >= 16 ==> JustEnough(old(Queue()), k, old(Raw()) - 16, needed, size)
      ensures old(Raw()) >= 16 ==> needed <= SpaceLeft(read, write, size)
      ensures Raw() == old(Raw()) + 8 * Cells(old(Queue())[..k])
    {
      ghost var all, space := Queue(), SpaceLeft(read, write, size);
      k := PassOldest(RoomToMake(needed, size));
      if space + 16 != 8 { RoomIsMade(all, k, space, needed, size); }
      FlagOldest();
    }

    /** The packet at the write offset becomes live; the write offset is about to follow. */
    ghost method TakeIn(bytes: nat)
      requires Dims() && read == 8 * r && write == 8 * w && Live(buf[..], r, w, first, second) && Accounted()
      requires HeaderOk(buf[w]) && !IsDropped(buf[w].lo) && bytes == 8 * Span(buf[w].lo)
      requires write + bytes <= size && bytes < Raw()
      modifies this`w, this`first, this`second, this`sent
      ensures w < cells && 8 * w == Wrap(write + bytes, size)
      ensures Live(buf[..], r, w, first, second) && Accounted()
      ensures var p := PacketAt(buf[..], old(w)); Queue() == old(Queue()) + [p] && sent == old(sent) + [p]
    {
      ghost var p := PacketAt(buf[..], w);
      assert !p.dropped;
      hide Unflagged, PacketAt, HeaderOk, Chain, IsDropped;
      LiveAppend(buf[..], r, w, first, second);
      SnocAccounted(gone, Queue(), p);
      first, second := AppendedFirst(r, w, first, p), AppendedSecond(r, w, second, p);
      w := Wrap(w + Span(buf[w].lo), cells);
      sent := sent + [p];
    }

    lemma NextWrite(bytes: nat)
      requires Dims() && read == 8 * r && write == 8 * w && Live(buf[..], r, w, first, second)
      requires write + bytes <= size && bytes < Raw()
      ensures (write + bytes) % size == Wrap(write + bytes, size)
      ensures SpaceLeft(read, Wrap(write + bytes, size), size) == SpaceLeft(read, write, size) - bytes
    {
      SpaceAfter(read, write, size, bytes);
      WrapIsRemainder(write + bytes, size);
    }

    /** Moves the write offset past the packet whose header stands there. */
    method AdvanceWrite(bytes: nat)
      requires Dims() && read == 8 * r && write == 8 * w && Live(buf[..], r, w, first, second) && Accounted()
      requires HeaderOk(buf[w]) && !IsDropped(buf[w].lo) && bytes == 8 * Span(buf[w].lo)
      requires write + bytes <= size && bytes < Raw()
      modifies this`write, this`w, this`first, this`second, this`sent
      ensures write == 8 * w && w < cells && write == Wrap(old(write) + bytes, size)
      ensures Live(buf[..], r, w, first, second) && Accounted()
      ensures var p := PacketAt(buf[..], old(w)); Queue() == old(Queue()) + [p] && sent == old(sent) + [p]
      ensures Raw() == old(Raw()) - bytes
    {
      hide Live, Unflagged, SpaceLeft, PacketAt, Span, HeaderOk, IsDropped;
      NextWrite(bytes);
      TakeIn(bytes);
      write := (write + bytes) % size;
    }

    /** Puts the header at the write offset; the packet is not live until it is committed. */
    method PutHeader(len: U32, kind: nat)
      requires Shape() && pending == NOTHING_PENDING && Raw() >= 16 && 0 < kind < TYPE_LAST
      requires Live(buf[..], r, w, first, second)
      modifies buf
      ensures Live(buf[..], r, w, first, second)
      ensures buf[w] == Cell(HdrWord(len, kind), RESERVED)
      ensures len <= SIZE_MASK ==>
                && HeaderOk(buf[w]) && !IsDropped(buf[w].lo) && DataLen(buf[w].lo) == len
                && PacketType(buf[w].lo) == kind && 8 * Span(buf[w].lo) == HDR_SIZE + Align(len)
      ensures forall i :: 0 <= i < cells && i != w ==> buf[i] == old(buf[i])
    {
      hide Live, Unflagged, Span, SpaceLeft, Align, DataLen, HdrWord, PacketType, IsDropped;
      if len <= SIZE_MASK { HeaderOf(len, kind); }
      LiveFrame(buf[..], buf[..][w := Cell(HdrWord(len, kind), RESERVED)], r, w, first, second);
      SetHeader(write / 8, HdrWord(len, kind));
    }

    /** Writes a packet whose contents the stream itself decides. */
    method PutOwnPacket(len: U32, kind: nat, bytes: nat) returns (ghost p: Packet)
      requires Shape() && pending == NOTHING_PENDING && 0 < kind < TYPE_LAST && len <= SIZE_MASK
      requires Live(buf[..], r, w, first, second) && Accounted()
      requires bytes == HDR_SIZE + Align(len) && write + bytes <= size && bytes < Raw() && 16 <= Raw()
      modifies this`write, this`w, this`first, this`second, this`sent, buf
      ensures write == 8 * w && w < cells && write == Wrap(old(write) + bytes, size)
      ensures Raw() == old(Raw()) - bytes
      ensures Live(buf[..], r, w, first, second) && Accounted()
      ensures p.kind == kind && !p.dropped && p.len == len
      ensures Queue() == old(Queue()) + [p] && sent == old(sent) + [p]
      ensures PacketType(buf[old(w)].lo) == kind
    {
      assert write < size;
      PutHeader(len, kind);
      p := PacketAt(buf[..], w);
      AdvanceWrite(bytes);
    }

    /** A failed write is noted in the stream, unless the last packet is such a note. */
    ghost predicate Notes(noWriteFailed: bool)
      reads this, buf
      requires Shape()
    {
      !noWriteFailed && PacketType(buf[Before()].lo) != TYPE_WRITE_FAILED
    }

    /** `DROP_NEWER`: notes the failed write, once in a row. */
    method NoteWriteFailed(noWriteFailed: bool)
      requires Valid() && pending == NOTHING_PENDING
      modifies this`write, this`w, this`first, this`second, this`sent, buf
      ensures Valid()
      ensures Noted(old(Queue()), Queue(), old(Notes(noWriteFailed)))
      ensures write == WriteAfterNote(old(write), old(Notes(noWriteFailed)), size)
      ensures Raw() == old(Raw()) - if old(Notes(noWriteFailed)) then HDR_SIZE else 0
      ensures gone == old(gone)
      // The type of what stands before the write offset decides, and so no note follows another.
      ensures |Queue()| > |old(Queue())| <==>
                !noWriteFailed
                && old(buf[if write != 0 then write / 8 - 1 else size / 8 - 1].lo / 0x100_0000) != TYPE_WRITE_FAILED
      ensures old(Queue()) != [] ==>
                var newest := old(Queue())[|old(Queue())| - 1];
                newest.kind == TYPE_WRITE_FAILED && newest.data == [] ==> Queue() == old(Queue())
    {
      hide Live, Unflagged;
      if Queue() != [] { NewestCell(buf[..], r, w, first, second); }
      var last := if write != 0 then write / 8 - 1 else size / 8 - 1;
      assert last == Before();
      SpaceInCells(r, w, cells);
      if PacketType(buf[last].lo) != TYPE_WRITE_FAILED && !noWriteFailed {
        ghost var p := PutOwnPacket(0, TYPE_WRITE_FAILED, HDR_SIZE);
        SpaceInCells(r, w, cells);
        assert Queue()[|Queue()| - 1] == p;
        assert Before() == old(w) && Raw() >= 8;
      }
    }

    /** Fills the rest of the buffer with a padding packet and wraps. */
    method PutPadding(pad: nat) returns (ghost pads: seq<Packet>)
      requires Valid() && pending == NOTHING_PENDING
      requires write + pad == size && pad % 8 == 0 && 8 <= pad <= maxPacket && pad + 16 <= Raw()
      modifies this`write, this`w, this`first, this`second, this`sent, buf
      ensures Valid() && write == 0 && Raw() == old(Raw()) - pad
      ensures Padded(pads, pad) && Queue() == old(Queue()) + pads && sent == old(sent) + pads
    {
      hide Live, Unflagged;
      assert HDR_SIZE + Align(pad - HDR_SIZE) == pad;
      ghost var p := PutOwnPacket(pad - HDR_SIZE, TYPE_PADDING, pad);
      pads := [p];
    }

    /** Stamps the header of the caller's packet and claims its space. */
    method Claim(reqSize: U32, kind: nat) returns (offset: nat)
      requires Valid() && pending == NOTHING_PENDING && 0 < kind < TYPE_LAST
      requires Align(reqSize) <= maxPacket && write + Align(reqSize) + HDR_SIZE <= size
      requires Align(reqSize) + HDR_SIZE + 16 <= Raw()
      modifies this`pending, buf
      ensures Valid() && pending == Align(reqSize) + HDR_SIZE && offset == write + HDR_SIZE
      ensures buf[w] == Cell(HdrWord(reqSize, kind), RESERVED)
    {
      PutHeader(reqSize, kind);
      offset := write + HDR_SIZE;
      pending := Align(reqSize) + HDR_SIZE;
    }

    /** The easy case: there is room. A packet that would not fit before the end of the buffer
        is put at its start, after padding. */
    method Place(reqSize: U32, kind: nat) returns (offset: nat, ghost pads: seq<Packet>)
      requires Valid() && pending == NOTHING_PENDING && 0 < kind < TYPE_LAST
      requires Align(reqSize) <= maxPacket && Needed(write, Align(reqSize), size) <= SpaceLeft(read, write, size)
      modifies this`write, this`w, this`first, this`second, this`sent, this`pending, buf
      ensures Valid() && pending == Align(reqSize) + HDR_SIZE && offset == write + HDR_SIZE
      ensures Queue() == old(Queue()) + pads && sent == old(sent) + pads
      ensures Padded(pads, Pad(old(write), Align(reqSize), size))
      ensures pads == [] <==> old(write) + 8 + Align(reqSize) <= size
      ensures write == if pads == [] then old(write) else 0
      ensures Raw() == old(Raw()) - Pad(old(write), Align(reqSize), size)
      ensures buf[w] == Cell(HdrWord(reqSize, kind), RESERVED)
    {
      var pad := Pad(write, Align(reqSize), size);
      PaddingInCells(w, Align(reqSize), cells);
      pads := [];
      assert Queue() + [] == Queue() && sent + [] == sent;
      if pad != 0 {
        pads := PutPadding(pad);
      }
      offset := Claim(reqSize, kind);
    }

    /** `DROP_OLDEST` without room: the oldest packets make way, unless a single cell was
        free. The room left is then -8, which the source compares as an unsigned number. */
    method ReserveDroppingOldest(reqSize: U32, kind: nat)
        returns (outcome: Outcome, ghost k: nat, ghost pads: seq<Packet>)
      requires Valid() && Wants(reqSize) && !Fits(reqSize) && 0 < kind < TYPE_LAST
      requires Needed(write, Align(reqSize), size) + 16 <= size
      modifies this`read, this`r, this`write, this`w, this`first, this`second
      modifies this`sent, this`gone, this`dropped, this`pending, buf
      ensures Valid() && Dropping(old(gone), old(dropped), gone, dropped)
      ensures k <= |old(Queue())| && gone == old(gone) + old(Queue())[..k]
      ensures Queue() == Marked(old(Queue())[k..]) + pads
      ensures outcome == if old(Raw()) == 8 then StreamError else Reserved(write + HDR_SIZE)
      ensures old(Raw()) == 8 ==>
                k == 0 && pads == [] && read == old(read) && write == old(write) && pending == NOTHING_PENDING
      ensures old(Raw()) != 8 ==>
                && JustEnough(old(Queue()), k, old(Raw()) - 16, Needed(old(write), Align(reqSize), size), size)
                && Padded(pads, Pad(old(write), Align(reqSize), size))
                && (pads == [] <==> old(write) + 8 + Align(reqSize) <= size)
                && write == (if pads == [] then old(write) else 0)
      ensures outcome.Reserved? ==> Holds(reqSize, kind)
      ensures Raw() == old(Raw()) + 8 * Cells(old(Queue())[..k])
                       - if pads == [] then 0 else Pad(old(write), Align(reqSize), size)
    {
      hide Live, Unflagged, Cells;
      NoCells(Queue());
      var needed := Needed(write, Align(reqSize), size);
      k := MakeRoom(needed);
      if needed <= SpaceLeft(read, write, size) {
        var offset;
        offset, pads := Place(reqSize, kind);
        outcome := Reserved(offset);
      } else {
        pads := [];
        assert Queue() + [] == Queue();
        outcome := StreamError;
      }
    }

    /** The size that the stream reports when it turns a request down. */
    method Suggest(reqMin: U32) returns (avail: nat)
      requires Shape()
      ensures 0 < maxPacket && avail == SuggestAllocSize(read, write, size, reqMin, maxPacket)
      ensures var piece := if read > write then read - write
                           else if size - write > reqMin + 24 then size - write else read;
              && (avail == 0 <==> piece <= reqMin + 24)
              && (avail > 0 ==>
                    8 + avail + 16 <= piece && avail <= maxPacket && (avail == maxPacket || 8 + avail + 16 == piece))
      ensures pending == NOTHING_PENDING ==> forall req: U32 :: 0 < req <= avail ==> Wants(req) && Fits(req)
    {
      hide SuggestAllocSize, Needed, SpaceLeft, Align, MaxPacketSize;
      MaxPacketIsUnderHalf(size);
      SuggestionFillsPiece(read, write, size, reqMin, maxPacket);
      EverySuggestionFits(r, w, cells, reqMin, maxCells);
      avail := SuggestAllocSize(read, write, size, reqMin, maxPacket);
    }

    /** `DROP_NEWER` without room: the packet is turned down, with a note in the stream and a
        size that would fit. */
    method RefuseNewer(reqMin: U32, noWriteFailed: bool) returns (avail: nat)
      requires Valid() && pending == NOTHING_PENDING
      modifies this`write, this`w, this`first, this`second, this`sent, buf
      ensures Valid()
      ensures Noted(old(Queue()), Queue(), old(Notes(noWriteFailed)))
      ensures write == WriteAfterNote(old(write), old(Notes(noWriteFailed)), size)
      ensures Raw() == old(Raw()) - if old(Notes(noWriteFailed)) then HDR_SIZE else 0
      ensures avail == SuggestAllocSize(read, write, size, reqMin, maxPacket)
      ensures var piece := if read > write then read - write
                           else if size - write > reqMin + 24 then size - write else read;
              && (avail == 0 <==> piece <= reqMin + 24)
              && (avail > 0 ==>
                    8 + avail + 16 <= piece && avail <= maxPacket && (avail == maxPacket || 8 + avail + 16 == piece))
      ensures forall req: U32 :: 0 < req <= avail ==> Wants(req) && Fits(req)
    {
      NoteWriteFailed(noWriteFailed);
      avail := Suggest(reqMin);
    }

    /** For a request over the largest packet, a stream that drops packets can always take that. */
    method SuggestForLarge(reqMin: U32) returns (avail: nat)
      requires Valid()
      ensures var piece := if read > write then read - write
                           else if size - write > reqMin + 24 then size - write else read;
              if piece <= reqMin + 24 then
                avail == if mode == DropOldest then maxPacket else 0
              else
                && 0 < avail <= maxPacket && 8 + avail + 16 <= piece
                && (avail == maxPacket || 8 + avail + 16 == piece)
    {
      avail := Suggest(reqMin);
      if avail == 0 && mode == DropOldest {
        avail := maxPacket;
      }
    }

    /** There is no room, and the mode decides. */
    method ReserveWithoutRoom(reqSize: U32, reqMin: U32, kind: nat, noWriteFailed: bool)
      returns (outcome: Outcome, avail: nat, overwrote: bool, ghost k: nat, ghost pads: seq<Packet>)
      requires Valid() && Wants(reqSize) && !Fits(reqSize) && 0 < kind < TYPE_LAST && CanMakeRoom(reqSize)
      modifies this`read, this`r, this`write, this`w, this`first, this`second
      modifies this`sent, this`gone, this`dropped, this`pending, buf
      ensures Valid() && Dropping(old(gone), old(dropped), gone, dropped)
      ensures mode == Block || (mode == DropOldest && readPending) ==>
                outcome == WouldBlock && unchanged(this) && unchanged(buf)
      ensures mode == DropOldest && !readPending ==>
                && outcome == (if old(Raw()) == 8 then StreamError else Reserved(write + HDR_SIZE))
                && k <= |old(Queue())| && gone == old(gone) + old(Queue())[..k]
                && Queue() == Marked(old(Queue())[k..]) + pads
                && (if old(Raw()) == 8 then k == 0 && read == old(read) && write == old(write)
                    else
                      var needed := Needed(old(write), Align(reqSize), size);
                      JustEnough(old(Queue()), k, old(Raw()) - 16, needed, size))
                && Raw() == old(Raw()) + 8 * Cells(old(Queue())[..k])
                            - (if outcome.Reserved? then Pad(old(write), Align(reqSize), size) else 0)
      ensures overwrote <==> mode == DropOldest && !readPending
      ensures mode == DropNewer ==>
                && outcome == StreamFull && pending == NOTHING_PENDING && gone == old(gone)
                && Noted(old(Queue()), Queue(), old(Notes(noWriteFailed)))
                && read == old(read) && write == WriteAfterNote(old(write), old(Notes(noWriteFailed)), size)
                && Raw() == old(Raw()) - (if old(Notes(noWriteFailed)) then HDR_SIZE else 0)
                && avail == SuggestAllocSize(read, write, size, reqMin, maxPacket)
                && (forall req: U32 :: 0 < req <= avail ==> Wants(req) && Fits(req))
      ensures outcome == StreamFull ==>
                var piece := if read > write then read - write
                             else if size - write > reqMin + 24 then size - write else read;
                if piece <= reqMin + 24 then
                  avail == if mode == DropOldest then maxPacket else 0
                else
                  && 0 < avail <= maxPacket && 8 + avail + 16 <= piece
                  && (avail == maxPacket || 8 + avail + 16 == piece)
      ensures outcome.Reserved? ==> Holds(reqSize, kind) && outcome.offset == write + HDR_SIZE
      ensures outcome.Reserved? ==>
                Padded(pads, Pad(old(write), Align(reqSize), size)) && write == (if pads == [] then old(write) else 0)
      ensures outcome.Reserved? ==> (pads == [] <==> old(write) + 8 + Align(reqSize) <= size)
      ensures !outcome.Reserved? ==> pads == [] && pending == NOTHING_PENDING
    {
      hide Live, Unflagged, Cells, SuggestAllocSize, Needed, SpaceLeft, Pad, Align, JustEnough, Marked;
      avail, overwrote, k, pads := 0, false, 0, [];
      if mode == Block || (mode == DropOldest && readPending) {
        outcome := WouldBlock;
      } else if mode == DropOldest {
        outcome, k, pads := ReserveDroppingOldest(reqSize, kind);
        overwrote := true;
      } else {
        avail := RefuseNewer(reqMin, noWriteFailed);
        outcome := StreamFull;
      }
    }

    /** `DoTLStreamReserve`. On `Reserved` the caller writes its data from `offset` on and then
        commits; `avail` is the size suggestion of the failing cases and `overwrote` the flag
        that packets may have been dropped, for a reservation that does not wait. `k` oldest
        packets were dropped and `pads` went in before the caller's packet. */
    method Reserve(reqSize: U32, reqMin: U32, kind: nat, noWriteFailed: bool)
      returns (outcome: Outcome, avail: nat, overwrote: bool, ghost k: nat, ghost pads: seq<Packet>)
      requires Valid() && 0 < kind < TYPE_LAST && CanMakeRoom(reqSize)
      modifies this`read, this`r, this`write, this`w, this`first, this`second
      modifies this`sent, this`gone, this`dropped, this`pending, buf
      ensures Valid() && Dropping(old(gone), old(dropped), gone, dropped)
      // Refused without any change.
      ensures old(pending) != NOTHING_PENDING ==> outcome == NotReady && unchanged(this) && unchanged(buf)
      ensures old(pending) == NOTHING_PENDING && Align(reqSize) > maxPacket ==>
                outcome == SizeLimit && unchanged(this) && unchanged(buf)
      ensures old(Wants(reqSize)) && !old(Fits(reqSize)) && (mode == Block || (mode == DropOldest && readPending)) ==>
                outcome == WouldBlock && unchanged(this) && unchanged(buf)
      // The size suggested is what the piece of free cells takes that ends at the read offset or at
      // the end of the buffer or, when that is too small, the one from the start.
      ensures outcome == StreamFull || outcome == SizeLimit ==>
                var piece := if read > write then read - write
                             else if size - write > reqMin + 24 then size - write else read;
                if piece <= reqMin + 24 then
                  avail == if mode == DropOldest then maxPacket else 0
                else
                  && 0 < avail <= maxPacket && 8 + avail + 16 <= piece
                  && (avail == maxPacket || 8 + avail + 16 == piece)
      // There was room.
      ensures old(Wants(reqSize)) && old(Fits(reqSize)) ==>
                && outcome.Reserved? && gone == old(gone) && Queue() == old(Queue()) + pads
                && read == old(read) && Raw() == old(Raw()) - Pad(old(write), Align(reqSize), size)
      // There was none, and the mode decides.
      ensures old(Wants(reqSize)) && !old(Fits(reqSize)) && mode == DropOldest && !readPending ==>
                && outcome == (if old(Raw()) == 8 then StreamError else Reserved(write + HDR_SIZE))
                && k <= |old(Queue())| && gone == old(gone) + old(Queue())[..k]
                && Queue() == Marked(old(Queue())[k..]) + pads
                && (if old(Raw()) == 8 then k == 0 && read == old(read) && write == old(write)
                    else
                      var needed := Needed(old(write), Align(reqSize), size);
                      JustEnough(old(Queue()), k, old(Raw()) - 16, needed, size))
                && Raw() == old(Raw()) + 8 * Cells(old(Queue())[..k])
                            - (if outcome.Reserved? then Pad(old(write), Align(reqSize), size) else 0)
      ensures overwrote <==> old(Wants(reqSize)) && !old(Fits(reqSize)) && mode == DropOldest && !readPending
      ensures old(Wants(reqSize)) && !old(Fits(reqSize)) && mode == DropNewer ==>
                && outcome == StreamFull && pending == NOTHING_PENDING && gone == old(gone)
                && Noted(old(Queue()), Queue(), old(Notes(noWriteFailed)))
                && read == old(read) && write == WriteAfterNote(old(write), old(Notes(noWriteFailed)), size)
                && Raw() == old(Raw()) - (if old(Notes(noWriteFailed)) then HDR_SIZE else 0)
                && avail == SuggestAllocSize(read, write, size, reqMin, maxPacket)
                && (forall req: U32 :: 0 < req <= avail ==> Wants(req) && Fits(req))
      ensures outcome.Reserved? ==> Holds(reqSize, kind) && outcome.offset == write + HDR_SIZE
      ensures outcome.Reserved? ==>
                Padded(pads, Pad(old(write), Align(reqSize), size)) && write == (if pads == [] then old(write) else 0)
      ensures outcome.Reserved? ==> (pads == [] <==> old(write) + 8 + Align(reqSize) <= size)
      ensures !outcome.Reserved? ==> pads == [] && pending == old(pending)
    {
      hide Live, Unflagged, Cells, SuggestAllocSize, Needed, SpaceLeft, Pad, Align, JustEnough, Marked;
      avail, overwrote, k, pads := 0, false, 0, [];
      if pending != NOTHING_PENDING {
        outcome := NotReady;
      } else if maxPacket < Align(reqSize) {
        avail := SuggestForLarge(reqMin);
        outcome := SizeLimit;
      } else if Needed(write, Align(reqSize), size) <= SpaceLeft(read, write, size) {
        var offset;
        offset, pads := Place(reqSize, kind);
        outcome := Reserved(offset);
      } else {
        outcome, avail, overwrote, k, pads := ReserveWithoutRoom(reqSize, reqMin, kind, noWriteFailed);
      }
    }

    /** Space for a packet is claimed and its header stamped. */
    ghost predicate Holds(reqSize: U32, kind: nat)
      reads `w, `pending, buf
    {
      && kind < 0x100 && w < buf.Length
      && pending == Align(reqSize) + HDR_SIZE && buf[w] == Cell(HdrWord(reqSize, kind), RESERVED)
    }

    /** The caller's copy into the space it was given. */
    method Fill(data: seq<Cell>)
      requires Valid() && pending != NOTHING_PENDING && HDR_SIZE + 8 * |data| <= pending
      modifies buf
      ensures Valid() && buf[w] == old(buf[w])
      ensures buf[w + 1..w + 1 + |data|] == data
    {
      hide Live, Unflagged;
      var at := write / 8 + 1;
      var i := 0;
      while i < |data|
        invariant 0 <= i <= |data|
        invariant buf[at..at + i] == data[..i]
        invariant forall k :: 0 <= k < cells && !(at <= k < at + i) ==> buf[k] == old(buf[k])
      {
        buf[at + i] := data[i];
        i := i + 1;
      }
      LiveFrame(old(buf[..]), buf[..], r, w, first, second);
    }

    /** `TLStreamCommit` */
    method Commit(reqSize: U32) returns (ok: bool)
      requires Valid()
      modifies this`write, this`w, this`first, this`second, this`sent, this`pending
      ensures ok <==> old(pending) != NOTHING_PENDING && Align(reqSize) + HDR_SIZE <= old(pending)
      ensures !ok ==> unchanged(this)
      ensures ok ==> pending == NOTHING_PENDING
                     && write == Wrap(old(write) + Align(reqSize) + HDR_SIZE, size)
                     && Raw() == old(Raw()) - (Align(reqSize) + HDR_SIZE)
      // Committing what was reserved makes the packet live ...
      ensures ok && old(Matches(reqSize)) ==>
                && Valid() && gone == old(gone)
                && var p := PacketAt(buf[..], old(w));
                   Queue() == old(Queue()) + [p] && sent == old(sent) + [p]
      // ... and nothing else does: a reader steps from the packet to the write offset only then.
      ensures ok && old(pending) == HDR_SIZE + Align(DataLen(buf[old(w)].lo)) ==>
                (Wrap(NextPacketAddr(old(write), buf[old(w)]), size) == write <==>
                 Align(reqSize) + HDR_SIZE == old(pending))
    {
      hide Live, Unflagged;
      var bytes := Align(reqSize) + HDR_SIZE;
      if pending == NOTHING_PENDING || bytes > pending {
        return false;
      }
      WrapIsRemainder(write + bytes, size);
      WrapIsRemainder(write + pending, size);
      SpaceAfter(read, write, size, bytes);
      if Matches(reqSize) {
        TakeIn(bytes);
      }
      write := (write + bytes) % size;
      pending := NOTHING_PENDING;
      ok := true;
    }

    /** The header at the write offset is the one of a packet that fills the space claimed,
        and all of that space is committed. */
    ghost predicate Matches(reqSize: U32)
      reads this, buf
    {
      && w < buf.Length && HeaderOk(buf[w]) && !IsDropped(buf[w].lo)
      && Align(reqSize) + HDR_SIZE == pending == HDR_SIZE + Align(DataLen(buf[w].lo))
    }

    /** `TLStreamAcquireReadPos`, without a producer callback: the first contiguous piece. */
    method AcquireReadPos() returns (offset: nat, len: nat)
      requires Valid()
      modifies this`readPending
      ensures Valid() && offset == read
      ensures len == if read > write then size - read else write - read
      ensures len == 0 <==> Queue() == []
      ensures readPending == if mode != DropOldest then old(readPending) else Queue() != []
      // A reader that walks the piece finds its packets, which are the oldest ones.
      ensures len > 0 ==> first != [] && len == 8 * Cells(first) && first <= Queue()
      ensures r + len / 8 <= cells && Walk(buf[..], r, r + len / 8) == Walked(first)
    {
      hide Live, Unflagged, Cells, Walk;
      if mode == DropOldest {
        readPending := true;
      }
      offset := read;
      if read == write {
        if mode == DropOldest {
          readPending := false;
        }
        len := 0;
      } else if read > write {
        len := size - read;
      } else {
        len := write - read;
      }
      PieceIsFirst();
    }

    lemma PieceIsFirst()
      requires Valid()
      ensures var end := if r <= w then w else cells;
              && r <= end && end == r + Cells(first) && Walk(buf[..], r, end) == Walked(first)
              && (r == end <==> first == []) && (first == [] ==> second == []) && first <= Queue()
    {
      var end := if r <= w then w else cells;
      WalkReadsChain(buf[..], r, end, first);
      ChainCells(buf[..], r, end, first);
    }

    /** The first piece is all that is live, or what there is of it before the end. */
    lemma FirstIsPiece()
      requires Valid()
      ensures first <= Queue() && read + 8 * Cells(first) <= size
      ensures (first == Queue() || read + 8 * Cells(first) == size)
    {
      PieceIsFirst();
      if r <= w { assert first + [] == first; }
    }

    /** The packets up to `k` are gone; the read offset is about to follow. */
    ghost method Release(k: nat)
      requires Valid() && k <= |first|
      modifies this`r, this`first, this`second, this`gone
      ensures r < cells && old(r + Cells(first[..k])) <= cells && r == Wrap(old(r + Cells(first[..k])), cells)
      ensures Live(buf[..], r, w, first, second) && Accounted()
      ensures k <= |old(Queue())| && gone == old(gone) + old(Queue())[..k] && Queue() == old(Queue())[k..]
      ensures SpaceLeft(8 * r, write, size) == old(SpaceLeft(read, write, size)) + 8 * old(Cells(first[..k]))
    {
      hide Live, Unflagged, Cells;
      LiveRelease(buf[..], r, w, first, second, k);
      ReleasedQueue(buf[..], r, w, first, second, k);
      ReleasedSpace(r, w, cells, Cells(first[..k]));
      RejoinSplit(gone, Queue(), k);
      gone := gone + first[..k];
      r, first, second := ReleasedCell(cells, r, first, k), ReleasedFirst(cells, r, first, second, k),
                          ReleasedSecond(cells, r, first, second, k);
    }

    /** `len` bytes from the read offset are the first `k` packets of the first piece. */
    ghost predicate Bounds(len: nat, k: nat)
      reads this
    {
      k <= |first| && len == 8 * Cells(first[..k])
    }

    /** Lengths in whole cells lead to whole cells. */
    lemma NextRead(len: nat) returns (end: nat)
      requires Dims() && read == 8 * r && len % 8 == 0
      ensures end < cells && (read + len) % size == 8 * end
    {
      ScaledMod(r + len / 8, cells);
      end := (r + len / 8) % cells;
    }

    /** A release of whole packets ends where the source looks for a header. */
    lemma BoundaryAt(len: nat, k: nat)
      requires Valid() && Bounds(len, k)
      ensures r + len / 8 <= cells && read + len <= size && (read + len) % size == 8 * Wrap(r + len / 8, cells)
      ensures k < |first| ==>
                r + len / 8 < cells && (read + len) % size == 8 * (r + len / 8) && HeaderOk(buf[r + len / 8])
    {
      hide Unflagged, Cells, HeaderOk, Chain;
      LiveRelease(buf[..], r, w, first, second, k);
      WrapIsRemainder(read + len, size);
    }

    method MoveReadTo(next: nat, len: nat, ghost k: nat)
      requires Valid()
      requires Bounds(len, k) ==> r + len / 8 <= cells && next == 8 * Wrap(r + len / 8, cells)
      modifies this`read, this`r, this`first, this`second, this`gone, this`readPending
      ensures read == next && readPending == (old(readPending) && mode != DropOldest)
      ensures old(Bounds(len, k)) ==>
                && Valid() && gone == old(gone) + old(Queue())[..k] && Queue() == old(Queue())[k..]
                && Raw() == old(Raw()) + len
    {
      hide Live, Unflagged, Cells, SpaceLeft, PacketType;
      if Bounds(len, k) {
        Release(k);
      }
      read := next;
      if mode == DropOldest {
        readPending := false;
      }
    }

    /** `TLStreamAdvanceReadPos`: a release shorter than the piece acquired is checked by
        looking for a header at its end, which is cell `end`; nothing else is. When it is the
        first `k` packets of the piece that are released, these are gone. */
    method AdvanceReadPos(len: nat, origLen: nat, ghost k: nat) returns (ok: bool, ghost end: nat)
      requires Valid() && len % 8 == 0
      modifies this`read, this`r, this`first, this`second, this`gone, this`readPending
      ensures end < cells && 8 * end == (old(read) + len) % size
      ensures ok <==> len == origLen || HeaderOk(buf[end])
      ensures ok <==> len == origLen || (buf[end].hi == 0x3150_4C54 && 0 < buf[end].lo / 0x100_0000 < 8)
      ensures !ok ==> unchanged(this)
      ensures ok ==> read == 8 * end && readPending == (old(readPending) && mode != DropOldest)
      ensures old(Bounds(len, k)) && k < |old(first)| ==> ok
      ensures old(Bounds(len, k)) && ok ==>
                && Valid() && gone == old(gone) + old(Queue())[..k] && Queue() == old(Queue())[k..]
                && Raw() == old(Raw()) + len
    {
      hide Live, Unflagged, Cells, SpaceLeft, HeaderOk, Wrap, Accounted;
      var next := (read + len) % size;
      end := NextRead(len);
      HeaderOkIff(buf[end]);
      ok := len == origLen || HeaderOk(buf[next / 8]);
      if Bounds(len, k) {
        BoundaryAt(len, k);
      }
      if ok {
        MoveReadTo(next, len, k);
      }
    }

    /** A claimed reservation can be committed as the packet its header announces exactly when
        the requested size is within the limit; the sizes just below `2^32`, whose alignment
        wraps to 0, pass the limit check but not this. */
    lemma HoldsMatchesIffWithinLimit(reqSize: U32, kind: nat)
      requires Dims() && 0 < kind < TYPE_LAST && Holds(reqSize, kind) && Align(reqSize) <= maxPacket
      ensures Matches(reqSize) <==> reqSize <= maxPacket
    {
      if reqSize <= maxPacket {
        HdrWordFields(reqSize, kind);
      } else {
        HdrWordLen(reqSize, kind);
      }
    }

    /** The caller has written its data into the space it was given. */
    ghost predicate Filled(data: seq<Cell>, reqSize: U32, kind: nat)
      reads `w, `pending, buf
    {
      && 0 < kind < TYPE_LAST && Holds(reqSize, kind) && reqSize <= maxPacket && 8 * |data| == Align(reqSize)
      && w + 1 + |data| <= buf.Length && buf[w + 1..w + 1 + |data|] == data
    }

    /** Commits a reservation whose data is in place. */
    method CommitFilled(data: seq<Cell>, reqSize: U32, kind: nat)
      requires Valid() && Filled(data, reqSize, kind)
      modifies this`write, this`w, this`first, this`second, this`sent, this`pending
      ensures Valid() && pending == NOTHING_PENDING && gone == old(gone)
      ensures var p := Packet(kind, false, reqSize, data); Queue() == old(Queue()) + [p] && sent == old(sent) + [p]
      ensures write == Wrap(old(write) + HDR_SIZE + Align(reqSize), size)
      ensures Raw() == old(Raw()) - HDR_SIZE - Align(reqSize) && Raw() >= 16
    {
      hide Live, Unflagged, Cells;
      HoldsMatchesIffWithinLimit(reqSize, kind);
      HdrWordFields(reqSize, kind);
      assert PacketAt(buf[..], w) == Packet(kind, false, reqSize, data) by {
        assert buf[..][w + 1..w + 1 + |data|] == buf[w + 1..w + 1 + |data|];
      }
      var ok := Commit(reqSize);
    }

    /** Copies the data of a reservation and commits it. */
    method FillAndCommit(data: seq<Cell>, reqSize: U32, kind: nat)
      requires Valid() && 0 < kind < TYPE_LAST && Holds(reqSize, kind)
      requires reqSize <= maxPacket && 8 * |data| == Align(reqSize)
      modifies this`write, this`w, this`first, this`second, this`sent, this`pending, buf
      ensures Valid() && pending == NOTHING_PENDING && gone == old(gone)
      ensures var p := Packet(kind, false, reqSize, data); Queue() == old(Queue()) + [p] && sent == old(sent) + [p]
      ensures write == Wrap(old(write) + HDR_SIZE + Align(reqSize), size)
      ensures Raw() == old(Raw()) - HDR_SIZE - Align(reqSize) && Raw() >= 16
    {
      hide Live, Unflagged, Cells;
      Fill(data);
      CommitFilled(data, reqSize, kind);
    }

    /** All data that ever went through the stream. */
    ghost function History(): seq<Packet>
      reads `gone, `first, `second
    {
      DataOf(gone + Queue())
    }

    /** `TLStreamWrite`: reserve, copy and commit in one go. */
    method Write(data: seq<Cell>, reqSize: U32) returns (outcome: Outcome, ghost k: nat, ghost pads: seq<Packet>)
      requires Valid() && reqSize + 7 < WORD && 8 * |data| == Align(reqSize) && CanMakeRoom(reqSize)
      modifies this`read, this`r, this`write, this`w, this`first, this`second
      modifies this`sent, this`gone, this`dropped, this`pending, buf
      ensures Valid() && Dropping(old(gone), old(dropped), gone, dropped)
      ensures outcome.Reserved? <==>
                old(Wants(reqSize)) && (old(Fits(reqSize)) || (mode == DropOldest && !readPending && old(Raw()) != 8))
      ensures outcome.Reserved? ==> pending == NOTHING_PENDING && Padded(pads, Pad(old(write), Align(reqSize), size))
      ensures outcome.Reserved? && old(Fits(reqSize)) ==>
                gone == old(gone) && Queue() == old(Queue()) + pads + [Packet(TYPE_DATA, false, reqSize, data)]
      ensures outcome.Reserved? && !old(Fits(reqSize)) ==>
                && k <= |old(Queue())| && gone == old(gone) + old(Queue())[..k]
                && JustEnough(old(Queue()), k, old(Raw()) - 16, Needed(old(write), Align(reqSize), size), size)
                && Queue() == Marked(old(Queue())[k..]) + pads + [Packet(TYPE_DATA, false, reqSize, data)]
      // Where the offsets are afterwards.
      ensures outcome.Reserved? ==>
                && write == Wrap((if pads == [] then old(write) else 0) + HDR_SIZE + Align(reqSize), size)
                && Raw() >= 16
                && Raw() == old(Raw()) - Needed(old(write), Align(reqSize), size)
                            + (if old(Fits(reqSize)) then 0 else 8 * Cells(old(Queue())[..k]))
                && (old(Fits(reqSize)) ==> read == old(read))
      ensures old(Wants(reqSize)) && !old(Fits(reqSize)) && mode == DropNewer ==>
                && outcome == StreamFull && gone == old(gone) && Noted(old(Queue()), Queue(), old(Notes(false)))
                && read == old(read) && write == WriteAfterNote(old(write), old(Notes(false)), size)
                && Raw() == old(Raw()) - (if old(Notes(false)) then HDR_SIZE else 0)
      ensures outcome == WouldBlock <==>
                old(Wants(reqSize)) && !old(Fits(reqSize)) && (mode == Block || (mode == DropOldest && readPending))
      ensures outcome == WouldBlock || !old(Wants(reqSize)) ==> unchanged(this) && unchanged(buf)
      // A reader finds a flag only on a packet that was in the queue before.
      ensures outcome.Reserved? && !old(Fits(reqSize)) ==> (HasFlag(Queue()) <==> k < |old(Queue())|)
      // A single free cell: nothing was dropped, but the oldest packet says so.
      ensures outcome == StreamError <==>
                old(Wants(reqSize)) && !old(Fits(reqSize)) && mode == DropOldest && !readPending && old(Raw()) == 8
      ensures outcome == StreamError ==>
                && gone == old(gone) && Queue() == Marked(old(Queue())) && read == old(read) && Raw() == old(Raw())
      // Whatever else happened, just this packet was added to the data, or nothing was.
      ensures History() == old(History()) + if outcome.Reserved? then [Packet(TYPE_DATA, false, reqSize, data)] else []
      ensures outcome.Reserved? ==> (pads == [] <==> old(write) + 8 + Align(reqSize) <= size)
      ensures !outcome.Reserved? ==> pending == old(pending)
    {
      hide Live, Unflagged, JustEnough, DataOf, Marked, Cells, SuggestAllocSize, WriteAfterNote, HasFlag, Notes;
      hide HdrWord, PacketType, MaxPacketSize, SpaceLeft;
      ghost var gone0, all := gone, Queue();
      var avail, overwrote;
      outcome, avail, overwrote, k, pads := Reserve(reqSize, reqSize, TYPE_DATA, false);
      ReserveKeepsData(gone0, all, k, gone, Queue(), pads);
      if outcome.Reserved? {
        ghost var p := Packet(TYPE_DATA, false, reqSize, data);
        AddingData(gone, Queue(), [p]);
        DataOfShort([p]);
        FillAndCommit(data, reqSize, TYPE_DATA);
        if overwrote {
          FlaggedIffSurvives(all, k, pads, p);
        }
      } else {
        NoCells(all);
        assert all[0..] == all && Marked(all) + [] == Marked(all);
      }
    }

    /** `TLStreamReconfigure`, for streams that wrap: the mode changes between packets. */
    method Reconfigure(newMode: Mode) returns (ok: bool)
      requires Valid()
      modifies this`mode
      ensures Valid() && ok == (pending == NOTHING_PENDING) && mode == (if ok then newMode else old(mode))
    {
      ok := pending == NOTHING_PENDING;
      if ok {
        mode := newMode;
      }
    }

    /** The request is one that the stream considers at all. */
    predicate Wants(reqSize: U32)
      reads this
    {
      pending == NOTHING_PENDING && Align(reqSize) <= maxPacket
    }

    /** A stream that drops its oldest packets could take the request if it were empty. In a
        stream of less than 152 bytes that may fail, and the source then looks for packets to
        drop beyond the live ones. */
    predicate CanMakeRoom(reqSize: U32)
      reads this
      requires write <= size
    {
      mode == DropOldest && Align(reqSize) <= maxPacket ==> Needed(write, Align(reqSize), size) + 16 <= size
    }

    ghost predicate Roomy() {
      GoodSize(size) && TakesMaxWhenEmpty(size)
    }

    /** In a larger stream it always could. */
    lemma LargeStreamMakesRoom(reqSize: U32)
      requires Shape() && Roomy()
      ensures CanMakeRoom(reqSize)
    {
      hide MaxPacketSize, TakesMaxWhenEmpty, Needed, Align, SpaceLeft;
      TakesMaxWhenEmptyIff(size);
      MaxPacketIsUnderHalf(size);
      if Align(reqSize) <= maxPacket {
        NeededWhenEmpty(w, Align(reqSize), cells, maxPacket);
      }
    }

    predicate Fits(reqSize: U32)
      reads this
      requires write <= size
    {
      Needed(write, Align(reqSize), size) <= SpaceLeft(read, write, size)
    }
  }

  /** What has left meanwhile was dropped. */
  ghost predicate Dropping(gone: seq<Packet>, dropped: seq<Packet>, gone': seq<Packet>, dropped': seq<Packet>) {
    gone <= gone' && dropped' == dropped + gone'[|gone|..]
  }

  lemma DroppedIs(gone: seq<Packet>, dropped: seq<Packet>, gone': seq<Packet>, dropped': seq<Packet>, more: seq<Packet>)
    requires Dropping(gone, dropped, gone', dropped') && gone' == gone + more
    ensures dropped' == dropped + more
  {
  }

  function WriteAfterNote(write: nat, noted: bool, size: nat): (w: nat)
    ensures write < size && write % 8 == 0 && size % 8 == 0 ==> w < size
  {
    if !noted then write else if write + HDR_SIZE == size then 0 else write + HDR_SIZE
  }

  /** A write-failed packet was added, or nothing was. */
  ghost predicate Noted(before: seq<Packet>, after: seq<Packet>, noted: bool) {
    if noted then
      |after| > 0
      && var p := after[|after| - 1];
         p.kind == TYPE_WRITE_FAILED && p.len == 0 && !p.dropped && after == before + [p]
    else after == before
  }

  ghost predicate IsPadding(ps: seq<Packet>) {
    |ps| == 1 && ps[0].kind == TYPE_PADDING && !ps[0].dropped
  }

  /** Padding over `pad` bytes, or none. */
  ghost predicate Padded(ps: seq<Packet>, pad: nat) {
    if pad == 0 then ps == [] else IsPadding(ps) && ps[0].len + HDR_SIZE == pad
  }

  ghost predicate HasFlag(ps: seq<Packet>) {
    exists i :: 0 <= i < |ps| && ps[i].dropped
  }

  /** When `k` of the packets `all` are dropped to make room for `p`, the queue tells of it if
      and only if a packet survives; else the flag goes into a header that is not live. */
  lemma FlaggedIffSurvives(all: seq<Packet>, k: nat, pads: seq<Packet>, p: Packet)
    requires k <= |all| && (pads == [] || IsPadding(pads)) && !p.dropped
    ensures HasFlag(Marked(all[k..]) + pads + [p]) <==> k < |all|
  {
    var queue := Marked(all[k..]) + pads + [p];
    if k < |all| {
      assert queue[0] == all[k..][0].(dropped := true);
    } else {
      assert queue == pads + [p];
    }
  }

  /** The data packets, without drop flags. */
  function DataOf(ps: seq<Packet>): seq<Packet> {
    if ps == [] then [] else DataOfOne(ps[0]) + DataOf(ps[1..])
  }

  function DataOfOne(p: Packet): seq<Packet> {
    if p.kind == TYPE_DATA then [p.(dropped := false)] else []
  }

  lemma {:induction false} DataConcat(ps: seq<Packet>, qs: seq<Packet>)
    ensures DataOf(ps + qs) == DataOf(ps) + DataOf(qs)
  {
    hide DataOfOne;
    if ps == [] {
      assert ps + qs == qs;
    } else {
      DataConcat(ps[1..], qs);
      assert (ps + qs)[1..] == ps[1..] + qs && (ps + qs)[0] == ps[0];
    }
  }

  lemma DataOfShort(ps: seq<Packet>)
    requires |ps| <= 1
    ensures DataOf(ps) == if ps == [] then [] else DataOfOne(ps[0])
  {
    if ps != [] { assert ps[1..] == []; }
  }

  lemma MarkedData(ps: seq<Packet>)
    ensures DataOf(Marked(ps)) == DataOf(ps)
  {
    if ps != [] { assert Marked(ps)[1..] == ps[1..]; }
  }

  /** Dropping and flagging the oldest packets and adding others at the end adds just the data
      of those others to all that ever went through the stream. */
  lemma MakingRoomKeepsData(gone: seq<Packet>, queue: seq<Packet>, k: nat, more: seq<Packet>)
    requires k <= |queue|
    ensures DataOf((gone + queue[..k]) + (Marked(queue[k..]) + more)) == DataOf(gone + queue) + DataOf(more)
  {
    hide Marked, DataOf;
    var before, kept := gone + queue[..k], Marked(queue[k..]);
    assert gone + queue == before + queue[k..];
    DataConcat(before, queue[k..]);
    MarkedData(queue[k..]);
    DataConcat(before, kept + more);
    DataConcat(kept, more);
    assert (DataOf(before) + DataOf(kept)) + DataOf(more) == DataOf(before) + (DataOf(kept) + DataOf(more));
  }

  lemma AddingData(gone: seq<Packet>, queue: seq<Packet>, more: seq<Packet>)
    ensures DataOf(gone + (queue + more)) == DataOf(gone + queue) + DataOf(more)
  {
    assert gone + (queue + more) == (gone + queue) + more;
    DataConcat(gone + queue, more);
  }

  /** What a reservation alone may do to the queue. */
  ghost predicate Reserving(gone: seq<Packet>, all: seq<Packet>, k: nat, gone': seq<Packet>, queue: seq<Packet>,
                            pads: seq<Packet>) {
    && (pads == [] || IsPadding(pads))
    && ((gone' == gone && queue == all + pads)
        || (gone' == gone && exists noted :: Noted(all, queue, noted))
        || (k <= |all| && gone' == gone + all[..k] && queue == Marked(all[k..]) + pads))
  }

  lemma ReserveKeepsData(gone: seq<Packet>, all: seq<Packet>, k: nat, gone': seq<Packet>, queue: seq<Packet>,
                         pads: seq<Packet>)
    requires Reserving(gone, all, k, gone', queue, pads)
    ensures DataOf(gone' + queue) == DataOf(gone + all)
  {
    hide Marked, DataOf;
    DataOfShort(pads);
    if gone' == gone && queue == all + pads {
      AddingData(gone, all, pads);
    } else if gone' == gone && exists noted :: Noted(all, queue, noted) {
      var noted :| Noted(all, queue, noted);
      if noted {
        var p := queue[|queue| - 1];
        AddingData(gone, all, [p]);
        DataOfShort([p]);
      }
    } else {
      MakingRoomKeepsData(gone, all, k, pads);
    }
  }
}
