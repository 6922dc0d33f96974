/** A stream in use: a writer that reserves, fills and commits, and one reader that acquires a
    piece, steps over its packets and releases what it has read, in any order of their calls and
    with changes of the overflow policy in between. `services/server/common/tlserver.c`,
    `services/shared/common/tlclient.c` over `services/server/common/tlstream.c` */
module TlSession {
  import opened TlPacket
  import opened PacketChain
  import opened StreamRing
  import opened TlStream
  import opened TlTrace
  import opened Traces

  /** `xs` is `ys` with some packets left out. */
  ghost predicate Subsequence(xs: seq<Packet>, ys: seq<Packet>)
    decreases |ys|
  {
    if ys == [] then xs == []
    else
      || (xs != [] && xs[0] == ys[0] && Subsequence(xs[1..], ys[1..]))
      || Subsequence(xs, ys[1..])
  }

  lemma {:induction false} SubsequenceAppend(xs: seq<Packet>, ys: seq<Packet>, xs': seq<Packet>, ys': seq<Packet>)
    requires Subsequence(xs, ys) && Subsequence(xs', ys')
    ensures Subsequence(xs + xs', ys + ys')
    decreases |ys|
  {
    if ys == [] {
      assert xs + xs' == xs' && ys + ys' == ys';
    } else {
      assert (ys + ys')[1..] == ys[1..] + ys';
      if xs != [] && xs[0] == ys[0] && Subsequence(xs[1..], ys[1..]) {
        SubsequenceAppend(xs[1..], ys[1..], xs', ys');
        assert (xs + xs')[1..] == xs[1..] + xs';
      } else {
        SubsequenceAppend(xs, ys[1..], xs', ys');
      }
    }
  }

  lemma {:induction false} SubsequenceOfItself(xs: seq<Packet>)
    ensures Subsequence(xs, xs) && Subsequence([], xs)
  {
    if xs != [] { SubsequenceOfItself(xs[1..]); }
  }

  /** `zs` is `xs` and `ys` merged: each keeps its order. */
  ghost predicate Merged(xs: seq<Packet>, ys: seq<Packet>, zs: seq<Packet>)
    decreases |zs|
  {
    if zs == [] then xs == [] && ys == []
    else
      || (xs != [] && xs[0] == zs[0] && Merged(xs[1..], ys, zs[1..]))
      || (ys != [] && ys[0] == zs[0] && Merged(xs, ys[1..], zs[1..]))
  }

  /** One of the two goes on. */
  lemma {:induction false} MergedAppend(xs: seq<Packet>, ys: seq<Packet>, zs: seq<Packet>, more: seq<Packet>)
    requires Merged(xs, ys, zs)
    ensures Merged(xs + more, ys, zs + more) && Merged(xs, ys + more, zs + more)
    decreases |zs|
  {
    if zs == [] {
      assert xs + more == ys + more == zs + more == more;
      MergedWithNone(more);
    } else {
      assert (zs + more)[1..] == zs[1..] + more;
      if xs != [] && xs[0] == zs[0] && Merged(xs[1..], ys, zs[1..]) {
        MergedAppend(xs[1..], ys, zs[1..], more);
        assert (xs + more)[1..] == xs[1..] + more;
      } else {
        MergedAppend(xs, ys[1..], zs[1..], more);
        assert (ys + more)[1..] == ys[1..] + more;
      }
    }
  }

  lemma {:induction false} MergedWithNone(xs: seq<Packet>)
    ensures Merged(xs, [], xs) && Merged([], xs, xs)
  {
    if xs != [] { MergedWithNone(xs[1..]); }
  }

  lemma {:induction false} MergedParts(xs: seq<Packet>, ys: seq<Packet>, zs: seq<Packet>)
    requires Merged(xs, ys, zs)
    ensures Subsequence(xs, zs) && |zs| == |xs| + |ys| && (ys == [] ==> xs == zs)
    decreases |zs|
  {
    if zs != [] {
      if xs != [] && xs[0] == zs[0] && Merged(xs[1..], ys, zs[1..]) {
        MergedParts(xs[1..], ys, zs[1..]);
      } else {
        MergedParts(xs, ys[1..], zs[1..]);
      }
    }
  }

  ghost function SightOf(s: Stream): Sight
    reads s
  {
    Sight(s.mode, s.read, s.write, s.size, s.maxPacket, s.pending, s.readPending, s.Queue(), s.dropped)
  }

  lemma PaddedIsPadding(pads: seq<Packet>, pad: nat)
    requires Padded(pads, pad)
    ensures pads == [] || IsPadding(pads)
  {
  }

  /** A reservation for data is a step of the trace. */
  method ReserveStep(s: Stream, size: U32) returns (outcome: Outcome, ghost k: nat, ghost pads: seq<Packet>)
    requires s.Valid() && s.CanMakeRoom(size)
    modifies s, s.buf
    ensures s.Valid() && Reserving(old(s.gone), old(s.Queue()), k, s.gone, s.Queue(), pads)
    ensures Reserves(old(SightOf(s)), size, SightOf(s)) && Dropping(old(s.gone), old(s.dropped), s.gone, s.dropped)
    ensures outcome.Reserved? <==> Granted(old(SightOf(s)), SightOf(s))
    ensures outcome.Reserved? <==>
              old(s.Wants(size))
              && (old(s.Fits(size)) || (s.mode == DropOldest && !s.readPending && old(s.Raw()) != 8))
    ensures s.mode == old(s.mode) && s.readPending == old(s.readPending)
    ensures outcome.Reserved? ==> s.Holds(size, TYPE_DATA)
    ensures old(s.pending) != NOTHING_PENDING ==> !outcome.Reserved? && unchanged(s) && unchanged(s.buf)
  {
    hide Live, Unflagged, Cells, Marked, JustEnough, SuggestAllocSize, WriteAfterNote, IsPadding, Padded, Noted;
    hide SpaceLeft, Needed, Pad, Align, Stream.Accounted, Stream.Notes, Reserves, Stream.CanMakeRoom;
    hide Dropping, HdrWord, PacketType, MaxPacketSize, Chain;
    ghost var gone, all, a, noted := s.gone, s.Queue(), SightOf(s), s.Notes(false);
    var avail, overwrote;
    outcome, avail, overwrote, k, pads := s.Reserve(size, size, TYPE_DATA, false);
    ghost var b := SightOf(s);
    if Considers(a, size) && HasSpace(a, size) {
      PaddedIsPadding(pads, Pad(a.write, Align(size), a.size));
      NoneIsDropped(gone, a.dropped, s.gone, s.dropped);
      PlacingReserves(a, size, pads, b);
    } else if outcome.Reserved? {
      PaddedIsPadding(pads, Pad(a.write, Align(size), a.size));
      DroppedIs(gone, a.dropped, s.gone, s.dropped, all[..k]);
      DroppingReserves(a, size, k, pads, b);
    } else if Considers(a, size) && a.mode == DropNewer {
      NoneIsDropped(gone, a.dropped, s.gone, s.dropped);
      NotingReserves(a, size, noted, b);
    } else {
      assert all[..0] == [] && all[0..] == all && Marked(all) + [] == Marked(all);
      NoneIsDropped(gone, a.dropped, s.gone, s.dropped);
      RefusingReserves(a, size, b);
    }
  }

  /** Reserves space for data, which neither adds to the data nor takes any away. */
  method ReserveSpace(s: Stream, size: U32) returns (outcome: Outcome)
    requires s.Valid() && s.CanMakeRoom(size)
    modifies s, s.buf
    ensures s.Valid() && s.History() == old(s.History())
    ensures Reserves(old(SightOf(s)), size, SightOf(s)) && Dropping(old(s.gone), old(s.dropped), s.gone, s.dropped)
    ensures outcome.Reserved? <==> Granted(old(SightOf(s)), SightOf(s))
    ensures outcome.Reserved? <==>
              old(s.Wants(size))
              && (old(s.Fits(size)) || (s.mode == DropOldest && !s.readPending && old(s.Raw()) != 8))
    ensures s.mode == old(s.mode) && s.readPending == old(s.readPending)
    ensures outcome.Reserved? ==> s.Holds(size, TYPE_DATA)
    ensures old(s.pending) != NOTHING_PENDING ==> !outcome.Reserved? && unchanged(s) && unchanged(s.buf)
    ensures old(s.Raw()) >= 16 && s.mode != DropNewer ==> s.Raw() >= 16
  {
    hide Live, Stream.Accounted, DataOf, Reserving, Dropping, Reserves, SpaceLeft;
    ghost var gone, all, a := s.gone, s.Queue(), SightOf(s);
    ghost var k, pads;
    outcome, k, pads := ReserveStep(s, size);
    ReserveKeepsData(gone, all, k, s.gone, s.Queue(), pads);
    if !outcome.Reserved? && s.mode != DropNewer { KeepsRoom(a, size, SightOf(s)); }
  }

  /** Reserves space and puts the data there. */
  method ReserveAndFill(s: Stream, data: seq<Cell>, size: U32) returns (outcome: Outcome)
    requires s.Valid() && size + 7 < WORD && 8 * |data| == Align(size) && s.CanMakeRoom(size)
    modifies s, s.buf
    ensures s.Valid() && s.History() == old(s.History())
    ensures Reserves(old(SightOf(s)), size, SightOf(s)) && Dropping(old(s.gone), old(s.dropped), s.gone, s.dropped)
    ensures outcome.Reserved? <==> Granted(old(SightOf(s)), SightOf(s))
    ensures outcome.Reserved? <==>
              old(s.Wants(size))
              && (old(s.Fits(size)) || (s.mode == DropOldest && !s.readPending && old(s.Raw()) != 8))
    ensures s.mode == old(s.mode) && s.readPending == old(s.readPending)
    ensures outcome.Reserved? ==> s.Filled(data, size, TYPE_DATA)
    ensures old(s.pending) != NOTHING_PENDING ==> !outcome.Reserved? && unchanged(s) && unchanged(s.buf)
    ensures old(s.Raw()) >= 16 && s.mode != DropNewer ==> s.Raw() >= 16
  {
    hide Live, Unflagged, Reserves, Stream.Accounted;
    outcome := ReserveSpace(s, size);
    if outcome.Reserved? {
      s.Fill(data);
    }
  }

  lemma FirstIsFirstPiece(s: Stream)
    requires s.Valid()
    ensures FirstPiece(SightOf(s), s.first)
  {
    hide Stream.Valid, Cells;
    s.FirstIsPiece();
  }

  function Filler(n: nat): (data: seq<Cell>)
    ensures |data| == n
  {
    seq(n, _ => Cell(0, 0))
  }

  /** Writes a packet of the largest size. Without room, a stream that drops the oldest packets
      drops some, unless a reader is known or a single cell is free. */
  method WriteLargest(s: Stream) returns (taken: bool)
    requires s.Valid() && s.pending == NOTHING_PENDING && s.Roomy()
    modifies s, s.buf
    ensures s.Valid() && s.pending == NOTHING_PENDING && s.mode == old(s.mode) && s.readPending == old(s.readPending)
    ensures old(s.Fits(s.maxPacket)) ==>
              && s.dropped == old(s.dropped) && old(s.Queue()) <= s.Queue() && s.read == old(s.read)
              && s.Raw() < old(s.Raw()) && s.Raw() != 8 && old(s.Raw()) != 8
    ensures s.mode == DropOldest && !old(s.Fits(s.maxPacket)) ==>
              && (taken <==> !s.readPending && old(s.Raw()) != 8)
              && (taken ==> old(s.Queue()) != [] && old(s.dropped) + old(s.Queue())[..1] <= s.dropped)
              && (!taken ==> s.dropped == old(s.dropped))
              && (s.readPending ==> s.Queue() == old(s.Queue()) && s.read == old(s.read))
  {
    hide Live, Unflagged, Cells, DataOf, Marked, HasFlag, JustEnough, Stream.CanMakeRoom, Stream.Roomy;
    hide SpaceLeft, Padded, Noted, WriteAfterNote;
    hide SuggestAllocSize, Stream.NeverFull, Stream.Accounted, Dropping;
    assert s.Shape() by { s.HasShape(); }
    ghost var gone, dropped := s.gone, s.dropped;
    ghost var all, space, needed := s.Queue(), s.Raw() - 16, Needed(s.write, Align(s.maxPacket), s.size);
    s.LargeStreamMakesRoom(s.maxPacket);
    assert needed >= HDR_SIZE && Align(s.maxPacket) == s.maxPacket;
    assert s.write <= s.size && s.maxPacket + 7 < WORD;
    hide Needed, Align, Pad, PacketType, Stream.Valid, Stream.Shape;
    var outcome, k, pads := s.Write(Filler(s.maxPacket / 8), s.maxPacket);
    taken := outcome.Reserved?;
    if taken && needed > space {
      FirstIsDropped(gone, dropped, s.gone, s.dropped, all, k, space, needed, s.size);
    } else {
      NoneIsDropped(gone, dropped, s.gone, s.dropped);
    }
  }

  lemma FirstIsDropped(gone: seq<Packet>, dropped: seq<Packet>, gone': seq<Packet>, dropped': seq<Packet>,
                       all: seq<Packet>, k: nat, space: int, needed: nat, size: nat)
    requires Dropping(gone, dropped, gone', dropped') && k <= |all| && gone' == gone + all[..k]
    requires JustEnough(all, k, space, needed, size) && space < needed
    ensures all != [] && dropped + all[..1] <= dropped'
  {
    hide Cells;
    SomeMustGo(all, k, space, needed, size);
    DroppedIs(gone, dropped, gone', dropped', all[..k]);
    assert dropped'[..|dropped| + 1] == dropped + all[..1];
  }

  lemma NoneIsDropped(gone: seq<Packet>, dropped: seq<Packet>, gone': seq<Packet>, dropped': seq<Packet>)
    requires Dropping(gone, dropped, gone', dropped') && gone' == gone
    ensures dropped' == dropped
  {
  }

  /** Writes packets of the largest size while there is room. */
  method FillUp(s: Stream)
    requires s.Valid() && s.pending == NOTHING_PENDING && s.Roomy()
    modifies s, s.buf
    ensures s.Valid() && s.pending == NOTHING_PENDING && !s.Fits(s.maxPacket)
    ensures s.dropped == old(s.dropped) && old(s.Queue()) <= s.Queue() && s.read == old(s.read)
    ensures s.mode == old(s.mode) && s.readPending == old(s.readPending) && (s.Raw() == 8 <==> old(s.Raw()) == 8)
  {
    hide Live, Stream.Accounted, Stream.Roomy, SpaceLeft;
    while s.Fits(s.maxPacket)
      invariant s.Valid() && s.pending == NOTHING_PENDING
      invariant s.dropped == old(s.dropped) && old(s.Queue()) <= s.Queue() && s.read == old(s.read)
      invariant s.mode == old(s.mode) && s.readPending == old(s.readPending) && (s.Raw() == 8 <==> old(s.Raw()) == 8)
      decreases s.Raw()
    {
      var taken := WriteLargest(s);
    }
  }

  class Session {
    const s: Stream

    // The reader: the piece it holds and all the packets it has read from the buffer.
    var holds: bool
    var offset: nat
    var len: nat
    var received: seq<Packet>
    ghost var piece: seq<Packet>

    // The writer: what it has put into the space it was given, and all it has committed.
    var data: seq<Cell>
    var reqSize: U32
    ghost var written: seq<Packet>

    /** The piece acquired is still what the stream has at its read offset. */
    ghost predicate Held()
      reads this, s
    {
      piece != [] && piece <= s.first && offset == s.read && len == 8 * Cells(piece)
    }

    /** The stream does not drop packets under the reader. */
    predicate Protected()
      reads this, s
    {
      holds && s.mode == DropOldest ==> s.readPending
    }

    ghost predicate Reader()
      reads this, s
    {
      && (holds ==> Held()) && Protected()
      && Merged(received, s.dropped, s.gone)
    }

    ghost predicate Writer()
      reads this, s, s.buf
    {
      && (s.pending != NOTHING_PENDING ==> s.Filled(data, reqSize, TYPE_DATA))
      && s.History() == written
    }

    ghost predicate Valid()
      reads this, s, s.buf
    {
      s.Valid() && Reader() && Writer()
    }

    ghost function Now(): State
      reads this, s
    {
      State(SightOf(s), holds, piece, received, DataPacket(data, reqSize), written)
    }

    constructor (s: Stream)
      requires s.Valid() && s.gone == [] && s.dropped == [] && s.pending == NOTHING_PENDING
      ensures Valid() && this.s == s && !holds && received == [] && written == s.History()
    {
      this.s := s;
      holds, offset, len, received, piece := false, 0, 0, [], [];
      data, reqSize, written := [], 0, s.History();
    }

    /** The piece stays in front whatever is put behind it. */
    lemma StillHeld(before: seq<Packet>)
      requires s.Valid() && piece != [] && offset == s.read && len == 8 * Cells(piece) && offset + len <= s.size
      requires piece <= before && before <= s.Queue()
      ensures Held()
    {
      hide Cells, Live, Unflagged;
      PrefixIsFirst(s.buf[..], s.r, s.w, s.first, s.second, piece);
    }

    lemma HeldEnds()
      requires s.Valid() && Held()
      ensures offset + len <= s.size && piece <= s.Queue()
      ensures forall k :: 0 <= k <= |piece| ==> s.Queue()[..k] == piece[..k] == s.first[..k]
    {
      hide Cells, Live, Unflagged;
      assert piece == s.first[..|piece|];
      s.BoundaryAt(len, |piece|);
    }

    /** The reader, having passed `n` packets, stands at the header of the next one if there
        is one in the piece. */
    lemma PieceAt(n: nat)
      requires s.Valid() && Held() && n <= |piece|
      ensures 8 * Cells(piece[..n]) < len <==> n < |piece|
      ensures n < |piece| ==>
                var i := s.r + Cells(piece[..n]);
                && i < s.buf.Length && i + Span(s.buf[i].lo) <= s.buf.Length && PacketAt(s.buf[..], i) == piece[n]
                && NextPacketAddr(8 * i, s.buf[i]) == 8 * (s.r + Cells(piece[..n + 1]))
    {
      hide Cells, Chain, Unflagged;
      CellsOfPrefix(piece, n);
      if n < |piece| {
        assert piece == s.first[..|piece|];
        assert s.first[..n] == piece[..n] && s.first[..n + 1] == piece[..n + 1];
        ChainAt(s.buf[..], s.r, if s.r <= s.w then s.w else s.cells, s.first, n);
      }
    }

    /** Steps over up to `packets` packets of the piece. */
    method ReadPackets(packets: nat) returns (passed: nat, read: seq<Packet>)
      requires s.Valid() && Held()
      ensures |read| == (if packets < |piece| then packets else |piece|)
      ensures read == piece[..|read|] && passed == 8 * Cells(read)
    {
      hide Cells, Chain, Live, Unflagged, PacketAt, NextPacketAddr, HeaderOk;
      NoCells(piece);
      var pos := offset;
      read := [];
      while |read| < packets && pos < offset + len
        invariant |read| <= |piece| && |read| <= packets && read == piece[..|read|]
        invariant pos == offset + 8 * Cells(read)
      {
        PieceAt(|read|);
        assert piece[..|read| + 1] == read + [piece[|read|]];
        ghost var i := s.r + Cells(read);
        assert pos / 8 == i && pos == 8 * i;
        read, pos := read + [PacketAt(s.buf[..], pos / 8)], NextPacketAddr(pos, s.buf[pos / 8]);
      }
      PieceAt(|read|);
      passed := pos - offset;
    }

    /** `TLStreamReserve`, after which the writer puts its data in place. */
    method Reserve(newData: seq<Cell>, size: U32) returns (outcome: Outcome)
      requires Valid() && Enabled(Step.Reserve(newData, size))
      modifies this`data, this`reqSize, s, s.buf
      ensures Valid() && Goes(old(Now()), Step.Reserve(newData, size), Now())
      ensures outcome.Reserved? <==> Granted(old(SightOf(s)), SightOf(s))
      ensures outcome.Reserved? <==>
                old(s.Wants(size))
                && (old(s.Fits(size)) || (s.mode == DropOldest && !s.readPending && old(s.Raw()) != 8))
      ensures s.mode == old(s.mode)
      ensures old(s.Raw()) >= 16 && s.mode != DropNewer ==> s.Raw() >= 16
    {
      hide Cells, Merged, Stream.Valid, Stream.Filled, Stream.History, Reserves;
      if holds { HeldEnds(); }
      ghost var gone, all, dropped, a := s.gone, s.Queue(), s.dropped, SightOf(s);
      outcome := ReserveAndFill(s, newData, size);
      if outcome.Reserved? {
        data, reqSize := newData, size;
      }
      MergedAppend(received, dropped, gone, s.gone[|gone|..]);
      assert s.gone == gone + s.gone[|gone|..];
      if holds {
        KeepsQueue(a, size, SightOf(s));
        StillHeld(all);
      }
    }

    /** `TLStreamCommit` of what was reserved; without a reservation it is refused. */
    method Commit()
      requires Valid()
      modifies this`written, s
      ensures Valid() && Goes(old(Now()), Step.Commit, Now())
      ensures written == old(written) + if old(s.pending) == NOTHING_PENDING then [] else [DataPacket(data, reqSize)]
      ensures s.pending == NOTHING_PENDING && s.mode == old(s.mode)
      ensures old(s.Raw()) >= 16 && s.mode != DropNewer ==> s.Raw() >= 16
    {
      hide Cells, Merged, Stream.Valid, DataOf;
      if s.pending != NOTHING_PENDING {
        if holds { HeldEnds(); }
        ghost var gone, all, p := s.gone, s.Queue(), DataPacket(data, reqSize);
        s.CommitFilled(data, reqSize, TYPE_DATA);
        AddingData(gone, all, [p]);
        DataOfShort([p]);
        written := written + [p];
        if holds { StillHeld(all); }
      }
    }

    /** `TLClientAcquireData`, which is refused while a piece is held. */
    method Acquire()
      requires Valid()
      modifies this`holds, this`offset, this`len, this`piece, s`readPending
      ensures Valid() && Goes(old(Now()), Step.Acquire, Now())
      ensures holds <==> old(holds) || s.Queue() != []
      ensures !old(holds) ==>
                && offset == s.read && piece == s.first
                && len == if s.read > s.write then s.size - s.read else s.write - s.read
    {
      hide Cells, Merged, Stream.Valid, Stream.Filled, Stream.History, Walk, Stream.Raw, Goes, FirstPiece;
      ghost var a := Now();
      if holds {
        StaysGoes(a, Step.Acquire);
      } else {
        assert FirstPiece(a.v, s.first) by { FirstIsFirstPiece(s); }
        offset, len := s.AcquireReadPos();
        holds := len > 0;
        piece := s.first;
        AcquireGoes(a, Now());
      }
    }

    /** Reads up to `packets` packets of the piece out of the buffer, stepping from header to
        header, and gives back the bytes passed, as `TLClientReleaseDataLess` does. */
    method Release(packets: nat) returns (ghost k: nat)
      requires Valid()
      modifies this`holds, this`received, s`read, s`r, s`first, s`second, s`gone, s`readPending
      ensures Valid() && Goes(old(Now()), Step.Release(packets), Now())
      ensures !holds && (old(holds) ==> k == Min(packets, |piece|))
      ensures k <= |old(s.Queue())| && s.Queue() == old(s.Queue())[k..] && (old(holds) && packets > 0 ==> k > 0)
      ensures s.Raw() == old(s.Raw()) + 8 * Cells(old(s.Queue())[..k])
      ensures received == old(received) + old(s.Queue())[..k]
    {
      hide Cells, Merged, Live, Unflagged, DataOf, Stream.Filled, Stream.Raw, HeaderOk, Goes;
      hide Chain, PacketType, MaxPacketSize;
      k := 0;
      NoCells(s.Queue());
      ghost var a := Now();
      if !holds {
        StaysGoes(a, Step.Release(packets));
      } else {
        HeldEnds();
        ghost var gone, all := s.gone, s.Queue();
        var passed, read := ReadPackets(packets);
        k := |read|;
        assert all[..k] == read == s.first[..k] && (k == |piece| ==> read == piece);
        var ok, end := s.AdvanceReadPos(passed, len, k);
        RejoinSplit(gone, all, k);
        MergedAppend(received, s.dropped, gone, read);
        received, holds := received + read, false;
        ReleaseGoes(a, packets, k, Now());
      }
    }

    /** What the caller may ask for. The data fills the space asked for, which is less than
        `2^32` after alignment; a stream that drops packets can make room for it; and the policy
        is not switched to dropping old packets while a piece is held that the stream does not
        know of. */
    predicate Enabled(step: Step)
      reads this, s
    {
      match step
      case Reserve(d, n) => n + 7 < WORD && 8 * |d| == Align(n) && s.write <= s.size && s.CanMakeRoom(n)
      case SetMode(m) => m == DropOldest && holds && s.pending == NOTHING_PENDING ==> s.readPending
      case _ => true
    }

    /** The steps that are not enabled: a request of at least `2^32 - 7` bytes or with other data
        than asked for, one that a stream dropping packets could not take if it were empty, and a
        switch to dropping packets while a piece is held that the stream does not know of. */
    lemma NotEnabledIff(step: Step)
      requires s.Valid()
      ensures !Enabled(step) <==>
                match step
                case Reserve(d, a) =>
                  || a > 0xFFFF_FFF8 || 8 * |d| != (a + 7) / 8 * 8
                  || (s.mode == DropOldest && (a + 7) / 8 * 8 <= s.maxPacket
                      && var bytes := 8 + (a + 7) / 8 * 8;
                         bytes + (if s.write + bytes > s.size then s.size - s.write else 0) + 16 > s.size)
                case SetMode(m) => m == DropOldest && holds && s.pending == NOTHING_PENDING && !s.readPending
                case _ => false
    {
      hide Live, Stream.Accounted, MaxPacketSize;
    }

    method SetMode(newMode: Mode)
      requires Valid() && Enabled(Step.SetMode(newMode))
      modifies s`mode
      ensures Valid() && Goes(old(Now()), Step.SetMode(newMode), Now())
      ensures s.mode == if s.pending == NOTHING_PENDING then newMode else old(s.mode)
    {
      hide Live, Unflagged, Merged, Cells;
      var ok := s.Reconfigure(newMode);
    }

    method Do(step: Step)
      requires Valid() && Enabled(step)
      modifies this, s, s.buf
      ensures Valid() && Goes(old(Now()), step, Now())
      ensures old(s.Raw()) >= 16 && old(s.mode) != DropNewer ==> s.Raw() >= 16
    {
      hide Stream.Valid, Reader, Writer, Stream.History, Stream.CanMakeRoom, Reserves, FirstPiece, Cells;
      match step
      case Reserve(d, n) =>
        var outcome := Reserve(d, n);
      case Commit =>
        Commit();
      case Acquire =>
        Acquire();
      case Release(n) =>
        var k := Release(n);
      case SetMode(m) =>
        SetMode(m);
    }

    /** Any steps in any order, up to the first that is not enabled. What they do is a trace of
        `Goes`, and at every point the reader's piece is in place (`Valid`). The packets of the
        reservations that were granted are written, one by one. */
    method Run(steps: seq<Step>) returns (n: nat, ghost trace: seq<State>)
      requires Valid()
      modifies this, s, s.buf
      ensures Valid() && n <= |steps|
      // It stops at a request of at least `2^32 - 7` bytes or with other data than asked for, at one
      // that a stream dropping packets could not take if it were empty, or when the stream is to
      // drop packets from now on while a piece is held that it does not know of.
      ensures n < |steps| ==>
                match steps[n]
                case Reserve(d, a) =>
                  || a > 0xFFFF_FFF8 || 8 * |d| != (a + 7) / 8 * 8
                  || (s.mode == DropOldest && (a + 7) / 8 * 8 <= s.maxPacket
                      && var bytes := 8 + (a + 7) / 8 * 8;
                         bytes + (if s.write + bytes > s.size then s.size - s.write else 0) + 16 > s.size)
                case SetMode(m) => m == DropOldest && holds && s.pending == NOTHING_PENDING && !s.readPending
                case _ => false
      ensures Follows(Goes, trace, steps[..n]) && trace[0] == old(Now()) && trace[n] == Now()
      ensures old(received) <= received
      ensures InHand(Now()) == InHand(old(Now())) + ItemsAt(Asked, steps[..n], Picked(Grants, trace, steps[..n]))
      ensures old(s.mode) != DropOldest && NeverSets(steps[..n], DropOldest) ==> s.dropped == old(s.dropped)
      ensures old(s.mode) != DropNewer && NeverSets(steps[..n], DropNewer) && old(s.Raw()) >= 16 ==> s.Raw() >= 16
    {
      hide Stream.Valid, Reader, Writer, Stream.History, Stream.CanMakeRoom, Goes, Picked, ItemsAt, InHand;
      n, trace := 0, [Now()];
      while n < |steps| && Enabled(steps[n])
        invariant Valid() && n <= |steps|
        invariant Follows(Goes, trace, steps[..n]) && trace[0] == old(Now()) && trace[n] == Now()
        invariant old(s.mode) != DropNewer && NeverSets(steps[..n], DropNewer) && old(s.Raw()) >= 16 ==>
                    s.mode != DropNewer && s.Raw() >= 16
      {
        NeverSetsSnoc(steps, n);
        Do(steps[n]);
        StepSetsMode(trace[n], steps[n], Now());
        FollowsSnoc(Goes, trace, steps[..n], steps[n], Now());
        assert steps[..n + 1] == steps[..n] + [steps[n]];
        trace := trace + [Now()];
        n := n + 1;
      }
      if n < |steps| { NotEnabledIff(steps[n]); }
      WritesWhatWasGranted(trace, steps[..n]);
      ReceivedGrows(trace, steps[..n]);
      if old(s.mode) != DropOldest && NeverSets(steps[..n], DropOldest) {
        DropsOnlyInDropOldest(trace, steps[..n]);
      }
    }

    /** What `Run` stops at. The policy is switched to dropping old packets while a piece is
        held, as `services/server/common/htbserver.c` may do at any time, and a writer then goes
        on writing. In the end the first packet of the piece is dropped, if and only if the
        stream did not know of the reader and had more than one free cell. */
    method SwitchUnderReader() returns (lost: bool)
      requires Valid() && holds && s.pending == NOTHING_PENDING && s.Roomy()
      modifies s, s.buf
      ensures s.Valid() && s.mode == DropOldest
      ensures lost <==> !old(s.readPending) && old(s.Raw()) != 8
      ensures lost ==> old(s.dropped) + piece[..1] <= s.dropped
      ensures !lost ==> s.dropped == old(s.dropped)
      ensures old(s.readPending) ==> Held()
    {
      hide Cells, Live, Unflagged, Merged;
      HeldEnds();
      ghost var all := s.Queue();
      var ok := s.Reconfigure(DropOldest);
      FillUp(s);
      lost := WriteLargest(s);
      if s.readPending {
        StillHeld(all);
      }
    }

    /** What has left the stream is what the reader has received and what was dropped, each in
        order; the data received is among what was written, and all that is not queued of it
        when nothing was dropped. */
    lemma WhatWasReceived()
      requires Valid()
      ensures Merged(received, s.dropped, s.gone) && |s.gone| == |received| + |s.dropped|
      ensures Subsequence(DataOf(received), written)
      ensures s.dropped == [] ==> received == s.gone && DataOf(received) + DataOf(s.Queue()) == written
    {
      hide Subsequence, Merged, DataOf, Cells;
      MergedParts(received, s.dropped, s.gone);
      DataSubsequence(received, s.gone);
      DataConcat(s.gone, s.Queue());
      SubsequenceOfItself(DataOf(s.Queue()));
      SubsequenceAppend(DataOf(received), DataOf(s.gone), [], DataOf(s.Queue()));
      assert DataOf(received) + [] == DataOf(received);
    }

    lemma PieceIsSome()
      requires Valid() && holds
      ensures piece != [] && len > 0
    {
      AtLeastACell(piece);
    }

    /** A reader that goes on reading empties the stream. When no packet was ever dropped it has
        then received all that was written. */
    method Drain()
      requires Valid()
      modifies this`holds, this`offset, this`len, this`received, this`piece
      modifies s`read, s`r, s`first, s`second, s`gone, s`readPending
      ensures Valid() && !holds && s.Queue() == [] && s.dropped == old(s.dropped)
      ensures s.dropped == [] ==> DataOf(received) == written
    {
      hide Stream.Valid, Reader, Writer, Subsequence, DataOf, Cells, Stream.History, Goes;
      hide Merged, FirstPiece, Held, Chain, PacketType, MaxPacketSize;
      Acquire();
      while holds
        invariant Valid() && (s.Queue() != [] ==> holds) && s.dropped == old(s.dropped)
        decreases |s.Queue()|
      {
        PieceIsSome();
        var k := Release(len);
        Acquire();
      }
      WhatWasReceived();
      DataOfShort([]);
      assert DataOf(received) + [] == DataOf(received);
    }
  }

  lemma StepSetsMode(a: State, step: Step, b: State)
    requires Goes(a, step, b)
    ensures b.v.mode == if step.SetMode? && a.v.pending == NOTHING_PENDING then step.mode else a.v.mode
  {
  }

  lemma NeverSetsSnoc(steps: seq<Step>, n: nat)
    requires n < |steps|
    ensures forall m :: NeverSets(steps[..n + 1], m) <==> NeverSets(steps[..n], m) && steps[n] != SetMode(m)
  {
    forall m
      ensures NeverSets(steps[..n + 1], m) <==> NeverSets(steps[..n], m) && steps[n] != SetMode(m)
    {
      assert steps[..n + 1] == steps[..n] + [steps[n]];
    }
  }

  lemma {:induction false} DataSubsequence(xs: seq<Packet>, ys: seq<Packet>)
    requires Subsequence(xs, ys)
    ensures Subsequence(DataOf(xs), DataOf(ys))
    decreases |ys|
  {
    if ys != [] {
      var one := DataOfOne(ys[0]);
      SubsequenceOfItself(one);
      if xs != [] && xs[0] == ys[0] && Subsequence(xs[1..], ys[1..]) {
        DataSubsequence(xs[1..], ys[1..]);
        SubsequenceAppend(one, one, DataOf(xs[1..]), DataOf(ys[1..]));
      } else {
        DataSubsequence(xs, ys[1..]);
        SubsequenceAppend([], one, DataOf(xs), DataOf(ys[1..]));
        assert [] + DataOf(xs) == DataOf(xs);
      }
    }
  }

  lemma {:induction false} AtLeastACell(ps: seq<Packet>)
    ensures |ps| <= Cells(ps)
  {
    if ps != [] { AtLeastACell(ps[1..]); }
  }
}
