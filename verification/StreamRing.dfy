/** The circular buffer of a transport-layer stream as a value: where the live packets are,
    how much room is left, and what each small change does to them.
    `services/server/common/tlstream.c` */
module StreamRing {
  import opened TlPacket
  import opened PacketChain

  const RESERVED_SPACE: nat := 16

  // ---------- Room ----------

  /** `circbufSpaceLeft`: the room left after two cells are kept back, which can be negative. */
  function SpaceLeft(read: nat, write: nat, size: nat): int {
    if read > write then read - write - RESERVED_SPACE
    else size - (write - read) - RESERVED_SPACE
  }

  /** `GET_TL_MAX_PACKET_SIZE` */
  function MaxPacketSize(size: nat): nat
    requires size < 0x8000_0000
  {
    Align(Min(MAX_PACKET_SIZE, 2 * size / 5))
  }

  function Min(a: nat, b: nat): nat {
    if a < b then a else b
  }

  /** Bytes up to the end of the buffer that have to be padded over. */
  function Pad(write: nat, aligned: nat, size: nat): nat
    requires write <= size
  {
    if size < write + aligned + HDR_SIZE then size - write else 0
  }

  function Needed(write: nat, aligned: nat, size: nat): nat
    requires write <= size
  {
    aligned + HDR_SIZE + Pad(write, aligned, size)
  }

  /** `suggestAllocSize` */
  function SuggestAllocSize(read: nat, write: nat, size: nat, reqMin: nat, maxPacket: nat): (n: nat)
    requires write <= size
    ensures n <= maxPacket
  {
    var keep := HDR_SIZE + reqMin + RESERVED_SPACE;
    var space :=
      if read > write then
        if read - write > keep then read - write - HDR_SIZE - RESERVED_SPACE else 0
      else if size - write > keep then size - write - HDR_SIZE - RESERVED_SPACE
      else if read > keep then read - HDR_SIZE - RESERVED_SPACE
      else 0;
    Min(space, maxPacket)
  }

  /** A packet is put at the write offset, or at the start of the buffer if it would run past the
      end, and always ends at least 16 bytes before the read offset, going round. */
  lemma FitsWhere(read: nat, write: nat, size: nat, aligned: nat)
    requires read < size && write < size
    ensures Needed(write, aligned, size) <= SpaceLeft(read, write, size) <==>
              if write + 8 + aligned > size then read <= write && 8 + aligned + 16 <= read
              else write + 8 + aligned + 16 <= if read > write then read else size + read
    ensures SpaceLeft(read, write, size) == (if read > write then 0 else size) + read - write - 16
    ensures Pad(write, aligned, size) == 0 <==> write + 8 + aligned <= size
    ensures write + 8 + aligned > size ==> write + Pad(write, aligned, size) == size
  {
  }

  /** The suggestion is what one piece of free cells takes besides the header and the 16 bytes
      kept free, or the largest packet. The piece ends at the read offset, or at the end of the
      buffer, or, when that one is too small, it is the one from the start. Nothing is suggested
      exactly when the piece is too small for more than `reqMin` bytes. */
  lemma SuggestionFillsPiece(read: nat, write: nat, size: nat, reqMin: nat, maxPacket: nat)
    requires read < size && write < size
    ensures var n := SuggestAllocSize(read, write, size, reqMin, maxPacket);
            var piece := if read > write then read - write
                         else if size - write > reqMin + 24 then size - write else read;
            && (n == 0 <==> piece <= reqMin + 24 || maxPacket == 0)
            && (n > 0 ==> n <= maxPacket && 8 + n + 16 <= piece && (n == maxPacket || 8 + n + 16 == piece))
  {
  }

  /** No size above `reqMin` that the piece takes is larger than the one suggested; when the
      read offset is ahead, none that fits at all is. */
  lemma NothingLargerFits(read: nat, write: nat, size: nat, reqMin: nat, maxPacket: nat, a: nat)
    requires read < size && write < size && reqMin < a <= maxPacket
    requires if read > write then Needed(write, a, size) <= SpaceLeft(read, write, size)
             else if size - write > reqMin + 24 then write + 8 + a + 16 <= size
             else 8 + a + 16 <= read
    ensures a <= SuggestAllocSize(read, write, size, reqMin, maxPacket)
  {
  }

  ghost predicate NothingLarger(read: nat, write: nat, size: nat, reqMin: nat, maxPacket: nat)
    requires write <= size
  {
    forall a :: reqMin < a <= maxPacket && a % 8 == 0 && Needed(write, a, size) <= SpaceLeft(read, write, size) ==>
      a <= SuggestAllocSize(read, write, size, reqMin, maxPacket)
  }

  /** When the piece up to the end of the buffer is taken, 16 bytes of it are kept free though those
      may be the first ones of the buffer: a packet 8 bytes larger fits, unless the read offset is
      at the start or the largest packet was suggested anyway. */
  lemma LargestIsSuggestedIff(read: nat, write: nat, size: nat, reqMin: nat, maxPacket: nat)
    requires GoodSize(size) && GoodOffset(read, size) && GoodOffset(write, size) && maxPacket % 8 == 0
    requires read > write || size - write > reqMin + 24
    ensures NothingLarger(read, write, size, reqMin, maxPacket) <==>
              read > write || read == 0 || SuggestAllocSize(read, write, size, reqMin, maxPacket) == maxPacket
  {
    var n := SuggestAllocSize(read, write, size, reqMin, maxPacket);
    if read <= write && read != 0 && n != maxPacket {
      FitsWhere(read, write, size, n + 8);
      assert (n + 8) % 8 == 0 && Needed(write, n + 8, size) <= SpaceLeft(read, write, size);
    } else {
      forall a | reqMin < a <= maxPacket && a % 8 == 0 && Needed(write, a, size) <= SpaceLeft(read, write, size)
        ensures a <= n
      {
        FitsWhere(read, write, size, a);
        if read > write || write + 8 + a + 16 <= size { NothingLargerFits(read, write, size, reqMin, maxPacket, a); }
      }
    }
  }

  predicate GoodOffset(offset: nat, size: nat) {
    offset < size && offset % 8 == 0
  }

  predicate GoodSize(size: nat) {
    size % 8 == 0 && 0 < size < 0x8000_0000
  }

  lemma CellOffset(i: nat, n: nat)
    requires i < n
    ensures GoodOffset(8 * i, 8 * n)
  {
  }

  /** Room is counted in whole cells. */
  lemma SpaceInCells(r: nat, w: nat, n: nat)
    ensures SpaceLeft(8 * r, 8 * w, 8 * n) == 8 * (if r > w then r - w - 2 else n - (w - r) - 2)
  {
  }

  /** The room `DROP_OLDEST` makes: what is needed, but at least about a twentieth of the buffer. */
  function RoomToMake(needed: nat, size: nat): nat {
    if 5 * (size / 100) < needed then needed else 5 * (size / 100)
  }

  /** The largest packet is two fifths of the buffer, but not over `PVRSRVTL_MAX_PACKET_SIZE`,
      rounded up to 8. */
  lemma MaxPacketIsTwoFifths(size: nat)
    requires GoodSize(size)
    ensures MaxPacketSize(size) % 8 == 0
    ensures 5 * 0xFFF0 <= 2 * size ==> MaxPacketSize(size) == 0xFFF0
    ensures 2 * size < 5 * 0xFFF0 ==> 2 * size < 5 * (MaxPacketSize(size) + 1) <= 2 * size + 40
  {
  }

  /** An empty stream takes a packet of the maximum size wherever its offsets stand. */
  ghost predicate TakesMaxWhenEmpty(size: nat)
    requires GoodSize(size)
  {
    forall offset :: GoodOffset(offset, size) ==>
      Needed(offset, MaxPacketSize(size), size) <= SpaceLeft(offset, offset, size)
  }

  lemma MaxPacketIsUnderHalf(size: nat)
    requires GoodSize(size)
    ensures MaxPacketSize(size) % 8 == 0 && 0 < MaxPacketSize(size) <= MAX_PACKET_SIZE
    ensures MaxPacketSize(size) <= size
    ensures 2 * MaxPacketSize(size) + 24 <= size <==> size >= 152 || size == 120 || size == 136
  {
    var x := Min(MAX_PACKET_SIZE, 2 * size / 5);
    var m := MaxPacketSize(size);
    assert m == (x + 7) / 8 * 8;
    if size < 192 {
      SmallMaxPacket(size / 8, x, m);
    } else {
      assert 5 * x <= 2 * size && m < x + 8;
    }
  }

  lemma SmallMaxPacket(t: nat, x: nat, m: nat)
    requires 0 < t < 24 && x == 16 * t / 5 && m == (x + 7) / 8 * 8
    ensures 0 < m <= 8 * t && m % 8 == 0
    ensures 2 * m + 24 <= 8 * t <==> t >= 19 || t == 15 || t == 17
  {
  }

  /** The worst case is the offset that leaves exactly the packet's data before the end:
      header and data then go to the start, after as much padding. */
  lemma TakesMaxWhenEmptyIfTwiceFits(size: nat)
    requires GoodSize(size) && MaxPacketSize(size) % 8 == 0 && 0 < MaxPacketSize(size) <= size
    ensures TakesMaxWhenEmpty(size) <==> 2 * MaxPacketSize(size) + 24 <= size
  {
    hide MaxPacketSize;
    var m := MaxPacketSize(size);
    if 2 * m + 24 > size {
      var offset := size - m;
      assert GoodOffset(offset, size);
      assert Pad(offset, m, size) == m && SpaceLeft(offset, offset, size) == size - 16;
    } else {
      forall offset | GoodOffset(offset, size)
        ensures Needed(offset, m, size) <= SpaceLeft(offset, offset, size)
      {
        PaddingIsUnderPacket(offset, m, size);
        assert SpaceLeft(offset, offset, size) == size - 16;
      }
    }
  }

  lemma PaddingIsUnderPacket(write: nat, a: nat, size: nat)
    requires GoodSize(size) && GoodOffset(write, size) && a % 8 == 0
    ensures Pad(write, a, size) <= a && Pad(write, a, size) % 8 == 0
  {
  }

  /** The divisor 2.5 of the maximum packet size does what its comment promises for every
      buffer of at least 152 bytes, and below that for two sizes only. */
  lemma TakesMaxWhenEmptyIff(size: nat)
    requires GoodSize(size)
    ensures TakesMaxWhenEmpty(size) <==> size >= 152 || size == 120 || size == 136
  {
    MaxPacketIsUnderHalf(size);
    TakesMaxWhenEmptyIfTwiceFits(size);
  }

  /** A stream of 128 bytes does not take its own maximum packet when empty. */
  lemma SmallStreamFails()
    ensures !TakesMaxWhenEmpty(128)
  {
    TakesMaxWhenEmptyIff(128);
  }

  lemma NeededWhenEmpty(w: nat, a: nat, n: nat, maxPacket: nat)
    requires w < n && 8 * n < 0x8000_0000 && a % 8 == 0 && a <= maxPacket && 2 * maxPacket + 24 <= 8 * n
    ensures Needed(8 * w, a, 8 * n) <= 8 * n - 16
    ensures Pad(8 * w, a, 8 * n) <= a && Pad(8 * w, a, 8 * n) % 8 == 0
  {
    CellOffset(w, n);
    PaddingIsUnderPacket(8 * w, a, 8 * n);
  }

  lemma PaddingInCells(w: nat, a: nat, n: nat)
    requires w < n && 8 * n < 0x8000_0000 && a % 8 == 0
    ensures Pad(8 * w, a, 8 * n) <= a && Pad(8 * w, a, 8 * n) % 8 == 0
  {
    CellOffset(w, n);
    PaddingIsUnderPacket(8 * w, a, 8 * n);
  }

  lemma SuggestedIsMultiple(r: nat, w: nat, n: nat, reqMin: nat, m: nat)
    requires w <= n
    ensures SuggestAllocSize(8 * r, 8 * w, 8 * n, reqMin, 8 * m) % 8 == 0
  {
  }

  /** Everything up to the suggested size can be reserved at once: no packet that small
      needs more than the room that is left. */
  lemma SuggestionFits(read: nat, write: nat, size: nat, reqMin: nat, maxPacket: nat, req: nat)
    requires GoodSize(size) && GoodOffset(read, size) && GoodOffset(write, size)
    requires maxPacket % 8 == 0 && maxPacket <= MAX_PACKET_SIZE
    requires 0 < req <= SuggestAllocSize(read, write, size, reqMin, maxPacket)
    ensures Align(req) <= maxPacket
    ensures Needed(write, Align(req), size) <= SpaceLeft(read, write, size)
  {
    var suggested := SuggestAllocSize(read, write, size, reqMin, maxPacket);
    assert read == 8 * (read / 8) && write == 8 * (write / 8);
    assert size == 8 * (size / 8) && maxPacket == 8 * (maxPacket / 8);
    SuggestedIsMultiple(read / 8, write / 8, size / 8, reqMin, maxPacket / 8);
    hide SuggestAllocSize, Align, Needed, SpaceLeft;
    AlignIsBelowMultiple(req, suggested);
    SmallEnoughFits(read, write, size, Align(req), reqMin, maxPacket);
  }

  /** The same for every size at once, with the offsets in cells. */
  lemma EverySuggestionFits(r: nat, w: nat, n: nat, reqMin: nat, m: nat)
    requires r < n && w < n && 8 * n < 0x8000_0000 && 8 * m <= MAX_PACKET_SIZE
    ensures forall req: U32 :: 0 < req <= SuggestAllocSize(8 * r, 8 * w, 8 * n, reqMin, 8 * m) ==>
              Align(req) <= 8 * m && Needed(8 * w, Align(req), 8 * n) <= SpaceLeft(8 * r, 8 * w, 8 * n)
  {
    CellOffset(r, n);
    CellOffset(w, n);
    forall req: U32 | 0 < req <= SuggestAllocSize(8 * r, 8 * w, 8 * n, reqMin, 8 * m)
      ensures Align(req) <= 8 * m && Needed(8 * w, Align(req), 8 * n) <= SpaceLeft(8 * r, 8 * w, 8 * n)
    {
      SuggestionFits(8 * r, 8 * w, 8 * n, reqMin, 8 * m, req);
    }
  }

  lemma AlignIsBelowMultiple(x: nat, m: nat)
    requires x <= m <= MAX_PACKET_SIZE && m % 8 == 0
    ensures Align(x) <= m && Align(x) % 8 == 0
  {
  }

  lemma SmallEnoughFits(read: nat, write: nat, size: nat, a: nat, reqMin: nat, maxPacket: nat)
    requires GoodSize(size) && GoodOffset(read, size) && GoodOffset(write, size)
    requires 0 < a <= SuggestAllocSize(read, write, size, reqMin, maxPacket)
    ensures Needed(write, a, size) <= SpaceLeft(read, write, size)
  {
  }

  // ---------- Live packets ----------

  /** The live packets, in cells: `first` from the read offset, `second` from the start of the
      buffer when the write offset has wrapped behind the read offset. */
  ghost predicate Live(buf: seq<Cell>, r: nat, w: nat, first: seq<Packet>, second: seq<Packet>) {
    && r < |buf| && w < |buf|
    && if r <= w then Chain(buf, r, w, first) && second == []
       else Chain(buf, r, |buf|, first) && Chain(buf, 0, w, second)
  }

  /** Cells that no live packet occupies. */
  predicate Free(n: nat, r: nat, w: nat, k: nat) {
    if r <= w then (w <= k < n || k < r) else w <= k < r
  }

  lemma LiveFrame(buf: seq<Cell>, buf': seq<Cell>, r: nat, w: nat, first: seq<Packet>, second: seq<Packet>)
    requires Live(buf, r, w, first, second) && |buf'| == |buf|
    requires forall k :: 0 <= k < |buf| && !Free(|buf|, r, w, k) ==> buf'[k] == buf[k]
    ensures Live(buf', r, w, first, second)
  {
    if r <= w {
      ChainFrame(buf, buf', r, w, first);
    } else {
      ChainFrame(buf, buf', r, |buf|, first);
      ChainFrame(buf, buf', 0, w, second);
    }
  }

  /** Passing over the packet at the read offset, wrapping at the end of the buffer. */
  lemma LivePass(buf: seq<Cell>, r: nat, w: nat, first: seq<Packet>, second: seq<Packet>)
    requires Live(buf, r, w, first, second) && r != w
    ensures first != [] && HeaderOk(buf[r])
    ensures var next := r + Span(buf[r].lo);
            && next <= |buf|
            && (next < |buf| ==> Live(buf, next, w, first[1..], second))
            && (next == |buf| ==> first[1..] == [] && Live(buf, 0, w, second, []))
  {
    var next := r + Span(buf[r].lo);
    ChainCells(buf, next, if r <= w then w else |buf|, first[1..]);
  }

  function ReleasedCell(n: nat, r: nat, first: seq<Packet>, k: nat): nat
    requires k <= |first| && 0 < n && r + Cells(first[..k]) <= n
  {
    Wrap(r + Cells(first[..k]), n)
  }

  function ReleasedFirst(n: nat, r: nat, first: seq<Packet>, second: seq<Packet>, k: nat): seq<Packet>
    requires k <= |first|
  {
    if r + Cells(first[..k]) == n then second else first[k..]
  }

  function ReleasedSecond(n: nat, r: nat, first: seq<Packet>, second: seq<Packet>, k: nat): seq<Packet>
    requires k <= |first|
  {
    if r + Cells(first[..k]) == n then [] else second
  }

  /** Releasing the first `k` packets of the piece that starts at the read offset. */
  lemma LiveRelease(buf: seq<Cell>, r: nat, w: nat, first: seq<Packet>, second: seq<Packet>, k: nat)
    requires Live(buf, r, w, first, second) && k <= |first|
    ensures r + Cells(first[..k]) <= (if r <= w then w else |buf|)
    ensures k < |first| ==> r + Cells(first[..k]) < |buf| && HeaderOk(buf[r + Cells(first[..k])])
    ensures Live(buf, ReleasedCell(|buf|, r, first, k), w, ReleasedFirst(|buf|, r, first, second, k),
                 ReleasedSecond(|buf|, r, first, second, k))
  {
    var end := if r <= w then w else |buf|;
    ChainDrop(buf, r, end, first, k);
    if k == |first| {
      assert first[..k] == first && first[k..] == [];
    } else {
      assert first[k..] != [];
    }
  }

  lemma ReleasedQueue(buf: seq<Cell>, r: nat, w: nat, first: seq<Packet>, second: seq<Packet>, k: nat)
    requires Live(buf, r, w, first, second) && k <= |first|
    ensures ReleasedFirst(|buf|, r, first, second, k) + ReleasedSecond(|buf|, r, first, second, k)
         == (first + second)[k..]
    ensures (first + second)[..k] == first[..k]
  {
    LiveRelease(buf, r, w, first, second, k);
    if r + Cells(first[..k]) == |buf| {
      assert k == |first|;
    }
  }

  /** A list of live packets from the oldest on that ends before the buffer does is in the
      first piece. */
  lemma PrefixIsFirst(buf: seq<Cell>, r: nat, w: nat, first: seq<Packet>, second: seq<Packet>, piece: seq<Packet>)
    requires Live(buf, r, w, first, second) && piece <= first + second && r + Cells(piece) <= |buf|
    ensures piece <= first
  {
    var k := if |piece| <= |first| then |piece| else |first|;
    CellsConcat(piece[..k], piece[k..]);
    assert piece == piece[..k] + piece[k..] && piece[..k] == first[..k];
    assert first[..|first|] == first;
    ChainCells(buf, r, if r <= w then w else |buf|, first);
  }

  /** The cell before the write offset belongs to the newest packet: it is its header, or the
      last cell of its data. */
  lemma NewestCell(buf: seq<Cell>, r: nat, w: nat, first: seq<Packet>, second: seq<Packet>)
    requires Live(buf, r, w, first, second) && first + second != []
    ensures var all, c := first + second, buf[if w > 0 then w - 1 else |buf| - 1];
            var p := all[|all| - 1];
            if p.data == [] then PacketType(c.lo) == p.kind else c == p.data[|p.data| - 1]
  {
    if r > w && second != [] {
      ChainNewest(buf, 0, w, second);
    } else {
      assert first + second == first;
      ChainNewest(buf, r, if r <= w then w else |buf|, first);
      if r > w { ChainCells(buf, 0, w, second); }
    }
  }

  lemma ChainNewest(buf: seq<Cell>, i: nat, j: nat, ps: seq<Packet>)
    requires Chain(buf, i, j, ps) && ps != []
    ensures 0 < j <= |buf|
    ensures var p := ps[|ps| - 1];
            if p.data == [] then PacketType(buf[j - 1].lo) == p.kind else buf[j - 1] == p.data[|p.data| - 1]
  {
    var n := |ps| - 1;
    ChainAt(buf, i, j, ps, n);
    ChainCells(buf, i, j, ps);
    CellsSnoc(ps, n);
    assert ps[..n + 1] == ps;
    var at := i + Cells(ps[..n]);
    hide Chain, HeaderOk;
    if ps[n].data != [] {
      assert buf[at + 1..at + Span(buf[at].lo)][|ps[n].data| - 1] == buf[j - 1];
    }
  }

  /** Releasing packets does not lose room, and releasing any gains at least a cell. */
  lemma ReleasedSpace(r: nat, w: nat, n: nat, cells: nat)
    requires r < n && w < n && r + cells <= (if r <= w then w else n)
    ensures SpaceLeft(8 * Wrap(r + cells, n), 8 * w, 8 * n) == SpaceLeft(8 * r, 8 * w, 8 * n) + 8 * cells
  {
  }

  /** The read offset has been moved past the first `k` of the packets `all`. */
  ghost predicate PassedTo(buf: seq<Cell>, r: nat, w: nat, all: seq<Packet>, k: nat, first: seq<Packet>,
                           second: seq<Packet>) {
    k <= |all| && Live(buf, r, w, first, second) && first + second == all[k..]
  }

  lemma PassStep(buf: seq<Cell>, r: nat, w: nat, all: seq<Packet>, k: nat, first: seq<Packet>, second: seq<Packet>)
    requires PassedTo(buf, r, w, all, k, first, second) && r != w
    ensures first != [] && r + Span(buf[r].lo) <= |buf|
    ensures 8 * (r + Span(buf[r].lo)) == NextPacketAddr(8 * r, buf[r])
    ensures r + Span(buf[r].lo) < |buf| ==> PassedTo(buf, r + Span(buf[r].lo), w, all, k + 1, first[1..], second)
    ensures r + Span(buf[r].lo) == |buf| ==> PassedTo(buf, 0, w, all, k + 1, second, [])
    ensures r < w ==> r + Span(buf[r].lo) <= w
  {
    LivePass(buf, r, w, first, second);
    assert |all[k..]| == |first| + |second|;
    DropFirst(all, k, first, second);
  }

  /** Just `k` of the oldest packets have to go, no fewer, to turn `space` bytes of room into
      `create`. */
  ghost predicate Fewest(all: seq<Packet>, k: nat, space: int, create: nat) {
    && k <= |all| && create <= space + 8 * Cells(all[..k])
    && (k > 0 ==> space + 8 * Cells(all[..k - 1]) < create)
  }

  /** Dropping the first `k` packets leaves at least `needed` bytes and five hundredths of the
      buffer, and dropping one fewer would leave less than one of the two. */
  ghost predicate JustEnough(all: seq<Packet>, k: nat, space: int, needed: nat, size: nat) {
    && k <= |all|
    && (var after := space + 8 * Cells(all[..k]); after >= needed && after >= 5 * (size / 100))
    && (k > 0 ==> var before := space + 8 * Cells(all[..k - 1]); before < needed || before < 5 * (size / 100))
  }

  /** That is what `DROP_OLDEST` does; the part of the buffer is a twentieth, less 5 bytes at most. */
  lemma RoomIsMade(all: seq<Packet>, k: nat, space: int, needed: nat, size: nat)
    requires Fewest(all, k, space, RoomToMake(needed, size))
    ensures JustEnough(all, k, space, needed, size) && 20 * (space + 8 * Cells(all[..k]) + 5) > size
  {
  }

  lemma SomeMustGo(all: seq<Packet>, k: nat, space: int, needed: nat, size: nat)
    requires JustEnough(all, k, space, needed, size) && space < needed
    ensures k > 0
  {
    NoCells(all);
  }

  /** The room gained by passing one packet. */
  lemma PassedRoom(buf: seq<Cell>, r: nat, w: nat, all: seq<Packet>, k: nat, first: seq<Packet>, second: seq<Packet>)
    requires PassedTo(buf, r, w, all, k, first, second) && r != w
    ensures k < |all| && Span(buf[r].lo) == 1 + |all[k].data| && r + Span(buf[r].lo) <= |buf|
    ensures SpaceLeft(8 * Wrap(r + Span(buf[r].lo), |buf|), 8 * w, 8 * |buf|)
         == SpaceLeft(8 * r, 8 * w, 8 * |buf|) + 8 * Span(buf[r].lo)
  {
    PassStep(buf, r, w, all, k, first, second);
    assert all[k] == all[k..][0] == first[0];
    LivePass(buf, r, w, first, second);
  }

  lemma DropFirst(all: seq<Packet>, k: nat, first: seq<Packet>, second: seq<Packet>)
    requires k <= |all| && first != [] && first + second == all[k..]
    ensures k < |all| && first[1..] + second == all[k + 1..]
    ensures first[1..] == [] ==> second + [] == all[k + 1..]
  {
    assert |all[k..]| == |first| + |second|;
    assert all[k + 1..] == all[k..][1..];
    assert (first + second)[1..] == first[1..] + second;
  }

  lemma MarkedConcat(buf: seq<Cell>, r: nat, w: nat, first: seq<Packet>, second: seq<Packet>)
    requires Live(buf, r, w, first, second)
    ensures Marked(first) + second == Marked(first + second)
  {
    if first == [] {
      assert second == [];
    }
  }

  /** The packets without their drop flags. */
  function Unflagged(ps: seq<Packet>): seq<Packet> {
    seq(|ps|, i requires 0 <= i < |ps| => ps[i].(dropped := false))
  }

  lemma UnflaggedMarked(ps: seq<Packet>, qs: seq<Packet>)
    ensures Unflagged(ps + Marked(qs)) == Unflagged(ps + qs)
  {
  }

  lemma UnflaggedSnoc(ps: seq<Packet>, p: Packet)
    requires !p.dropped
    ensures Unflagged(ps + [p]) == Unflagged(ps) + [p]
  {
    assert p.(dropped := false) == p;
  }

  function Marked(ps: seq<Packet>): seq<Packet> {
    if ps == [] then [] else [ps[0].(dropped := true)] + ps[1..]
  }

  /** Setting the drop flag in the header at the read offset; on an empty stream that header
      is not part of any packet. */
  lemma LiveMark(buf: seq<Cell>, r: nat, w: nat, first: seq<Packet>, second: seq<Packet>)
    requires Live(buf, r, w, first, second)
    ensures Live(buf[r := Cell(SetDropped(buf[r].lo), RESERVED)], r, w, Marked(first), second)
  {
    SetDroppedFields(buf[r].lo);
    var buf' := buf[r := Cell(SetDropped(buf[r].lo), RESERVED)];
    if r < w {
      ChainMark(buf, r, w, first);
    } else if r > w {
      ChainMark(buf, r, |buf|, first);
      ChainFrame(buf, buf', 0, w, second);
    }
  }

  lemma ChainMark(buf: seq<Cell>, i: nat, j: nat, ps: seq<Packet>)
    requires Chain(buf, i, j, ps) && i < j
    ensures Chain(buf[i := Cell(SetDropped(buf[i].lo), RESERVED)], i, j, Marked(ps))
  {
    SetDroppedFields(buf[i].lo);
    var buf' := buf[i := Cell(SetDropped(buf[i].lo), RESERVED)];
    var next := i + Span(buf[i].lo);
    ChainFrame(buf, buf', next, j, ps[1..]);
    assert buf'[i + 1..next] == buf[i + 1..next];
    assert Marked(ps)[1..] == ps[1..];
    assert PacketAt(buf', i) == PacketAt(buf, i).(dropped := true);
  }

  /** The source takes the remainder by the size, which for these offsets is the same. */
  lemma WrapIsRemainder(offset: nat, size: nat)
    requires 0 < size && offset <= size
    ensures offset % size == Wrap(offset, size)
  {
  }

  function AppendedFirst(r: nat, w: nat, first: seq<Packet>, p: Packet): seq<Packet> {
    if r <= w then first + [p] else first
  }

  function AppendedSecond(r: nat, w: nat, second: seq<Packet>, p: Packet): seq<Packet> {
    if r <= w then second else second + [p]
  }

  /** A packet written at the write offset becomes live when the offset moves past it. The
      read offset must not be reached, or the full buffer would look empty. */
  lemma LiveAppend(buf: seq<Cell>, r: nat, w: nat, first: seq<Packet>, second: seq<Packet>)
    requires Live(buf, r, w, first, second) && HeaderOk(buf[w]) && w + Span(buf[w].lo) <= |buf|
    requires 8 * Span(buf[w].lo) < SpaceLeft(8 * r, 8 * w, 8 * |buf|) + RESERVED_SPACE
    ensures var p := PacketAt(buf, w);
            && Live(buf, r, Wrap(w + Span(buf[w].lo), |buf|),
                    AppendedFirst(r, w, first, p), AppendedSecond(r, w, second, p))
            && AppendedFirst(r, w, first, p) + AppendedSecond(r, w, second, p) == first + second + [p]
  {
    if r > w {
      ChainSnoc(buf, 0, w, second);
    } else {
      ChainSnoc(buf, r, w, first);
    }
  }

  lemma SpaceAfter(read: nat, write: nat, size: nat, bytes: nat)
    requires read < size && write < size && write + bytes <= size
    requires bytes < SpaceLeft(read, write, size) + RESERVED_SPACE
    ensures SpaceLeft(read, Wrap(write + bytes, size), size) == SpaceLeft(read, write, size) - bytes
  {
  }

  lemma SnocAccounted(gone: seq<Packet>, queue: seq<Packet>, p: Packet)
    requires !p.dropped
    ensures Unflagged(gone + (queue + [p])) == Unflagged(gone + queue) + [p]
  {
    UnflaggedSnoc(gone + queue, p);
    assert gone + (queue + [p]) == (gone + queue) + [p];
  }

  lemma RejoinSplit(gone: seq<Packet>, queue: seq<Packet>, k: nat)
    requires k <= |queue|
    ensures (gone + queue[..k]) + queue[k..] == gone + queue
  {
  }
}
