/** Runs of packets laid end to end in a buffer, and the walk that a reader makes over them. */
module PacketChain {
  import opened TlPacket

  /** Cells taken by a packet with this header word. */
  function Span(word: U32): (n: nat)
    ensures n == 1 + (DataLen(word) + 7) / 8
  {
    (HDR_SIZE + Align(DataLen(word))) / 8
  }

  predicate HeaderOk(c: Cell) {
    c.hi == RESERVED && TYPE_UNDEF < PacketType(c.lo) < TYPE_LAST
  }

  lemma HeaderOkIff(c: Cell)
    ensures HeaderOk(c) <==> c.hi == 0x3150_4C54 && 0 < c.lo / 0x100_0000 < 8
  {
  }

  /** The header of a packet whose length fits. */
  lemma HeaderOf(len: U32, kind: nat)
    requires len <= SIZE_MASK && TYPE_UNDEF < kind < TYPE_LAST
    ensures var c := Cell(HdrWord(len, kind), RESERVED);
            && HeaderOk(c) && !IsDropped(c.lo) && DataLen(c.lo) == len && PacketType(c.lo) == kind
            && 8 * Span(c.lo) == HDR_SIZE + Align(len)
  {
    HdrWordFields(len, kind);
  }

  /** `GET_NEXT_PACKET_ADDR` on byte offsets. */
  function NextPacketAddr(offset: nat, c: Cell): nat {
    offset + HDR_SIZE + Align(DataLen(c.lo))
  }

  function PacketAt(buf: seq<Cell>, i: nat): Packet
    requires i < |buf| && i + Span(buf[i].lo) <= |buf|
  {
    Packet(PacketType(buf[i].lo), IsDropped(buf[i].lo), DataLen(buf[i].lo), buf[i + 1..i + Span(buf[i].lo)])
  }

  /** The cells from `i` up to `j` hold exactly the packets `ps`. */
  ghost predicate Chain(buf: seq<Cell>, i: nat, j: nat, ps: seq<Packet>)
    decreases |ps|
  {
    j <= |buf| &&
    if ps == [] then i == j
    else
      && i < j && HeaderOk(buf[i]) && i + Span(buf[i].lo) <= j
      && ps[0] == PacketAt(buf, i)
      && Chain(buf, i + Span(buf[i].lo), j, ps[1..])
  }

  /** Cells that a list of packets takes. */
  function Cells(ps: seq<Packet>): nat {
    if ps == [] then 0 else 1 + |ps[0].data| + Cells(ps[1..])
  }

  lemma {:induction false} ChainCells(buf: seq<Cell>, i: nat, j: nat, ps: seq<Packet>)
    requires Chain(buf, i, j, ps)
    ensures j == i + Cells(ps)
    decreases |ps|
  {
    if ps != [] { ChainCells(buf, i + Span(buf[i].lo), j, ps[1..]); }
  }

  /** Only the cells of the run matter. */
  lemma {:induction false} ChainFrame(buf: seq<Cell>, buf': seq<Cell>, i: nat, j: nat, ps: seq<Packet>)
    requires Chain(buf, i, j, ps) && j <= |buf'|
    requires forall k :: i <= k < j ==> buf[k] == buf'[k]
    ensures Chain(buf', i, j, ps)
    decreases |ps|
  {
    if ps != [] {
      var n := i + Span(buf[i].lo);
      assert buf[i + 1..n] == buf'[i + 1..n];
      ChainCells(buf, n, j, ps[1..]);
      ChainFrame(buf, buf', n, j, ps[1..]);
    }
  }

  lemma {:induction false} ChainConcat(buf: seq<Cell>, i: nat, m: nat, j: nat, ps: seq<Packet>, qs: seq<Packet>)
    requires Chain(buf, i, m, ps) && Chain(buf, m, j, qs)
    ensures Chain(buf, i, j, ps + qs)
    decreases |ps|
  {
    ChainCells(buf, m, j, qs);
    if ps == [] {
      assert ps + qs == qs;
    } else {
      var n := i + Span(buf[i].lo);
      ChainCells(buf, n, m, ps[1..]);
      ChainConcat(buf, n, m, j, ps[1..], qs);
      var all := ps + qs;
      assert all[0] == ps[0] && all[1..] == ps[1..] + qs;
    }
  }

  lemma ChainSingle(buf: seq<Cell>, i: nat)
    requires i < |buf| && HeaderOk(buf[i]) && i + Span(buf[i].lo) <= |buf|
    ensures Chain(buf, i, i + Span(buf[i].lo), [PacketAt(buf, i)])
  {
    assert [PacketAt(buf, i)][1..] == [];
  }

  lemma ChainSnoc(buf: seq<Cell>, i: nat, j: nat, ps: seq<Packet>)
    requires Chain(buf, i, j, ps) && j < |buf| && HeaderOk(buf[j]) && j + Span(buf[j].lo) <= |buf|
    ensures Chain(buf, i, j + Span(buf[j].lo), ps + [PacketAt(buf, j)])
  {
    ChainSingle(buf, j);
    ChainConcat(buf, i, j, j + Span(buf[j].lo), ps, [PacketAt(buf, j)]);
  }

  /** Dropping the first `k` packets. */
  lemma {:induction false} ChainDrop(buf: seq<Cell>, i: nat, j: nat, ps: seq<Packet>, k: nat)
    requires Chain(buf, i, j, ps) && k <= |ps|
    ensures i + Cells(ps[..k]) <= j && Chain(buf, i + Cells(ps[..k]), j, ps[k..])
    ensures k < |ps| ==> i + Cells(ps[..k]) < j && HeaderOk(buf[i + Cells(ps[..k])])
    decreases |ps|
  {
    if k == 0 {
      assert ps[..0] == [] && ps[0..] == ps;
      ChainCells(buf, i, j, ps);
    } else {
      var n := i + Span(buf[i].lo);
      assert i + 1 + |ps[0].data| == n && Chain(buf, n, j, ps[1..]);
      hide Chain, PacketAt, HeaderOk, Span;
      ChainDrop(buf, n, j, ps[1..], k - 1);
      assert ps[..k][1..] == ps[1..][..k - 1] && ps[1..][k - 1..] == ps[k..] && ps[..k][0] == ps[0];
    }
  }

  lemma NoCells(ps: seq<Packet>)
    ensures Cells(ps[..0]) == 0
  {
  }

  lemma {:induction false} CellsSnoc(ps: seq<Packet>, k: nat)
    requires k < |ps|
    ensures Cells(ps[..k + 1]) == Cells(ps[..k]) + 1 + |ps[k].data|
  {
    if k == 0 {
      assert ps[..1][1..] == [];
    } else {
      CellsSnoc(ps[1..], k - 1);
      assert ps[..k + 1][1..] == ps[1..][..k] && ps[..k][1..] == ps[1..][..k - 1];
    }
  }

  lemma {:induction false} CellsConcat(ps: seq<Packet>, qs: seq<Packet>)
    ensures Cells(ps + qs) == Cells(ps) + Cells(qs)
    ensures qs != [] ==> Cells(qs) > 0
  {
    if ps == [] {
      assert ps + qs == qs;
    } else {
      CellsConcat(ps[1..], qs);
      assert (ps + qs)[1..] == ps[1..] + qs;
    }
  }

  /** A reader that has passed `n` packets stands at the next one and steps past it. */
  lemma ChainAt(buf: seq<Cell>, i: nat, j: nat, ps: seq<Packet>, n: nat)
    requires Chain(buf, i, j, ps) && n < |ps|
    ensures var at := i + Cells(ps[..n]);
            && at < j <= |buf| && at + Span(buf[at].lo) <= j && PacketAt(buf, at) == ps[n]
            && NextPacketAddr(8 * at, buf[at]) == 8 * (i + Cells(ps[..n + 1]))
  {
    ChainDrop(buf, i, j, ps, n);
    CellsSnoc(ps, n);
    assert ps[n..][0] == ps[n];
  }

  lemma CellsOfPrefix(ps: seq<Packet>, n: nat)
    requires n <= |ps|
    ensures Cells(ps[..n]) <= Cells(ps) && (Cells(ps[..n]) == Cells(ps) <==> n == |ps|)
  {
    CellsConcat(ps[..n], ps[n..]);
    assert ps[..n] + ps[n..] == ps;
    if n == |ps| { assert ps[..n] == ps; }
  }

  // ---------- The reader ----------

  datatype WalkResult = Walked(packets: seq<Packet>) | Lost

  /** A reader handed the bytes from `i` to `j` steps with `GET_NEXT_PACKET_ADDR` until it
      stands at the end; it is lost when a step takes it past the end. */
  function Walk(buf: seq<Cell>, i: nat, j: nat): WalkResult
    requires i <= j <= |buf|
    decreases j - i
  {
    if i == j then Walked([])
    else
      var next := NextPacketAddr(8 * i, buf[i]) / 8;
      if next > j then Lost
      else
        match Walk(buf, next, j)
        case Walked(ps) => Walked([PacketAt(buf, i)] + ps)
        case Lost => Lost
  }

  /** The walk over a run returns its packets, no more and no fewer. */
  lemma {:induction false} WalkReadsChain(buf: seq<Cell>, i: nat, j: nat, ps: seq<Packet>)
    requires Chain(buf, i, j, ps)
    ensures i <= j && Walk(buf, i, j) == Walked(ps)
    decreases |ps|
  {
    if ps != [] {
      WalkReadsChain(buf, i + Span(buf[i].lo), j, ps[1..]);
      assert ps == [ps[0]] + ps[1..];
    }
  }

  // ---------- Layout, and what it means ----------

  predicate PacketOk(p: Packet) {
    TYPE_UNDEF < p.kind < TYPE_LAST && p.len <= MAX_PACKET_SIZE && 8 * |p.data| == Align(p.len)
  }

  predicate PacketsOk(ps: seq<Packet>) {
    forall i :: 0 <= i < |ps| ==> PacketOk(ps[i])
  }

  /** The header word, with the drop flag set afterwards. */
  function Header(p: Packet): U32
    requires PacketOk(p)
  {
    if p.dropped then SetDropped(HdrWord(p.len, p.kind)) else HdrWord(p.len, p.kind)
  }

  function PacketCells(ps: seq<Packet>): seq<Cell>
    requires PacketsOk(ps)
  {
    if ps == [] then [] else [Cell(Header(ps[0]), RESERVED)] + ps[0].data + PacketCells(ps[1..])
  }

  lemma HeaderFields(p: Packet)
    requires PacketOk(p)
    ensures DataLen(Header(p)) == p.len && PacketType(Header(p)) == p.kind && IsDropped(Header(p)) == p.dropped
    ensures Span(Header(p)) == 1 + |p.data|
  {
    HdrWordFields(p.len, p.kind);
    SetDroppedFields(HdrWord(p.len, p.kind));
  }

  lemma {:induction false} ChainShift(pre: seq<Cell>, buf: seq<Cell>, i: nat, j: nat, ps: seq<Packet>)
    requires Chain(buf, i, j, ps)
    ensures Chain(pre + buf, |pre| + i, |pre| + j, ps)
    decreases |ps|
  {
    if ps != [] {
      var n := i + Span(buf[i].lo);
      assert (pre + buf)[|pre| + i + 1..|pre| + n] == buf[i + 1..n];
      ChainShift(pre, buf, n, j, ps[1..]);
    }
  }

  lemma {:induction false} LayoutIsChain(ps: seq<Packet>)
    requires PacketsOk(ps)
    ensures Chain(PacketCells(ps), 0, |PacketCells(ps)|, ps)
  {
    if ps != [] {
      hide Header, PacketOk;
      var first, rest := [Cell(Header(ps[0]), RESERVED)] + ps[0].data, PacketCells(ps[1..]);
      HeaderFields(ps[0]);
      assert PacketOk(ps[0]);
      LayoutIsChain(ps[1..]);
      ChainShift(first, rest, 0, |rest|, ps[1..]);
      assert PacketCells(ps) == first + rest && (first + rest)[1..|first|] == ps[0].data;
    }
  }

  /** A list of packets that is laid out is walked back to the same list. */
  lemma WalkInvertsLayout(ps: seq<Packet>)
    requires PacketsOk(ps)
    ensures Walk(PacketCells(ps), 0, |PacketCells(ps)|) == Walked(ps)
  {
    LayoutIsChain(ps);
    WalkReadsChain(PacketCells(ps), 0, |PacketCells(ps)|, ps);
  }

  /** Every step moves on, by whole cells, so headers stay on 8 bytes. */
  lemma StepsAreAligned(offset: nat, c: Cell)
    requires offset % 8 == 0
    ensures NextPacketAddr(offset, c) >= offset + 8 && NextPacketAddr(offset, c) % 8 == 0
  {
    var a := Align(DataLen(c.lo));
    assert offset + HDR_SIZE + a == 8 * (offset / 8 + 1 + a / 8);
  }

  /** What the stream is for: the packets without padding and without drop flags. */
  function Meaning(ps: seq<Packet>): seq<Packet> {
    if ps == [] then [] else MeaningOfOne(ps[0]) + Meaning(ps[1..])
  }

  function MeaningOfOne(p: Packet): seq<Packet> {
    if p.kind == TYPE_PADDING then [] else [p.(dropped := false)]
  }

  /** Only padding is left out and only flags are cleared: a list without either means itself. */
  lemma {:induction false} MeaningOfPlain(ps: seq<Packet>)
    requires forall i :: 0 <= i < |ps| ==> ps[i].kind != TYPE_PADDING && !ps[i].dropped
    ensures Meaning(ps) == ps
  {
    if ps != [] {
      assert ps[0].(dropped := false) == ps[0];
      MeaningOfPlain(ps[1..]);
      assert ps == [ps[0]] + ps[1..];
    }
  }

  /** Each packet of a list is in its meaning, without its flag, unless it is padding, and nothing
      else is. */
  lemma {:induction false} MeaningKeeps(ps: seq<Packet>)
    ensures forall p :: p in Meaning(ps) <==>
              p.kind != TYPE_PADDING && !p.dropped && (p in ps || p.(dropped := true) in ps)
  {
    if ps != [] {
      MeaningKeeps(ps[1..]);
      assert ps == [ps[0]] + ps[1..];
    }
  }

  /** A packet list with padding put in and drop flags changed anywhere. */
  ghost predicate Disguised(ps: seq<Packet>, qs: seq<Packet>)
    decreases |qs|
  {
    if qs == [] then ps == []
    else
      || (qs[0].kind == TYPE_PADDING && Disguised(ps, qs[1..]))
      || (ps != [] && qs[0].(dropped := ps[0].dropped) == ps[0] && Disguised(ps[1..], qs[1..]))
  }

  /** The disguised list, laid out and walked, means the same as the list itself. */
  lemma {:induction false} DisguiseKeepsMeaning(ps: seq<Packet>, qs: seq<Packet>)
    requires Disguised(ps, qs)
    ensures Meaning(qs) == Meaning(ps)
    decreases |qs|
  {
    if qs != [] {
      if qs[0].kind == TYPE_PADDING && Disguised(ps, qs[1..]) {
        DisguiseKeepsMeaning(ps, qs[1..]);
      } else {
        DisguiseKeepsMeaning(ps[1..], qs[1..]);
      }
    }
  }

  lemma WalkOfDisguise(ps: seq<Packet>, qs: seq<Packet>)
    requires PacketsOk(qs) && Disguised(ps, qs)
    ensures Walk(PacketCells(qs), 0, |PacketCells(qs)|).Walked?
    ensures Meaning(Walk(PacketCells(qs), 0, |PacketCells(qs)|).packets) == Meaning(ps)
  {
    WalkInvertsLayout(qs);
    DisguiseKeepsMeaning(ps, qs);
  }
}
