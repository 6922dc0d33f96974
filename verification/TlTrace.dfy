/** What the calls on a transport-layer stream do, as steps between values: the writer's, the
    reader's and the changes of policy. `services/server/common/tlstream.c` */
module TlTrace {
  import opened TlPacket
  import opened PacketChain
  import opened StreamRing
  import opened TlStream
  import opened Traces

  datatype Step =
    | Reserve(data: seq<Cell>, size: U32)   // and write the data there
    | Commit
    | Acquire
    | Release(packets: nat)                 // read that many packets and give them back
    | SetMode(mode: Mode)

  /** A stream as far as its callers can tell. */
  datatype Sight = Sight(mode: Mode, read: nat, write: nat, size: nat, maxPacket: nat, pending: nat, readPending: bool,
                         queue: seq<Packet>, dropped: seq<Packet>)

  /** The stream with its reader, who holds a piece or not, and its writer, whose packet is
      `packet` while a reservation is pending. */
  datatype State = State(v: Sight, holds: bool, piece: seq<Packet>, received: seq<Packet>, packet: Packet,
                         written: seq<Packet>)

  function DataPacket(data: seq<Cell>, size: U32): Packet {
    Packet(TYPE_DATA, false, size, data)
  }

  // ---------- Reserving ----------

  predicate HasSpace(a: Sight, n: U32) {
    a.write <= a.size && Needed(a.write, Align(n), a.size) <= SpaceLeft(a.read, a.write, a.size)
  }

  /** Space is claimed, after padding if the end of the buffer is too near. */
  ghost predicate Places(a: Sight, n: U32, pads: seq<Packet>, b: Sight) {
    && a.write <= a.size && Padded(pads, Pad(a.write, Align(n), a.size))
    && b == a.(queue := a.queue + pads, write := if pads == [] then a.write else 0, pending := Align(n) + HDR_SIZE)
  }

  /** The fewest oldest packets that make the room are dropped, and the oldest one left tells. */
  ghost predicate MakesRoom(a: Sight, n: U32, k: nat, pads: seq<Packet>, b: Sight) {
    && a.write <= a.size && k <= |a.queue| && GoodOffset(b.read, a.size)
    && (var pad, space := Pad(a.write, Align(n), a.size), SpaceLeft(a.read, a.write, a.size);
        && Padded(pads, pad)
        && JustEnough(a.queue, k, space, Needed(a.write, Align(n), a.size), a.size)
        && SpaceLeft(b.read, b.write, a.size) == space + 8 * Cells(a.queue[..k]) - pad)
    && b == a.(queue := Marked(a.queue[k..]) + pads, dropped := a.dropped + a.queue[..k], read := b.read,
               write := if pads == [] then a.write else 0, pending := Align(n) + HDR_SIZE)
  }

  ghost predicate NotesFailure(a: Sight, noted: bool, b: Sight) {
    && Noted(a.queue, b.queue, noted)
    && b == a.(queue := b.queue, write := WriteAfterNote(a.write, noted, a.size))
  }

  /** What becomes of a request for `n` bytes. */
  ghost predicate Reserves(a: Sight, n: U32, b: Sight) {
    if a.pending != NOTHING_PENDING || a.maxPacket < Align(n) then b == a
    else if HasSpace(a, n) then exists pads :: Places(a, n, pads, b)
    else match a.mode
      case Block => b == a
      case DropOldest =>
        if a.readPending then b == a
        else if SpaceLeft(a.read, a.write, a.size) == -8 then b == a.(queue := Marked(a.queue))
        else exists k, pads :: MakesRoom(a, n, k, pads, b)
      case DropNewer => exists noted :: NotesFailure(a, noted, b)
  }

  predicate Considers(a: Sight, n: U32) {
    a.pending == NOTHING_PENDING && Align(n) <= a.maxPacket
  }

  lemma PlacingReserves(a: Sight, n: U32, pads: seq<Packet>, b: Sight)
    requires Considers(a, n) && HasSpace(a, n) && Places(a, n, pads, b)
    ensures Reserves(a, n, b)
  {
  }

  lemma DroppingReserves(a: Sight, n: U32, k: nat, pads: seq<Packet>, b: Sight)
    requires Considers(a, n) && !HasSpace(a, n) && a.mode == DropOldest && !a.readPending
    requires SpaceLeft(a.read, a.write, a.size) != -8 && MakesRoom(a, n, k, pads, b)
    ensures Reserves(a, n, b)
  {
  }

  lemma NotingReserves(a: Sight, n: U32, noted: bool, b: Sight)
    requires Considers(a, n) && !HasSpace(a, n) && a.mode == DropNewer && NotesFailure(a, noted, b)
    ensures Reserves(a, n, b)
  {
  }

  lemma RefusingReserves(a: Sight, n: U32, b: Sight)
    requires !Considers(a, n) || (!HasSpace(a, n) && (a.mode == Block || a.mode == DropOldest))
    requires Considers(a, n) && a.mode == DropOldest && !a.readPending ==>
               SpaceLeft(a.read, a.write, a.size) == -8 && b == a.(queue := Marked(a.queue))
    requires !(Considers(a, n) && a.mode == DropOldest && !a.readPending) ==> b == a
    ensures Reserves(a, n, b)
  {
  }

  /** The queue only grows behind, unless the oldest packets may be dropped. */
  lemma KeepsQueue(a: Sight, n: U32, b: Sight)
    requires Reserves(a, n, b) && (a.mode != DropOldest || a.readPending)
    ensures a.queue <= b.queue && b.read == a.read
  {
    hide Padded, JustEnough, WriteAfterNote;
  }

  /** A refusal takes no room, unless it is noted. */
  lemma KeepsRoom(a: Sight, n: U32, b: Sight)
    requires Reserves(a, n, b) && a.mode != DropNewer && !Granted(a, b)
    ensures b.read == a.read && b.write == a.write
  {
    hide Padded, JustEnough, WriteAfterNote;
  }

  // ---------- All steps ----------

  /** The contiguous piece at the read offset: all that is queued, or what there is of it before
      the end of the buffer. */
  ghost predicate FirstPiece(v: Sight, piece: seq<Packet>) {
    && piece <= v.queue && v.read + 8 * Cells(piece) <= v.size
    && (piece == v.queue || v.read + 8 * Cells(piece) == v.size)
  }

  function Granted(a: Sight, b: Sight): bool {
    a.pending == NOTHING_PENDING != b.pending
  }

  ghost predicate Goes(a: State, step: Step, b: State) {
    match step
    case Reserve(d, n) =>
      && Reserves(a.v, n, b.v)
      && b == a.(v := b.v, packet := if Granted(a.v, b.v) then DataPacket(d, n) else a.packet)
    case Commit =>
      if a.v.pending == NOTHING_PENDING then b == a
      else b == a.(v := Committed(a.v, a.packet), written := a.written + [a.packet])
    case Acquire =>
      if a.holds then b == a
      else
        && FirstPiece(a.v, b.piece)
        && b == a.(v := Seen(a.v), holds := a.v.queue != [], piece := b.piece)
    case Release(n) =>
      if !a.holds then b == a
      else
        && 0 < a.v.size && a.piece <= a.v.queue
        && var k := Min(n, |a.piece|);
           b == a.(v := Released(a.v, k), holds := false, received := a.received + a.piece[..k])
    case SetMode(m) =>
      b == a.(v := a.v.(mode := if a.v.pending == NOTHING_PENDING then m else a.v.mode))
  }

  lemma AcquireGoes(a: State, b: State)
    requires !a.holds && FirstPiece(a.v, b.piece)
    requires b == a.(v := Seen(a.v), holds := a.v.queue != [], piece := b.piece)
    ensures Goes(a, Acquire, b)
  {
  }

  lemma ReleaseGoes(a: State, n: nat, k: nat, b: State)
    requires a.holds && 0 < a.v.size && a.piece <= a.v.queue && k == Min(n, |a.piece|)
    requires b == a.(v := Released(a.v, k), holds := false, received := a.received + a.piece[..k])
    ensures Goes(a, Release(n), b)
  {
  }

  lemma StaysGoes(a: State, step: Step)
    requires || (step.Acquire? && a.holds) || (step.Release? && !a.holds)
             || (step.Commit? && a.v.pending == NOTHING_PENDING)
    ensures Goes(a, step, a)
  {
  }

  function Committed(v: Sight, p: Packet): Sight {
    v.(queue := v.queue + [p], write := Wrap(v.write + v.pending, v.size), pending := NOTHING_PENDING)
  }

  /** A stream that drops the oldest packets remembers that it is being read. */
  function Seen(v: Sight): Sight {
    v.(readPending := if v.mode == DropOldest then v.queue != [] else v.readPending)
  }

  function Released(v: Sight, k: nat): Sight
    requires 0 < v.size && k <= |v.queue|
  {
    v.(queue := v.queue[k..], read := (v.read + 8 * Cells(v.queue[..k])) % v.size,
       readPending := v.readPending && v.mode != DropOldest)
  }

  // ---------- What a step leaves open ----------

  lemma MoreCells(queue: seq<Packet>, a: nat, b: nat)
    requires a < b <= |queue|
    ensures Cells(queue[..a]) < Cells(queue[..b])
  {
    CellsOfPrefix(queue[..b], a);
    assert queue[..b][..a] == queue[..a];
  }

  lemma PieceIsOne(v: Sight, p: seq<Packet>, p': seq<Packet>)
    requires FirstPiece(v, p) && FirstPiece(v, p')
    ensures p == p'
  {
    hide Cells;
    assert p == v.queue[..|p|] && p' == v.queue[..|p'|] && v.queue == v.queue[..|v.queue|];
    if |p| < |p'| {
      MoreCells(v.queue, |p|, |p'|);
    } else if |p'| < |p| {
      MoreCells(v.queue, |p'|, |p|);
    }
  }

  /** What a call does is determined by the state; only for a reservation it is not, because of the
      contents of padding and of what notes failed writes. */
  lemma StepIsDetermined(a: State, step: Step, b: State, c: State)
    requires Goes(a, step, b) && Goes(a, step, c) && !step.Reserve?
    ensures b == c
  {
    hide FirstPiece, Cells;
    if step.Acquire? && !a.holds { PieceIsOne(a.v, b.piece, c.piece); }
  }

  // ---------- What holds of every trace ----------

  /** A reservation that is granted ... */
  ghost predicate Grants(a: State, step: Step, b: State) {
    step.Reserve? && Granted(a.v, b.v)
  }

  /** ... is for this packet. */
  function Asked(step: Step): Packet {
    if step.Reserve? then DataPacket(step.data, step.size) else DataPacket([], 0)
  }

  /** What has been written, and what is about to be. */
  function InHand(s: State): seq<Packet> {
    s.written + if s.v.pending == NOTHING_PENDING then [] else [s.packet]
  }

  /** In any trace just the packets of the reservations granted are written, in their order. */
  lemma WritesWhatWasGranted(trace: seq<State>, steps: seq<Step>)
    requires Follows(Goes, trace, steps)
    ensures InHand(trace[|steps|]) == InHand(trace[0]) + ItemsAt(Asked, steps, Picked(Grants, trace, steps))
  {
    forall a, step, b | Goes(a, step, b)
      ensures InHand(b) == InHand(a) + if Grants(a, step, b) then [Asked(step)] else []
    {
      StepWrites(a, step, b);
    }
    RunAddsWhatWasGranted(Goes, Grants, InHand, Asked, trace, steps);
  }

  lemma StepWrites(a: State, step: Step, b: State)
    requires Goes(a, step, b)
    ensures InHand(b) == InHand(a) + if Grants(a, step, b) then [Asked(step)] else []
  {
    hide Marked, JustEnough, Cells, FirstPiece, Noted, Padded, Needed, SpaceLeft, WriteAfterNote;
    if step.Reserve? { PendingAfter(a.v, step.size, b.v); }
  }

  lemma PendingAfter(a: Sight, n: U32, b: Sight)
    requires Reserves(a, n, b)
    ensures a.pending != NOTHING_PENDING ==> b.pending == a.pending
  {
  }

  ghost predicate NeverSets(steps: seq<Step>, mode: Mode) {
    forall i :: 0 <= i < |steps| ==> steps[i] != SetMode(mode)
  }

  /** A trace that is never in `DROP_OLDEST` drops nothing. */
  lemma {:induction false} DropsOnlyInDropOldest(trace: seq<State>, steps: seq<Step>)
    requires Follows(Goes, trace, steps) && trace[0].v.mode != DropOldest && NeverSets(steps, DropOldest)
    ensures trace[|steps|].v.mode != DropOldest && trace[|steps|].v.dropped == trace[0].v.dropped
  {
    if steps != [] {
      FollowsPrefix(Goes, trace, steps);
      DropsOnlyInDropOldest(trace[..|steps|], steps[..|steps| - 1]);
      var n := |steps| - 1;
      assert Goes(trace[n], steps[n], trace[n + 1]) && steps[n] != SetMode(DropOldest);
    }
  }

  /** A reader never loses what it has received. */
  lemma ReceivedGrows(trace: seq<State>, steps: seq<Step>)
    requires Follows(Goes, trace, steps)
    ensures trace[0].received <= trace[|steps|].received
  {
    RunExtends(Goes, (s: State) => s.received, trace, steps);
  }
}
