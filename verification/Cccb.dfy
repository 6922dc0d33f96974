/** The client circular command buffer: the host side of `services/server/devices/rgxccb.c`,
    and the firmware side as the control structure of `include/rogue/rgx_fwif_shared.h`
    describes it. */
module Cccb {
  import opened Bits
  import opened TlPacket
  import opened CccbRing
  import opened CccbTrace
  import opened Traces

  const CMD_TYPE_NULL: U32 := 0x2ABC_80D2
  const CMD_TYPE_FENCE: U32 := 0x2ABC_00D4
  const MIN_SAFE_CCB_SIZE_LOG2: nat := 13
  const MAX_SAFE_CCB_SIZE_LOG2: nat := 18

  // ---------- Space ----------

  /** `GET_CCB_SPACE`, with the wrap-around of its 32-bit operands. */
  function GetCcbSpace(woff: U32, roff: U32, size: U32): nat
    requires size > 0
  {
    And((roff - woff + WORD + (size - 1)) % WORD, size - 1)
  }

  /** `UPDATE_CCB_OFFSET` */
  function UpdateCcbOffset(off: U32, packet: U32, size: U32): nat
    requires size > 0
  {
    And(WrappingSum(off, packet), size - 1)
  }

  ghost predicate IsCcbSize(size: nat) {
    size <= 0x4_0000 && exists e :: MIN_SAFE_CCB_SIZE_LOG2 <= e <= MAX_SAFE_CCB_SIZE_LOG2 && Pow2(e) == size
  }

  lemma CcbSizes(size: nat)
    requires IsCcbSize(size)
    ensures IsMask(size - 1) && size % 8 == 0 && 8192 <= size <= 0x4_0000
    ensures size * (WORD / size) == WORD
  {
    var e :| MIN_SAFE_CCB_SIZE_LOG2 <= e <= MAX_SAFE_CCB_SIZE_LOG2 && Pow2(e) == size;
    assert Pow2(13) == 8192 && Pow2(14) == 0x4000 && Pow2(15) == 0x8000;
    assert Pow2(16) == 0x1_0000 && Pow2(17) == 0x2_0000 && Pow2(18) == 0x4_0000;
  }

  lemma SmallestSize()
    ensures IsCcbSize(8192)
  {
    assert Pow2(13) == 8192;
  }

  /** Of two sizes the smaller can be doubled. */
  lemma DoubledSize(size: nat, limit: nat)
    requires IsCcbSize(size) && IsCcbSize(limit) && size < limit
    ensures IsCcbSize(2 * size) && 2 * size <= limit
  {
    var e :| MIN_SAFE_CCB_SIZE_LOG2 <= e <= MAX_SAFE_CCB_SIZE_LOG2 && Pow2(e) == size;
    var l :| MIN_SAFE_CCB_SIZE_LOG2 <= l <= MAX_SAFE_CCB_SIZE_LOG2 && Pow2(l) == limit;
    if l < e { Pow2Monotone(l, e); }
    Pow2Monotone(e, l);
    assert Pow2(e + 1) == 2 * size;
  }

  lemma ModOfMod(y: nat, d: nat, m: nat)
    requires d > 0 && m > 0
    ensures d * m > 0 && (y % (d * m)) % d == y % d
  {
    var q, r := y / (d * m), y % (d * m);
    assert y == (q * m + r / d) * d + r % d;
    DivModUnique(y, d, q * m + r / d, r % d);
  }

  lemma DistanceMod(r: nat, w: nat, size: nat, m: nat)
    requires r < size && w < size && m > 0
    ensures (r - w + m * size + (size - 1)) % size == (if r > w then r - w else size - (w - r)) - 1
  {
    if r > w {
      DivModUnique(r - w + m * size + (size - 1), size, m + 1, r - w - 1);
    } else {
      DivModUnique(r - w + m * size + (size - 1), size, m, size - (w - r) - 1);
    }
  }

  /** The macro counts the free bytes less one, so that R == W can only mean empty. */
  lemma SpaceIsFree(q: Queue)
    requires IsCcbSize(8 * q.n) && q.r < q.n && q.w < q.n
    ensures GetCcbSpace(8 * q.w, 8 * q.r, 8 * q.n) == 8 * Free(q) - 1
  {
    hide IsCcbSize, And, IsMask;
    var size := 8 * q.n;
    CcbSizes(size);
    var m := WORD / size;
    var y := 8 * q.r - 8 * q.w + WORD + (size - 1);
    AndMask(y % WORD, size - 1);
    ModOfMod(y, size, m);
    DistanceMod(8 * q.r, 8 * q.w, size, m);
  }

  lemma OffsetAdvances(q: Queue, packet: U32)
    requires IsCcbSize(8 * q.n) && q.w < q.n && 8 * q.w + packet <= 8 * q.n
    ensures UpdateCcbOffset(8 * q.w, packet, 8 * q.n) == Wrap(8 * q.w + packet, 8 * q.n)
  {
    CcbSizes(8 * q.n);
    AndMask(8 * q.w + packet, 8 * q.n - 1);
    BelowOrAt(8 * q.w + packet, 8 * q.n);
  }

  lemma AlignedSum(start: nat, bytes: nat)
    requires start % 16 == 0
    ensures (start + bytes) % 16 == 0 <==> bytes % 16 == 0
  {
    DivModUnique(start + bytes, 16, start / 16 + bytes / 16, bytes % 16);
  }

  /** What a job brings along, as far as its size depends on it: the sync objects to wait for
      and to update, the bytes of the command itself, and which of four more commands, of 8
      bytes of data each, go with it. */
  datatype Job = Job(fences: nat, updates: nat, bytes: nat, cacheInval: bool, timeBefore: bool, timeAfter: bool,
                     rmw: bool)

  /** A command with so many bytes of data, rounded up to 8. */
  function CmdSize(bytes: nat): nat {
    (bytes + PADDING_COMMAND_SIZE + 7) / 8 * 8
  }

  function SyncCmdSize(count: nat): nat {
    if count == 0 then 0 else CmdSize(8 * count)
  }

  function FixedCmdSize(present: bool): nat {
    if present then CmdSize(8) else 0
  }

  /** `RGXCmdHelperGetCommandSize` over sums that fit a word. */
  function CommandSize(jobs: seq<Job>): nat {
    if jobs == [] then 0 else JobSize(jobs[0]) + CommandSize(jobs[1..])
  }

  function JobSize(j: Job): nat {
    SyncCmdSize(j.fences) + FixedCmdSize(j.cacheInval) + CmdSize(j.bytes) + SyncCmdSize(j.updates)
    + FixedCmdSize(j.timeBefore) + FixedCmdSize(j.timeAfter) + FixedCmdSize(j.rmw)
  }

  /** The sync objects, the 8-byte words of the commands themselves and the additional commands. */
  function Pieces(jobs: seq<Job>): nat {
    if jobs == [] then 0 else PiecesOf(jobs[0]) + Pieces(jobs[1..])
  }

  function PiecesOf(j: Job): nat {
    j.fences + j.updates + (j.bytes + 7) / 8 + One(j.cacheInval) + One(j.timeBefore) + One(j.timeAfter) + One(j.rmw)
  }

  function One(b: bool): nat {
    if b then 1 else 0
  }

  /** The commands that a job consists of. */
  function Commands(jobs: seq<Job>): nat {
    if jobs == [] then 0 else CommandsOf(jobs[0]) + Commands(jobs[1..])
  }

  function CommandsOf(j: Job): nat {
    One(j.fences > 0) + One(j.updates > 0) + 1
    + One(j.cacheInval) + One(j.timeBefore) + One(j.timeAfter) + One(j.rmw)
  }

  /** What is acquired for a submission is 16 bytes for each command and 8 for each piece; it is a
      multiple of 16 exactly when the number of pieces is even. */
  lemma SizeIsAlignedIff(jobs: seq<Job>)
    ensures CommandSize(jobs) == 8 * Pieces(jobs) + 16 * Commands(jobs)
    ensures CommandSize(jobs) % 16 == 0 <==> Pieces(jobs) % 2 == 0
  {
    SizeInWords(jobs);
    hide CommandSize, Pieces, Commands;
    var p, k := Pieces(jobs), Commands(jobs);
    DivModUnique(CommandSize(jobs), 16, p / 2 + k, 8 * (p % 2));
  }

  lemma {:induction false} SizeInWords(jobs: seq<Job>)
    ensures CommandSize(jobs) == 8 * (Pieces(jobs) + 2 * Commands(jobs))
  {
    hide JobSize, PiecesOf, CommandsOf;
    if jobs != [] {
      SizeInWords(jobs[1..]);
      JobSizeInWords(jobs[0]);
    }
  }

  lemma JobSizeInWords(j: Job)
    ensures JobSize(j) == 8 * (PiecesOf(j) + 2 * CommandsOf(j))
  {
    SyncSizeInWords(j.fences);
    SyncSizeInWords(j.updates);
    assert CmdSize(j.bytes) == 8 * ((j.bytes + 7) / 8 + 2);
    hide CmdSize, SyncCmdSize;
    assert CmdSize(8) == 24 by { SyncSizeInWords(1); }
  }

  lemma SyncSizeInWords(count: nat)
    ensures SyncCmdSize(count) == 8 * (count + 2 * One(count > 0))
    ensures CmdSize(8) == 24
  {
    assert (8 * count + PADDING_COMMAND_SIZE + 7) / 8 == count + 2;
  }

  // ---------- The buffer ----------

  datatype Outcome =
    | Acquired(offset: nat)   // where the caller may write its commands
    | TooBig
    | Retry

  class ClientCcb {
    const buf: array<Cell>
    const virtualSize: nat    // how far the buffer may grow; 0 if it may not
    var size: nat
    var hostWrite: nat

    // `RGXFWIF_CCCB_CTL`, and the kicks that the firmware has not seen yet.
    var readOffset: nat
    var depOffset: nat
    var writeOffset: nat
    var wrapMask: nat
    var kicks: seq<Kick>

    // The live commands; how many of them are runnable, how many the firmware knows of, now
    // and after each kick; all that were ever released to the ring, and all that were retired.
    ghost var q: Queue
    ghost var dep: nat
    ghost var pub: nat
    ghost var pubs: seq<nat>
    ghost var sent: seq<Cmd>
    ghost var retired: seq<Cmd>

    // All values the host's write offset has had, and all submissions.
    ghost var offsets: set<nat>
    ghost var submitted: seq<seq<Cmd>>

    ghost predicate Sizes()
      reads this
    {
      && IsCcbSize(size) && size == 8 * q.n <= 8 * buf.Length
      && (virtualSize == 0 || (IsCcbSize(virtualSize) && size <= virtualSize <= 8 * buf.Length))
    }

    ghost predicate Valid()
      reads this, buf
    {
      && Sizes() && Live(buf[..], q) && hostWrite == 8 * q.w && readOffset == 8 * q.r
      && dep <= pub <= |All(q)| && Sees(q, pub, Kick(writeOffset, wrapMask)) && depOffset == 8 * At(q, dep)
      && KicksLead(q, pub, kicks, pubs)
      && retired + All(q) == sent
    }

    /** Offsets that the firmware has or is about to get were write offsets of the host; those
        are all on 16 bytes exactly when all submissions are multiples of 16; and the jobs put
        into the ring are those submitted. */
    ghost predicate Recorded()
      reads `hostWrite, `writeOffset, `kicks, `offsets, `submitted, `sent
    {
      && hostWrite in offsets && writeOffset in offsets
      && (forall i :: 0 <= i < |kicks| ==> kicks[i].woff in offsets)
      && (OnSixteen(offsets) <==> AllSixteens(submitted))
      && Jobs(sent) == JobsOf(submitted)
    }

    /** The buffer as a value, with the commands in acquired space. */
    ghost function Now(claim: Claim): State
      reads this
    {
      State(q, virtualSize, dep, pub, Kick(writeOffset, wrapMask), kicks, pubs, claim, submitted, retired)
    }

    constructor (buf: array<Cell>, size: nat, virtualSize: nat)
      requires IsCcbSize(size) && size <= 8 * buf.Length
      requires virtualSize == 0 || (IsCcbSize(virtualSize) && size <= virtualSize <= 8 * buf.Length)
      ensures Valid() && Recorded() && q == Queue(size / 8, 0, 0, [], []) && sent == [] && retired == []
      ensures this.buf == buf && this.size == size && this.virtualSize == virtualSize && hostWrite == 0 && kicks == []
      ensures submitted == []
    {
      CcbSizes(size);
      this.buf, this.size, this.virtualSize, hostWrite := buf, size, virtualSize, 0;
      readOffset, depOffset, writeOffset, wrapMask, kicks := 0, 0, 0, size - 1, [];
      q := Queue(size / 8, 0, 0, [], []);
      dep, pub, pubs, sent, retired, offsets, submitted := 0, 0, [], [], [], {0}, [];
    }

    function Space(): nat
      requires Sizes() && hostWrite < size && readOffset < size
      reads this
    {
      GetCcbSpace(hostWrite, readOffset, size)
    }

    /** Space for a command of this size has been acquired. */
    ghost predicate Claimed(cmdSize: nat)
      reads `hostWrite, `size, `q, buf
    {
      && cmdSize + PADDING_COMMAND_SIZE + 1 <= size && RoomFor(q, cmdSize)
      && (RunsOut(q, cmdSize) ==>
            && q.w + 2 <= q.n <= buf.Length && hostWrite + 16 <= size < WORD
            && buf[q.w] == Cell(CMD_TYPE_PADDING, size - hostWrite - PADDING_COMMAND_SIZE))
    }

    lemma SpaceTells(cmdSize: nat)
      requires Valid()
      ensures hostWrite + 16 <= size <= 0x4_0000 && readOffset < size && size % 8 == 0
      ensures Space() + 1 == 8 * Free(q)
      ensures RoomFor(q, cmdSize) <==> Space() > (if RunsOut(q, cmdSize) then size - hostWrite + cmdSize else cmdSize)
    {
      hide LaidAt, Sees, KicksLead, GetCcbSpace, IsCcbSize;
      CcbSizes(size);
      SpaceIsFree(q);
    }

    /** `RGXCheckSpaceCCB` */
    method CheckSpace(cmdSize: U32) returns (outcome: Outcome)
      requires Valid()
      ensures outcome == if cmdSize + PADDING_COMMAND_SIZE + 1 > size then TooBig
                         else if RoomFor(q, cmdSize) then Acquired(if RunsOut(q, cmdSize) then 0 else hostWrite)
                         else Retry
      // In numbers: the command with a byte to spare, at the write offset or, after padding, at the start.
      ensures var free := (if readOffset > hostWrite then 0 else size) + readOffset - hostWrite;
              outcome == if cmdSize + 17 > size then TooBig
                         else if hostWrite + cmdSize + 16 <= size then
                           if cmdSize + 1 < free then Acquired(hostWrite) else Retry
                         else if size - hostWrite + cmdSize + 1 < free then Acquired(0)
                         else Retry
    {
      hide Live, Sees, KicksLead, Space, RoomFor, IsCcbSize;
      SpaceTells(cmdSize);
      if cmdSize + PADDING_COMMAND_SIZE + 1 > size {
        return TooBig;
      }
      if hostWrite + cmdSize + PADDING_COMMAND_SIZE <= size {
        outcome := if Space() > cmdSize then Acquired(hostWrite) else Retry;
      } else {
        var remain := size - hostWrite;
        outcome := if Space() > remain + cmdSize then Acquired(0) else Retry;
      }
    }

    /** Writes the header of the padding command; its other two words stay as they are. */
    method WritePaddingHeader()
      requires Valid()
      modifies buf
      ensures Valid() && buf[q.w] == Cell(CMD_TYPE_PADDING, size - hostWrite - PADDING_COMMAND_SIZE)
    {
      hide Sees, KicksLead, LaidAt;
      CcbSizes(size);
      var header := Cell(CMD_TYPE_PADDING, size - hostWrite - PADDING_COMMAND_SIZE);
      LiveFrame(buf[..], buf[..][q.w := header], q);
      buf[hostWrite / 8] := header;
      assert buf[..] == old(buf[..])[q.w := header];
    }

    /** Doubles the ring. The firmware learns of it with the next kick. */
    method GrowRing(ghost cmdSize: nat)
      requires Valid() && size < virtualSize && hostWrite >= readOffset
      modifies this`size, this`q
      ensures Valid() && size == 2 * old(size) && q == Grow(old(q))
      ensures cmdSize + PADDING_COMMAND_SIZE + 1 <= old(size) ==> !RunsOut(q, cmdSize) && RoomFor(q, cmdSize)
    {
      hide Sees, KicksLead, LaidAt;
      DoubledSize(size, virtualSize);
      LiveGrow(buf[..], q);
      SeesAfterGrow(buf[..], q, pub, Kick(writeOffset, wrapMask));
      KicksAfterGrow(buf[..], q, pub, kicks, pubs);
      q := Grow(q);
      size := size + size;
    }

    /** `RGXAcquireCCB`. `growOk` says whether memory for growing could be had. The ring is
        grown at most once, and the command then fits; the source's assertion that it does not
        come to grow a second time holds. */
    method Acquire(cmdSize: U32, growOk: bool) returns (outcome: Outcome)
      requires Valid()
      modifies this`size, this`q, buf
      ensures Valid() && All(q) == old(All(q))
      ensures outcome.Acquired? ==> Claimed(cmdSize) && outcome.offset == if RunsOut(q, cmdSize) then 0 else hostWrite
      ensures outcome == (
                if cmdSize + PADDING_COMMAND_SIZE + 1 > old(size) then TooBig
                else if old(FitsNow(q, virtualSize, cmdSize)) then
                  Acquired(old(if RunsOut(q, cmdSize) then 0 else hostWrite))
                else if old(RunsOut(q, cmdSize) && MayDouble(q, virtualSize)) && growOk then Acquired(hostWrite)
                else Retry)
      // In numbers. The ring is wrapped when padding and command fit and it may not grow, is more
      // than half empty or cannot grow; it is doubled when it is not wrapped, may be doubled and
      // does not wrap now.
      ensures var w, r := hostWrite, readOffset;
              var free := (if r > w then 0 else old(size)) + r - w;
              var fits := old(size) - w + cmdSize + 1 < free;
              if cmdSize + 17 > old(size) then outcome == TooBig && size == old(size)
              else if w + cmdSize + 16 <= old(size) then
                outcome == (if cmdSize + 1 < free then Acquired(w) else Retry) && size == old(size)
              else if fits && (virtualSize == 0 || free - 1 > old(size) / 2 || old(size) == virtualSize) then
                outcome == Acquired(0) && size == old(size)
              else if growOk && old(size) < virtualSize && w >= r then
                outcome == Acquired(w) && size == 2 * old(size)
              else outcome == Retry && size == old(size)
      ensures q == if size == old(size) then old(q) else Grow(old(q))
      ensures size == if outcome == Acquired(hostWrite) && old(RunsOut(q, cmdSize)) then 2 * old(size) else old(size)
    {
      hide Live, Sees, KicksLead, Space, RoomFor, IsCcbSize;
      AcceptedInNumbers(q, virtualSize, cmdSize, growOk);
      if cmdSize + PADDING_COMMAND_SIZE + 1 > size {
        return TooBig;
      }
      var retryCount := 2;
      while retryCount > 0
        invariant 0 < retryCount <= 2 && Valid()
        invariant retryCount == 2 ==> size == old(size) && q == old(q) && buf[..] == old(buf[..])
        invariant retryCount == 1 ==>
                    && size == 2 * old(size) && q == Grow(old(q)) && !RunsOut(q, cmdSize) && RoomFor(q, cmdSize)
                    && old(RunsOut(q, cmdSize) && MayDouble(q, virtualSize) && !FitsNow(q, virtualSize, cmdSize))
                    && growOk
      {
        retryCount := retryCount - 1;
        SpaceTells(cmdSize);
        if hostWrite + cmdSize + PADDING_COMMAND_SIZE <= size {
          return if Space() > cmdSize then Acquired(hostWrite) else Retry;
        }
        var remain := size - hostWrite;
        if virtualSize > 0 {
          if (Space() > size / 2 || size == virtualSize) && Space() > remain + cmdSize {
            WritePaddingHeader();
            return Acquired(0);
          } else if size < virtualSize && hostWrite >= readOffset {
            assert retryCount != 0;
            if !growOk {
              return Retry;
            }
            GrowRing(cmdSize);
          } else {
            return Retry;
          }
        } else {
          if Space() > remain + cmdSize {
            WritePaddingHeader();
            return Acquired(0);
          }
          return Retry;
        }
      }
      outcome := Retry;
    }

    ghost function CommandStart(cmdSize: nat): nat
      reads `hostWrite, `size, `q
    {
      if RunsOut(q, cmdSize) then 0 else q.w
    }

    /** The padding command that is in the buffer when the ring wraps. */
    ghost function Padding(cmdSize: nat): seq<Cmd>
      requires Claimed(cmdSize)
      reads `hostWrite, `size, `q, buf
    {
      if RunsOut(q, cmdSize) then [Cmd(buf[q.w].lo, buf[q.w + 1].lo, buf[q.w + 1].hi, buf[q.w + 2..q.n])] else []
    }

    lemma PaddingIsLaid(cmdSize: nat)
      requires Valid() && Claimed(cmdSize) && RunsOut(q, cmdSize)
      ensures LaidAt(buf[..], q.w, Padding(cmdSize)) && q.w + Extent(Padding(cmdSize)) == q.n
      ensures Pads(Padding(cmdSize), q)
      ensures CanAppend(q, Padding(cmdSize))
    {
      hide Sees, KicksLead;
      CcbSizes(size);
      var pad := Padding(cmdSize)[0];
      assert Padding(cmdSize)[1..] == [];
      assert buf[..][q.w..q.n] == Encode(pad);
    }

    /** What was claimed is room enough, after the padding as well. */
    lemma ClaimedFits(cmdSize: nat, cs: seq<Cmd>)
      requires Valid() && Claimed(cmdSize) && 8 * Extent(cs) == cmdSize
      ensures !RunsOut(q, cmdSize) ==> CanAppend(q, cs)
      ensures RunsOut(q, cmdSize) ==> CanAppend(Append(q, Padding(cmdSize)), cs) && Append(q, Padding(cmdSize)).w == 0
    {
      hide LaidAt, Sees, KicksLead, IsCcbSize;
      if RunsOut(q, cmdSize) {
        PaddingIsLaid(cmdSize);
        LiveAppend(buf[..], q, Padding(cmdSize));
      }
    }

    method PutCells(start: nat, cells: seq<Cell>)
      requires start + |cells| <= buf.Length
      modifies buf
      ensures buf[..] == old(buf[..start]) + cells + old(buf[start + |cells|..])
    {
      forall k | 0 <= k < |cells| {
        buf[start + k] := cells[k];
      }
      ghost var want := old(buf[..start]) + cells + old(buf[start + |cells|..]);
      forall k | 0 <= k < buf.Length ensures buf[k] == want[k] {
        if start <= k < start + |cells| { assert buf[start + (k - start)] == cells[k - start]; }
      }
    }

    /** The caller's commands, written where they go. */
    method Fill(cells: seq<Cell>, cmdSize: nat, ghost cs: seq<Cmd>)
      requires Valid() && Claimed(cmdSize) && LaidAt(cells, 0, cs) && 8 * Extent(cs) == 8 * |cells| == cmdSize
      modifies buf
      ensures Valid() && Claimed(cmdSize) && Padding(cmdSize) == old(Padding(cmdSize))
      ensures LaidAt(buf[..], CommandStart(cmdSize), cs)
    {
      hide LaidAt, Sees, KicksLead, IsCcbSize, Extent, At, Jobs;
      ghost var mem := buf[..];
      var start := if hostWrite + cmdSize + PADDING_COMMAND_SIZE > size then 0 else hostWrite / 8;
      PutCells(start, cells);
      FilledFrame(mem, buf[..], q, start, cells, cs);
      assert RunsOut(q, cmdSize) ==> buf[q.w + 1] == mem[q.w + 1] && buf[q.w + 2..q.n] == mem[q.w + 2..q.n];
    }

    /** Moves the write offset over commands that lie there. */
    method Advance(bytes: U32, ghost cs: seq<Cmd>)
      requires Valid() && LaidAt(buf[..], q.w, cs) && CanAppend(q, cs) && bytes == 8 * Extent(cs)
      modifies this`hostWrite, this`q, this`sent, this`offsets
      ensures offsets == old(offsets) + {hostWrite}
      ensures Valid() && q == Append(old(q), cs) && sent == old(sent) + cs
      ensures All(q) == old(All(q)) + cs && size == 8 * q.n
      ensures hostWrite == Wrap(old(hostWrite) + bytes, size)
    {
      hide LaidAt, Sees, KicksLead, IsCcbSize, UpdateCcbOffset;
      CcbSizes(size);
      LiveAppend(buf[..], q, cs);
      OffsetAdvances(q, bytes);
      AtAppend(buf[..], q, cs, dep);
      SeesAfterAppend(buf[..], q, cs, pub, Kick(writeOffset, wrapMask));
      KicksAfterAppend(buf[..], q, cs, pub, kicks, pubs);
      assert retired + (All(q) + cs) == sent + cs;
      hostWrite := UpdateCcbOffset(hostWrite, bytes, size);
      q := Append(q, cs);
      sent := sent + cs;
      offsets := offsets + {hostWrite};
    }

    /** `RGXReleaseCCB`: the write offset moves over the padding, if any, and the commands. */
    method Release(cmdSize: U32, ghost cs: seq<Cmd>)
      requires Valid() && Claimed(cmdSize) && LaidAt(buf[..], CommandStart(cmdSize), cs) && 8 * Extent(cs) == cmdSize
      modifies this`hostWrite, this`q, this`sent, this`offsets, this`submitted
      ensures Valid() && submitted == old(submitted) + [cs] && Adds(old(q), cs, q)
      ensures offsets == old(offsets) + {hostWrite} + if old(RunsOut(q, cmdSize)) then {0} else {}
      ensures sent == old(sent) + old(Padding(cmdSize)) + cs
      ensures All(q) == old(All(q)) + old(Padding(cmdSize)) + cs
      ensures hostWrite == 8 * old(CommandStart(cmdSize)) + cmdSize
    {
      hide Live, LaidAt, Sees, KicksLead, IsCcbSize, RoomFor, CanAppend, Append, Adds, Pads;
      CcbSizes(size);
      ClaimedFits(cmdSize, cs);
      ghost var pad := Padding(cmdSize);
      if RunsOut(q, cmdSize) { PaddingIsLaid(cmdSize); } else { AddsInPlace(q, cs); }
      if hostWrite + cmdSize + PADDING_COMMAND_SIZE > size {
        var remain := size - hostWrite;
        AddsAfterPadding(q, pad, cs);
        Advance(remain, pad);
      }
      Advance(cmdSize, cs);
      submitted := submitted + [cs];
    }

    /** The host sends a kick with its write offset and wrap mask. */
    method SendKick()
      requires Valid()
      modifies this`kicks, this`pubs
      ensures Valid() && (old(Recorded()) ==> Recorded())
      ensures kicks == old(kicks) + [Kick(hostWrite, size - 1)] && pubs == old(pubs) + [|All(q)|]
    {
      hide LaidAt, MaskFits, IsCcbSize;
      CcbSizes(size);
      SeesAll(buf[..], q);
      kicks := kicks + [Kick(hostWrite, size - 1)];
      pubs := pubs + [|All(q)|];
    }

    /** The firmware takes over offset and mask of the next kick. */
    method TakeKick()
      requires Valid() && kicks != []
      modifies this`kicks, this`pubs, this`pub, this`writeOffset, this`wrapMask
      ensures Valid() && (old(Recorded()) ==> Recorded())
      ensures Kick(writeOffset, wrapMask) == old(kicks)[0] && old(pubs) != []
      ensures kicks == old(kicks)[1..] && pub == old(pubs)[0] >= old(pub) && pubs == old(pubs)[1..]
    {
      hide Live, MaskFits, At;
      writeOffset, wrapMask := kicks[0].woff, kicks[0].mask;
      kicks := kicks[1..];
      pub, pubs := pubs[0], pubs[1..];
    }

    /** Where the command after the one at `offset` starts, by its header and the mask that the
        firmware knows. */
    function NextOffset(offset: nat): nat
      requires offset / 8 < buf.Length
      reads this, buf
    {
      And(offset + buf[offset / 8].hi + PADDING_COMMAND_SIZE, wrapMask)
    }

    /** The fences of the next command are met: it becomes runnable. */
    method AdvanceDep()
      requires Valid() && depOffset != writeOffset
      modifies this`depOffset, this`dep
      ensures Valid() && dep == old(dep) + 1 <= pub
    {
      hide LaidAt, MaskFits, IsCcbSize, KicksLead;
      AtStep(buf[..], q, dep);
      MaskSteps(buf[..], q, wrapMask, dep, pub);
      depOffset := NextOffset(depOffset);
      dep := dep + 1;
    }

    /** Commands are in the space acquired for them, not yet released. */
    ghost predicate Ready(cmds: seq<Cmd>)
      reads `hostWrite, `size, `q, buf
    {
      Claimed(8 * Extent(cmds)) && LaidAt(buf[..], CommandStart(8 * Extent(cmds)), cmds)
    }

    /** Nothing that the firmware does to the ring touches them. */
    twostate lemma ReadyStays(cmds: seq<Cmd>)
      requires hostWrite == old(hostWrite) && size == old(size) && buf[..] == old(buf[..])
      requires q.n == old(q.n) && q.w == old(q.w) && Free(q) >= Free(old(q))
      requires old(Ready(cmds))
      ensures Ready(cmds) && Padding(8 * Extent(cmds)) == old(Padding(8 * Extent(cmds)))
    {
      hide LaidAt, Extent;
      assert forall i :: 0 <= i < buf.Length ==> buf[i] == buf[..][i] == old(buf[..])[i];
      assert forall i, j :: 0 <= i <= j <= buf.Length ==> buf[i..j] == buf[..][i..j];
    }

    /** The firmware is done with the command at the read offset, which was runnable: it is the
        oldest one, as it was written. */
    method Retire(ghost cmds: seq<Cmd>) returns (c: Cmd)
      requires Valid() && readOffset != depOffset
      modifies this`readOffset, this`q, this`dep, this`pub, this`pubs, this`retired
      ensures Valid() && old(All(q)) == [c] + All(q) && retired == old(retired) + [c]
      ensures old(q).first != [] && c == old(q).first[0] && q == Retired(old(q))
      ensures dep == old(dep) - 1 && pub == old(pub) - 1 && pubs == OneLess(old(pubs))
      ensures old(Ready(cmds)) ==> Ready(cmds) && Padding(8 * Extent(cmds)) == old(Padding(8 * Extent(cmds)))
    {
      hide Live, Sees, IsCcbSize, KicksLead, At, Retired, Ready, Padding, Claimed, Free;
      var i := readOffset / 8;
      assert dep > 0 by { EmptyIffOffsetsMeet(buf[..], q); }
      OldestIsRead(buf[..], q, pub, Kick(writeOffset, wrapMask));
      RetireKeeps(buf[..], q, dep, pub, Kick(writeOffset, wrapMask), kicks, pubs);
      c := Cmd(buf[i].lo, buf[i + 1].lo, buf[i + 1].hi, buf[i + 2..i + 2 + buf[i].hi / 8]);
      readOffset := NextOffset(readOffset);
      retired := retired + [c];
      q := Retired(q);
      dep, pub, pubs := dep - 1, pub - 1, OneLess(pubs);
      if old(Ready(cmds)) { ReadyStays(cmds); }
    }

    /** Going round from the read offset, the dependency offset comes before the firmware's
        write offset, and that before the host's; read and write offset meet only when nothing
        is live. */
    lemma OffsetsInOrder()
      requires Valid()
      ensures (depOffset - readOffset) % size <= (writeOffset - readOffset) % size <= (hostWrite - readOffset) % size
      ensures readOffset == hostWrite <==> All(q) == []
      ensures readOffset == depOffset <==> dep == 0
      ensures depOffset == writeOffset <==> dep == pub
    {
      hide LaidAt, MaskFits, IsCcbSize, KicksLead, At, Extent;
      EmptyIffOffsetsMeet(buf[..], q);
      AtIsRoundInBytes(buf[..], q, dep);
      AtIsRoundInBytes(buf[..], q, pub);
      AtIsRoundInBytes(buf[..], q, |All(q)|);
      ExtentPrefix(All(q), dep, pub);
      ExtentPrefix(All(q), pub, |All(q)|);
      if 0 < dep { AtDistinct(buf[..], q, 0, dep); }
      if dep < pub { AtDistinct(buf[..], q, dep, pub); }
    }

    lemma PaddingIsNoJob(cmdSize: nat)
      requires Valid() && Claimed(cmdSize)
      ensures Jobs(Padding(cmdSize)) == []
    {
      hide Live, Sees, KicksLead, IsCcbSize, RoomFor;
      if Padding(cmdSize) != [] { assert Padding(cmdSize)[1..] == []; }
    }

    /** Space is acquired for commands, and they are written there. */
    method AcquireAndFill(cmds: seq<Cmd>, growOk: bool) returns (ok: bool)
      requires Valid() && CmdsOk(cmds) && 8 * Extent(cmds) < WORD
      modifies this`size, this`q, buf
      ensures Valid() && All(q) == old(All(q))
      ensures ok <==> old(Accepted(q, virtualSize, 8 * Extent(cmds), growOk))
      ensures Goes(old(Now(Nothing)), Step.Acquire(cmds, growOk), Now(if ok then Holding(cmds) else Nothing))
      ensures ok ==> Ready(cmds)
      // When space is had, and when the ring is doubled for it, in numbers.
      ensures var w, r, total := hostWrite, readOffset, 8 * Extent(cmds);
              var free := (if r > w then 0 else old(size)) + r - w;
              var fits := old(size) - w + total + 1 < free;
              if total + 17 > old(size) then !ok && size == old(size)
              else if w + total + 16 <= old(size) then (ok <==> total + 1 < free) && size == old(size)
              else if fits && (virtualSize == 0 || free - 1 > old(size) / 2 || old(size) == virtualSize) then
                ok && size == old(size)
              else
                && (ok <==> growOk && old(size) < virtualSize && w >= r)
                && size == if ok then 2 * old(size) else old(size)
    {
      hide Live, Sees, KicksLead, IsCcbSize, RoomFor, Claimed, LaidAt, Padding, MayWrap, MayDouble;
      LayoutIsLaid(cmds);
      var cells := Layout(cmds);
      var outcome := Acquire(8 * |cells|, growOk);
      ok := outcome.Acquired?;
      if ok {
        Fill(cells, 8 * |cells|, cmds);
      }
    }

    /** The commands become part of the ring. */
    method ReleaseReady(cmds: seq<Cmd>)
      requires Valid() && Recorded() && Ready(cmds) && 8 * Extent(cmds) < WORD
      modifies this`hostWrite, this`q, this`sent, this`offsets, this`submitted
      ensures Valid() && Recorded() && old(offsets) <= offsets
      ensures Goes(old(Now(Holding(cmds))), Step.Release, Now(Nothing))
      ensures hostWrite == (if old(RunsOut(q, 8 * Extent(cmds))) then 0 else old(hostWrite)) + 8 * Extent(cmds)
    {
      hide Live, Sees, KicksLead, IsCcbSize, RoomFor, Claimed, LaidAt, Padding, OnSixteen, AllSixteens, Adds;
      hide Extent, Jobs, JobsOf, At;
      var total := 8 * Extent(cmds);
      ghost var pad := Padding(total);
      PaddingIsNoJob(total);
      JobsConcat(sent, pad);
      JobsConcat(sent + pad, cmds);
      JobsOfSnoc(submitted, cmds);
      ReleaseOnSixteen(offsets, submitted, hostWrite, RunsOut(q, total), cmds);
      Release(total, cmds);
    }

    /** Acquired commands stay where they are while the host sends kicks and the firmware works. */
    method KernelStep(step: Step, ghost claim: Claim)
      requires Valid() && Recorded() && !step.Acquire? && !step.Release?
      modifies this`kicks, this`pubs, this`pub, this`writeOffset, this`wrapMask, this`depOffset, this`dep
      modifies this`readOffset, this`q, this`retired
      ensures Valid() && Recorded() && Goes(old(Now(claim)), step, Now(claim))
      ensures kicks == if step.SendKick? then old(kicks) + [Kick(hostWrite, size - 1)]
                       else if step.TakeKick? && old(kicks) != [] then old(kicks)[1..]
                       else old(kicks)
      ensures Kick(writeOffset, wrapMask) ==
                if step.TakeKick? && old(kicks) != [] then old(kicks)[0] else old(Kick(writeOffset, wrapMask))
      ensures step.AdvanceDep? && old(depOffset) != old(writeOffset) ==> dep == old(dep) + 1
      ensures if step.Retire? && old(readOffset) != old(depOffset) then
                old(All(q)) != [] && All(q) == old(All(q))[1..] && retired == old(retired) + old(All(q))[..1]
              else All(q) == old(All(q)) && retired == old(retired)
      ensures claim.Holding? && old(Ready(claim.cmds)) ==>
                Ready(claim.cmds) && Padding(8 * Extent(claim.cmds)) == old(Padding(8 * Extent(claim.cmds)))
    {
      hide Claimed, LaidAt, Padding, Recorded, Live, MaskFits, At, IsCcbSize, Jobs, Extent, Retired, OneLess;
      OffsetsInOrder();
      match step
      case SendKick =>
        CcbSizes(size);
        SendKick();
      case TakeKick => if kicks != [] { TakeKick(); }
      case AdvanceDep => if depOffset != writeOffset { AdvanceDep(); }
      case Retire =>
        if readOffset != depOffset {
          var c := Retire(if claim.Holding? then claim.cmds else []);
        }
    }

    /** The jobs the firmware has retired, and those still live, are all that were submitted, in
        their order. */
    lemma NoneIsLost()
      requires Valid() && Recorded()
      ensures Jobs(retired) + Jobs(All(q)) == JobsOf(submitted)
    {
      hide Live, Sees, KicksLead, IsCcbSize;
      JobsConcat(retired, All(q));
    }

    /** One more kick, and firmware that goes on: the ring is emptied, and all that was ever put
        into it is retired. */
    method Drain()
      requires Valid() && Recorded()
      modifies this`kicks, this`pubs, this`pub, this`writeOffset, this`wrapMask, this`depOffset, this`dep
      modifies this`readOffset, this`q, this`retired
      ensures Valid() && Recorded() && All(q) == [] && retired == sent
      ensures kicks == [] && readOffset == hostWrite
    {
      hide Live, MaskFits, At, IsCcbSize, Jobs, Recorded, Extent, Retired;
      SendKick();
      while kicks != []
        invariant Valid() && Recorded() && (if pubs == [] then pub else pubs[|pubs| - 1]) == |All(q)|
      {
        TakeKick();
      }
      while depOffset != writeOffset
        invariant Valid() && Recorded() && kicks == [] && pub == |All(q)|
        decreases pub - dep
      {
        AdvanceDep();
      }
      OffsetsInOrder();
      while readOffset != depOffset
        invariant Valid() && Recorded() && kicks == [] && dep == pub == |All(q)|
        decreases dep
      {
        var c := Retire([]);
      }
      OffsetsInOrder();
      assert retired + [] == retired;
    }

    /** Any interleaving of the host's acquiring and releasing, its kicks and the firmware's
        steps, those that are not possible being skipped. What they do is a trace of `Goes`. Just
        the commands of the steps that were granted space are submitted, in their order, and the
        jobs among them retire in this order, none lost or repeated. */
    method Run(steps: seq<Step>) returns (claim: Claim, ghost trace: seq<State>)
      requires Valid() && Recorded()
      requires forall i :: 0 <= i < |steps| && steps[i].Acquire? ==>
                 CmdsOk(steps[i].cmds) && 8 * Extent(steps[i].cmds) < WORD
      modifies this, buf
      ensures Valid() && Recorded() && (claim.Holding? ==> Ready(claim.cmds))
      ensures Follows(Goes, trace, steps) && trace[0] == old(Now(Nothing)) && trace[|steps|] == Now(claim)
      ensures InHand(Now(claim)) == old(submitted) + ItemsAt(Asked, steps, Picked(Grants, trace, steps))
      ensures old(retired) <= retired && old(submitted) <= submitted && old(offsets) <= offsets
      ensures Jobs(retired) + Jobs(All(q)) == JobsOf(submitted)
      // The write offset was on 16 bytes all the while exactly when all submissions were.
      ensures OnSixteen(offsets) <==> old(OnSixteen(offsets)) && AllSixteens(submitted[|old(submitted)|..])
      ensures old(OnSixteen(offsets)) && AskForSixteens(steps) ==> OnSixteen(offsets)
    {
      hide Valid, Recorded, Ready, Extent, CmdsOk, Jobs, Goes, InHand, OnSixteen, AllSixteens, JobsOf, AskForSixteens;
      KnowsSixteens();
      ghost var was := submitted;
      claim, trace := Nothing, [Now(Nothing)];
      var i := 0;
      while i < |steps|
        invariant 0 <= i <= |steps| && Valid() && Recorded()
        invariant Follows(Goes, trace, steps[..i]) && trace[0] == old(Now(Nothing)) && trace[i] == Now(claim)
        invariant claim.Holding? ==> Ready(claim.cmds) && 8 * Extent(claim.cmds) < WORD
        invariant old(offsets) <= offsets
      {
        match steps[i] {
          case Acquire(cs, growOk) =>
            if claim.Holding? {
              AcquireIsRefused(Now(claim), steps[i]);
            } else {
              var ok := AcquireAndFill(cs, growOk);
              claim := if ok then Holding(cs) else Nothing;
            }
          case Release =>
            if claim.Nothing? {
              NothingToRelease(Now(claim));
            } else {
              ReleaseReady(claim.cmds);
              claim := Nothing;
            }
          case _ =>
            KernelStep(steps[i], claim);
        }
        FollowsSnoc(Goes, trace, steps[..i], steps[i], Now(claim));
        assert steps[..i + 1] == steps[..i] + [steps[i]];
        trace := trace + [Now(claim)];
        i := i + 1;
      }
      assert steps[..i] == steps;
      SubmitsWhatWasGranted(trace, steps);
      NothingInHand(trace[0]);
      SubmittedIsInHand(Now(claim));
      OnlyGrows(trace, steps);
      NoneIsLost();
      KnowsSixteens();
      assert submitted == was + submitted[|was|..];
      SixteensConcat(was, submitted[|was|..]);
      if AskForSixteens(steps) {
        AskedSixteens(steps, Picked(Grants, trace, steps), was, submitted, InHand(Now(claim)));
      }
    }

    lemma KnowsSixteens()
      requires Recorded()
      ensures OnSixteen(offsets) <==> AllSixteens(submitted)
    {
    }
  }

  ghost predicate OnSixteen(offsets: set<nat>) {
    forall o :: o in offsets ==> o % 16 == 0
  }

  ghost predicate AllSixteens(submitted: seq<seq<Cmd>>) {
    forall i :: 0 <= i < |submitted| ==> 8 * Extent(submitted[i]) % 16 == 0
  }

  /** All submissions that are asked for are multiples of 16. */
  ghost predicate AskForSixteens(steps: seq<Step>) {
    forall i :: 0 <= i < |steps| && steps[i].Acquire? ==> 8 * Extent(steps[i].cmds) % 16 == 0
  }

  lemma AskedSixteens(steps: seq<Step>, picked: seq<nat>, was: seq<seq<Cmd>>, submitted: seq<seq<Cmd>>,
                      inHand: seq<seq<Cmd>>)
    requires AskForSixteens(steps) && Increasing(picked, |steps|)
    requires inHand == was + ItemsAt(Asked, steps, picked) && was <= submitted <= inHand
    ensures AllSixteens(submitted[|was|..])
  {
    var added := submitted[|was|..];
    forall i | 0 <= i < |added| ensures 8 * Extent(added[i]) % 16 == 0 {
      assert added[i] == submitted[|was| + i] == inHand[|was| + i] == Asked(steps[picked[i]]);
    }
  }

  lemma SixteensConcat(a: seq<seq<Cmd>>, b: seq<seq<Cmd>>)
    ensures AllSixteens(a + b) <==> AllSixteens(a) && AllSixteens(b)
  {
    hide Extent;
    if AllSixteens(a + b) {
      assert forall i :: 0 <= i < |a| ==> (a + b)[i] == a[i];
      assert forall i :: 0 <= i < |b| ==> (a + b)[|a| + i] == b[i];
    }
  }

  /** A submission is released at the write offset `at` or, after padding, at 0. */
  lemma ReleaseOnSixteen(offsets: set<nat>, submitted: seq<seq<Cmd>>, at: nat, wraps: bool, cmds: seq<Cmd>)
    requires at in offsets && (OnSixteen(offsets) <==> AllSixteens(submitted))
    ensures var next := (if wraps then 0 else at) + 8 * Extent(cmds);
            OnSixteen(offsets + {next} + if wraps then {0} else {}) <==> AllSixteens(submitted + [cmds])
  {
    hide Extent, AllSixteens;
    var start, total := if wraps then 0 else at, 8 * Extent(cmds);
    if OnSixteen(offsets) { AlignedSum(start, total); }
    hide OnSixteen;
    var more := {start + total} + if wraps then {0} else {};
    assert offsets + {start + total} + (if wraps then {0} else {}) == offsets + more;
    MoreOffsets(offsets, more);
    NextOffsets(start + total, wraps);
    SixteensConcat(submitted, [cmds]);
    SixteenOfOne(cmds);
  }

  lemma NextOffsets(next: nat, wraps: bool)
    ensures OnSixteen({next} + if wraps then {0} else {}) <==> next % 16 == 0
  {
    assert next in {next} + if wraps then {0} else {};
  }

  lemma SixteenOfOne(cmds: seq<Cmd>)
    ensures AllSixteens([cmds]) <==> 8 * Extent(cmds) % 16 == 0
  {
    hide Extent;
    assert [cmds][0] == cmds;
  }

  lemma MoreOffsets(offsets: set<nat>, more: set<nat>)
    ensures OnSixteen(offsets + more) <==> OnSixteen(offsets) && OnSixteen(more)
  {
    if OnSixteen(offsets + more) {
      assert forall o :: o in offsets || o in more ==> o in offsets + more;
    }
  }

  /** A kick-sync that waits for one sync object: the fence, then the empty command that
      carries no work. */
  function KickSync(): seq<Cmd> {
    [Cmd(CMD_TYPE_FENCE, 0, 0, [Cell(0, 0)]), Cmd(CMD_TYPE_NULL, 0, 0, [])]
  }

  lemma KickSyncExtent()
    ensures CmdsOk(KickSync()) && 8 * Extent(KickSync()) == 40
    ensures CommandSize([Job(1, 0, 0, false, false, false, false)]) == 40
  {
    assert KickSync()[1..][1..] == [];
    assert [Job(1, 0, 0, false, false, false, false)][1..] == [];
  }

  /** The smallest case that leaves 16 bytes: a kick-sync that waits for one sync object, at the
      start of a new buffer. The firmware is then sent the offset 40. */
  method KickOffSixteen(buf: array<Cell>) returns (ccb: ClientCcb)
    requires buf.Length >= 1024
    modifies buf
    ensures fresh(ccb) && ccb.Valid() && ccb.Recorded() && ccb.submitted == [KickSync()]
    ensures ccb.hostWrite == 40 && |ccb.kicks| == 1 && ccb.kicks[0].woff == 40
  {
    hide ClientCcb.Valid, ClientCcb.Recorded, ClientCcb.Ready, IsCcbSize, Jobs, KickSync;
    SmallestSize();
    ccb := new ClientCcb(buf, 8192, 0);
    SubmitKickSync(ccb);
    ccb.SendKick();
  }

  method SubmitKickSync(ccb: ClientCcb)
    requires ccb.Valid() && ccb.Recorded() && ccb.hostWrite == 0 && ccb.q.w == 0
    requires ccb.size == 8 * Free(ccb.q) == 8 * ccb.q.n == 8192
    modifies ccb, ccb.buf
    ensures ccb.Valid() && ccb.Recorded() && ccb.submitted == old(ccb.submitted) + [KickSync()] && ccb.hostWrite == 40
    ensures ccb.kicks == old(ccb.kicks)
  {
    hide ClientCcb.Valid, ClientCcb.Recorded, ClientCcb.Ready, MayWrap, MayDouble;
    hide Extent, IsCcbSize, Jobs, Free, CmdsOk, KickSync, Adds;
    KickSyncExtent();
    var ok := ccb.AcquireAndFill(KickSync(), false);
    ccb.ReleaseReady(KickSync());
  }
}
