/** What the host, the kicks on their way and the firmware do to a client circular command
    buffer, as steps between values. */
module CccbTrace {
  import opened Bits
  import opened TlPacket
  import opened CccbRing
  import opened Traces

  const PADDING_COMMAND_SIZE: nat := 16

  /** One step of the host, the kernel queue between the two, or the firmware. */
  datatype Step = Acquire(cmds: seq<Cmd>, growOk: bool) | Release | SendKick | TakeKick | AdvanceDep | Retire

  datatype Claim = Nothing | Holding(cmds: seq<Cmd>)

  /** The ring, how far it may grow, what the firmware knows of it and is about to learn, the
      commands in acquired space, and what has been submitted, released and retired so far. */
  datatype State = State(q: Queue, limit: nat, dep: nat, pub: nat, known: Kick, kicks: seq<Kick>, pubs: seq<nat>,
                         claim: Claim, submitted: seq<seq<Cmd>>, retired: seq<Cmd>)

  // ---------- Acquiring and releasing ----------

  /** The command would run into the last 16 bytes, so the ring is padded and wrapped. */
  predicate RunsOut(q: Queue, cmdSize: nat) {
    8 * q.w + cmdSize + PADDING_COMMAND_SIZE > 8 * q.n
  }

  predicate RoomFor(q: Queue, cmdSize: nat) {
    (if RunsOut(q, cmdSize) then 8 * q.n - 8 * q.w + cmdSize else cmdSize) + 1 < 8 * Free(q)
  }

  /** A growable ring is wrapped only while it is more than half empty, or when it cannot grow
      any more. */
  predicate MayWrap(q: Queue, limit: nat) {
    limit == 0 || 8 * Free(q) - 1 > 8 * q.n / 2 || 8 * q.n == limit
  }

  predicate MayDouble(q: Queue, limit: nat) {
    8 * q.n < limit && q.w >= q.r
  }

  predicate FitsNow(q: Queue, limit: nat, cmdSize: nat) {
    RoomFor(q, cmdSize) && (!RunsOut(q, cmdSize) || MayWrap(q, limit))
  }

  predicate Accepted(q: Queue, limit: nat, cmdSize: nat, growOk: bool) {
    && cmdSize + PADDING_COMMAND_SIZE + 1 <= 8 * q.n
    && (FitsNow(q, limit, cmdSize) || (RunsOut(q, cmdSize) && MayDouble(q, limit) && growOk))
  }

  function RingAcquired(q: Queue, limit: nat, cmdSize: nat): Queue {
    if FitsNow(q, limit, cmdSize) then q else Grow(q)
  }

  /** Acquiring in numbers, with the offsets `w` and `r` in bytes. A command too near the end is put at
      the start, after padding, if both fit and the ring may not grow, or cannot, or is more than
      half empty; else the ring is doubled, if it may be and its live commands do not wrap. */
  lemma AcceptedInNumbers(q: Queue, limit: nat, cmdSize: nat, growOk: bool)
    ensures var w, r, size := 8 * q.w, 8 * q.r, 8 * q.n;
            var free := if r > w then r - w else size - (w - r);
            if w + cmdSize + 16 <= size then
              && (FitsNow(q, limit, cmdSize) <==> cmdSize + 1 < free)
              && (Accepted(q, limit, cmdSize, growOk) <==> cmdSize + 17 <= size && cmdSize + 1 < free)
            else
              var wraps := size - w + cmdSize + 1 < free && (limit == 0 || free - 1 > size / 2 || size == limit);
              && (FitsNow(q, limit, cmdSize) <==> wraps)
              && (Accepted(q, limit, cmdSize, growOk) <==>
                    cmdSize + 17 <= size && (wraps || (size < limit && w >= r && growOk)))
    ensures RingAcquired(q, limit, cmdSize) == if FitsNow(q, limit, cmdSize) then q else Grow(q)
  {
  }

  /** A padding command over what is left of the buffer. */
  ghost predicate Pads(pad: seq<Cmd>, q: Queue) {
    |pad| == 1 && pad[0].kind == CMD_TYPE_PADDING && q.w + Span(pad[0]) == q.n
  }

  ghost predicate Adds(q: Queue, cs: seq<Cmd>, q': Queue) {
    if RunsOut(q, 8 * Extent(cs)) then exists pad :: Pads(pad, q) && q' == Append(Append(q, pad), cs)
    else q' == Append(q, cs)
  }

  lemma AddsInPlace(q: Queue, cs: seq<Cmd>)
    requires !RunsOut(q, 8 * Extent(cs))
    ensures Adds(q, cs, Append(q, cs))
  {
  }

  lemma AddsAfterPadding(q: Queue, pad: seq<Cmd>, cs: seq<Cmd>)
    requires RunsOut(q, 8 * Extent(cs)) && Pads(pad, q)
    ensures Adds(q, cs, Append(Append(q, pad), cs))
  {
  }

  // ---------- All steps ----------

  ghost predicate Goes(a: State, step: Step, b: State) {
    match step
    case Acquire(cs, growOk) =>
      if a.claim.Holding? || !Accepted(a.q, a.limit, 8 * Extent(cs), growOk) then b == a
      else b == a.(q := RingAcquired(a.q, a.limit, 8 * Extent(cs)), claim := Holding(cs))
    case Release =>
      if a.claim.Nothing? then b == a
      else
        && Adds(a.q, a.claim.cmds, b.q)
        && b == a.(q := b.q, claim := Nothing, submitted := a.submitted + [a.claim.cmds])
    case SendKick =>
      && a.q.n > 0
      && b == a.(kicks := a.kicks + [Kick(8 * a.q.w, 8 * a.q.n - 1)], pubs := a.pubs + [|All(a.q)|])
    case TakeKick =>
      if a.kicks == [] then b == a
      else a.pubs != [] && b == a.(known := a.kicks[0], kicks := a.kicks[1..], pub := a.pubs[0], pubs := a.pubs[1..])
    case AdvanceDep =>
      b == a.(dep := if a.dep < a.pub then a.dep + 1 else a.dep)
    case Retire =>
      if a.dep == 0 then b == a
      else
        && a.q.first != [] && a.pub > 0
        && b == a.(q := Retired(a.q), dep := a.dep - 1, pub := a.pub - 1, pubs := OneLess(a.pubs),
                   retired := a.retired + [a.q.first[0]])
  }

  /** What a step does is determined by the state, but for the contents of padding. */
  lemma StepIsDetermined(a: State, step: Step, b: State, c: State)
    requires Goes(a, step, b) && Goes(a, step, c)
    ensures !step.Release? ==> b == c
    ensures step.Release? ==>
              b.q.r == c.q.r && b.q.w == c.q.w && b.(q := a.q) == c.(q := a.q) && |All(b.q)| == |All(c.q)|
  {
    if step.Release? && a.claim.Holding? {
      hide Accepted, RingAcquired, Retired, OneLess, Adds, Extent, RunsOut;
      var cs := a.claim.cmds;
      AddsDetermined(a.q, cs, b.q);
      AddsDetermined(a.q, cs, c.q);
    }
  }

  /** Commands are put at the write offset or, after padding, at the start. */
  lemma AddsDetermined(q: Queue, cs: seq<Cmd>, q': Queue)
    requires Adds(q, cs, q')
    ensures q'.n == q.n && q'.r == q.r
    ensures |All(q')| == |All(q)| + |cs| + if RunsOut(q, 8 * Extent(cs)) then 1 else 0
    ensures q'.w == Wrap((if RunsOut(q, 8 * Extent(cs)) then 0 else q.w) + Extent(cs), q.n)
  {
    hide Extent, Append, All, RunsOut;
    if RunsOut(q, 8 * Extent(cs)) {
      var pad :| Pads(pad, q) && q' == Append(Append(q, pad), cs);
      ExtentOfOne(pad[0]);
      assert pad == [pad[0]];
      AppendWhere(q, pad);
      AppendWhere(Append(q, pad), cs);
    } else {
      AppendWhere(q, cs);
    }
  }

  lemma ExtentOfOne(c: Cmd)
    ensures Extent([c]) == Span(c)
  {
    assert [c][1..] == [];
  }

  lemma AppendWhere(q: Queue, cs: seq<Cmd>)
    ensures var q' := Append(q, cs);
            && q'.n == q.n && q'.r == q.r && q'.w == Wrap(q.w + Extent(cs), q.n)
            && |All(q')| == |All(q)| + |cs|
  {
  }

  // ---------- What holds of every trace ----------

  /** An acquire step that is granted space ... */
  ghost predicate Grants(a: State, step: Step, b: State) {
    step.Acquire? && a.claim.Nothing? && b.claim.Holding?
  }

  /** ... is for these commands. */
  function Asked(step: Step): seq<Cmd> {
    if step.Acquire? then step.cmds else []
  }

  /** What has been submitted and what is about to be. */
  function InHand(s: State): seq<seq<Cmd>> {
    s.submitted + if s.claim.Nothing? then [] else [s.claim.cmds]
  }

  lemma StepSubmits(a: State, step: Step, b: State)
    requires Goes(a, step, b)
    ensures InHand(b) == InHand(a) + if Grants(a, step, b) then [Asked(step)] else []
  {
    hide Extent, Accepted, RingAcquired, Adds, Retired, OneLess;
  }

  /** In any trace just the commands of the steps that were granted space are submitted, in
      their order. */
  lemma SubmitsWhatWasGranted(trace: seq<State>, steps: seq<Step>)
    requires Follows(Goes, trace, steps)
    ensures InHand(trace[|steps|]) == InHand(trace[0]) + ItemsAt(Asked, steps, Picked(Grants, trace, steps))
  {
    forall a, step, b | Goes(a, step, b)
      ensures InHand(b) == InHand(a) + if Grants(a, step, b) then [Asked(step)] else []
    {
      StepSubmits(a, step, b);
    }
    RunAddsWhatWasGranted(Goes, Grants, InHand, Asked, trace, steps);
  }

  lemma NothingInHand(s: State)
    requires s.claim.Nothing?
    ensures InHand(s) == s.submitted
  {
  }

  lemma SubmittedIsInHand(s: State)
    ensures s.submitted <= InHand(s)
  {
  }

  lemma AcquireIsRefused(s: State, step: Step)
    requires step.Acquire? && s.claim.Holding?
    ensures Goes(s, step, s)
  {
  }

  lemma NothingToRelease(s: State)
    requires s.claim.Nothing?
    ensures Goes(s, Release, s)
  {
  }

  /** Submitted commands stay submitted, and retired ones retired. */
  lemma OnlyGrows(trace: seq<State>, steps: seq<Step>)
    requires Follows(Goes, trace, steps)
    ensures trace[0].submitted <= trace[|steps|].submitted && trace[0].retired <= trace[|steps|].retired
  {
    hide Extent, Accepted, RingAcquired, Adds, Retired, OneLess;
    RunExtends(Goes, (s: State) => s.submitted, trace, steps);
    RunExtends(Goes, (s: State) => s.retired, trace, steps);
  }
}
