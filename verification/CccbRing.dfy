/** The commands in a client circular command buffer as a value: where they lie between the
    firmware's read offset and the host's write offset, what both sides do to them, and the
    wrap masks that lead the firmware through them. Offsets are counted in cells of 8 bytes,
    which is what every command size is rounded up to. */
module CccbRing {
  import opened Bits
  import opened TlPacket

  const CMD_TYPE_PADDING: U32 := 0x2ABC_00DD

  /** A command: header fields and data. */
  datatype Cmd = Cmd(kind: U32, ext: U32, job: U32, data: seq<Cell>)

  function Span(c: Cmd): nat {
    2 + |c.data|
  }

  predicate CmdOk(c: Cmd) {
    8 * |c.data| < WORD
  }

  function Encode(c: Cmd): seq<Cell>
    requires CmdOk(c)
  {
    [Cell(c.kind, 8 * |c.data|), Cell(c.ext, c.job)] + c.data
  }

  /** The four words of `RGXFWIF_CCB_CMD_HEADER` stand before the data, and the second is its size. */
  lemma HeaderWords(c: Cmd)
    requires CmdOk(c)
    ensures |Encode(c)| == 2 + |c.data| && Encode(c)[2..] == c.data
    ensures Encode(c)[0] == Cell(c.kind, 8 * |c.data|) && Encode(c)[1] == Cell(c.ext, c.job)
  {
  }

  predicate CmdsOk(cs: seq<Cmd>) {
    forall i :: 0 <= i < |cs| ==> CmdOk(cs[i])
  }

  function Layout(cs: seq<Cmd>): seq<Cell>
    requires CmdsOk(cs)
  {
    if cs == [] then [] else Encode(cs[0]) + Layout(cs[1..])
  }

  /** Cells that a list of commands takes. */
  function Extent(cs: seq<Cmd>): nat {
    if cs == [] then 0 else Span(cs[0]) + Extent(cs[1..])
  }

  /** The cells from `i` on hold the commands `cs`. */
  ghost predicate LaidAt(mem: seq<Cell>, i: nat, cs: seq<Cmd>)
    decreases |cs|
  {
    if cs == [] then i <= |mem|
    else
      && CmdOk(cs[0]) && i + Span(cs[0]) <= |mem| && mem[i..i + Span(cs[0])] == Encode(cs[0])
      && LaidAt(mem, i + Span(cs[0]), cs[1..])
  }

  lemma {:induction false} LaidFits(mem: seq<Cell>, i: nat, cs: seq<Cmd>)
    requires LaidAt(mem, i, cs)
    ensures i + Extent(cs) <= |mem|
    decreases |cs|
  {
    if cs != [] { LaidFits(mem, i + Span(cs[0]), cs[1..]); }
  }

  lemma {:induction false} ExtentConcat(a: seq<Cmd>, b: seq<Cmd>)
    ensures Extent(a + b) == Extent(a) + Extent(b)
  {
    if a == [] {
      assert a + b == b;
    } else {
      ExtentConcat(a[1..], b);
      assert (a + b)[1..] == a[1..] + b;
    }
  }

  lemma {:induction false} LaidConcat(mem: seq<Cell>, i: nat, a: seq<Cmd>, b: seq<Cmd>)
    ensures LaidAt(mem, i, a) && LaidAt(mem, i + Extent(a), b) <==> LaidAt(mem, i, a + b)
    decreases |a|
  {
    if a == [] {
      assert a + b == b;
      if LaidAt(mem, i, b) { LaidFits(mem, i, b); }
    } else {
      LaidConcat(mem, i + Span(a[0]), a[1..], b);
      assert (a + b)[1..] == a[1..] + b;
    }
  }

  lemma {:induction false} LaidFrame(mem: seq<Cell>, mem': seq<Cell>, i: nat, cs: seq<Cmd>)
    requires LaidAt(mem, i, cs) && i + Extent(cs) <= |mem'|
    requires forall k :: i <= k < i + Extent(cs) ==> k < |mem| && mem[k] == mem'[k]
    ensures LaidAt(mem', i, cs)
    decreases |cs|
  {
    if cs != [] {
      var n := i + Span(cs[0]);
      LaidFits(mem, n, cs[1..]);
      assert mem[i..n] == mem'[i..n];
      LaidFrame(mem, mem', n, cs[1..]);
    }
  }

  /** The same cells elsewhere hold the same commands. */
  lemma {:induction false} LaidShift(mem: seq<Cell>, i: nat, mem': seq<Cell>, j: nat, cs: seq<Cmd>)
    requires LaidAt(mem, i, cs) && i + Extent(cs) <= |mem| && j + Extent(cs) <= |mem'|
    requires mem[i..i + Extent(cs)] == mem'[j..j + Extent(cs)]
    ensures LaidAt(mem', j, cs)
    decreases |cs|
  {
    if cs != [] {
      var n, all := Span(cs[0]), Extent(cs);
      assert mem[i..i + n] == mem[i..i + all][..n] && mem'[j..j + n] == mem'[j..j + all][..n];
      assert mem[i + n..i + all] == mem[i..i + all][n..] && mem'[j + n..j + all] == mem'[j..j + all][n..];
      LaidShift(mem, i + n, mem', j + n, cs[1..]);
    }
  }

  lemma {:induction false} LayoutIsLaid(cs: seq<Cmd>)
    requires CmdsOk(cs)
    ensures |Layout(cs)| == Extent(cs) && LaidAt(Layout(cs), 0, cs)
  {
    if cs != [] {
      LayoutIsLaid(cs[1..]);
      assert Layout(cs)[Span(cs[0])..] == Layout(cs[1..]);
      assert Layout(cs[1..])[0..|Layout(cs[1..])|] == Layout(cs)[Span(cs[0])..|Layout(cs)|];
      LaidShift(Layout(cs[1..]), 0, Layout(cs), Span(cs[0]), cs[1..]);
    }
  }

  ghost predicate IsJob(c: Cmd) {
    c.kind != CMD_TYPE_PADDING
  }

  /** The commands without padding. */
  ghost function Jobs(cs: seq<Cmd>): seq<Cmd> {
    if cs == [] then [] else (if IsJob(cs[0]) then [cs[0]] else []) + Jobs(cs[1..])
  }

  lemma {:induction false} JobsConcat(a: seq<Cmd>, b: seq<Cmd>)
    ensures Jobs(a + b) == Jobs(a) + Jobs(b)
  {
    hide IsJob;
    if a == [] {
      assert a + b == b;
    } else {
      JobsConcat(a[1..], b);
      assert (a + b)[1..] == a[1..] + b && (a + b)[0] == a[0];
    }
  }

  lemma {:induction false} JobsAreTheRest(cs: seq<Cmd>)
    ensures forall c :: c in Jobs(cs) <==> c in cs && c.kind != CMD_TYPE_PADDING
    ensures (forall c :: c in cs ==> c.kind != CMD_TYPE_PADDING) ==> Jobs(cs) == cs
  {
    if cs != [] {
      JobsAreTheRest(cs[1..]);
      assert cs == [cs[0]] + cs[1..];
    }
  }

  /** The jobs of several submissions. */
  ghost function JobsOf(submitted: seq<seq<Cmd>>): seq<Cmd> {
    if submitted == [] then [] else JobsOf(submitted[..|submitted| - 1]) + Jobs(submitted[|submitted| - 1])
  }

  lemma JobsOfSnoc(submitted: seq<seq<Cmd>>, cs: seq<Cmd>)
    ensures JobsOf(submitted + [cs]) == JobsOf(submitted) + Jobs(cs)
  {
    assert (submitted + [cs])[..|submitted|] == submitted;
  }

  lemma ExtentPrefix(cs: seq<Cmd>, i: nat, j: nat)
    requires i <= j <= |cs|
    ensures Extent(cs[..i]) <= Extent(cs[..j]) <= Extent(cs)
    ensures i < j ==> Extent(cs[..i]) < Extent(cs[..j])
  {
    ExtentConcat(cs[..i], cs[i..j]);
    ExtentConcat(cs[..j], cs[j..]);
    assert cs[..i] + cs[i..j] == cs[..j];
    assert cs[..j] + cs[j..] == cs;
  }

  lemma ExtentOfNone(cs: seq<Cmd>)
    ensures Extent(cs[..0]) == 0
  {
  }

  lemma ExtentSnoc(cs: seq<Cmd>, i: nat)
    requires i < |cs|
    ensures Extent(cs[..i + 1]) == Extent(cs[..i]) + Span(cs[i])
  {
    ExtentConcat(cs[..i], [cs[i]]);
    assert cs[..i] + [cs[i]] == cs[..i + 1];
    assert [cs[i]][1..] == [];
  }

  lemma LaidIndex(mem: seq<Cell>, at: nat, cs: seq<Cmd>, i: nat)
    requires LaidAt(mem, at, cs) && i < |cs|
    ensures var p := at + Extent(cs[..i]);
            p + Span(cs[i]) <= |mem| && CmdOk(cs[i]) && mem[p..p + Span(cs[i])] == Encode(cs[i])
  {
    LaidConcat(mem, at, cs[..i], cs[i..]);
    assert cs[..i] + cs[i..] == cs;
  }

  /** A command is read back from its cells. */
  lemma ReadBack(mem: seq<Cell>, p: nat, c: Cmd)
    requires CmdOk(c) && p + Span(c) <= |mem| && mem[p..p + Span(c)] == Encode(c)
    ensures mem[p].hi == 8 * |c.data|
    ensures Cmd(mem[p].lo, mem[p + 1].lo, mem[p + 1].hi, mem[p + 2..p + Span(c)]) == c
  {
    var cells := mem[p..p + Span(c)];
    assert mem[p] == cells[0] && mem[p + 1] == cells[1] && mem[p + 2..p + Span(c)] == cells[2..];
  }

  // ---------- The ring ----------

  /** The ring has `n` cells. The live commands are `first`, from `r` on, and, when the write
      offset `w` has wrapped, `second` from the start. */
  datatype Queue = Queue(n: nat, r: nat, w: nat, first: seq<Cmd>, second: seq<Cmd>)

  function All(q: Queue): seq<Cmd> {
    q.first + q.second
  }

  /** Cells that are not occupied. */
  function Free(q: Queue): int {
    if q.r > q.w then q.r - q.w else q.n - (q.w - q.r)
  }

  /** A header always fits between the write offset and the end. */
  ghost predicate Live(mem: seq<Cell>, q: Queue) {
    && q.n <= |mem| && q.r < q.n && q.w + 2 <= q.n
    && LaidAt(mem, q.r, q.first) && LaidAt(mem, 0, q.second)
    && (if q.r <= q.w then q.r + Extent(q.first) == q.w && q.second == []
        else q.r + Extent(q.first) == q.n && Extent(q.second) == q.w)
  }

  /** Where the `i`-th live command starts; the write offset when there are just `i`. */
  function At(q: Queue, i: nat): nat
    requires i <= |All(q)|
  {
    if i < |q.first| then q.r + Extent(q.first[..i])
    else if q.r > q.w then Extent(q.second[..i - |q.first|])
    else q.w
  }

  /** The offsets coincide just when nothing is live. */
  lemma EmptyIffOffsetsMeet(mem: seq<Cell>, q: Queue)
    requires Live(mem, q)
    ensures q.r == q.w <==> All(q) == []
    ensures At(q, 0) == q.r && At(q, |All(q)|) == q.w
  {
    assert q.second[..|q.second|] == q.second && q.first[..|q.first|] == q.first;
    if q.first != [] { ExtentPrefix(q.first, 0, |q.first|); }
  }

  /** The command at the `i`-th place can be read there, and the next place follows it. */
  lemma AtStep(mem: seq<Cell>, q: Queue, i: nat)
    requires Live(mem, q) && i < |All(q)|
    ensures var p, c := At(q, i), All(q)[i];
            && p < q.n && p + Span(c) <= q.n && CmdOk(c) && mem[p..p + Span(c)] == Encode(c)
            && At(q, i + 1) == Wrap(p + Span(c), q.n)
  {
    hide LaidAt, Encode, Extent, CmdOk;
    ExtentOfNone(q.second);
    assert q.second[..|q.second|] == q.second && q.first[..|q.first|] == q.first;
    if i < |q.first| {
      LaidIndex(mem, q.r, q.first, i);
      ExtentSnoc(q.first, i);
      ExtentPrefix(q.first, i + 1, |q.first|);
    } else {
      var j := i - |q.first|;
      LaidIndex(mem, 0, q.second, j);
      ExtentSnoc(q.second, j);
      ExtentPrefix(q.second, j + 1, |q.second|);
    }
  }

  /** Different places are different offsets, so offsets can be compared for progress. */
  lemma AtDistinct(mem: seq<Cell>, q: Queue, i: nat, j: nat)
    requires Live(mem, q) && i < j <= |All(q)|
    ensures At(q, i) != At(q, j)
  {
    var f := |q.first|;
    assert q.second[..|q.second|] == q.second && q.first[..f] == q.first;
    if j < f {
      ExtentPrefix(q.first, i, j);
    } else if i < f {
      ExtentPrefix(q.first, i, f);
      ExtentPrefix(q.second, j - f, |q.second|);
    } else {
      ExtentPrefix(q.second, i - f, j - f);
    }
  }

  /** Going round from the read offset, places come in the order of their commands. */
  lemma AtIsRoundFromRead(mem: seq<Cell>, q: Queue, i: nat)
    requires Live(mem, q) && i <= |All(q)|
    ensures (At(q, i) - q.r) % q.n == Extent(All(q)[..i]) < q.n
  {
    var f := |q.first|;
    assert q.second[..|q.second|] == q.second && q.first[..f] == q.first;
    if i <= f {
      assert All(q)[..i] == q.first[..i];
      ExtentPrefix(q.first, i, f);
    } else {
      assert All(q)[..i] == q.first + q.second[..i - f];
      ExtentConcat(q.first, q.second[..i - f]);
      ExtentPrefix(q.second, i - f, |q.second|);
    }
    if i >= f && q.r > q.w {
      DivModUnique(At(q, i) - q.r, q.n, -1, Extent(All(q)[..i]));
    } else {
      DivModUnique(At(q, i) - q.r, q.n, 0, Extent(All(q)[..i]));
    }
  }

  lemma AtIsRoundInBytes(mem: seq<Cell>, q: Queue, i: nat)
    requires Live(mem, q) && i <= |All(q)|
    ensures (8 * At(q, i) - 8 * q.r) % (8 * q.n) == 8 * Extent(All(q)[..i])
  {
    hide Live;
    AtIsRoundFromRead(mem, q, i);
    ScaledMod(At(q, i) - q.r, q.n);
  }

  // ---------- What the two sides do to it ----------

  /** The host's commands fit: some cells stay free, or the full ring would look empty. */
  predicate CanAppend(q: Queue, cs: seq<Cmd>) {
    Extent(cs) < Free(q) && (q.w + Extent(cs) == q.n || q.w + Extent(cs) + 2 <= q.n)
  }

  function Append(q: Queue, cs: seq<Cmd>): Queue {
    if q.r <= q.w then Queue(q.n, q.r, Wrap(q.w + Extent(cs), q.n), q.first + cs, q.second)
    else Queue(q.n, q.r, Wrap(q.w + Extent(cs), q.n), q.first, q.second + cs)
  }

  /** The host adds commands that lie at the write offset. */
  lemma LiveAppend(mem: seq<Cell>, q: Queue, cs: seq<Cmd>)
    requires Live(mem, q) && LaidAt(mem, q.w, cs) && CanAppend(q, cs)
    ensures Live(mem, Append(q, cs)) && All(Append(q, cs)) == All(q) + cs
    ensures Free(Append(q, cs)) == Free(q) - Extent(cs)
  {
    hide LaidAt, Encode;
    if q.r <= q.w {
      LaidConcat(mem, q.r, q.first, cs);
      ExtentConcat(q.first, cs);
    } else {
      LaidConcat(mem, 0, q.second, cs);
      ExtentConcat(q.second, cs);
    }
  }

  /** The places of the commands that were there stay. */
  lemma AtAppend(mem: seq<Cell>, q: Queue, cs: seq<Cmd>, i: nat)
    requires Live(mem, q) && LaidAt(mem, q.w, cs) && CanAppend(q, cs) && i <= |All(q)|
    ensures i <= |All(Append(q, cs))| && At(Append(q, cs), i) == At(q, i)
  {
    var f := |q.first|;
    if q.r <= q.w {
      if i < f {
        assert (q.first + cs)[..i] == q.first[..i];
      } else {
        assert (q.first + cs)[..i] == q.first && q.first[..i] == q.first;
        if cs == [] { assert q.first + cs == q.first; }
      }
    } else if i >= f {
      assert (q.second + cs)[..i - f] == q.second[..i - f];
    }
  }

  /** The firmware is done with the oldest command. */
  function Retired(q: Queue): Queue
    requires q.first != []
  {
    var next := Wrap(q.r + Span(q.first[0]), q.n);
    if |q.first| == 1 && q.r > q.w then Queue(q.n, next, q.w, q.second, [])
    else Queue(q.n, next, q.w, q.first[1..], q.second)
  }

  lemma LiveRetire(mem: seq<Cell>, q: Queue)
    requires Live(mem, q) && All(q) != []
    ensures q.first != [] && q.first[0] == All(q)[0]
    ensures q.r + Span(q.first[0]) <= q.n && (q.r + Span(q.first[0]) == q.n <==> |q.first| == 1 && q.r > q.w)
    ensures Live(mem, Retired(q)) && All(Retired(q)) == All(q)[1..]
    ensures Free(Retired(q)) == Free(q) + Span(q.first[0])
  {
    if |q.first| > 1 {
      ExtentPrefix(q.first[1..], 0, 1);
      ExtentPrefix(q.first[1..], 1, |q.first| - 1);
      assert q.first[1..][..|q.first| - 1] == q.first[1..];
    } else if q.first != [] {
      assert q.first[1..] == [];
      assert Extent(q.first) == Span(q.first[0]);
    }
  }

  /** The places of the commands that stay are the same. */
  lemma AtRetire(mem: seq<Cell>, q: Queue, i: nat)
    requires Live(mem, q) && 1 <= i <= |All(q)|
    ensures q.first != [] && i - 1 <= |All(Retired(q))| && At(Retired(q), i - 1) == At(q, i)
  {
    LiveRetire(mem, q);
    if i < |q.first| {
      assert q.first[..i][1..] == q.first[1..][..i - 1];
    } else if |q.first| == 1 && q.r > q.w {
      assert q.second[..|q.second|] == q.second;
    }
  }

  /** The ring is doubled while nothing has wrapped. */
  function Grow(q: Queue): Queue {
    q.(n := 2 * q.n)
  }

  lemma LiveGrow(mem: seq<Cell>, q: Queue)
    requires Live(mem, q) && q.r <= q.w && 2 * q.n <= |mem|
    ensures Live(mem, Grow(q)) && Free(Grow(q)) == Free(q) + q.n
    ensures forall i: nat :: i <= |All(q)| ==> At(Grow(q), i) == At(q, i)
  {
  }

  /** Only the cells of the live commands matter. */
  lemma LiveFrame(mem: seq<Cell>, mem': seq<Cell>, q: Queue)
    requires Live(mem, q) && |mem'| == |mem|
    requires forall k :: 0 <= k < |mem| && (if q.r <= q.w then q.r <= k < q.w else k < q.w || q.r <= k < q.n) ==>
               mem[k] == mem'[k]
    ensures Live(mem', q)
  {
    LaidFrame(mem, mem', q.r, q.first);
    LaidFrame(mem, mem', 0, q.second);
  }

  /** Writing commands into cells that are not occupied. */
  lemma FilledFrame(mem: seq<Cell>, mem': seq<Cell>, q: Queue, start: nat, cells: seq<Cell>, cs: seq<Cmd>)
    requires Live(mem, q) && LaidAt(cells, 0, cs) && Extent(cs) == |cells| && start + |cells| <= |mem|
    requires if q.r <= q.w then start + |cells| <= q.r || (q.w <= start && start + |cells| <= q.n)
             else q.w <= start && start + |cells| <= q.r
    requires mem' == mem[..start] + cells + mem[start + |cells|..]
    ensures Live(mem', q) && LaidAt(mem', start, cs)
  {
    hide LaidAt, Encode;
    LiveFrame(mem, mem', q);
    assert cells[0..|cells|] == mem'[start..start + |cells|];
    LaidShift(cells, 0, mem', start, cs);
  }

  // ---------- Wrap masks ----------

  ghost predicate IsMask(mask: nat) {
    exists e: nat :: e < 32 && Pow2(e) == mask + 1
  }

  /** A mask that leads a reader through the first `i` commands: it is the ring's own, or it
      is older and none of these commands runs past it. */
  ghost predicate MaskFits(q: Queue, mask: nat, i: nat) {
    && IsMask(mask)
    && (mask == 8 * q.n - 1 ||
        (mask < 8 * q.n && i <= |q.first| && 8 * (q.r + Extent(q.first[..i])) <= mask))
  }

  lemma AndMask(x: nat, mask: nat)
    requires IsMask(mask)
    ensures And(x, mask) == x % (mask + 1)
  {
    var e: nat :| e < 32 && Pow2(e) == mask + 1;
    AndLowMask(x, e);
    ShrLowAreDivMod(x, e);
  }

  lemma BelowOrAt(x: nat, m: nat)
    requires x <= m && m > 0
    ensures x % m == Wrap(x, m)
  {
    if x == m { DivModUnique(x, m, 1, 0); } else { DivModUnique(x, m, 0, x); }
  }

  /** With such a mask the reader steps from command to command. */
  lemma MaskSteps(mem: seq<Cell>, q: Queue, mask: nat, i: nat, pub: nat)
    requires Live(mem, q) && i < pub <= |All(q)| && MaskFits(q, mask, pub)
    ensures And(8 * (At(q, i) + Span(All(q)[i])), mask) == 8 * At(q, i + 1)
  {
    AtStep(mem, q, i);
    var next := At(q, i) + Span(All(q)[i]);
    AndMask(8 * next, mask);
    if mask == 8 * q.n - 1 {
      BelowOrAt(8 * next, 8 * q.n);
    } else {
      ExtentPrefix(q.first, i + 1, pub);
      ExtentSnoc(q.first, i);
      assert q.first[..|q.first|] == q.first;
      BelowOrAt(8 * next, mask + 1);
    }
  }

  lemma MaskAfterAppend(q: Queue, cs: seq<Cmd>, mask: nat, i: nat)
    requires MaskFits(q, mask, i)
    ensures MaskFits(Append(q, cs), mask, i)
  {
    if i <= |q.first| { assert (q.first + cs)[..i] == q.first[..i]; }
  }

  lemma MaskAfterRetire(mem: seq<Cell>, q: Queue, mask: nat, i: nat)
    requires Live(mem, q) && 1 <= i <= |All(q)| && MaskFits(q, mask, i)
    ensures q.first != [] && MaskFits(Retired(q), mask, i - 1)
  {
    LiveRetire(mem, q);
    if mask != 8 * q.n - 1 {
      assert q.first[..i][1..] == q.first[1..][..i - 1];
    }
  }

  /** Growing makes the masks known so far old ones, and they still do for what was there. */
  lemma MaskAfterGrow(mem: seq<Cell>, q: Queue, mask: nat, i: nat)
    requires Live(mem, q) && q.r <= q.w && i <= |All(q)| && MaskFits(q, mask, i)
    ensures MaskFits(Grow(q), mask, i)
  {
    ExtentPrefix(q.first, i, |q.first|);
  }

  // ---------- Kicks on their way ----------

  /** What the firmware is told by a kick, and then keeps in the control structure. */
  datatype Kick = Kick(woff: nat, mask: nat)

  /** After this kick the firmware may go on to the `i`-th live command. */
  ghost predicate Sees(q: Queue, i: nat, k: Kick) {
    i <= |All(q)| && k.woff == 8 * At(q, i) && MaskFits(q, k.mask, i)
  }

  /** The kicks on their way, in order, lead on from the `pub` commands known to the firmware. */
  ghost predicate KicksLead(q: Queue, pub: nat, kicks: seq<Kick>, pubs: seq<nat>) {
    && |kicks| == |pubs|
    && (forall j :: 0 <= j < |pubs| ==> pub <= pubs[j] && Sees(q, pubs[j], kicks[j]))
    && (forall i, j :: 0 <= i < j < |pubs| ==> pubs[i] <= pubs[j])
  }

  lemma SeenMask(q: Queue, i: nat, k: Kick)
    requires Sees(q, i, k)
    ensures i <= |All(q)| && MaskFits(q, k.mask, i)
  {
  }

  lemma SeesAfterAppend(mem: seq<Cell>, q: Queue, cs: seq<Cmd>, i: nat, k: Kick)
    requires Live(mem, q) && LaidAt(mem, q.w, cs) && CanAppend(q, cs) && Sees(q, i, k)
    ensures Sees(Append(q, cs), i, k)
  {
    hide Live, LaidAt, MaskFits;
    AtAppend(mem, q, cs, i);
    MaskAfterAppend(q, cs, k.mask, i);
  }

  lemma SeesAfterRetire(mem: seq<Cell>, q: Queue, i: nat, k: Kick)
    requires Live(mem, q) && 1 <= i && Sees(q, i, k)
    ensures q.first != [] && Sees(Retired(q), i - 1, k)
  {
    hide Live, MaskFits;
    AtRetire(mem, q, i);
    MaskAfterRetire(mem, q, k.mask, i);
  }

  lemma SeesAfterGrow(mem: seq<Cell>, q: Queue, i: nat, k: Kick)
    requires Live(mem, q) && q.r <= q.w && 2 * q.n <= |mem| && Sees(q, i, k)
    ensures Sees(Grow(q), i, k)
  {
    hide MaskFits;
    LiveGrow(mem, q);
    MaskAfterGrow(mem, q, k.mask, i);
  }

  lemma KicksAfterAppend(mem: seq<Cell>, q: Queue, cs: seq<Cmd>, pub: nat, kicks: seq<Kick>, pubs: seq<nat>)
    requires Live(mem, q) && LaidAt(mem, q.w, cs) && CanAppend(q, cs) && KicksLead(q, pub, kicks, pubs)
    ensures KicksLead(Append(q, cs), pub, kicks, pubs)
  {
    hide Live, LaidAt, Sees;
    forall j | 0 <= j < |pubs| ensures Sees(Append(q, cs), pubs[j], kicks[j]) {
      SeesAfterAppend(mem, q, cs, pubs[j], kicks[j]);
    }
  }

  /** One command fewer is ahead. */
  function OneLess(pubs: seq<nat>): seq<nat> {
    seq(|pubs|, j requires 0 <= j < |pubs| => if pubs[j] > 0 then pubs[j] - 1 else 0)
  }

  lemma KicksAfterRetire(mem: seq<Cell>, q: Queue, pub: nat, kicks: seq<Kick>, pubs: seq<nat>)
    requires Live(mem, q) && 1 <= pub <= |All(q)| && KicksLead(q, pub, kicks, pubs)
    ensures q.first != [] && KicksLead(Retired(q), pub - 1, kicks, OneLess(pubs))
  {
    LiveRetire(mem, q);
    hide Live, Sees;
    forall j | 0 <= j < |pubs| ensures Sees(Retired(q), OneLess(pubs)[j], kicks[j]) {
      SeesAfterRetire(mem, q, pubs[j], kicks[j]);
    }
  }

  lemma KicksAfterGrow(mem: seq<Cell>, q: Queue, pub: nat, kicks: seq<Kick>, pubs: seq<nat>)
    requires Live(mem, q) && q.r <= q.w && 2 * q.n <= |mem| && KicksLead(q, pub, kicks, pubs)
    ensures KicksLead(Grow(q), pub, kicks, pubs)
  {
    hide Live, Sees;
    forall j | 0 <= j < |pubs| ensures Sees(Grow(q), pubs[j], kicks[j]) {
      SeesAfterGrow(mem, q, pubs[j], kicks[j]);
    }
  }

  /** A kick sent now shows the firmware everything. */
  lemma SeesAll(mem: seq<Cell>, q: Queue)
    requires Live(mem, q) && IsMask(8 * q.n - 1)
    ensures Sees(q, |All(q)|, Kick(8 * q.w, 8 * q.n - 1))
  {
    EmptyIffOffsetsMeet(mem, q);
  }

  /** The firmware reads the oldest command at the read offset and steps over it with the mask
      it knows. */
  lemma OldestIsRead(mem: seq<Cell>, q: Queue, pub: nat, known: Kick)
    requires Live(mem, q) && 0 < pub && Sees(q, pub, known)
    ensures pub <= |All(q)| && q.first != []
    ensures var c, i := All(q)[0], q.r;
            && i + Span(c) <= |mem| && mem[i].hi == 8 * |c.data|
            && Cmd(mem[i].lo, mem[i + 1].lo, mem[i + 1].hi, mem[i + 2..i + Span(c)]) == c
            && And(8 * (i + Span(c)), known.mask) == 8 * Retired(q).r
  {
    SeenMask(q, pub, known);
    hide Live, LaidAt, Sees, Encode, Extent, At, MaskFits, CmdOk, Retired;
    EmptyIffOffsetsMeet(mem, q);
    AtStep(mem, q, 0);
    ReadBack(mem, q.r, All(q)[0]);
    MaskSteps(mem, q, known.mask, 0, pub);
    NextOldest(mem, q);
  }

  lemma NextOldest(mem: seq<Cell>, q: Queue)
    requires Live(mem, q) && All(q) != []
    ensures q.first != [] && Retired(q).r == At(q, 1)
  {
    LiveRetire(mem, q);
    hide Live, Extent, Retired;
    AtRetire(mem, q, 1);
    EmptyIffOffsetsMeet(mem, Retired(q));
  }

  /** What both sides know of the others stays true. */
  lemma RetireKeeps(mem: seq<Cell>, q: Queue, dep: nat, pub: nat, known: Kick, kicks: seq<Kick>, pubs: seq<nat>)
    requires Live(mem, q) && 0 < dep <= pub && Sees(q, pub, known) && KicksLead(q, pub, kicks, pubs)
    ensures pub <= |All(q)| && q.first != []
    ensures var q' := Retired(q);
            && q'.n == q.n && q'.w == q.w && Free(q') >= Free(q) && Live(mem, q') && All(q) == [All(q)[0]] + All(q')
            && dep - 1 <= pub - 1 <= |All(q')| && At(q', dep - 1) == At(q, dep)
            && Sees(q', pub - 1, known) && KicksLead(q', pub - 1, kicks, OneLess(pubs))
  {
    SeenMask(q, pub, known);
    hide Live, Sees, KicksLead, Extent, At, MaskFits;
    LiveRetire(mem, q);
    AtRetire(mem, q, dep);
    SeesAfterRetire(mem, q, pub, known);
    KicksAfterRetire(mem, q, pub, kicks, pubs);
  }
}
