/** Moving HWPerf packets from the buffer the firmware fills into the host's stream:
    `services/server/devices/rgxhwperf_common.c`. */
module HwPerfCopy {
  import opened TlPacket
  import opened PacketChain
  import opened StreamRing
  import opened TlStream
  import opened HwPerf

  function Bytes(es: seq<Event>): nat
    requires EventsOk(es)
  {
    8 * |Layout(es)|
  }

  /** The first `k` packets are the most that stay below `limit`. */
  ghost predicate LongestBelow(es: seq<Event>, k: nat, limit: nat)
    requires EventsOk(es)
  {
    && k <= |es|
    && (k > 0 ==> Bytes(es[..k]) < limit)
    && (k < |es| ==> Bytes(es[..k + 1]) >= limit)
  }

  /** The cells from `at` on begin with the packets `es`. */
  ghost predicate LaidAt(cells: seq<Cell>, at: nat, es: seq<Event>) {
    EventsOk(es) && at + |Layout(es)| <= |cells| && cells[at..at + |Layout(es)|] == Layout(es)
  }

  lemma LayoutSplit(es: seq<Event>, k: nat)
    requires EventsOk(es) && k <= |es|
    ensures Layout(es) == Layout(es[..k]) + Layout(es[k..])
  {
    hide Layout, EventOk;
    LayoutConcat(es[..k], es[k..]);
    assert es[..k] + es[k..] == es;
  }

  lemma NoBytes(es: seq<Event>)
    requires EventsOk(es)
    ensures Bytes(es[..0]) == 0 && EventsIn([]) == Events(es[..0])
  {
  }

  lemma LaidSplit(cells: seq<Cell>, at: nat, es: seq<Event>, k: nat)
    requires LaidAt(cells, at, es) && k <= |es|
    ensures LaidAt(cells, at, es[..k]) && LaidAt(cells, at + |Layout(es[..k])|, es[k..])
    ensures Bytes(es) == Bytes(es[..k]) + Bytes(es[k..])
  {
    hide Layout, EventOk;
    LayoutSplit(es, k);
    var all, n := Layout(es), |Layout(es[..k])|;
    assert all[..n] == Layout(es[..k]) && all[n..] == Layout(es[k..]);
    assert cells[at..at + n] == cells[at..at + |all|][..n];
    assert cells[at + n..at + |all|] == cells[at..at + |all|][n..];
  }

  /** A list begins with the header of its first packet, which tells the packet's size. */
  lemma FirstHeader(es: seq<Event>)
    requires EventsOk(es) && es != []
    ensures EventsOk(es[..1]) && 0 < Bytes(es[..1]) <= Bytes(es)
    ensures Bytes(es[..1]) == GetSize(Layout(es)[0].hi)
  {
    hide Encode, EventOk, GetSize;
    LayoutSplit(es, 1);
    EncodedSize(es[0]);
    assert Layout(es[..1]) == Encode(es[0]) by { assert es[..1][1..] == []; }
  }

  /** At the end of the first `k` packets stands the header of the next. */
  lemma NextHeader(cells: seq<Cell>, at: nat, es: seq<Event>, k: nat)
    requires LaidAt(cells, at, es) && k < |es|
    ensures EventsOk(es[..k]) && EventsOk(es[..k + 1])
    ensures at + |Layout(es[..k])| < |cells|
    ensures Bytes(es[..k + 1]) == Bytes(es[..k]) + GetSize(cells[at + |Layout(es[..k])|].hi) <= Bytes(es)
    ensures Bytes(es[..k]) < Bytes(es[..k + 1])
  {
    hide Layout, EventOk, GetSize;
    LaidSplit(cells, at, es, k);
    LayoutSplit(es[..k + 1], k);
    var n, rest := |Layout(es[..k])|, es[k..];
    assert es[..k + 1][..k] == es[..k] && es[..k + 1][k..] == rest[..1];
    FirstHeader(rest);
    assert cells[at + n..at + n + |Layout(rest)|][0] == cells[at + n];
  }

  /** `RGXHWPerfGetPackets` */
  method GetPackets(bytesExp: U32, allowed: nat, src: array<Cell>, from: nat, ghost es: seq<Event>)
      returns (sum: nat, ghost k: nat)
    requires LaidAt(src[..], from, es) && bytesExp == Bytes(es)
    ensures k <= |es| && LongestBelow(es, k, allowed) && sum == Bytes(es[..k])
    ensures sum == 0 || sum < allowed
  {
    hide Layout, EventOk, GetSize;
    sum, k := 0, 0;
    var cur := from;
    NoBytes(es);
    if es != [] {
      NextHeader(src[..], from, es, 0);
    } else {
      assert es[..0] == es;
    }
    while sum < bytesExp && sum + GetSize(src[cur].hi) < allowed
      invariant k <= |es| && sum == Bytes(es[..k]) && (k == |es| <==> sum == bytesExp)
      invariant cur == from + |Layout(es[..k])|
      invariant k > 0 ==> sum < allowed
      invariant k < |es| ==> cur < src.Length && Bytes(es[..k + 1]) == sum + GetSize(src[cur].hi) <= bytesExp
      decreases bytesExp - sum
    {
      NextHeader(src[..], from, es, k);
      sum := sum + GetSize(src[cur].hi);
      cur := cur + GetSize(src[cur].hi) / 8;
      k := k + 1;
      if k < |es| {
        NextHeader(src[..], from, es, k);
      } else {
        assert es[..k] == es;
      }
    }
  }

  /** What is offered to the stream in one packet: all, if it is not larger than the largest
      packet, or else the packets that stay below that size. */
  ghost predicate Offered(es: seq<Event>, j: nat, maxPacket: nat)
    requires EventsOk(es)
  {
    if Bytes(es) <= maxPacket then j == |es| else LongestBelow(es, j, maxPacket)
  }

  /** One data packet is put into the stream. */
  method PutEvents(s: Stream, src: array<Cell>, from: nat, bytes: U32, ghost es: seq<Event>)
      returns (ghost p: Packet)
    requires s.Valid() && s.Holds(bytes, TYPE_DATA) && bytes <= s.maxPacket && src != s.buf
    requires LaidAt(src[..], from, es) && bytes == Bytes(es)
    modifies s, s.buf
    ensures s.Valid() && s.pending == NOTHING_PENDING && s.gone == old(s.gone) && s.mode == old(s.mode)
    ensures s.Queue() == old(s.Queue()) + [p] && EventsIn([p]) == Events(es)
    ensures p.data == Layout(es) && s.read == old(s.read) && s.write == Wrap(old(s.write) + HDR_SIZE + bytes, s.size)
  {
    hide Layout, EventOk, EventsIn, Live, Unflagged;
    assert Align(bytes) == bytes;
    assert src[from..from + bytes / 8] == Layout(es);
    s.FillAndCommit(src[from..from + bytes / 8], bytes, TYPE_DATA);
    p := Packet(TYPE_DATA, false, bytes, Layout(es));
    OnePacket(p, es);
  }

  lemma OnePacket(p: Packet, es: seq<Event>)
    requires EventsOk(es) && p.kind == TYPE_DATA && p.data == Layout(es)
    ensures EventsIn([p]) == Events(es)
  {
    ReadEventsInvertsLayout(es);
    assert [p][1..] == [];
    assert es + [] == es;
  }

  /** Packets of the stream's own making hold no events. */
  lemma NoEvents(ps: seq<Packet>, p: Packet)
    requires |ps| <= 1 && (ps != [] ==> ps[0].kind != TYPE_DATA)
    ensures EventsIn(ps) == Events([]) && EventsIn(ps + [p]) == EventsIn([p])
  {
    EventsInConcat(ps, [p]);
    if ps != [] { assert ps[1..] == []; }
    if EventsIn([p]).Events? { assert [] + EventsIn([p]).list == EventsIn([p]).list; }
  }

  lemma SomeBytes(es: seq<Event>, k: nat)
    requires EventsOk(es) && k <= |es|
    ensures Bytes(es[..k]) == 0 <==> k == 0
    ensures Bytes(es[..k]) <= Bytes(es) && (Bytes(es[..k]) == Bytes(es) <==> k == |es|)
  {
    hide Layout, EventOk;
    NoBytes(es);
    LayoutSplit(es, k);
    if k > 0 { FirstHeader(es[..k]); }
    if k < |es| { FirstHeader(es[k..]); } else { assert es[..k] == es; }
  }

  /** What decides how much a stream takes: its offsets and sizes, whether a reservation is
      pending, and whether it would note a failed write. */
  datatype View = View(pending: bool, read: nat, write: nat, notes: bool, size: nat, maxPacket: nat)

  ghost function ViewOf(s: Stream): View
    requires s.Shape()
    reads s, s.buf
  {
    View(s.pending != NOTHING_PENDING, s.read, s.write, s.Notes(false), s.size, s.maxPacket)
  }

  ghost predicate HasRoom(v: View, bytes: nat) {
    v.write <= v.size && Needed(v.write, bytes, v.size) <= SpaceLeft(v.read, v.write, v.size)
  }

  /** The room that is left once the failed write has been noted. */
  function RoomAfterNote(v: View, bytesMin: nat): nat
    requires WriteAfterNote(v.write, v.notes, v.size) <= v.size
  {
    SuggestAllocSize(v.read, WriteAfterNote(v.write, v.notes, v.size), v.size, bytesMin, v.maxPacket)
  }

  /** How many of the packets `es` a stream takes: none while a reservation is pending; all
      that are offered, if they fit; or else the most that stay below the room that is left. */
  ghost predicate Takes(v: View, es: seq<Event>, k: nat)
    requires EventsOk(es)
  {
    if v.pending then k == 0
    else exists j :: Offered(es, j, v.maxPacket) && TakesOffered(v, es, j, k)
  }

  ghost predicate TakesRun(v: View, es: seq<Event>, bytesMin: nat, k: nat)
    requires EventsOk(es)
  {
    if v.pending then k == 0
    else if HasRoom(v, Bytes(es)) then k == |es|
    else WriteAfterNote(v.write, v.notes, v.size) <= v.size && LongestBelow(es, k, RoomAfterNote(v, bytesMin))
  }

  ghost predicate TakesOffered(v: View, es: seq<Event>, j: nat, k: nat)
    requires EventsOk(es)
  {
    && k <= j <= |es| && Bytes(es[..j]) <= v.maxPacket
    && (if j == 0 then k == 0
        else TakesRun(v, es[..j], Bytes(es[..1]), k))
  }

  /** Packets were offered and did not fit. */
  ghost predicate Refuses(v: View, es: seq<Event>)
    requires EventsOk(es)
  {
    && !v.pending
    && exists j: nat ::
         Offered(es, j, v.maxPacket) && 0 < j <= |es| && Bytes(es[..j]) <= v.maxPacket && !HasRoom(v, Bytes(es[..j]))
  }

  /** A stream that has taken all of `es` in one packet. */
  ghost function AfterAll(v: View, es: seq<Event>): View
    requires EventsOk(es) && v.write <= v.size
  {
    var cells := Layout(es);
    var start := if Pad(v.write, Bytes(es), v.size) == 0 then v.write else 0;
    v.(write := Wrap(start + HDR_SIZE + Bytes(es), v.size),
       notes := cells != [] && PacketType(cells[|cells| - 1].lo) != TYPE_WRITE_FAILED)
  }

  /** What has been put in all at once. */
  ghost predicate AllIn(v: View, es: seq<Event>, after: View)
    requires EventsOk(es)
  {
    !v.pending && v.write <= v.size && HasRoom(v, Bytes(es)) && after == AfterAll(v, es)
  }

  lemma FirstIsLeast(es: seq<Event>, j: nat)
    requires EventsOk(es) && 0 < j <= |es|
    ensures Bytes(es[..1]) <= Bytes(es[..j]) <= Bytes(es)
  {
    SomeBytes(es, j);
    BytesGrow(es, 1, j);
  }

  /** A note takes as much room as it saves padding, or more: what did not fit before it does
      not fit after it. */
  lemma NoteMakesNoRoom(read: nat, write: nat, size: nat, noted: bool, a: nat)
    requires read < size && write < size && write % 8 == 0 && size % 8 == 0 && a % 8 == 0
    requires noted ==> SpaceLeft(read, write, size) >= 0
    requires var after := WriteAfterNote(write, noted, size); Needed(after, a, size) <= SpaceLeft(read, after, size)
    ensures Needed(write, a, size) <= SpaceLeft(read, write, size)
  {
  }

  lemma FitsIsRoom(s: Stream, bytes: U32)
    requires s.Shape() && bytes % 8 == 0 && bytes <= s.maxPacket
    ensures Align(bytes) == bytes && (s.Fits(bytes) <==> HasRoom(ViewOf(s), bytes))
  {
    assert Align(bytes) == bytes;
  }

  /** The last cell of the newest data packet decides whether a failed write would be noted. */
  lemma NotesAfter(s: Stream, ps: seq<Packet>, p: Packet)
    requires s.Valid() && s.Queue() == ps + [p] && p.data != []
    ensures s.Notes(false) <==> PacketType(p.data[|p.data| - 1].lo) != TYPE_WRITE_FAILED
  {
    hide Unflagged;
    NewestCell(s.buf[..], s.r, s.w, s.first, s.second);
  }

  /** The stream was full: as many packets as stay below the room it reported. That much is
      never refused, so the source's handling of a second refusal is not reached. */
  method SubmitSome(s: Stream, src: array<Cell>, from: nat, bytes: U32, room: nat, ghost es: seq<Event>)
      returns (copied: nat, ghost k: nat, ghost added: seq<Packet>)
    requires s.Valid() && s.mode == DropNewer && s.pending == NOTHING_PENDING && src != s.buf
    requires LaidAt(src[..], from, es) && bytes == Bytes(es)
    requires room <= s.maxPacket
    requires forall req: U32 :: 0 < req <= room ==> s.Wants(req) && s.Fits(req)
    modifies s, s.buf
    ensures s.Valid() && s.mode == old(s.mode) && s.pending == NOTHING_PENDING && s.gone == old(s.gone)
    ensures k <= |es| && LongestBelow(es, k, room) && copied == Bytes(es[..k])
    ensures s.Queue() == old(s.Queue()) + added && EventsIn(added) == Events(es[..k])
    ensures k == |es| > 0 ==> HasRoom(old(ViewOf(s)), bytes)
  {
    hide Layout, EventOk, Live, Unflagged, HasRoom, SuggestAllocSize, Marked, JustEnough, Cells, EventsIn;
    hide Stream.Accounted;
    hide WriteAfterNote, SpaceLeft, Needed, LongestBelow;
    NoBytes(es);
    if es != [] { FirstHeader(es); }
    if 0 < bytes < room {
      assert s.Wants(bytes) && s.Fits(bytes);
      FitsIsRoom(s, bytes);
    }
    copied, k := GetPackets(bytes, room, src, from, es);
    added := [];
    SomeBytes(es, k);
    if copied != 0 {
      LaidSplit(src[..], from, es, k);
      var outcome, avail, overwrote, dropped, pads := s.Reserve(copied, copied, TYPE_DATA, false);
      ghost var p := PutEvents(s, src, from, copied, es[..k]);
      NoEvents(pads, p);
      added := pads + [p];
    }
  }

  lemma NoteHasNoEvents(note: seq<Packet>, more: seq<Packet>, es: seq<Event>)
    requires |note| <= 1 && (note != [] ==> note[0].kind == TYPE_WRITE_FAILED) && EventsIn(more) == Events(es)
    ensures EventsIn(note + more) == Events(es)
  {
    EventsInConcat(note, more);
    if note != [] { assert note[1..] == []; }
    assert [] + es == es;
  }

  ghost predicate Usual(v: View) {
    && v.read < v.size && v.write < v.size && v.write % 8 == 0 && v.size % 8 == 0
    && (v.notes ==> SpaceLeft(v.read, v.write, v.size) >= 0)
  }

  lemma ViewIsUsual(s: Stream)
    requires s.Valid()
    ensures Usual(ViewOf(s)) && WriteAfterNote(s.write, s.Notes(false), s.size) <= s.size
  {
    hide Live, Unflagged, PacketType, WriteAfterNote, SpaceLeft, MaxPacketSize;
    assert s.write < s.size && s.write % 8 == 0;
  }

  lemma PaddedIsShort(pads: seq<Packet>, pad: nat)
    requires Padded(pads, pad)
    ensures |pads| <= 1 && (pads != [] ==> pads[0].kind != TYPE_DATA) && (pads == [] <==> pad == 0)
  {
  }

  /** A stream that looked like `v` has turned a packet down. */
  ghost predicate Refused(v: View, noted: View) {
    && Usual(v)
    && noted.read == v.read && noted.size == v.size && noted.write == WriteAfterNote(v.write, v.notes, v.size)
  }

  lemma NoteNeverHelps(v: View, noted: View, bytes: nat)
    requires Refused(v, noted) && bytes % 8 == 0 && HasRoom(noted, bytes)
    ensures HasRoom(v, bytes)
  {
    NoteMakesNoRoom(v.read, v.write, v.size, v.notes, bytes);
  }

  /** Space for all of `es` has been reserved in a stream that looked like `v`. */
  method PutAll(s: Stream, src: array<Cell>, from: nat, bytes: U32, ghost v: View,
                ghost before: seq<Packet>, ghost pads: seq<Packet>, ghost es: seq<Event>)
      returns (ghost added: seq<Packet>)
    requires s.Valid() && s.Holds(bytes, TYPE_DATA) && bytes <= s.maxPacket && src != s.buf
    requires LaidAt(src[..], from, es) && bytes == Bytes(es) && es != []
    requires s.Queue() == before + pads && |pads| <= 1 && (pads != [] ==> pads[0].kind != TYPE_DATA)
    requires !v.pending && v.write <= v.size == s.size && v.maxPacket == s.maxPacket && v.read == s.read
    requires HasRoom(v, bytes)
    requires s.write == if Pad(v.write, bytes, v.size) == 0 then v.write else 0
    modifies s, s.buf
    ensures s.Valid() && s.pending == NOTHING_PENDING && s.gone == old(s.gone) && s.mode == old(s.mode)
    ensures s.Queue() == before + added && EventsIn(added) == Events(es) && AllIn(v, es, ViewOf(s))
  {
    hide Layout, EventOk, EventsIn, Live, Unflagged, Pad, HasRoom;
    FirstHeader(es);
    ghost var p := PutEvents(s, src, from, bytes, es);
    NotesAfter(s, before + pads, p);
    NoEvents(pads, p);
    added := pads + [p];
  }

  /** The stream, which looked like `v`, has turned all of `es` down, and noted it or not. Less
      than all will do. */
  method SubmitRest(s: Stream, src: array<Cell>, from: nat, bytes: U32, room: nat, ghost v: View,
                    ghost before: seq<Packet>, ghost es: seq<Event>)
      returns (copied: nat, ghost k: nat, ghost added: seq<Packet>)
    requires s.Valid() && s.mode == DropNewer && s.pending == NOTHING_PENDING && src != s.buf
    requires LaidAt(src[..], from, es) && bytes == Bytes(es) && es != []
    requires room <= s.maxPacket && forall req: U32 :: 0 < req <= room ==> s.Wants(req) && s.Fits(req)
    requires Noted(before, s.Queue(), v.notes) && Refused(v, ViewOf(s)) && !HasRoom(v, bytes)
    modifies s, s.buf
    ensures s.Valid() && s.mode == DropNewer && s.pending == NOTHING_PENDING && s.gone == old(s.gone)
    ensures k < |es| && LongestBelow(es, k, room) && copied == Bytes(es[..k])
    ensures s.Queue() == before + added && EventsIn(added) == Events(es[..k])
  {
    hide Layout, EventOk, Live, Unflagged, EventsIn, LongestBelow;
    hide SuggestAllocSize, HasRoom, Refused, Cells, Stream.Accounted;
    ghost var note := s.Queue()[|before|..];
    if HasRoom(ViewOf(s), bytes) { NoteNeverHelps(v, ViewOf(s), bytes); }
    ghost var more;
    copied, k, more := SubmitSome(s, src, from, bytes, room, es);
    NoteHasNoEvents(note, more, es[..k]);
    added := note + more;
  }

  /** Reserves for all of `es` at once, and falls back on what there is room for. */
  method Submit(s: Stream, src: array<Cell>, from: nat, bytes: U32, bytesMin: U32, connected: bool,
                ghost es: seq<Event>)
      returns (copied: nat, suspend: bool, ghost k: nat, ghost added: seq<Packet>)
    requires s.Valid() && s.mode == DropNewer && src != s.buf
    requires LaidAt(src[..], from, es) && bytes == Bytes(es) && 0 < bytes <= s.maxPacket
    modifies s, s.buf
    ensures s.Valid() && s.mode == DropNewer && s.pending == old(s.pending) && s.gone == old(s.gone)
    ensures k <= |es| && copied == Bytes(es[..k])
    ensures s.Queue() == old(s.Queue()) + added && EventsIn(added) == Events(es[..k])
    ensures TakesRun(old(ViewOf(s)), es, bytesMin, k)
    ensures suspend <==> !old(ViewOf(s)).pending && !HasRoom(old(ViewOf(s)), bytes) && k == 0 && !connected
    ensures k == |es| ==> AllIn(old(ViewOf(s)), es, ViewOf(s))
  {
    hide Layout, EventOk, Live, Unflagged, EventsIn, LongestBelow, SuggestAllocSize, WriteAfterNote, HasRoom, AfterAll;
    hide Marked, JustEnough, Cells, Stream.Accounted, Usual, Needed, SpaceLeft, Padded, Pad;
    ghost var v, before := ViewOf(s), s.Queue();
    ViewIsUsual(s);
    FitsIsRoom(s, bytes);
    copied, suspend, k, added := 0, false, 0, [];
    NoBytes(es);
    assert es[..|es|] == es && before + [] == before;
    var outcome, avail, overwrote, dropped, pads := s.Reserve(bytes, bytesMin, TYPE_DATA, false);
    if outcome.Reserved? {
      PaddedIsShort(pads, Pad(v.write, Align(bytes), v.size));
      added := PutAll(s, src, from, bytes, v, before, pads, es);
      copied, k := bytes, |es|;
    } else if outcome == StreamFull {
      copied, k, added := SubmitRest(s, src, from, bytes, avail, v, before, es);
      SomeBytes(es, k);
      suspend := copied == 0 && !connected;
    }
  }

  /** When the first packet alone is too big nothing can be offered. */
  lemma NothingOffered(es: seq<Event>, maxPacket: nat)
    requires EventsOk(es) && es != [] && Offered(es, 0, maxPacket)
    ensures forall j: nat :: Offered(es, j, maxPacket) ==> j == 0
  {
    forall j: nat | Offered(es, j, maxPacket) ensures j == 0 {
      if j > 0 { FirstIsLeast(es, j); }
    }
  }

  // ---------- How many are taken, in numbers ----------

  /** The room reported after a refusal is what one piece of free cells takes besides a header and
      the 16 bytes kept free, or the largest packet. A note takes the first 8 bytes of the piece,
      which ends at the read offset, or at the end of the buffer, or, when that one is too small
      for `bytesMin` bytes, is the one from the start. */
  lemma RoomFillsPiece(v: View, bytesMin: nat)
    requires Usual(v)
    ensures WriteAfterNote(v.write, v.notes, v.size) < v.size
    ensures var room := RoomAfterNote(v, bytesMin);
            var start := if !v.notes then v.write else if v.write + 8 == v.size then 0 else v.write + 8;
            var piece := if v.read > start then v.read - start
                         else if v.size - start > bytesMin + 24 then v.size - start else v.read;
            && (room == 0 <==> piece <= bytesMin + 24 || v.maxPacket == 0)
            && (room > 0 ==> room <= v.maxPacket && 8 + room + 16 <= piece)
            && (room > 0 ==> room == v.maxPacket || 8 + room + 16 == piece)
  {
    SuggestionFillsPiece(v.read, WriteAfterNote(v.write, v.notes, v.size), v.size, bytesMin, v.maxPacket);
  }

  /** A run is taken whole when it fits, 16 bytes before the read offset, and else as far as it
      stays below that room. */
  lemma TakesRunInNumbers(v: View, es: seq<Event>, bytesMin: nat, k: nat)
    requires Usual(v) && EventsOk(es) && TakesRun(v, es, bytesMin, k)
    ensures k <= |es| || v.pending
    ensures WriteAfterNote(v.write, v.notes, v.size) < v.size
    ensures if v.pending then k == 0
            else
              var end := v.write + 8 + Bytes(es);
              if (if end > v.size then v.read <= v.write && 8 + Bytes(es) + 16 <= v.read
                  else end + 16 <= if v.read > v.write then v.read else v.size + v.read)
              then k == |es|
              else
                && (k > 0 ==> Bytes(es[..k]) < RoomAfterNote(v, bytesMin))
                && (k < |es| ==> Bytes(es[..k + 1]) >= RoomAfterNote(v, bytesMin))
  {
    hide Layout, EventOk, RoomAfterNote;
    RoomFillsPiece(v, bytesMin);
    FitsWhere(v.read, v.write, v.size, Bytes(es));
  }

  lemma RefusesIfNoneFits(v: View, es: seq<Event>, j: nat, k: nat)
    requires EventsOk(es) && !v.pending && Offered(es, j, v.maxPacket) && TakesOffered(v, es, j, k)
    ensures Refuses(v, es) && k == 0 <==> j > 0 && k == 0
  {
    hide Layout, EventOk, HasRoom;
    if Refuses(v, es) {
      var i: nat :| Offered(es, i, v.maxPacket) && 0 < i <= |es|;
      OfferIsOne(es, i, j, v.maxPacket);
    }
  }

  /** Of a list that is larger than the largest packet the longest run below that size is
      offered, else all of it; of `j` packets offered `k` are taken. */
  lemma TakesInNumbers(v: View, es: seq<Event>, k: nat) returns (j: nat)
    requires Usual(v) && EventsOk(es) && Takes(v, es, k)
    ensures WriteAfterNote(v.write, v.notes, v.size) < v.size && j <= |es| && k <= |es|
    ensures v.pending ==> k == 0
    ensures Refuses(v, es) && k == 0 <==> !v.pending && j > 0 && k == 0
    ensures !v.pending ==>
              && k <= j
              && (if Bytes(es) <= v.maxPacket then j == |es|
                  else
                    && (j > 0 ==> Bytes(es[..j]) < v.maxPacket)
                    && (j < |es| ==> Bytes(es[..j + 1]) >= v.maxPacket))
              && (j > 0 ==>
                    var bytes, room := Bytes(es[..j]), RoomAfterNote(v, Bytes(es[..1]));
                    if (if v.write + 8 + bytes > v.size then v.read <= v.write && 8 + bytes + 16 <= v.read
                        else v.write + 8 + bytes + 16 <= if v.read > v.write then v.read else v.size + v.read)
                    then k == j
                    else (k > 0 ==> Bytes(es[..k]) < room) && (k < j ==> Bytes(es[..k + 1]) >= room))
  {
    hide Layout, EventOk, RoomAfterNote, HasRoom, TakesRun;
    RoomFillsPiece(v, 0);
    j := 0;
    if !v.pending {
      j :| Offered(es, j, v.maxPacket) && TakesOffered(v, es, j, k);
      RefusesIfNoneFits(v, es, j, k);
      OfferFits(es, j, v.maxPacket);
      if j > 0 {
        TakesRunInNumbers(v, es[..j], Bytes(es[..1]), k);
        assert es[..j][..k] == es[..k];
        assert k < j ==> es[..j][..k + 1] == es[..k + 1];
      }
    }
  }

  // ---------- When packets are copied at all ----------

  lemma LongestExists(es: seq<Event>, limit: nat) returns (j: nat)
    requires EventsOk(es)
    ensures LongestBelow(es, j, limit)
  {
    j := 0;
    while j < |es| && Bytes(es[..j + 1]) < limit
      invariant j <= |es| && (j > 0 ==> Bytes(es[..j]) < limit)
    {
      j := j + 1;
    }
  }

  lemma LongestIsOne(es: seq<Event>, j: nat, j': nat, limit: nat)
    requires EventsOk(es) && LongestBelow(es, j, limit) && LongestBelow(es, j', limit)
    ensures j == j'
  {
    hide Layout, EventOk;
    if j < j' {
      BytesGrow(es, j + 1, j');
    } else if j' < j {
      BytesGrow(es, j' + 1, j);
    }
  }

  lemma BytesGrow(es: seq<Event>, a: nat, b: nat)
    requires EventsOk(es) && a <= b <= |es|
    ensures Bytes(es[..a]) <= Bytes(es[..b])
  {
    hide Layout, EventOk;
    SomeBytes(es[..b], a);
    assert es[..b][..a] == es[..a];
  }

  lemma OfferIsOne(es: seq<Event>, j: nat, j': nat, maxPacket: nat)
    requires EventsOk(es) && Offered(es, j, maxPacket) && Offered(es, j', maxPacket)
    ensures j == j'
  {
    hide Layout, EventOk, LongestBelow;
    if Bytes(es) > maxPacket { LongestIsOne(es, j, j', maxPacket); }
  }

  /** Of the packets `es`, of which `j` are offered, some are taken exactly when the offer fits or
      the first packet alone is below the room that is left. */
  lemma TakesSomeIff(v: View, es: seq<Event>, j: nat, k: nat)
    requires EventsOk(es) && es != [] && Offered(es, j, v.maxPacket) && Takes(v, es, k)
    requires WriteAfterNote(v.write, v.notes, v.size) <= v.size
    ensures j <= |es| && Bytes(es[..j]) <= v.maxPacket
    ensures k > 0 <==>
              !v.pending && j > 0 && (HasRoom(v, Bytes(es[..j])) || Bytes(es[..1]) < RoomAfterNote(v, Bytes(es[..1])))
  {
    hide Layout, EventOk, HasRoom, RoomAfterNote;
    OfferFits(es, j, v.maxPacket);
    if !v.pending {
      var j' :| Offered(es, j', v.maxPacket) && TakesOffered(v, es, j', k);
      OfferIsOne(es, j, j', v.maxPacket);
      if j > 0 {
        assert es[..j][..1] == es[..1];
        if k > 0 && !HasRoom(v, Bytes(es[..j])) { FirstIsLeast(es[..j], k); }
      }
    }
  }

  lemma OfferFits(es: seq<Event>, j: nat, maxPacket: nat)
    requires EventsOk(es) && Offered(es, j, maxPacket)
    ensures j <= |es| && Bytes(es[..j]) <= maxPacket
  {
    NoBytes(es);
    assert es[..|es|] == es;
  }

  /** A list is never taken from, by any stream with packets of at most this size, exactly when
      it is too big for one packet and its first packet is not below that size. Then it is not
      refused either, and so copying is never suspended. */
  lemma NeverTakenIff(es: seq<Event>, maxPacket: nat)
    requires EventsOk(es) && es != []
    ensures (forall v: View, k: nat :: v.maxPacket == maxPacket && Takes(v, es, k) ==> k == 0) <==>
              Bytes(es) > maxPacket && Bytes(es[..1]) >= maxPacket
    ensures Bytes(es) > maxPacket && Bytes(es[..1]) >= maxPacket ==>
              forall v: View :: v.maxPacket == maxPacket ==> !Refuses(v, es)
  {
    hide Layout, EventOk;
    if Bytes(es) > maxPacket && Bytes(es[..1]) >= maxPacket {
      assert Offered(es, 0, maxPacket);
      NothingOffered(es, maxPacket);
    } else {
      var v, j := TakenBySome(es, maxPacket);
    }
  }

  /** A large empty stream takes what is offered to it. */
  lemma TakenBySome(es: seq<Event>, maxPacket: nat) returns (v: View, j: nat)
    requires EventsOk(es) && es != [] && (Bytes(es) <= maxPacket || Bytes(es[..1]) < maxPacket)
    ensures v.maxPacket == maxPacket && j > 0 && Takes(v, es, j)
  {
    hide Layout, EventOk;
    if Bytes(es) <= maxPacket { j := |es|; } else { j := LongestExists(es, maxPacket); }
    OfferFits(es, j, maxPacket);
    var bytes := Bytes(es[..j]);
    v := View(false, 0, 0, false, bytes + 24, maxPacket);
    assert HasRoom(v, bytes);
    assert es[..j][..j] == es[..j] && |es[..j]| == j;
    assert Offered(es, j, maxPacket) && TakesOffered(v, es, j, j);
  }

  /** The size of what is offered: the packets that stay below the largest packet, when all of
      them do not fit it. */
  method SizeOffered(bytesExp: U32, maxPacket: nat, src: array<Cell>, from: nat, ghost es: seq<Event>)
      returns (bytes: U32, ghost j: nat)
    requires LaidAt(src[..], from, es) && bytesExp == Bytes(es) && es != []
    ensures j <= |es| && Offered(es, j, maxPacket) && bytes == Bytes(es[..j]) <= maxPacket
    ensures bytes == 0 <==> j == 0
    ensures bytes == 0 ==> forall i: nat :: Offered(es, i, maxPacket) ==> i == 0
  {
    hide Layout, EventOk;
    bytes, j := bytesExp, |es|;
    assert es[..|es|] == es;
    if bytesExp > maxPacket {
      bytes, j := GetPackets(bytesExp, maxPacket, src, from, es);
    }
    SomeBytes(es, j);
    if j == 0 { NothingOffered(es, maxPacket); }
  }

  lemma OfferTakes(v: View, es: seq<Event>, j: nat, k: nat)
    requires EventsOk(es) && j <= |es| && Offered(es, j, v.maxPacket) && Bytes(es[..j]) <= v.maxPacket
    requires if j == 0 then k == 0 else k <= j && TakesRun(v, es[..j], Bytes(es[..1]), k)
    ensures Takes(v, es, k)
  {
    hide Layout, EventOk, Offered, TakesRun;
    if !v.pending {
      assert TakesOffered(v, es, j, k);
    } else if j > 0 {
      PendingTakesNone(v, es[..j], Bytes(es[..1]), k);
    }
  }

  lemma PendingTakesNone(v: View, es: seq<Event>, bytesMin: nat, k: nat)
    requires v.pending && EventsOk(es) && TakesRun(v, es, bytesMin, k)
    ensures k == 0
  {
  }

  lemma TakesNothing(v: View)
    ensures Takes(v, [], 0) && !Refuses(v, [])
  {
    assert Offered([], 0, v.maxPacket) && TakesOffered(v, [], 0, 0);
  }

  /** `RGXHWPerfCopyDataL1toL2`: submits the packets `es` in one data packet, or as many of
      them as there is room for. `k` are copied, and `added` is what the stream gained;
      `connected` says whether the stream has a reader. */
  method CopyL1ToL2(s: Stream, src: array<Cell>, from: nat, bytesExp: U32, connected: bool, ghost es: seq<Event>)
      returns (copied: nat, suspend: bool, ghost j: nat, ghost k: nat, ghost added: seq<Packet>)
    requires s.Valid() && s.mode == DropNewer && src != s.buf
    requires LaidAt(src[..], from, es) && bytesExp == Bytes(es) && es != []
    modifies s, s.buf
    ensures s.Valid() && s.mode == DropNewer && s.pending == old(s.pending) && s.gone == old(s.gone)
    ensures k <= |es| && copied == Bytes(es[..k]) && Takes(old(ViewOf(s)), es, k)
    // All is offered, or as much as stays below the largest packet; what is offered goes in if it
    // fits, 16 bytes before the read offset, and else as much as stays below the room reported.
    ensures j <= |es| && (old(s.pending) != NOTHING_PENDING ==> k == 0)
    ensures old(s.pending) == NOTHING_PENDING ==>
              && k <= j
              && (if Bytes(es) <= s.maxPacket then j == |es|
                  else
                    && (j > 0 ==> Bytes(es[..j]) < s.maxPacket)
                    && (j < |es| ==> Bytes(es[..j + 1]) >= s.maxPacket))
              && (j > 0 ==>
                    var end := old(s.write) + 8 + Bytes(es[..j]);
                    if (if end > s.size then old(s.read) <= old(s.write) && 8 + Bytes(es[..j]) + 16 <= old(s.read)
                        else end + 16 <= if old(s.read) > old(s.write) then old(s.read) else s.size + old(s.read))
                    then k == j
                    else
                      WriteAfterNote(old(s.write), old(s.Notes(false)), s.size) <= s.size
                      && var room := RoomAfterNote(old(ViewOf(s)), Bytes(es[..1]));
                         (k > 0 ==> Bytes(es[..k]) < room) && (k < j ==> Bytes(es[..k + 1]) >= room))
    ensures k == |es| ==> AllIn(old(ViewOf(s)), es, ViewOf(s))
    ensures s.Queue() == old(s.Queue()) + added && EventsIn(added) == Events(es[..k])
    ensures suspend <==> Refuses(old(ViewOf(s)), es) && k == 0 && !connected
    ensures suspend <==> old(s.pending) == NOTHING_PENDING && j > 0 && k == 0 && !connected
  {
    hide Layout, EventOk, GetSize, Live, Unflagged, EventsIn, SuggestAllocSize, WriteAfterNote, Offered, HasRoom;
    hide RoomAfterNote, Usual, AfterAll, Stream.Accounted, LongestBelow;
    ghost var v := ViewOf(s);
    ViewIsUsual(s);
    copied, suspend, k, added := 0, false, 0, [];
    NoBytes(es);
    FirstHeader(es);
    NextHeader(src[..], from, es, 0);
    var bytesMin := GetSize(src[from].hi);
    assert s.Queue() + [] == s.Queue();
    var bytes;
    bytes, j := SizeOffered(bytesExp, s.maxPacket, src, from, es);
    if bytes > 0 {
      LaidSplit(src[..], from, es, j);
      FitsIsRoom(s, bytes);
      copied, suspend, k, added := Submit(s, src, from, bytes, bytesMin, connected, es[..j]);
      assert es[..j][..k] == es[..k];
      assert es[..j][..1] == es[..1];
      assert j == |es| ==> es[..j] == es;
    }
    OfferTakes(v, es, j, k);
    j := TakesInNumbers(v, es, k);
  }

  /** `RGXHWPerfAdvanceRIdx` */
  function AdvanceRIdx(bufSize: nat, pos: nat, size: nat): nat {
    if pos + size < bufSize then pos + size else 0
  }

  /** The packets in the firmware's buffer: `first` from the read index on, and `second` from
      the start of the buffer if the write index has wrapped. A packet that starts before the
      end of the buffer may run past it, into extra space; the wrap count is where it ends. */
  ghost predicate HeldBy(cells: seq<Cell>, size: nat, rIdx: nat, wIdx: nat, wrapCount: nat,
                         first: seq<Event>, second: seq<Event>) {
    && size <= 8 * |cells| < WORD && rIdx % 8 == 0 && rIdx < size && wIdx < size
    && LaidAt(cells, rIdx / 8, first) && LaidAt(cells, 0, second)
    && (if rIdx <= wIdx then rIdx + Bytes(first) == wIdx && second == []
        else size <= rIdx + Bytes(first) == wrapCount && Bytes(second) == wIdx && StartBelow(size, rIdx, first))
  }

  ghost predicate StartBelow(size: nat, rIdx: nat, es: seq<Event>)
    requires EventsOk(es)
  {
    forall k :: 0 <= k < |es| ==> rIdx + Bytes(es[..k]) < size
  }

  lemma LaterStartBelow(size: nat, rIdx: nat, es: seq<Event>, k: nat)
    requires EventsOk(es) && StartBelow(size, rIdx, es) && k <= |es|
    ensures StartBelow(size, rIdx + Bytes(es[..k]), es[k..])
  {
    hide Layout, EventOk;
    forall i | 0 <= i < |es[k..]| ensures rIdx + Bytes(es[..k]) + Bytes(es[k..][..i]) < size {
      LayoutSplit(es[..k + i], k);
      assert es[..k + i][..k] == es[..k] && es[..k + i][k..] == es[k..][..i];
    }
  }

  /** The indices tell how much there is. */
  lemma HeldRuns(cells: seq<Cell>, size: nat, rIdx: nat, wIdx: nat, wrapCount: nat,
                 first: seq<Event>, second: seq<Event>)
    requires HeldBy(cells, size, rIdx, wIdx, wrapCount, first, second)
    ensures LaidAt(cells, rIdx / 8, first) && Bytes(first) < WORD && LaidAt(cells, 0, second)
    ensures rIdx == wIdx <==> first == []
    ensures if rIdx <= wIdx then second == [] && wIdx - rIdx == Bytes(first)
            else wrapCount - rIdx == Bytes(first) && wIdx == Bytes(second)
    ensures second == [] <==> rIdx <= wIdx || wIdx == 0
    ensures EventsOk(first) && EventsOk(second) && EventsOk(first + second)
    ensures rIdx <= wIdx ==> HeldBy(cells, size, rIdx, wIdx, size, first, second)
  {
    hide Layout, EventOk;
    if first != [] { FirstHeader(first); } else { NoBytes(first); }
    if second != [] { FirstHeader(second); } else { NoBytes(second); }
    assert first == [] ==> first[..0] == first;
    assert second == [] ==> second[..0] == second;
  }

  /** Moving the read index over the first `k` packets. */
  lemma HeldAfter(cells: seq<Cell>, size: nat, rIdx: nat, wIdx: nat, wrapCount: nat,
                  first: seq<Event>, second: seq<Event>, k: nat)
    requires HeldBy(cells, size, rIdx, wIdx, wrapCount, first, second) && k <= |first|
    ensures var next := AdvanceRIdx(size, rIdx, Bytes(first[..k]));
            if rIdx > wIdx && k == |first| then next == 0 && HeldBy(cells, size, 0, wIdx, wrapCount, second, [])
            else next == rIdx + Bytes(first[..k]) && HeldBy(cells, size, next, wIdx, wrapCount, first[k..], second)
  {
    hide Layout, EventOk;
    LaidSplit(cells, rIdx / 8, first, k);
    if rIdx > wIdx {
      LaterStartBelow(size, rIdx, first, k);
      assert k == |first| ==> first[..k] == first;
      NoBytes(second);
      assert second[..0] == [];
    }
  }

  /** Of the packets `all`, the first `k` went into the stream, in order, in the packets
      `added` to its queue; `rest` are left. */
  ghost predicate Stored(all: seq<Event>, k: nat, rest: seq<Event>, copied: nat,
                         queue: seq<Packet>, queue': seq<Packet>, added: seq<Packet>) {
    && k <= |all| && rest == all[k..]
    && EventsOk(all[..k]) && copied == Bytes(all[..k])
    && queue' == queue + added && EventsIn(added) == Events(all[..k])
  }

  lemma NothingStored(es: seq<Event>, queue: seq<Packet>)
    requires EventsOk(es)
    ensures Stored(es, 0, es, 0, queue, queue, [])
  {
    NoBytes(es);
    assert es[0..] == es && queue + [] == queue;
  }

  lemma OneRunStored(first: seq<Event>, second: seq<Event>, k: nat, copied: nat,
                     queue: seq<Packet>, queue': seq<Packet>, added: seq<Packet>)
    requires k <= |first| && Stored(first, k, first[k..], copied, queue, queue', added)
    ensures Stored(first + second, k, first[k..] + second, copied, queue, queue', added)
    ensures k == |first| ==> Stored(first + second, k, second + [], copied, queue, queue', added)
  {
    hide EventsIn, Layout;
    assert (first + second)[..k] == first[..k] && (first + second)[k..] == first[k..] + second;
  }

  lemma TwoRunsStored(first: seq<Event>, second: seq<Event>, k: nat, copied1: nat, copied2: nat,
                      queue: seq<Packet>, middle: seq<Packet>, queue': seq<Packet>,
                      added1: seq<Packet>, added2: seq<Packet>)
    requires EventsOk(first) && EventsOk(second)
    requires Stored(first, |first|, [], copied1, queue, middle, added1)
    requires k <= |second| && Stored(second, k, second[k..], copied2, middle, queue', added2)
    ensures Stored(first + second, |first| + k, second[k..] + [], copied1 + copied2, queue, queue', added1 + added2)
  {
    hide EventsIn, Layout;
    EventsInConcat(added1, added2);
    LayoutConcat(first, second[..k]);
    assert first[..|first|] == first;
    assert (first + second)[..|first| + k] == first + second[..k];
    assert (first + second)[|first| + k..] == second[k..] + [];
  }

  /** Nothing is lost, repeated or reordered: whatever left the stream before, the events in
      it followed by those still in the firmware's buffer are the same after a copy. */
  lemma StoringConserves(gone: seq<Packet>, all: seq<Event>, k: nat, rest: seq<Event>, copied: nat,
                         queue: seq<Packet>, queue': seq<Packet>, added: seq<Packet>, delivered: seq<Event>)
    requires Stored(all, k, rest, copied, queue, queue', added)
    requires EventsIn(gone + queue) == Events(delivered)
    ensures EventsIn(gone + queue') == Events(delivered + all[..k])
    ensures (delivered + all[..k]) + rest == delivered + all
  {
    hide EventsIn, Layout;
    EventsInConcat(gone + queue, added);
    assert gone + queue' == (gone + queue) + added;
    assert all[..k] + all[k..] == all;
  }

  class FwBuffer {
    const size: nat
    const buf: array<Cell>
    var rIdx: nat
    var wIdx: nat
    var wrapCount: nat
    var suspended: bool
    ghost var first: seq<Event>
    ghost var second: seq<Event>

    constructor (size: nat, buf: array<Cell>)
      requires 0 < size <= 8 * buf.Length < WORD
      ensures Valid() && Pending() == [] && !suspended && this.buf == buf && this.size == size
    {
      this.size, this.buf := size, buf;
      rIdx, wIdx, wrapCount, suspended := 0, 0, 0, false;
      first, second := [], [];
    }

    ghost predicate Valid()
      reads this, buf
    {
      HeldBy(buf[..], size, rIdx, wIdx, wrapCount, first, second)
    }

    ghost function Pending(): seq<Event>
      reads this
    {
      first + second
    }

    /** Copies from the read index on, as far as the run of packets there goes, and moves the
        index over what was copied. */
    method StoreRun(s: Stream, bytesExp: nat, connected: bool)
        returns (copied: nat, ghost k: nat, ghost added: seq<Packet>)
      requires Valid() && s.Valid() && s.mode == DropNewer && buf != s.buf
      requires bytesExp == Bytes(first) && first != []
      modifies this`rIdx, this`first, this`second, this`suspended, s, s.buf
      ensures Valid() && s.Valid() && s.mode == DropNewer && s.pending == old(s.pending) && s.gone == old(s.gone)
      ensures k <= |old(first)| && Takes(old(ViewOf(s)), old(first), k)
      ensures k == |old(first)| ==> AllIn(old(ViewOf(s)), old(first), ViewOf(s))
      ensures suspended <==> old(suspended) || (Refuses(old(ViewOf(s)), old(first)) && k == 0 && !connected)
      ensures Stored(old(first), k, old(first)[k..], copied, old(s.Queue()), s.Queue(), added)
      ensures rIdx == AdvanceRIdx(size, old(rIdx), copied) && (copied == bytesExp <==> k == |old(first)|)
      ensures if old(rIdx) > wIdx && k == |old(first)| then rIdx == 0 && first == old(second) && second == []
              else first == old(first)[k..] && second == old(second) && (old(rIdx) > wIdx ==> rIdx > wIdx)
    {
      hide Layout, EventOk, EventsIn, HeldBy, LaidAt, AdvanceRIdx, LongestBelow, SuggestAllocSize, Live, Unflagged;
      hide Takes, Refuses, AllIn;
      var suspend;
      HeldRuns(buf[..], size, rIdx, wIdx, wrapCount, first, second);
      ghost var j;
      copied, suspend, j, k, added := CopyL1ToL2(s, buf, rIdx / 8, bytesExp, connected, first);
      HeldAfter(buf[..], size, rIdx, wIdx, wrapCount, first, second, k);
      SomeBytes(first, k);
      suspended := suspended || suspend;
      if rIdx > wIdx && k == |first| {
        first, second := second, [];
      } else {
        first := first[k..];
      }
      rIdx := AdvanceRIdx(size, rIdx, copied);
    }

    /** `RGXHWPerfDataStore`: the packets copied to the stream, in order, are the first `k` of
        those the buffer held, and the others stay. */
    method DataStore(s: Stream, connected: bool) returns (copiedSum: nat, ghost k: nat, ghost added: seq<Packet>)
      requires Valid() && s.Valid() && s.mode == DropNewer && buf != s.buf
      modifies this`rIdx, this`first, this`second, this`suspended, this`wrapCount, s, s.buf
      ensures Valid() && s.Valid() && s.mode == DropNewer && s.pending == old(s.pending) && s.gone == old(s.gone)
      ensures Stored(old(Pending()), k, Pending(), copiedSum, old(s.Queue()), s.Queue(), added)
      // How many: what the stream takes of the first run, and if that is all of it, what it
      // then takes of the second.
      ensures old(suspended) ==> k == 0 && unchanged(this)
      // The wrap count is given back to the firmware when the read index has wrapped.
      ensures wrapCount ==
                if !old(suspended) && old(rIdx) > old(wIdx) && k >= |old(first)| then size else old(wrapCount)
      // Copying is suspended when nothing of a run fits and nobody reads.
      ensures !old(suspended) ==>
                var v := old(ViewOf(s));
                if old(first) == [] then k == 0 && !suspended
                else if k < |old(first)| then
                  && Takes(v, old(first), k)
                  && (suspended <==> Refuses(v, old(first)) && k == 0 && !connected)
                else
                  && AllIn(v, old(first), AfterAll(v, old(first)))
                  && Takes(AfterAll(v, old(first)), old(second), k - |old(first)|)
                  && (suspended <==>
                        Refuses(AfterAll(v, old(first)), old(second)) && k == |old(first)| && !connected)
    {
      hide Layout, EventOk, EventsIn, HeldBy, LaidAt, AdvanceRIdx, Stored;
      hide Takes, Refuses, AfterAll, HasRoom, Live, Unflagged;
      copiedSum, k, added := 0, 0, [];
      HeldRuns(buf[..], size, rIdx, wIdx, wrapCount, first, second);
      NothingStored(Pending(), s.Queue());
      ghost var v := ViewOf(s);
      TakesNothing(v);
      TakesNothing(AfterAll(v, first));
      if suspended {
        return;
      }
      ghost var first0, second0, queue0 := first, second, s.Queue();
      if rIdx != wIdx {
        if wIdx > rIdx {
          copiedSum, k, added := StoreRun(s, wIdx - rIdx, connected);
          OneRunStored(first0, second0, k, copiedSum, queue0, s.Queue(), added);
        } else {
          var bytesExp := wrapCount - rIdx;
          copiedSum, k, added := StoreRun(s, bytesExp, connected);
          OneRunStored(first0, second0, k, copiedSum, queue0, s.Queue(), added);
          HeldRuns(buf[..], size, rIdx, wIdx, wrapCount, first, second);
          if rIdx == 0 {
            wrapCount := size;
          }
          if copiedSum == bytesExp && wIdx > 0 && rIdx == 0 {
            var copied;
            ghost var k2, added2;
            ghost var middle := s.Queue();
            assert k == |first0| && first0[k..] == [];
            copied, k2, added2 := StoreRun(s, wIdx, connected);
            TwoRunsStored(first0, second0, k2, copiedSum, copied, queue0, middle, s.Queue(), added, added2);
            copiedSum, k, added := copiedSum + copied, k + k2, added + added2;
          }
        }
      }
    }
  }
}
