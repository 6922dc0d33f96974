/** GPU utilisation words and counters: the macros and the shared block of
    `include/rogue/rgx_fwif_km.h`, updated as in `services/server/devices/rogue/rgxpower.c`. */
module GpuUtil {
  import opened Bits
  import opened Fields
  import opened TimeCorr

  const STATE_NUM: nat := 3
  const STATE_MASK: nat := 3
  const TIME_MASK: nat := TWO_64 - 4

  // ---------- Words ----------

  function GetTime(word: U64): nat {
    And(word, TIME_MASK)
  }

  function GetState(word: nat): nat {
    And(word, STATE_MASK)
  }

  function MakeWord(time: U64, state: nat): nat {
    Or(GetTime(time), GetState(state))
  }

  /** `RGXFWIF_GPU_UTIL_GET_PERIOD` */
  function Period(newTime: nat, oldTime: nat): nat {
    if newTime > oldTime then newTime - oldTime else 0
  }

  lemma Pow2Of62And64()
    ensures Pow2(2) == 4 && Pow2(62) == TWO_64 / 4 && Pow2(64) == TWO_64
  {
    Pow2Values();
    Pow2Add(32, 32);
    Pow2Add(2, 62);
  }

  lemma TimeAndState(word: U64)
    ensures GetTime(word) == word / 4 * 4 && GetState(word) == word % 4
    ensures GetTime(word) == Shl(word / 4, 2) && word / 4 < Pow2(62)
  {
    Pow2Of62And64();
    ShlIsMul(Pow2(62) - 1, 2);
    AndField(word, 2, 62);
    ShrLowAreDivMod(word, 2);
    LowOfSmall(word / 4, 62);
    ShlIsMul(word / 4, 2);
    AndLowMask(word, 2);
  }

  lemma StateOf(state: nat)
    ensures GetState(state) == state % 4
  {
    assert Pow2(2) == 4;
    AndLowMask(state, 2);
    ShrLowAreDivMod(state, 2);
  }

  /** A word is a time cut to a multiple of 4 with the state in the bits left free; both come
      back, and a time that is already cut is unchanged. */
  lemma WordFields(time: U64, state: nat)
    ensures MakeWord(time, state) == time / 4 * 4 + state % 4 < TWO_64
    ensures GetTime(MakeWord(time, state)) == GetTime(time) == time / 4 * 4
    ensures GetState(MakeWord(time, state)) == state % 4
  {
    hide And, Or;
    TimeAndState(time);
    StateOf(state);
    assert Pow2(2) == 4;
    OrDisjoint(state % 4, time / 4, 2);
    OrCommutes(GetTime(time), GetState(state));
    CutTime(time, state % 4);
    TimeAndState(time / 4 * 4 + state % 4);
  }

  lemma CutTime(time: U64, s: nat)
    requires s < 4
    ensures time / 4 * 4 + s < TWO_64
    ensures (time / 4 * 4 + s) / 4 == time / 4 && (time / 4 * 4 + s) % 4 == s
  {
  }

  // ---------- What a run of words amounts to ----------

  ghost predicate IsWord(w: U64) {
    GetState(w) < STATE_NUM
  }

  ghost predicate AreWords(ws: seq<U64>) {
    forall i :: 0 <= i < |ws| ==> IsWord(ws[i])
  }

  /** Time credited to a state: every period goes to the state of the word before it. */
  ghost function Credit(ws: seq<U64>, state: nat): nat {
    if |ws| < 2 then 0
    else
      var last, before := ws[|ws| - 1], ws[|ws| - 2];
      Credit(ws[..|ws| - 1], state) + if GetState(before) == state then Period(GetTime(last), GetTime(before)) else 0
  }

  ghost predicate NeverDecreases(ws: seq<U64>) {
    forall i, j :: 0 <= i && j == i + 1 && j < |ws| ==> GetTime(ws[i]) <= GetTime(ws[j])
  }

  /** The states together are credited with at least the time from the first word to the last,
      and with exactly that when the times never go back. */
  lemma {:induction false} CreditsCoverTime(ws: seq<U64>)
    requires ws != [] && AreWords(ws)
    ensures Credit(ws, 0) + Credit(ws, 1) + Credit(ws, 2) >= GetTime(ws[|ws| - 1]) - GetTime(ws[0])
    ensures Credit(ws, 0) + Credit(ws, 1) + Credit(ws, 2) == GetTime(ws[|ws| - 1]) - GetTime(ws[0]) <==>
              NeverDecreases(ws)
  {
    if |ws| > 1 {
      var n := |ws| - 1;
      var rest := ws[..n];
      CreditsCoverTime(rest);
      assert IsWord(ws[n - 1]);
      assert NeverDecreases(ws) <==> NeverDecreases(rest) && GetTime(ws[n - 1]) <= GetTime(ws[n]);
    }
  }

  lemma CreditSnoc(ws: seq<U64>, w: U64, state: nat)
    requires ws != []
    ensures var before := ws[|ws| - 1];
            Credit(ws + [w], state) ==
              Credit(ws, state) + if GetState(before) == state then Period(GetTime(w), GetTime(before)) else 0
  {
    assert (ws + [w])[..|ws|] == ws;
  }

  /** 64-bit counters wrap. */
  function Counted(counter: U64, period: nat): U64 {
    (counter as nat + period) % TWO_64
  }

  /** Time that has gone back does not count. */
  lemma CountsPeriod(counter: U64, now: nat, was: nat)
    ensures Counted(counter, Period(now, was)) == (counter + if now > was then now - was else 0) % TWO_64
  {
  }

  lemma AddWrapped(x: nat, y: nat)
    ensures (x % TWO_64 + y) % TWO_64 == (x + y) % TWO_64
  {
  }

  /** Each counter holds what its state has been credited with, as far as 64 bits go. */
  ghost predicate Tallies(counters: seq<U64>, ws: seq<U64>) {
    |counters| == STATE_NUM && forall s :: 0 <= s < STATE_NUM ==> counters[s] == Credit(ws, s) % TWO_64
  }

  lemma TalliesStep(counters: seq<U64>, ws: seq<U64>, w: U64)
    requires Tallies(counters, ws) && ws != [] && AreWords(ws)
    ensures var before := ws[|ws| - 1];
            && GetState(before) < STATE_NUM
            && (IsWord(w) ==> AreWords(ws + [w]))
            && var s := GetState(before);
               Tallies(counters[s := Counted(counters[s], Period(GetTime(w), GetTime(before)))], ws + [w])
  {
    var before := ws[|ws| - 1];
    assert IsWord(before);
    var state, period := GetState(before), Period(GetTime(w), GetTime(before));
    AddWrapped(Credit(ws, state), period);
    forall s | 0 <= s < STATE_NUM ensures Credit(ws + [w], s) == Credit(ws, s) + if s == state then period else 0 {
      CreditSnoc(ws, w, s);
    }
  }

  lemma UpdateStep(counters: seq<U64>, ws: seq<U64>, clock: U64, state: nat)
    requires ws != [] && AreWords(ws) && Tallies(counters, ws) && state < STATE_NUM
    ensures GetTime(clock) < TWO_64 && MakeWord(GetTime(clock), state) < TWO_64
    ensures var now := GetTime(clock); var w, before := MakeWord(now, state), ws[|ws| - 1];
            && GetTime(w) == now && GetState(w) == state && AreWords(ws + [w])
            && GetState(before) < STATE_NUM == |counters|
            && var s := GetState(before);
               Tallies(counters[s := Counted(counters[s], Period(now, GetTime(before)))], ws + [w])
  {
    hide And, Or, Credit;
    WordFields(clock, state);
    WordFields(GetTime(clock), state);
    TalliesStep(counters, ws, MakeWord(GetTime(clock), state));
  }

  // ---------- The shared block ----------

  class UtilBlock {
    var lastWord: U64
    const counters: array<U64>
    ghost var words: seq<U64>

    ghost predicate Valid()
      reads this, counters
    {
      && words != [] && AreWords(words) && lastWord == words[|words| - 1]
      && Tallies(counters[..], words)
    }

    constructor (clock: U64)
      ensures Valid() && |words| == 1 && GetTime(lastWord) == GetTime(clock) && fresh(counters)
    {
      WordFields(clock, 0);
      lastWord := MakeWord(clock, 0);
      counters := new U64[STATE_NUM](_ => 0);
      words := [MakeWord(clock, 0)];
    }

    /** Credits the time since the last word and notes a new one. The host's update
        (`_RGXUpdateGPUUtilStats`) keeps the state; the firmware's changes it. */
    method Update(clock: U64, state: nat)
      requires Valid() && state < STATE_NUM
      modifies this`lastWord, this`words, counters
      ensures Valid()
      ensures |words| == |old(words)| + 1 && words[..|old(words)|] == old(words)
      ensures GetTime(lastWord) == GetTime(clock) && GetState(lastWord) == state
      // The time since the last word, if it has not gone back, is added to the counter of the state
      // in that word, modulo 2^64.
      ensures var now, was, state := clock / 4 * 4, old(lastWord) / 4 * 4, old(lastWord) % 4;
              && state < 3 == counters.Length
              && counters[state] == (old(counters[..])[state] + if now > was then now - was else 0) % TWO_64
              && forall s :: 0 <= s < 3 && s != state ==> counters[s] == old(counters[..])[s]
    {
      hide GetTime, GetState, MakeWord, Period, Tallies, Counted, AreWords, IsWord;
      TimeAndState(clock);
      TimeAndState(lastWord);
      UpdateStep(counters[..], words, clock, state);
      var now := GetTime(clock);
      var lastState := GetState(lastWord);
      var lastTime := GetTime(lastWord);
      var lastPeriod := Period(now, lastTime);
      var counted := Counted(counters[lastState], lastPeriod);
      CountsPeriod(counters[lastState], now, lastTime);
      counters[lastState] := counted;
      assert counters[..] == old(counters[..])[lastState := counted];
      lastWord := MakeWord(now, state);
      words := words + [lastWord];
    }

    method UpdateStats(clock: U64)
      requires Valid()
      modifies this`lastWord, this`words, counters
      ensures Valid() && |words| == |old(words)| + 1 && words[..|old(words)|] == old(words)
      ensures GetTime(lastWord) == GetTime(clock) && GetState(lastWord) == old(GetState(lastWord))
    {
      assert IsWord(lastWord);
      var state := GetState(lastWord);
      Update(clock, state);
    }

    /** Until a counter wraps, the counters themselves cover the time. */
    lemma CountersCoverTime()
      requires Valid() && forall s :: 0 <= s < STATE_NUM ==> Credit(words, s) < TWO_64
      ensures counters.Length == STATE_NUM
      ensures var total := counters[0] as nat + counters[1] as nat + counters[2] as nat;
              && total >= GetTime(lastWord) - GetTime(words[0])
              && (total == GetTime(lastWord) - GetTime(words[0]) <==> NeverDecreases(words))
    {
      CreditsCoverTime(words);
      hide Credit, GetTime, GetState, AreWords, NeverDecreases;
      assert forall s :: 0 <= s < STATE_NUM ==> counters[..][s] == Credit(words, s);
    }
  }
}
