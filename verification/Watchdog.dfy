/** The capture watchdog: when it restarts the streamer, and when it holds back. Times are in milliseconds. */
module Watchdog {
  import opened Wrappers

  const STALL_TICKS := 3
  const MIN_INTERVAL := 8
  const MAX_PCLK := 75000000

  /** The whole-second clock the script reads. */
  function Date(ms: nat): nat { ms / 1000 }

  /** What one poll reads, and when; `t` and `cam` are empty if unreadable. A restart runs from `kick` to `back`. */
  datatype Seen = Seen(t: string, pclk: Option<nat>, cam: string, fps: Option<nat>, at: nat, kick: nat, back: nat)

  /** The clock is monotone within a poll; a restart sleeps six seconds. */
  predicate Monotone(o: Seen) { o.at <= o.kick && o.kick + 6000 <= o.back }

  predicate TooFast(o: Seen) { o.t != "" && o.pclk.Some? && o.pclk.value > MAX_PCLK }

  predicate Carryable(o: Seen) { o.t != "" && !TooFast(o) }

  predicate Mismatch(o: Seen) { Carryable(o) && o.cam != "" && o.t != o.cam }

  predicate NoFrames(o: Seen) { o.fps == None || o.fps == Some(0) }

  /** Carryable, rightly configured, and no frames. */
  predicate Stalled(o: Seen) { Carryable(o) && !Mismatch(o) && NoFrames(o) }

  datatype Mode = Mode(t: string, pclk: nat)

  datatype State = State(have: bool, stall: nat, unsup: Option<Mode>, last: nat)

  datatype Event = Idle | Logged(mode: Mode) | Kicked

  function Start(t: string, at: nat): State { State(t != "", 0, None, Date(at)) }

  /** The mode the link cannot carry, if that is what is seen. */
  function Unsupported(o: Seen): Option<Mode> {
    if TooFast(o) then Some(Mode(o.t, o.pclk.value)) else None
  }

  predicate Due(s: State, o: Seen) { Date(o.at) - s.last >= MIN_INTERVAL }

  /** Whether this poll asks for a restart: the signal is back, the mode changed, or frames stopped long enough. */
  predicate Wanted(s: State, o: Seen) {
    Carryable(o) && (!s.have || Mismatch(o) || (NoFrames(o) && s.stall + 1 >= STALL_TICKS))
  }

  function Outcome(s: State, o: Seen): Event {
    if Wanted(s, o) && Due(s, o) then Kicked
    else match Unsupported(o)
      case Some(m) => if s.unsup == Some(m) then Idle else Logged(m)
      case None => Idle
  }

  function Next(s: State, o: Seen): State {
    State(o.t != "",
          if s.have && Stalled(o) && Outcome(s, o) != Kicked then s.stall + 1 else 0,
          Unsupported(o),
          if Outcome(s, o) == Kicked then Date(o.back) else s.last)
  }

  class Watchdog {
    var have: bool
    var stall: nat
    var unsup: Option<Mode>
    var last: nat

    ghost function Now(): State
      reads this
    {
      State(have, stall, unsup, last)
    }

    constructor (t: string, at: nat)
      ensures Now() == Start(t, at)
    {
      have, stall, unsup, last := t != "", 0, None, Date(at);
    }

    /** One turn of the main loop. */
    method Poll(o: Seen) returns (e: Event)
      modifies this
      ensures Now() == Next(old(Now()), o) && e == Outcome(old(Now()), o)
    {
      var since := Date(o.at) - last;
      e := Idle;
      if o.t == "" {
        have, stall, unsup := false, 0, None;
        return;
      }
      if o.pclk.Some? && o.pclk.value > MAX_PCLK {
        var m := Mode(o.t, o.pclk.value);
        if unsup != Some(m) {
          e, unsup := Logged(m), Some(m);
        }
        have, stall := true, 0;
        return;
      }
      unsup := None;
      if !have {
        have, stall := true, 0;
        if since >= MIN_INTERVAL { e, last := Kicked, Date(o.back); }
        return;
      }
      if o.cam != "" && o.t != o.cam {
        stall := 0;
        if since >= MIN_INTERVAL { e, last := Kicked, Date(o.back); }
        return;
      }
      if o.fps == None || o.fps == Some(0) {
        stall := stall + 1;
        if stall >= STALL_TICKS && since >= MIN_INTERVAL {
          e, last, stall := Kicked, Date(o.back), 0;
        }
      } else {
        stall := 0;
      }
    }
  }

  // --- runs ---

  function Run(s: State, seen: seq<Seen>): State {
    if seen == [] then s else Next(Run(s, seen[..|seen| - 1]), seen[|seen| - 1])
  }

  function EventAt(s: State, seen: seq<Seen>, i: nat): Event
    requires i < |seen|
  {
    Outcome(Run(s, seen[..i]), seen[i])
  }

  predicate KickedAt(s: State, seen: seq<Seen>, i: nat)
    requires i < |seen|
  {
    EventAt(s, seen, i) == Kicked
  }

  /** The state remembers the last restart: no earlier one returned later. */
  lemma {:induction false} LastIsLatest(s: State, seen: seq<Seen>, n: nat, i: nat)
    requires i < n <= |seen| && KickedAt(s, seen, i)
    requires forall k :: 0 <= k < |seen| ==> Monotone(seen[k])
    ensures Date(seen[i].back) <= Run(s, seen[..n]).last
  {
    hide Wanted; hide Unsupported; hide Stalled;
    assert seen[..n][..n - 1] == seen[..n - 1] && seen[..n][n - 1] == seen[n - 1];
    if i < n - 1 {
      LastIsLatest(s, seen, n - 1, i);
    }
  }

  /** Eight ticks of the whole-second clock: less the part of a second at which the earlier restart returned. */
  lemma KicksApart(s: State, seen: seq<Seen>, i: nat, j: nat)
    requires i < j < |seen| && KickedAt(s, seen, i) && KickedAt(s, seen, j)
    requires forall k :: 0 <= k < |seen| ==> Monotone(seen[k])
    ensures Date(seen[j].at) - Date(seen[i].back) >= MIN_INTERVAL
    ensures seen[j].kick - seen[i].back >= 8000 - seen[i].back % 1000
  {
    LastIsLatest(s, seen, j, i);
    hide Run;
    Seconds(seen[j].at);
    Seconds(seen[i].back);
  }

  lemma Seconds(ms: nat)
    ensures ms == 1000 * Date(ms) + ms % 1000 && 0 <= ms % 1000 < 1000
  {}

  /** A run as the script makes it: the clock is monotone, and it sleeps two seconds after each poll or restart. */
  predicate Timed(s: State, seen: seq<Seen>) {
    forall k :: 0 <= k < |seen| ==> Monotone(seen[k]) && seen[k].at >= Ended(s, seen, k) + 2000
  }

  /** When the turn before poll k ended; the first poll follows the start at `last`. */
  function Ended(s: State, seen: seq<Seen>, k: nat): nat
    requires k <= |seen|
  {
    if k == 0 then 1000 * s.last else if KickedAt(s, seen, k - 1) then seen[k - 1].back else seen[k - 1].at
  }

  function Changed(t: string, at: nat): Seen { Seen(t, None, t + "x", Some(30), at, at, at + 6000) }

  function Fine(t: string, at: nat): Seen { Seen(t, None, t, Some(30), at, at, at + 6000) }

  /** Two restarts around two quiet polls, the first returning p milliseconds into a second. */
  function Close(p: nat): seq<Seen> {
    [Changed("a", 9000 + p), Fine("a", 17000 + p), Fine("a", 19000 + p), Changed("b", 23000)]
  }

  /** The bound is attained, whatever part of a second the earlier restart returns at. */
  lemma KicksCanBeClose(p: nat)
    requires p < 1000
    ensures var s, seen := Start("a", 0), Close(p);
            && Timed(s, seen) && KickedAt(s, seen, 0) && KickedAt(s, seen, 3)
            && seen[0].back % 1000 == p && seen[3].kick - seen[0].back == 8000 - p
  {
    var s, seen := Start("a", 0), Close(p);
    assert seen[..0] == [];
    assert seen[..1][..0] == [] && Run(s, seen[..1]) == State(true, 0, None, 15);
    assert seen[..2][..1] == seen[..1] && Run(s, seen[..2]) == State(true, 0, None, 15);
    assert seen[..3][..2] == seen[..2] && Run(s, seen[..3]) == State(true, 0, None, 15);
  }

  /** Eight real seconds from every restart that returns p milliseconds into a second to the start of any later one. */
  ghost predicate EightSeconds(p: nat) {
    forall s: State, seen: seq<Seen>, i: nat, j: nat ::
      i < j < |seen| && Timed(s, seen) && KickedAt(s, seen, i) && KickedAt(s, seen, j) && seen[i].back % 1000 == p ==>
        seen[j].kick - seen[i].back >= 8000
  }

  /** Eight real seconds are kept after a restart exactly if it returns on a whole second. */
  lemma EightSecondsExactly(p: nat)
    requires p < 1000
    ensures EightSeconds(p) <==> p == 0
  {
    hide Timed; hide KickedAt;
    if p == 0 {
      forall s: State, seen: seq<Seen>, i: nat, j: nat |
        i < j < |seen| && Timed(s, seen) && KickedAt(s, seen, i) && KickedAt(s, seen, j) && seen[i].back % 1000 == p
        ensures seen[j].kick - seen[i].back >= 8000
      {
        TimedIsMonotone(s, seen);
        KicksApart(s, seen, i, j);
      }
    } else {
      KicksCanBeClose(p);
      hide Start; hide Close;
      var s, seen := Start("a", 0), Close(p);
      assert Timed(s, seen) && KickedAt(s, seen, 0) && KickedAt(s, seen, 3) && seen[0].back % 1000 == p;
    }
  }

  lemma TimedIsMonotone(s: State, seen: seq<Seen>)
    requires Timed(s, seen)
    ensures forall k :: 0 <= k < |seen| ==> Monotone(seen[k])
  {}

  // --- bounded response ---

  /** Polls at least two seconds apart, the first at least two seconds after `from`. */
  predicate Paced(from: nat, seen: seq<Seen>) {
    forall i :: 0 <= i < |seen| ==> seen[i].at >= Before(from, seen, i) + 2000
  }

  function Before(from: nat, seen: seq<Seen>, i: nat): nat
    requires i <= |seen|
  {
    if i == 0 then from else seen[i - 1].at
  }

  /** A carryable signal the pipeline is not delivering. */
  predicate Broken(o: Seen) { Carryable(o) && (Mismatch(o) || NoFrames(o)) }

  lemma {:induction false} PacedAt(from: nat, seen: seq<Seen>, i: nat)
    requires Paced(from, seen) && i < |seen|
    ensures seen[i].at >= from + 2000 * (i + 1)
  {
    if i > 0 { PacedAt(from, seen, i - 1); }
    assert seen[i].at >= Before(from, seen, i) + 2000;
  }

  /** Unless a restart came first, the polls so far have only counted stalls. */
  lemma BrokenStep(s: State, o: Seen)
    requires Broken(o) && Outcome(s, o) != Kicked
    ensures Next(s, o).have && Next(s, o).last == s.last
    ensures Next(s, o).stall == (if s.have && !Mismatch(o) then s.stall + 1 else 0)
    ensures Due(s, o) ==> s.have && !Mismatch(o) && s.stall + 1 < STALL_TICKS
  {}

  lemma DueLater(s: State, from: nat, o: Seen, n: nat)
    requires s.last <= Date(from) && n >= 4 && o.at >= from + 2000 * n
    ensures Due(s, o)
  {}

  /** From any state, a broken but carryable signal is restarted within six polls. */
  lemma RestartWithinSix(s: State, from: nat, seen: seq<Seen>)
    requires |seen| == 6 && s.last <= Date(from) && Paced(from, seen)
    requires forall i :: 0 <= i < 6 ==> Broken(seen[i])
    ensures exists i :: 0 <= i < 6 && KickedAt(s, seen, i)
  {
    hide Broken; hide Outcome; hide Next; hide Due; hide Mismatch; hide Date;
    if forall i :: 0 <= i < 6 ==> !KickedAt(s, seen, i) {
      hide Run;
      NoKickYet(s, from, seen, 6);
    }
  }

  /** If none of the first n polls restarts, the clock is still the old one and stalls are counted since it was due. */
  lemma {:induction false} NoKickYet(s: State, from: nat, seen: seq<Seen>, n: nat)
    requires |seen| == 6 && n <= 6 && s.last <= Date(from) && Paced(from, seen)
    requires forall i :: 0 <= i < 6 ==> Broken(seen[i])
    requires forall i :: 0 <= i < n ==> !KickedAt(s, seen, i)
    ensures Run(s, seen[..n]).last == s.last
    ensures n >= 1 ==> Run(s, seen[..n]).have
    ensures n >= 4 ==> n - 3 <= Run(s, seen[..n]).stall < STALL_TICKS
  {
    hide Broken; hide Outcome; hide Next; hide Due; hide Mismatch; hide Date;
    if n > 0 {
      NoKickYet(s, from, seen, n - 1);
      assert seen[..n][..n - 1] == seen[..n - 1];
      assert !KickedAt(s, seen, n - 1);
      BrokenStep(Run(s, seen[..n - 1]), seen[n - 1]);
      PacedAt(from, seen, n - 1);
      if n >= 4 { DueLater(Run(s, seen[..n - 1]), from, seen[n - 1], n); }
    }
  }

  function Frozen(at: nat): Seen { Seen("a", None, "a", Some(0), at, at, at + 6000) }

  /** Five polls need not be enough. */
  lemma FivePollsCanPass()
    ensures var seen := [Frozen(2000), Frozen(4000), Changed("a", 6000), Frozen(8000), Frozen(10000)];
            && Paced(0, seen)
            && (forall i :: 0 <= i < 5 ==> Broken(seen[i]) && !KickedAt(State(false, 0, None, 0), seen, i))
  {
    var s := State(false, 0, None, 0);
    var seen := [Frozen(2000), Frozen(4000), Changed("a", 6000), Frozen(8000), Frozen(10000)];
    assert seen[..0] == [];
    assert seen[..1][..0] == [] && Run(s, seen[..1]) == State(true, 0, None, 0);
    assert seen[..2][..1] == seen[..1] && Run(s, seen[..2]) == State(true, 1, None, 0);
    assert seen[..3][..2] == seen[..2] && Run(s, seen[..3]) == State(true, 0, None, 0);
    assert seen[..4][..3] == seen[..3] && Run(s, seen[..4]) == State(true, 1, None, 0);
  }

  // --- logging and debounce ---

  /** A mode above 75 MHz is logged at a poll that sees it, unless the poll before saw the very same mode. */
  lemma LoggedOncePerStretch(t: string, at: nat, seen: seq<Seen>, i: nat, m: Mode)
    requires i < |seen|
    ensures EventAt(Start(t, at), seen, i) == Logged(m) <==>
              && seen[i].t == m.t && m.t != "" && seen[i].pclk == Some(m.pclk) && m.pclk > 75000000
              && (i == 0 || seen[i - 1].t != m.t || seen[i - 1].pclk != Some(m.pclk))
  {
    hide Wanted; hide Stalled; hide Due;
    Wants(Run(Start(t, at), seen[..i]), seen[i]);
    if i > 0 { assert seen[..i][i - 1] == seen[i - 1]; }
  }

  lemma Wants(s: State, o: Seen)
    ensures Unsupported(o).Some? ==> !Wanted(s, o)
  {}

  /** The stall count is backed by that many consecutive stalled polls. */
  lemma {:induction false} StallCounts(t: string, at: nat, seen: seq<Seen>)
    ensures Run(Start(t, at), seen).stall <= |seen|
    ensures forall i :: |seen| - Run(Start(t, at), seen).stall <= i < |seen| ==> Stalled(seen[i])
  {
    hide Stalled; hide Unsupported; hide Outcome;
    if seen != [] { StallCounts(t, at, seen[..|seen| - 1]); }
  }

  // --- exactly when a poll restarts ---

  /** Whether the poll before i, or the start, saw a signal. */
  predicate HadSignal(t: string, seen: seq<Seen>, i: nat)
    requires i <= |seen|
  {
    (if i == 0 then t else seen[i - 1].t) != ""
  }

  /** The second at which the last restart before poll i returned, or the script started. */
  function LastReturn(t: string, at: nat, seen: seq<Seen>, i: nat): nat
    requires i <= |seen|
  {
    if i == 0 then at / 1000
    else if KickedAt(Start(t, at), seen, i - 1) then seen[i - 1].back / 1000
    else LastReturn(t, at, seen, i - 1)
  }

  /** A signal as before, within the link's budget and as configured, without a frame and without a restart. */
  predicate StalledPoll(t: string, at: nat, seen: seq<Seen>, i: nat)
    requires i < |seen|
  {
    var o := seen[i];
    && HadSignal(t, seen, i) && o.t != "" && (o.pclk == None || o.pclk.value <= 75000000)
    && (o.cam == "" || o.cam == o.t) && (o.fps == None || o.fps == Some(0)) && !KickedAt(Start(t, at), seen, i)
  }

  lemma {:induction false} StateAt(t: string, at: nat, seen: seq<Seen>, i: nat)
    requires i <= |seen|
    ensures var s := Run(Start(t, at), seen[..i]);
            && s.have == HadSignal(t, seen, i) && s.last == LastReturn(t, at, seen, i)
            && (i > 0 ==> (s.stall > 0 <==> StalledPoll(t, at, seen, i - 1)))
            && (i == 0 ==> s.stall == 0)
            && (i > 0 && s.stall > 0 ==> s.stall == Run(Start(t, at), seen[..i - 1]).stall + 1)
  {
    hide Outcome; hide Unsupported;
    if i > 0 {
      StateAt(t, at, seen, i - 1);
      assert seen[..i][..i - 1] == seen[..i - 1] && seen[..i][i - 1] == seen[i - 1];
    }
  }

  lemma {:induction false} TwoStalls(t: string, at: nat, seen: seq<Seen>, i: nat)
    requires i <= |seen|
    ensures Run(Start(t, at), seen[..i]).stall >= 2 <==>
              i >= 2 && StalledPoll(t, at, seen, i - 1) && StalledPoll(t, at, seen, i - 2)
  {
    StateAt(t, at, seen, i);
    if i > 0 { StateAt(t, at, seen, i - 1); }
    hide Run; hide StalledPoll;
  }

  /**
   A poll restarts the streamer exactly if it sees a signal within the link's budget, eight seconds have passed on
   the clock since the last restart returned, and the signal is back, the mode is not the configured one, or this is
   at least the third stalled poll in a row. Mode and frame rate do not matter when the signal is back.
   */
  lemma RestartExactly(t: string, at: nat, seen: seq<Seen>, i: nat)
    requires i < |seen|
    ensures var o := seen[i];
            KickedAt(Start(t, at), seen, i) <==>
              && o.t != "" && (o.pclk == None || o.pclk.value <= 75000000)
              && o.at / 1000 - LastReturn(t, at, seen, i) >= 8
              && (|| !HadSignal(t, seen, i)
                  || (o.cam != "" && o.cam != o.t)
                  || ((o.fps == None || o.fps == Some(0))
                      && i >= 2 && StalledPoll(t, at, seen, i - 2) && StalledPoll(t, at, seen, i - 1)))
  {
    StateAt(t, at, seen, i);
    TwoStalls(t, at, seen, i);
    hide Run; hide StalledPoll; hide LastReturn;
  }
}
