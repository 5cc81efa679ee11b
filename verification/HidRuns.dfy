/** Interactive keys and any number of chord, type and macro goroutines sharing the keyboard device. */
module HidRuns {
  import opened Wrappers
  import opened Keymap
  import opened Hid
  import M = Macro

  // --- the shared device ---

  datatype Job = ChordJob(codes: seq<string>) | TypeJob(text: string) | MacroJob(steps: seq<M.Step>)

  /** The reports a goroutine writes, one lock acquisition each. */
  function Script(job: Job): seq<Report> {
    match job
    case ChordJob(codes) => ChordReports(codes)
    case TypeJob(text) => TypeReports(text)
    case MacroJob(steps) => M.MacroReports(steps)
  }

  datatype Writer = User | Goroutine(id: nat)

  /** The tracked keys, the last report on the device and who wrote it, and what each goroutine has yet to write. */
  datatype Sys = Sys(keys: Keys, last: Report, writer: Writer, left: seq<seq<Report>>)

  const START: Sys := Sys(Keys(0, []), RELEASE, User, [])

  datatype Action = Interactive(e: Input) | Spawn(job: Job) | Write(id: nat)

  function Act(s: Sys, a: Action): Sys {
    match a
    case Interactive(e) =>
      if Ignored(e) then s else s.(keys := Next(s.keys, e), last := Current(Next(s.keys, e)), writer := User)
    case Spawn(job) => s.(left := s.left + [Script(job)])
    case Write(id) =>
      if id >= |s.left| || s.left[id] == [] then s
      else s.(last := s.left[id][0], writer := Goroutine(id), left := s.left[id := s.left[id][1..]])
  }

  /** An arbitrary interleaving. */
  function Run(actions: seq<Action>): Sys {
    if actions == [] then START else Act(Run(actions[..|actions| - 1]), actions[|actions| - 1])
  }

  // --- what every interleaving keeps ---

  /** Press, release, press, release. */
  predicate Pairs(s: seq<Report>) { s == [] || (|s| >= 2 && s[1] == RELEASE && Pairs(s[2..])) }

  /** Between a press and its release. */
  predicate OwesRelease(s: seq<Report>) { s != [] && s[0] == RELEASE && Pairs(s[1..]) }

  predicate Safe(s: Sys) {
    && (forall i :: 0 <= i < |s.left| ==> Pairs(s.left[i]) || OwesRelease(s.left[i]))
    && (s.writer == User ==> s.last == Current(s.keys))
    && (s.writer.Goroutine? ==> s.writer.id < |s.left| && (s.last == RELEASE || OwesRelease(s.left[s.writer.id])))
  }

  predicate Finished(s: Sys) { forall i :: 0 <= i < |s.left| ==> s.left[i] == [] }

  /** No key event that does anything after the last reset. */
  predicate QuietSinceReset(actions: seq<Action>) {
    && actions != []
    && var a := actions[|actions| - 1];
       || a == Interactive(Input.Reset)
       || (!(a.Interactive? && !Ignored(a.e)) && QuietSinceReset(actions[..|actions| - 1]))
  }

  /** The interactive events of a run, in order. */
  function Inputs(actions: seq<Action>): seq<Input> {
    if actions == [] then [] else
      var a := actions[|actions| - 1];
      Inputs(actions[..|actions| - 1]) + if a.Interactive? then [a.e] else []
  }

  lemma {:induction false} PairsConcat(a: seq<Report>, b: seq<Report>)
    requires Pairs(a) && Pairs(b)
    ensures Pairs(a + b)
  {
    if a == [] {
      assert a + b == b;
    } else {
      PairsConcat(a[2..], b);
      assert (a + b)[2..] == a[2..] + b;
    }
  }

  lemma TwoIsPairs(press: Report)
    ensures Pairs([press, RELEASE])
  {
    assert [press, RELEASE][2..] == [];
  }

  lemma {:induction false} TypePairs(text: string)
    ensures Pairs(TypeReports(text))
  {
    hide CharToUsage; hide Slots;
    if text != "" {
      var r := text[|text| - 1];
      TypePairs(text[..|text| - 1]);
      if CharToUsage(r).Some? { TwoIsPairs(CharReports(r)[0]); }
      PairsConcat(TypeReports(text[..|text| - 1]), CharReports(r));
    }
  }

  lemma {:induction false} MacroPairs(steps: seq<M.Step>)
    ensures Pairs(M.MacroReports(steps))
  {
    if steps != [] {
      var init := M.MacroReports(steps[..|steps| - 1]);
      MacroPairs(steps[..|steps| - 1]);
      match steps[|steps| - 1] {
        case Text(text) => TypePairs(text); PairsConcat(init, TypeReports(text));
        case Chord(codes) => TwoIsPairs(ChordReports(codes)[0]); PairsConcat(init, ChordReports(codes));
        case Delay(_) => assert init + [] == init;
      }
    }
  }

  /** Every goroutine alternates presses with releases and ends on a release. */
  lemma ScriptPairs(job: Job)
    ensures Pairs(Script(job))
  {
    match job {
      case ChordJob(codes) => TwoIsPairs(ChordReports(codes)[0]);
      case TypeJob(text) => TypePairs(text);
      case MacroJob(steps) => MacroPairs(steps);
    }
  }

  lemma SafeStep(s: Sys, a: Action)
    requires Safe(s)
    ensures Safe(Act(s, a))
  {
    hide Next; hide Current; hide Ignored; hide Script;
    match a {
      case Interactive(e) =>
      case Spawn(job) => ScriptPairs(job);
      case Write(id) =>
        if id < |s.left| && s.left[id] != [] {
          var l := s.left[id];
          if Pairs(l) { assert l[1..][1..] == l[2..]; }
        }
    }
  }

  /** In every interleaving a transient press is the last report only while its goroutine owes the release. */
  lemma {:induction false} PressOwesRelease(actions: seq<Action>)
    ensures Safe(Run(actions))
  {
    hide Act; hide Safe;
    if actions == [] {
      StartSafe();
    } else {
      PressOwesRelease(actions[..|actions| - 1]);
      SafeStep(Run(actions[..|actions| - 1]), actions[|actions| - 1]);
    }
  }

  lemma StartSafe()
    ensures Safe(START) && Current(Keys(0, [])) == RELEASE
  {}

  /** The tracked keys are those of the interactive events alone. */
  lemma {:induction false} GoroutinesKeepKeys(actions: seq<Action>)
    ensures Run(actions).keys == After(Keys(0, []), Inputs(actions))
  {
    if actions != [] {
      var init, a := actions[..|actions| - 1], actions[|actions| - 1];
      GoroutinesKeepKeys(init);
      KeysStep(Run(init), a);
      hide Act; hide Next;
      if a.Interactive? {
        assert (Inputs(init) + [a.e])[..|Inputs(init)|] == Inputs(init);
        assert Inputs(actions) == Inputs(init) + [a.e];
      } else {
        assert Inputs(actions) == Inputs(init);
      }
    }
  }

  lemma KeysStep(s: Sys, a: Action)
    ensures Act(s, a).keys == if a.Interactive? then Next(s.keys, a.e) else s.keys
  {
    hide ModBit; hide KeyUsage; hide Script; hide Current;
  }

  lemma {:induction false} QuietKeepsNothing(actions: seq<Action>)
    requires QuietSinceReset(actions)
    ensures Run(actions).keys == Keys(0, [])
  {
    var a := actions[|actions| - 1];
    if a != Interactive(Input.Reset) {
      hide Next; hide Script; hide Ignored; hide Current;
      QuietKeepsNothing(actions[..|actions| - 1]);
    }
  }

  /** Once every goroutine has finished no key is stuck: nothing is down, or exactly what the user holds. */
  lemma NoStuckKeys(actions: seq<Action>)
    requires Finished(Run(actions))
    ensures var s := Run(actions); s.last == if s.writer.User? then Current(s.keys) else RELEASE
    ensures QuietSinceReset(actions) ==> Run(actions).last == RELEASE
  {
    PressOwesRelease(actions);
    StartSafe();
    if QuietSinceReset(actions) { QuietKeepsNothing(actions); }
    hide Run; hide QuietSinceReset; hide Current; hide Pairs;
  }

  /** With at most six keys down together since the last reset, that last report is the physically held set. */
  lemma LastReportIsHeld(actions: seq<Action>)
    requires Finished(Run(actions)) && Run(actions).writer.User?
    requires HeldAfter(Inputs(actions)).most <= 6
    ensures var h := HeldAfter(Inputs(actions));
            && Run(actions).last.keys == Slots(h.keys)
            && ExactMask(Run(actions).last.mods, h.mods)
  {
    NoStuckKeys(actions);
    GoroutinesKeepKeys(actions);
    HeldKeyRefinement(Inputs(actions));
    hide Run; hide After; hide HeldAfter; hide ExactMask; hide Slots;
  }

  /** A goroutine that finishes last leaves the device released even while the user still holds a key. */
  lemma HeldKeyReleasedByChord(code: string, codes: seq<string>)
    requires ModBit(code) == None && KeyUsage(code).Some?
    ensures var s := Run([Interactive(Input.Key(code, true)), Spawn(ChordJob(codes)), Write(0), Write(0)]);
            Finished(s) && s.last == RELEASE && s.last != Current(s.keys)
  {
    UsageNamesKey(code, code);
    hide ModBit; hide KeyUsage; hide ChordMods; hide ChordKeys;
    var a0, a1 := Interactive(Input.Key(code, true)), Spawn(ChordJob(codes));
    assert [a0, a1, Write(0), Write(0)][..3] == [a0, a1, Write(0)];
    assert [a0, a1, Write(0)][..2] == [a0, a1];
    assert [a0, a1][..1] == [a0];
    assert [a0][..0] == [];
    var u := KeyUsage(code).value;
    assert Run([a0]) == START.(keys := Keys(0, [u]), last := Current(Keys(0, [u])));
    assert Run([a0, a1]).left == [ChordReports(codes)];
    assert Run([a0, a1, Write(0)]).left == [[RELEASE]];
    assert Slots([u])[0] == u;
  }
}
