/** The HID bridge: held keys, transient reports, and relative mouse movement. */
module Hid {
  import opened Wrappers
  import opened BitStream
  import opened Keymap

  /** An eight-byte boot report; its second byte is always 0. */
  datatype Report = Report(mods: bv8, keys: seq<Byte>)

  /** Up to six usages, the other slots 0. */
  function Slots(usages: seq<Byte>): (s: seq<Byte>)
    ensures |s| == 6
  {
    seq(6, i requires 0 <= i => if i < |usages| then usages[i] else 0)
  }

  const RELEASE: Report := Report(0, [0, 0, 0, 0, 0, 0])

  // --- interactive keys ---

  datatype Keys = Keys(mods: bv8, keys: seq<Byte>)

  function Current(k: Keys): Report { Report(k.mods, Slots(k.keys)) }

  function Remove(s: seq<Byte>, x: Byte): seq<Byte> {
    if s == [] then [] else if s[0] == x then s[1..] else [s[0]] + Remove(s[1..], x)
  }

  datatype Input = Key(code: string, down: bool) | Reset

  /** An event that changes nothing and writes nothing. */
  predicate Ignored(e: Input) { e.Key? && ModBit(e.code) == None && KeyUsage(e.code) == None }

  function Next(k: Keys, e: Input): Keys {
    match e
    case Reset => Keys(0, [])
    case Key(code, down) =>
      match ModBit(code)
      case Some(bit) => k.(mods := if down then SetBits(k.mods, bit) else ClearBits(k.mods, bit))
      case None =>
        match KeyUsage(code)
        case None => k
        case Some(usage) =>
          if down then k.(keys := if usage in k.keys || |k.keys| >= 6 then k.keys else k.keys + [usage])
          else k.(keys := Remove(k.keys, usage))
  }

  function After(k: Keys, es: seq<Input>): Keys {
    if es == [] then k else Next(After(k, es[..|es| - 1]), es[|es| - 1])
  }

  // --- what is physically held ---

  /** Modifier codes and usages down since the last reset; usages in the order they were pressed. */
  datatype Held = Held(mods: set<string>, keys: seq<Byte>, most: nat)

  function HeldNext(h: Held, e: Input): Held {
    match e
    case Reset => Held({}, [], 0)
    case Key(code, down) =>
      if ModBit(code).Some? then h.(mods := if down then h.mods + {code} else h.mods - {code})
      else match KeyUsage(code)
        case None => h
        case Some(usage) =>
          if !down then h.(keys := Remove(h.keys, usage))
          else if usage in h.keys then h
          else h.(keys := h.keys + [usage], most := if |h.keys| + 1 > h.most then |h.keys| + 1 else h.most)
  }

  /** The held keys after the events; `most` is the largest number of non-modifier keys down together since the last
   reset. */
  function HeldAfter(es: seq<Input>): Held {
    if es == [] then Held({}, [], 0) else HeldNext(HeldAfter(es[..|es| - 1]), es[|es| - 1])
  }

  predicate HasBit(mods: bv8, bit: bv8) { mods & bit != 0 }

  function SetBits(mods: bv8, bit: bv8): bv8 { mods | bit }

  function ClearBits(mods: bv8, bit: bv8): bv8 { mods & !bit }

  /** The modifier byte has exactly the bits of the held modifiers. */
  ghost predicate ExactMask(mods: bv8, held: set<string>) {
    forall code :: ModBit(code).Some? ==> (HasBit(mods, ModBit(code).value) <==> code in held)
  }

  ghost predicate Refines(k: Keys, h: Held) {
    && Distinct(k.keys) && Distinct(h.keys)
    && |k.keys| <= 6 && |h.keys| <= h.most
    && (forall x :: x in k.keys ==> x in h.keys)
    && (h.most <= 6 ==> k.keys == h.keys)
    && ExactMask(k.mods, h.mods)
  }

  lemma DistinctCons(x: Byte, s: seq<Byte>)
    requires Distinct(s) && x !in s
    ensures Distinct([x] + s)
  {}

  lemma {:induction false} RemoveFacts(s: seq<Byte>, x: Byte)
    requires Distinct(s)
    ensures Distinct(Remove(s, x)) && |Remove(s, x)| <= |s|
    ensures forall y :: y in Remove(s, x) <==> y in s && y != x
  {
    if s != [] {
      var rest := s[1..];
      assert forall i :: 0 <= i < |rest| ==> rest[i] == s[i + 1];
      RemoveFacts(rest, x);
      if s[0] != x { DistinctCons(s[0], Remove(rest, x)); }
      assert s == [s[0]] + rest;
    }
  }

  predicate OneBit(b: bv8) { b == 1 || b == 2 || b == 4 || b == 8 || b == 16 || b == 32 || b == 64 || b == 128 }

  lemma MaskBits(mods: bv8, bit: bv8, other: bv8)
    requires OneBit(bit) && OneBit(other)
    ensures HasBit(SetBits(mods, bit), other) <==> (bit == other || HasBit(mods, other))
    ensures HasBit(ClearBits(mods, bit), other) <==> (bit != other && HasBit(mods, other))
    ensures !HasBit(0, bit)
  {}

  lemma ModifierBits(c: string, d: string)
    requires ModBit(c).Some? && ModBit(d).Some?
    ensures OneBit(ModBit(c).value) && OneBit(ModBit(d).value)
    ensures ModBit(c) == ModBit(d) <==> c == d
  {}

  lemma MaskStep(mods: bv8, held: set<string>, code: string)
    requires ExactMask(mods, held) && ModBit(code).Some?
    ensures ExactMask(SetBits(mods, ModBit(code).value), held + {code})
    ensures ExactMask(ClearBits(mods, ModBit(code).value), held - {code})
  {
    hide ModBit; hide HasBit; hide SetBits; hide ClearBits; hide OneBit;
    var bit := ModBit(code).value;
    forall d | ModBit(d).Some?
      ensures HasBit(SetBits(mods, bit), ModBit(d).value) <==> d in held + {code}
      ensures HasBit(ClearBits(mods, bit), ModBit(d).value) <==> d in held - {code}
    {
      ModifierBits(code, d);
      MaskBits(mods, bit, ModBit(d).value);
    }
  }

  lemma NothingHeld()
    ensures ExactMask(0, {})
  {
    hide ModBit; hide HasBit; hide OneBit;
    forall d | ModBit(d).Some? ensures !HasBit(0, ModBit(d).value) {
      ModifierBits(d, d);
      MaskBits(0, ModBit(d).value, ModBit(d).value);
    }
  }

  lemma RefineStep(k: Keys, h: Held, e: Input)
    requires Refines(k, h)
    ensures Refines(Next(k, e), HeldNext(h, e))
  {
    hide ModBit; hide KeyUsage; hide ExactMask;
    match e {
      case Reset => NothingHeld();
      case Key(code, down) =>
        if ModBit(code).Some? {
          MaskStep(k.mods, h.mods, code);
        } else if KeyUsage(code).Some? {
          var u := KeyUsage(code).value;
          RemoveFacts(k.keys, u);
          RemoveFacts(h.keys, u);
        }
    }
  }

  /** Over every event sequence the tracked keys are those physically held, as far as six slots go. */
  lemma {:induction false} HeldKeyRefinement(es: seq<Input>)
    ensures Refines(After(Keys(0, []), es), HeldAfter(es))
  {
    hide Next; hide HeldNext; hide ExactMask;
    if es == [] {
      NothingHeld();
    } else {
      HeldKeyRefinement(es[..|es| - 1]);
      RefineStep(After(Keys(0, []), es[..|es| - 1]), HeldAfter(es[..|es| - 1]), es[|es| - 1]);
    }
  }

  // --- the device files and the methods that write them ---

  /** A relative-mouse report; deltas are signed bytes in two's complement. */
  datatype MouseReport = MouseReport(buttons: Byte, dx: Byte, dy: Byte, wheel: Byte)

  function ToByte(v: int): Byte { v % 256 }

  function Signed(b: Byte): int { if b < 128 then b else b - 256 }

  function ClampI8(v: int): int { if v > 127 then 127 else if v < -127 then -127 else v }

  function TransientReport(mods: bv8, usages: seq<Byte>): Report { Report(mods, Slots(usages)) }

  function ChordMods(codes: seq<string>): bv8 {
    if codes == [] then 0 else
      var m := ChordMods(codes[..|codes| - 1]);
      match ModBit(codes[|codes| - 1]) case Some(b) => SetBits(m, b) case None => m
  }

  function ChordKeys(codes: seq<string>): seq<Byte> {
    if codes == [] then [] else
      var c := codes[|codes| - 1];
      ChordKeys(codes[..|codes| - 1])
        + if ModBit(c) == None && KeyUsage(c).Some? then [KeyUsage(c).value] else []
  }

  /** A chord: everything down together, then everything up. */
  function ChordReports(codes: seq<string>): seq<Report> {
    [TransientReport(ChordMods(codes), ChordKeys(codes)), RELEASE]
  }

  function CharReports(r: char): seq<Report> {
    match CharToUsage(r)
    case None => []
    case Some(k) => [TransientReport(if k.shift then 2 else 0, [k.usage]), RELEASE]
  }

  /** Typed text: a press and a release for every character on the layout. */
  function TypeReports(text: string): seq<Report> {
    if text == "" then [] else TypeReports(text[..|text| - 1]) + CharReports(text[|text| - 1])
  }

  /** A known key that is not a modifier. */
  predicate Plain(code: string) { ModBit(code) == None && KeyUsage(code).Some? }

  lemma {:induction false} ChordModsAre(codes: seq<string>, code: string)
    requires ModBit(code).Some?
    ensures HasBit(ChordMods(codes), ModBit(code).value) <==> code in codes
  {
    hide ModBit; hide HasBit; hide SetBits; hide OneBit;
    ModifierBits(code, code);
    if codes == [] {
      MaskBits(0, ModBit(code).value, ModBit(code).value);
    } else {
      var init, c := codes[..|codes| - 1], codes[|codes| - 1];
      ChordModsAre(init, code);
      assert codes == init + [c];
      if ModBit(c).Some? {
        ModifierBits(c, code);
        MaskBits(ChordMods(init), ModBit(c).value, ModBit(code).value);
      }
    }
  }

  /** Where the plain keys of a chord are, in order. */
  function PlainAt(codes: seq<string>): (at: seq<nat>) {
    if codes == [] then []
    else PlainAt(codes[..|codes| - 1]) + if Plain(codes[|codes| - 1]) then [(|codes| - 1) as nat] else []
  }

  ghost predicate ListsPlain(codes: seq<string>, at: seq<nat>) {
    && (forall k :: 0 <= k < |at| ==> at[k] < |codes| && Plain(codes[at[k]]))
    && (forall j, k :: 0 <= j < k < |at| ==> at[j] < at[k])
    && (forall i :: 0 <= i < |codes| && Plain(codes[i]) ==> i in at)
  }

  lemma ListsMore(init: seq<string>, c: string, at: seq<nat>)
    requires ListsPlain(init, at)
    ensures ListsPlain(init + [c], at + if Plain(c) then [|init|] else [])
  {
    hide Plain;
    var codes, more: seq<nat> := init + [c], at + if Plain(c) then [|init|] else [];
    forall i | 0 <= i < |codes| && Plain(codes[i]) ensures i in more {
      if i < |init| {
        assert codes[i] == init[i] && i in at;
      } else {
        assert more[|at|] == i;
      }
    }
    assert forall k :: 0 <= k < |at| ==> more[k] == at[k] && codes[at[k]] == init[at[k]];
  }

  ghost predicate UsagesAt(codes: seq<string>, at: seq<nat>, keys: seq<Byte>) {
    |keys| == |at| && forall k :: 0 <= k < |at| ==> at[k] < |codes| && KeyUsage(codes[at[k]]) == Some(keys[k])
  }

  lemma UsagesMore(init: seq<string>, c: string, at: seq<nat>, keys: seq<Byte>)
    requires UsagesAt(init, at, keys)
    ensures UsagesAt(init + [c], at, keys)
    ensures Plain(c) ==> UsagesAt(init + [c], at + [|init|], keys + [KeyUsage(c).value])
  {
    hide KeyUsage; hide ModBit;
    assert forall k :: 0 <= k < |at| ==> (init + [c])[at[k]] == init[at[k]];
  }

  lemma {:induction false} ChordKeysAre(codes: seq<string>)
    ensures ListsPlain(codes, PlainAt(codes)) && UsagesAt(codes, PlainAt(codes), ChordKeys(codes))
  {
    hide ModBit; hide KeyUsage; hide ListsPlain; hide UsagesAt;
    if codes == [] {
      NothingListed();
    } else {
      var init, c := codes[..|codes| - 1], codes[|codes| - 1];
      ChordKeysAre(init);
      ListsMore(init, c, PlainAt(init));
      UsagesMore(init, c, PlainAt(init), ChordKeys(init));
      assert codes == init + [c] && PlainAt(init) + [] == PlainAt(init) && ChordKeys(init) + [] == ChordKeys(init);
    }
  }

  lemma NothingListed()
    ensures ListsPlain([], []) && UsagesAt([], [], [])
  {}

  /**
   A chord presses exactly the modifiers among its codes and, in its six slots, its first six other known keys in
   order; then it releases everything. `at` lists the positions of those keys.
   */
  lemma ChordPress(codes: seq<string>) returns (at: seq<nat>)
    ensures |ChordReports(codes)| == 2 && ChordReports(codes)[1] == Report(0, [0, 0, 0, 0, 0, 0])
    ensures var r := ChordReports(codes)[0];
            && (forall code :: ModBit(code).Some? ==> (r.mods & ModBit(code).value != 0 <==> code in codes))
            && |r.keys| == 6
            && (forall k :: 0 <= k < 6 && k < |at| ==> at[k] < |codes| && KeyUsage(codes[at[k]]) == Some(r.keys[k]))
            && (forall k :: |at| <= k < 6 ==> r.keys[k] == 0)
    ensures forall j, k :: 0 <= j < k < |at| ==> at[j] < at[k]
    ensures forall i :: i in at <==> 0 <= i < |codes| && ModBit(codes[i]) == None && KeyUsage(codes[i]).Some?
  {
    at := PlainAt(codes);
    ChordKeysAre(codes);
    forall code | ModBit(code).Some?
      ensures ChordReports(codes)[0].mods & ModBit(code).value != 0 <==> code in codes
    {
      ChordModsAre(codes, code);
    }
    hide ModBit; hide KeyUsage; hide ChordMods; hide ChordKeys; hide PlainAt;
  }

  /** One typed character on the wire: usage in the first slot, left shift or no modifier, then all zeros. */
  lemma CharPress(r: char)
    requires CharToUsage(r).Some?
    ensures var k := CharToUsage(r).value;
            var press := Report(if k.shift then 2 else 0, [k.usage, 0, 0, 0, 0, 0]);
            CharReports(r) == [press, Report(0, [0, 0, 0, 0, 0, 0])]
  {
    hide CharToUsage;
    var k := CharToUsage(r).value;
    assert Slots([k.usage]) == [k.usage, 0, 0, 0, 0, 0];
  }

  class HID {
    var kbd: seq<Report>
    const hasRel: bool
    var mouseRel: seq<MouseReport>
    var mods: bv8
    var keys: seq<Byte>

    ghost function State(): Keys
      reads this
    {
      Keys(mods, keys)
    }

    constructor (hasRelative: bool)
      ensures kbd == [] && State() == Keys(0, []) && hasRel == hasRelative && mouseRel == []
    {
      kbd, mods, keys, hasRel, mouseRel := [], 0, [], hasRelative, [];
    }

    method WriteKbd()
      modifies this`kbd
      ensures kbd == old(kbd) + [Current(State())]
      ensures var r := kbd[|old(kbd)|];
              && r.mods == mods && |r.keys| == 6
              && forall j :: 0 <= j < 6 ==> r.keys[j] == if j < |keys| then keys[j] else 0
    {
      var rep: seq<Byte> := [0, 0, 0, 0, 0, 0];
      var i := 0;
      while i < |keys| && i < 6
        invariant 0 <= i <= |keys| && i <= 6 && |rep| == 6
        invariant forall j :: 0 <= j < 6 ==> rep[j] == if j < i then keys[j] else 0
      {
        rep := rep[i := keys[i]];
        i := i + 1;
      }
      assert rep == Slots(keys);
      kbd := kbd + [Report(mods, rep)];
    }

    /** Releases every key; the mouse buttons too. */
    method Reset()
      modifies this
      ensures State() == Next(old(State()), Input.Reset)
      ensures mods == 0 && keys == [] && kbd == old(kbd) + [Report(0, [0, 0, 0, 0, 0, 0])]
      ensures mouseRel == if hasRel then old(mouseRel) + [MouseReport(0, 0, 0, 0)] else old(mouseRel)
    {
      mods, keys := 0, [];
      kbd := kbd + [RELEASE];
      if hasRel { mouseRel := mouseRel + [MouseReport(0, 0, 0, 0)]; }
    }

    method Key(code: string, down: bool)
      modifies this`mods, this`keys, this`kbd
      ensures State() == Next(old(State()), Input.Key(code, down))
      ensures kbd == if ModBit(code) == None && KeyUsage(code) == None then old(kbd) else old(kbd) + [Current(State())]
    {
      hide ModBit; hide KeyUsage; hide Slots;
      var bit := ModBit(code);
      if bit.Some? {
        mods := if down then SetBits(mods, bit.value) else ClearBits(mods, bit.value);
        WriteKbd();
        return;
      }
      var usage := KeyUsage(code);
      if usage == None { return; }
      if down { Press(usage.value); } else { Release(usage.value); }
      WriteKbd();
    }

    method Press(usage: Byte)
      modifies this`keys
      ensures keys == if usage in old(keys) || |old(keys)| >= 6 then old(keys) else old(keys) + [usage]
    {
      for i := 0 to |keys|
        invariant usage !in keys[..i]
      {
        if keys[i] == usage { return; }
      }
      assert keys[..|keys|] == keys;
      if |keys| < 6 { keys := keys + [usage]; }
    }

    method Release(usage: Byte)
      modifies this`keys
      ensures keys == Remove(old(keys), usage)
    {
      ghost var was := keys;
      for i := 0 to |keys|
        invariant keys == was && i <= |was| && Remove(was, usage) == was[..i] + Remove(was[i..], usage)
      {
        if keys[i] == usage {
          keys := keys[..i] + keys[i + 1..];
          assert was[i..][1..] == was[i + 1..];
          return;
        }
        assert was[i..][1..] == was[i + 1..];
        assert was[..i] + ([was[i]] + Remove(was[i + 1..], usage)) == was[..i + 1] + Remove(was[i + 1..], usage);
      }
      assert was[..|was|] == was && Remove([], usage) == [];
    }

    /** A transient report; the interactive state is not touched. */
    method WriteRaw(m: bv8, usages: seq<Byte>)
      modifies this`kbd
      ensures kbd == old(kbd) + [TransientReport(m, usages)]
      ensures var r := kbd[|old(kbd)|];
              && r.mods == m && |r.keys| == 6
              && forall j :: 0 <= j < 6 ==> r.keys[j] == if j < |usages| then usages[j] else 0
    {
      var rep: seq<Byte> := [0, 0, 0, 0, 0, 0];
      for i := 0 to |usages|
        invariant |rep| == 6 && forall j :: 0 <= j < 6 ==> rep[j] == if j < i then usages[j] else 0
      {
        if i < 6 { rep := rep[i := usages[i]]; }
      }
      assert rep == Slots(usages);
      kbd := kbd + [Report(m, rep)];
    }

    method Chord(codes: seq<string>)
      modifies this`kbd
      ensures kbd == old(kbd) + ChordReports(codes)
    {
      hide ModBit; hide KeyUsage; hide Slots; hide SetBits;
      var m: bv8, usages := 0, [];
      for i := 0 to |codes|
        invariant m == ChordMods(codes[..i]) && usages == ChordKeys(codes[..i])
      {
        assert codes[..i + 1][..i] == codes[..i];
        var b := ModBit(codes[i]);
        if b.Some? {
          m := SetBits(m, b.value);
        } else {
          var u := KeyUsage(codes[i]);
          if u.Some? { usages := usages + [u.value]; }
        }
      }
      assert codes[..|codes|] == codes;
      WriteRaw(m, usages);
      NoSlots();
      WriteRaw(0, []);
    }

    method Type(text: string)
      modifies this`kbd
      ensures kbd == old(kbd) + TypeReports(text)
    {
      hide CharToUsage; hide Slots;
      NoSlots();
      for i := 0 to |text|
        invariant kbd == old(kbd) + TypeReports(text[..i])
      {
        assert text[..i + 1][..i] == text[..i];
        var k := CharToUsage(text[i]);
        if k == None { continue; }
        WriteRaw(if k.value.shift then 2 else 0, [k.value.usage]);
        WriteRaw(0, []);
      }
      assert text[..|text|] == text;
    }

    /** Splits a movement into reports whose deltas fit a signed byte. */
    method MouseRelMove(dx: int, dy: int, wheel: int, buttons: Byte)
      modifies this`mouseRel
      ensures mouseRel == if hasRel then old(mouseRel) + MoveReports(dx, dy, wheel, buttons) else old(mouseRel)
    {
      if !hasRel { return; }
      hide ClampI8; hide ToByte; hide MoveReports; hide Abs;
      ClampFacts(0);
      ghost var all := mouseRel + MoveReports(dx, dy, wheel, buttons);
      var x, y, first := dx, dy, true;
      while true
        invariant all == mouseRel + MoveReports(x, y, if first then wheel else 0, buttons)
        decreases Abs(x) + Abs(y), first
      {
        var sx, sy := ClampI8(x), ClampI8(y);
        var sw := 0;
        if first { sw := ClampI8(wheel); }
        MoveStep(x, y, if first then wheel else 0, buttons, mouseRel);
        mouseRel := mouseRel + [MouseReport(buttons, ToByte(sx), ToByte(sy), ToByte(sw))];
        x := x - sx;
        y := y - sy;
        first := false;
        if x == 0 && y == 0 { return; }
      }
    }
  }

  lemma MoveStep(x: int, y: int, w: int, b: Byte, sent: seq<MouseReport>)
    ensures var head := MouseReport(b, ToByte(ClampI8(x)), ToByte(ClampI8(y)), ToByte(ClampI8(w)));
            var x', y' := x - ClampI8(x), y - ClampI8(y);
            && sent + MoveReports(x, y, w, b)
            == sent + [head] + (if x' == 0 && y' == 0 then [] else MoveReports(x', y', 0, b))
            && (x' == 0 && y' == 0 ==> sent + MoveReports(x, y, w, b) == sent + [head])
            && (x' != 0 || y' != 0 ==> Abs(x') + Abs(y') < Abs(x) + Abs(y))
  {
    ClampFacts(x);
    ClampFacts(y);
  }

  lemma NoSlots()
    ensures TransientReport(0, []) == RELEASE
  {}

  // --- relative movement ---

  function Abs(v: int): nat { if v < 0 then -v else v }

  lemma ClampFacts(v: int)
    ensures Abs(v - ClampI8(v)) == (if Abs(v) <= 127 then 0 else Abs(v) - 127)
    ensures (ClampI8(v) == 0 <==> v == 0) && (v == ClampI8(v) <==> Abs(v) <= 127)
    ensures -127 <= ClampI8(v) <= 127 && Signed(ToByte(ClampI8(v))) == ClampI8(v) && ToByte(0) == 0
  {}

  /** The reports of one movement; the wheel rides on the first. */
  function MoveReports(dx: int, dy: int, wheel: int, buttons: Byte): seq<MouseReport>
    decreases Abs(dx) + Abs(dy)
  {
    var x, y := dx - ClampI8(dx), dy - ClampI8(dy);
    [MouseReport(buttons, ToByte(ClampI8(dx)), ToByte(ClampI8(dy)), ToByte(ClampI8(wheel)))]
      + if x == 0 && y == 0 then [] else MoveReports(x, y, 0, buttons)
  }

  function SumX(rs: seq<MouseReport>): int { if rs == [] then 0 else Signed(rs[0].dx) + SumX(rs[1..]) }

  function SumY(rs: seq<MouseReport>): int { if rs == [] then 0 else Signed(rs[0].dy) + SumY(rs[1..]) }

  predicate InRange(rs: seq<MouseReport>) {
    forall i :: 0 <= i < |rs| ==> -127 <= Signed(rs[i].dx) <= 127 && -127 <= Signed(rs[i].dy) <= 127
  }

  function Steps(v: int): nat { (Abs(v) + 126) / 127 }

  function Max(a: nat, b: nat): nat { if a > b then a else b }

  lemma StepsDown(v: int)
    ensures Steps(v - ClampI8(v)) == if v == 0 then 0 else Steps(v) - 1
    ensures Steps(v) == 0 <==> v == 0
  {
    ClampFacts(v);
  }

  /** Nothing of a movement is lost or added, and no report wraps. */
  lemma {:induction false} MovementConserved(dx: int, dy: int, wheel: int, buttons: Byte)
    ensures var rs := MoveReports(dx, dy, wheel, buttons);
            && SumX(rs) == dx && SumY(rs) == dy && InRange(rs)
            && |rs| == Max(1, Max(Steps(dx), Steps(dy)))
            && Signed(rs[0].wheel) == ClampI8(wheel)
            && (forall i :: 0 <= i < |rs| ==> rs[i].buttons == buttons && (i > 0 ==> rs[i].wheel == 0))
    decreases Abs(dx) + Abs(dy)
  {
    hide ToByte; hide Signed; hide ClampI8; hide Abs; hide Steps;
    var x, y := dx - ClampI8(dx), dy - ClampI8(dy);
    ClampFacts(dx); ClampFacts(dy); ClampFacts(wheel); ClampFacts(0);
    StepsDown(dx); StepsDown(dy); StepsDown(x); StepsDown(y);
    if x != 0 || y != 0 { MovementConserved(x, y, 0, buttons); }
    var tail := if x == 0 && y == 0 then [] else MoveReports(x, y, 0, buttons);
    var head := MouseReport(buttons, ToByte(ClampI8(dx)), ToByte(ClampI8(dy)), ToByte(ClampI8(wheel)));
    assert MoveReports(dx, dy, wheel, buttons) == [head] + tail;
    hide MoveReports;
    OneMoreReport(head, tail);
  }

  lemma OneMoreReport(head: MouseReport, tail: seq<MouseReport>)
    ensures var rs := [head] + tail;
            SumX(rs) == Signed(head.dx) + SumX(tail) && SumY(rs) == Signed(head.dy) + SumY(tail)
  {
    assert ([head] + tail)[1..] == tail;
  }

  /** No shorter list of reports can make the same movement. */
  lemma {:induction false} MovementIsShortest(rs: seq<MouseReport>)
    requires InRange(rs)
    ensures |rs| >= Max(Steps(SumX(rs)), Steps(SumY(rs)))
  {
    if rs != [] {
      assert forall i :: 0 <= i < |rs[1..]| ==> rs[1..][i] == rs[i + 1];
      MovementIsShortest(rs[1..]);
      assert -127 <= Signed(rs[0].dx) <= 127;
      OneMoreStep(SumX(rs[1..]), Signed(rs[0].dx));
      OneMoreStep(SumY(rs[1..]), Signed(rs[0].dy));
    }
  }

  lemma OneMoreStep(v: int, d: int)
    requires -127 <= d <= 127
    ensures Steps(d + v) <= Steps(v) + 1
  {}

  // --- typed text, as the host decodes it ---

  /** A key press is an edge: a usage the report before did not have in its first slot. */
  function Edge(r: Report, before: Byte): string
    requires |r.keys| == 6
  {
    var u := r.keys[0];
    if u != 0 && u != before then
      match UsLayout(u, HasBit(r.mods, 2)) case Some(c) => [c] case None => ""
    else ""
  }

  function Decode(rs: seq<Report>, before: Byte): string
    requires SixKeys(rs)
  {
    if rs == [] then "" else Edge(rs[0], before) + Decode(rs[1..], rs[0].keys[0])
  }

  predicate SixKeys(rs: seq<Report>)
    ensures SixKeys(rs) && rs != [] ==> |rs[0].keys| == 6 && |rs[|rs| - 1].keys| == 6
  {
    forall i :: 0 <= i < |rs| ==> |rs[i].keys| == 6
  }

  function TypedText(text: string): string {
    if text == "" then ""
    else TypedText(text[..|text| - 1]) + if CharToUsage(text[|text| - 1]).Some? then [Typed(text[|text| - 1])] else ""
  }

  lemma {:induction false} DecodeConcat(a: seq<Report>, b: seq<Report>, before: Byte)
    requires SixKeys(a) && SixKeys(b)
    ensures SixKeys(a + b)
    ensures Decode(a + b, before) == Decode(a, before) + Decode(b, if a == [] then before else a[|a| - 1].keys[0])
  {
    hide Edge; hide SixKeys; hide Decode;
    SixKeysConcat(a, b);
    if a == [] {
      assert a + b == b;
      DecodeEmpty(before);
    } else {
      DecodeStep(a, before);
      DecodeStep(a + b, before);
      assert (a + b)[1..] == a[1..] + b && (a + b)[0] == a[0];
      DecodeConcat(a[1..], b, a[0].keys[0]);
    }
  }

  lemma DecodeStep(rs: seq<Report>, before: Byte)
    requires SixKeys(rs) && rs != []
    ensures SixKeys(rs[1..]) && Decode(rs, before) == Edge(rs[0], before) + Decode(rs[1..], rs[0].keys[0])
  {
    SixKeysTail(rs);
    hide Edge;
  }

  lemma SixKeysConcat(a: seq<Report>, b: seq<Report>)
    requires SixKeys(a) && SixKeys(b)
    ensures SixKeys(a + b)
  {}

  lemma SixKeysTail(a: seq<Report>)
    requires SixKeys(a) && a != []
    ensures SixKeys(a[1..])
  {}

  lemma CharDecodes(r: char)
    ensures SixKeys(CharReports(r))
    ensures Decode(CharReports(r), 0) == if CharToUsage(r).Some? then [Typed(r)] else ""
    ensures CharReports(r) != [] ==> CharReports(r)[|CharReports(r)| - 1] == RELEASE
  {
    if CharToUsage(r).Some? {
      LayoutInverts(r);
      hide CharToUsage; hide UsLayout;
      ShiftBit();
      var k := CharToUsage(r).value;
      var rs := CharReports(r);
      assert rs[0].keys[0] == k.usage && rs[1].keys[0] == 0;
      assert rs[1..] == [RELEASE] && [RELEASE][1..] == [];
      assert Decode([RELEASE], k.usage) == "";
    }
  }

  lemma ShiftBit() ensures HasBit(2, 2) && !HasBit(0, 2) {}

  /** The host reads back exactly the characters that can be typed, in order. */
  lemma {:induction false} TypeRoundTrip(text: string)
    ensures SixKeys(TypeReports(text))
    ensures Decode(TypeReports(text), 0) == TypedText(text)
    ensures TypeReports(text) != [] ==> TypeReports(text)[|TypeReports(text)| - 1] == RELEASE
  {
    hide CharReports; hide CharToUsage; hide Decode;
    if text == "" {
      DecodeEmpty(0);
    } else {
      var init, r := text[..|text| - 1], text[|text| - 1];
      TypeRoundTrip(init);
      CharDecodes(r);
      DecodeConcat(TypeReports(init), CharReports(r), 0);
    }
  }

  lemma DecodeEmpty(before: Byte)
    ensures Decode([], before) == ""
  {}
}
