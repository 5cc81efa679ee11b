/** EDID and hotplug of the HDMI bridge driver: the handlers, and the state machine they refine. */
module Edid {
  import opened BitStream
  import opened I2c

  const BLOCK: nat := 128
  const BLOCKS_MAX: nat := 8

  const WORD: nat := 0x1_0000_0000

  type Word = x: nat | x < WORD

  const SYS_STATUS: nat := 0x8520
  const HPD_CTL: nat := 0x8544
  const EDID_LEN1: nat := 0x85CA
  const EDID_LEN2: nat := 0x85CB
  const EDID_RAM: nat := 0x8C00

  // --- the state machine ---

  /** 5 V, hotplug, EDID length and RAM are in the chip; the rest is in the driver. */
  datatype State = State(power: bool, hpd: bool, len: nat, ram: seq<Byte>, pending: bool, blocks: nat)

  datatype Event =
    | SetEdid(pad: nat, start: nat, count: nat, edid: seq<Byte>, addressOk: bool)
    | DdcInterrupt
    | WorkFires
    | Power(on: bool)

  predicate ValidEvent(e: Event) { e.SetEdid? ==> |e.edid| >= e.count * BLOCK }

  /** A `SetEdid` that passes every check of `s_edid`. */
  predicate Accepted(e: Event) {
    e.SetEdid? && e.pad == 0 && e.start == 0 && e.count <= BLOCKS_MAX && e.addressOk
  }

  function EnableEdid(s: State): State { if s.blocks == 0 then s else s.(pending := true) }

  function DisableEdid(s: State): State { s.(pending := false, hpd := false) }

  function Step(s: State, e: Event): (r: State)
    requires |s.ram| == BLOCKS_MAX * BLOCK && ValidEvent(e)
    ensures |r.ram| == |s.ram|
  {
    match e
    case SetEdid(_, _, count, edid, _) =>
      if !Accepted(e) then s
      else
        var t := DisableEdid(s).(len := count * BLOCK);
        if count == 0 then t.(blocks := 0)
        else
          var u := t.(ram := edid[..count * BLOCK] + s.ram[count * BLOCK..], blocks := count);
          if u.power then EnableEdid(u) else u
    case DdcInterrupt => if s.power then EnableEdid(s) else DisableEdid(s)
    case WorkFires => if s.pending then s.(pending := false, hpd := true) else s
    case Power(on) => s.(power := on)
  }

  function Run(s: State, es: seq<Event>): (r: State)
    requires |s.ram| == BLOCKS_MAX * BLOCK && forall i :: 0 <= i < |es| ==> ValidEvent(es[i])
    ensures |r.ram| == |s.ram|
  {
    if es == [] then s else Step(Run(s, es[..|es| - 1]), es[|es| - 1])
  }

  // --- safety over every run ---

  /** The image of the last accepted `SetEdid`. */
  function LastImage(es: seq<Event>): seq<Byte>
    requires forall i :: 0 <= i < |es| ==> ValidEvent(es[i])
  {
    if es == [] then []
    else
      var e := es[|es| - 1];
      assert ValidEvent(e);
      if Accepted(e) then e.edid[..e.count * BLOCK] else LastImage(es[..|es| - 1])
  }

  ghost predicate HotplugSafe(s: State, image: seq<Byte>) {
    && |s.ram| == BLOCKS_MAX * BLOCK
    && s.blocks <= BLOCKS_MAX && |image| == s.blocks * BLOCK
    && image <= s.ram
    && (s.blocks > 0 ==> s.len == |image|)
    && (s.hpd || s.pending ==> s.blocks > 0)
  }

  predicate Initial(s: State) { |s.ram| == BLOCKS_MAX * BLOCK && s.blocks == 0 && !s.hpd && !s.pending }

  /** In every run: hotplug high or about to rise means the RAM holds the last complete image. */
  lemma {:induction false} HotplugSafety(s: State, es: seq<Event>)
    requires Initial(s) && forall i :: 0 <= i < |es| ==> ValidEvent(es[i])
    ensures HotplugSafe(Run(s, es), LastImage(es))
  {
    if es != [] {
      HotplugSafety(s, es[..|es| - 1]);
      StepKeepsSafe(Run(s, es[..|es| - 1]), es[|es| - 1], LastImage(es[..|es| - 1]));
    }
  }

  lemma StepKeepsSafe(s: State, e: Event, image: seq<Byte>)
    requires HotplugSafe(s, image) && ValidEvent(e)
    ensures HotplugSafe(Step(s, e), if Accepted(e) then e.edid[..e.count * BLOCK] else image)
  {}

  /** The interrupt after the last change of the 5 V line has been served. */
  predicate PowerServed(es: seq<Event>) {
    es == [] || es[|es| - 1].DdcInterrupt? || (!es[|es| - 1].Power? && PowerServed(es[..|es| - 1]))
  }

  /** Hotplug is high or about to rise. */
  predicate Announced(s: State) { s.hpd || s.pending }

  /** Once the 5 V line has been served, hotplug is high or about to rise exactly with 5 V present and an image
   written. */
  lemma {:induction false} HotplugFollowsPower(s: State, es: seq<Event>)
    requires Initial(s) && forall i :: 0 <= i < |es| ==> ValidEvent(es[i])
    requires PowerServed(es)
    ensures Announced(Run(s, es)) <==> Run(s, es).power && Run(s, es).blocks > 0
    ensures es != [] && es[|es| - 1].WorkFires? ==> (Run(s, es).hpd <==> Run(s, es).power && Run(s, es).blocks > 0)
  {
    if es != [] {
      var init, e := es[..|es| - 1], es[|es| - 1];
      HotplugSafety(s, init);
      if !e.DdcInterrupt? { HotplugFollowsPower(s, init); }
      FollowsPowerStep(Run(s, init), e);
      hide Step; hide Announced;
    }
  }

  lemma FollowsPowerStep(s: State, e: Event)
    requires |s.ram| == BLOCKS_MAX * BLOCK && ValidEvent(e) && !e.Power?
    requires e.DdcInterrupt? || (Announced(s) <==> s.power && s.blocks > 0)
    requires Announced(s) ==> s.blocks > 0
    ensures Announced(Step(s, e)) <==> Step(s, e).power && Step(s, e).blocks > 0
    ensures e.WorkFires? ==> (Step(s, e).hpd <==> Step(s, e).power && Step(s, e).blocks > 0)
  {}

  // --- the driver ---

  /** A register write, with hotplug and pending work as they were when it started. */
  datatype Access = Access(reg: nat, n: nat, hpd: bool, pending: bool)

  ghost predicate TouchesEdid(a: Access) {
    || (a.reg < EDID_RAM + BLOCKS_MAX * BLOCK && a.reg + a.n > EDID_RAM)
    || (a.reg <= EDID_LEN2 && a.reg + a.n > EDID_LEN1)
  }

  /** Every EDID write so far happened with hotplug low and no work pending. */
  ghost predicate Quiet(log: seq<Access>) {
    forall i :: 0 <= i < |log| && TouchesEdid(log[i]) ==> !log[i].hpd && !log[i].pending
  }

  /** The registers of the EDID logic as the state machine sees them. */
  function Registers(mem: seq<Byte>): (bool, bool, nat, seq<Byte>)
    requires |mem| == SPACE
  {
    var low: nat, high: nat := mem[EDID_LEN1], mem[EDID_LEN2];
    (mem[SYS_STATUS] % 2 == 1, mem[HPD_CTL] % 2 == 1, low + 256 * high, mem[EDID_RAM..EDID_RAM + BLOCKS_MAX * BLOCK])
  }

  lemma WriteHpd(mem: seq<Byte>, v: Byte)
    requires |mem| == SPACE
    ensures Registers(Written(mem, HPD_CTL, [v])) == (Registers(mem).0, v % 2 == 1, Registers(mem).2, Registers(mem).3)
  {
    var m := Written(mem, HPD_CTL, [v]);
    assert m[EDID_RAM..EDID_RAM + BLOCKS_MAX * BLOCK] == mem[EDID_RAM..EDID_RAM + BLOCKS_MAX * BLOCK];
  }

  lemma WriteLength(mem: seq<Byte>, low: Byte, high: Byte)
    requires |mem| == SPACE
    ensures var l: nat, h: nat := low, high;
            Registers(Written(Written(mem, EDID_LEN1, [low]), EDID_LEN2, [high]))
                == (Registers(mem).0, Registers(mem).1, l + 256 * h, Registers(mem).3)
  {
    var m := Written(Written(mem, EDID_LEN1, [low]), EDID_LEN2, [high]);
    assert m[EDID_RAM..EDID_RAM + BLOCKS_MAX * BLOCK] == mem[EDID_RAM..EDID_RAM + BLOCKS_MAX * BLOCK];
  }

  lemma WriteRam(mem: seq<Byte>, at: nat, values: seq<Byte>)
    requires |mem| == SPACE && at + |values| <= BLOCKS_MAX * BLOCK
    ensures var (power, hpd, len, ram) := Registers(mem);
            Registers(Written(mem, EDID_RAM + at, values))
                == (power, hpd, len, ram[..at] + values + ram[at + |values|..])
  {
    var m, r := Written(mem, EDID_RAM + at, values), Registers(mem).3;
    assert m[EDID_RAM..EDID_RAM + BLOCKS_MAX * BLOCK] == r[..at] + values + r[at + |values|..];
  }

  lemma RamPrefix(mem: seq<Byte>, image: seq<Byte>)
    requires |mem| == SPACE && image <= Registers(mem).3
    ensures mem[0x8C00..0x8C00 + |image|] == image
  {}

  class Driver {
    const bus: Bus
    var pending: bool
    var blocks: nat
    ghost var log: seq<Access>

    ghost predicate Valid()
      reads this, bus
    {
      bus.Valid() && Quiet(log)
    }

    /** No transfer from here on fails. */
    ghost predicate Healthy()
      reads bus
    {
      forall i :: bus.calls <= i ==> !bus.fails(i)
    }

    ghost function Abs(): (s: State)
      requires bus.Valid()
      reads this, bus
      ensures |s.ram| == BLOCKS_MAX * BLOCK
    {
      var (power, hpd, len, ram) := Registers(bus.mem);
      State(power, hpd, len, ram, pending, blocks)
    }

    constructor (bus: Bus)
      requires bus.Valid()
      ensures Valid() && this.bus == bus && !pending && blocks == 0
    {
      this.bus, pending, blocks, log := bus, false, 0, [];
    }

    method Write(reg: nat, values: seq<Byte>)
      requires Valid() && Healthy() && reg + |values| <= SPACE
      requires TouchesEdid(Access(reg, |values|, true, true)) ==> !Abs().hpd && !pending
      modifies bus, this`log
      ensures Valid() && Healthy() && bus.mem == Written(old(bus.mem), reg, values)
      ensures log == old(log) + [Access(reg, |values|, old(Abs().hpd), pending)]
    {
      MovedExactly(bus.fails, bus.calls, |values|, Bursts(|values|));
      log := log + [Access(reg, |values|, Abs().hpd, pending)];
      assert values[..|values|] == values;
      bus.Write(reg, values);
    }

    method Read8(reg: nat) returns (v: Byte)
      requires Valid() && Healthy() && reg < SPACE
      modifies bus`calls
      ensures Valid() && Healthy() && v == bus.mem[reg]
    {
      MovedExactly(bus.fails, bus.calls, 1, 1);
      var val := new Byte[1](_ => 0);
      var err := bus.Read(reg, val, 1);
      v := val[0];
    }

    /** `i2c_wr8_and_or` on the hotplug bit: (v & ~1) | bit. */
    method SetHpd(on: bool)
      requires Valid() && Healthy()
      modifies bus, this`log
      ensures Valid() && Healthy() && Abs() == old(Abs()).(hpd := on)
      ensures bus.mem == Written(old(bus.mem), HPD_CTL, [bus.mem[HPD_CTL]])
      ensures bus.mem[0x8544] % 2 == 1 <==> on
    {
      var v := Read8(HPD_CTL);
      var w: Byte := v - v % 2;
      if on { w := w + 1; }
      WriteHpd(bus.mem, w);
      Write(HPD_CTL, [w]);
    }

    method DelayedWork()
      requires Valid() && Healthy() && pending
      modifies bus, this
      ensures Valid() && Healthy() && Abs() == Step(old(Abs()), WorkFires)
      ensures !pending && bus.mem[0x8544] % 2 == 1
    {
      pending := false;
      SetHpd(true);
    }

    method Disable()
      requires Valid() && Healthy()
      modifies bus, this`log, this`pending
      ensures Valid() && Healthy() && Abs() == DisableEdid(old(Abs()))
      ensures !pending && bus.mem[0x8544] % 2 == 0
    {
      pending := false;
      SetHpd(false);
    }

    method Enable()
      requires Valid()
      modifies this`pending
      ensures Valid() && Abs() == EnableEdid(old(Abs()))
      ensures pending <==> blocks > 0 || old(pending)
    {
      if blocks == 0 { return; }
      pending := true;
    }

    /** The DDC part of the interrupt handler, run when the 5 V line has changed. */
    method SysInterrupt()
      requires Valid() && Healthy()
      modifies bus, this
      ensures Valid() && Healthy() && Abs() == Step(old(Abs()), DdcInterrupt)
      ensures old(bus.mem)[0x8520] % 2 == 1 ==> bus.mem == old(bus.mem) && pending == (blocks > 0 || old(pending))
      ensures old(bus.mem)[0x8520] % 2 == 0 ==> !pending && bus.mem[0x8544] % 2 == 0
    {
      var status := Read8(SYS_STATUS);
      if status % 2 == 1 { Enable(); } else { Disable(); }
    }

    method WriteEdidLength(n: nat)
      requires Valid() && Healthy() && !Abs().hpd && !pending && n < 0x1_0000
      modifies bus, this`log
      ensures Valid() && Healthy() && Abs() == old(Abs()).(len := n)
      ensures bus.mem[0x85CA] == n % 256 && bus.mem[0x85CB] == n / 256
    {
      var low: Byte, high: Byte := n % 256, n / 256;
      ghost var mem := bus.mem;
      WriteLength(mem, low, high);
      LengthFrame(mem, low);
      hide Registers; hide Written;
      Write(EDID_LEN1, [low]);
      Write(EDID_LEN2, [high]);
    }

    /** The block loop of `s_edid`. */
    method WriteBlocks(edid: seq<Byte>, n: nat)
      requires Valid() && Healthy() && !Abs().hpd && !pending
      requires n <= |edid| && n <= BLOCKS_MAX * BLOCK && n % BLOCK == 0
      modifies bus, this`log
      ensures Valid() && Healthy()
      ensures Abs() == old(Abs()).(ram := edid[..n] + old(Abs()).ram[n..])
      ensures bus.mem[0x8C00..0x8C00 + n] == edid[..n]
    {
      hide Registers; hide Written;
      ghost var s := Abs();
      var i := 0;
      while i < n
        invariant Valid() && Healthy() && i % BLOCK == 0 && 0 <= i <= n
        invariant Abs() == s.(ram := edid[..i] + s.ram[i..])
      {
        var block := edid[i..i + BLOCK];
        WriteRam(bus.mem, i, block);
        RamGrows(s.ram, edid, i);
        Write(EDID_RAM + i, block);
        i := i + BLOCK;
      }
      RamPrefix(bus.mem, edid[..n]);
    }

    /** `s_edid`; `addressOk` is the outcome of the physical-address check. */
    method SetEdid(pad: nat, start: nat, count: nat, edid: seq<Byte>, addressOk: bool)
      returns (status: Status, count': nat)
      requires Valid() && Healthy() && |edid| >= count * BLOCK
      modifies bus, this
      ensures Valid() && Healthy()
      ensures Abs() == Step(old(Abs()), Event.SetEdid(pad, start, count, edid, addressOk))
      ensures (status == Done) == Accepted(Event.SetEdid(pad, start, count, edid, addressOk))
      ensures status == TooBig <==> pad == 0 && start == 0 && count > BLOCKS_MAX
      ensures count' == if status == TooBig then BLOCKS_MAX else count
      ensures status == Invalid <==> pad != 0 || start != 0
      ensures status == BadAddress <==> pad == 0 && start == 0 && count <= 8 && !addressOk
      ensures status == Done ==>
                && blocks == count && Abs().len == 128 * count && !Abs().hpd
                && edid[..128 * count] <= Abs().ram && Abs().ram[128 * count..] == old(Abs().ram)[128 * count..]
                && pending == (Abs().power && count > 0)
      ensures status == Done ==> bus.mem[0x8C00..0x8C00 + 128 * count] == edid[..128 * count]
      ensures status != Done ==> Abs() == old(Abs())
    {
      count' := count;
      if pad != 0 { return Invalid, count'; }
      if start != 0 { return Invalid, count'; }
      if count > BLOCKS_MAX { return TooBig, BLOCKS_MAX; }
      if !addressOk { return BadAddress, count'; }
      hide Registers; hide Written;
      Disable();
      WriteEdidLength(count * BLOCK);
      if count == 0 {
        blocks := 0;
        return Done, count';
      }
      WriteBlocks(edid, count * BLOCK);
      blocks := count;
      var power := Power5V();
      if power { Enable(); }
      RamPrefix(bus.mem, edid[..count * BLOCK]);
      status := Done;
    }

    method Power5V() returns (on: bool)
      requires Valid() && Healthy()
      modifies bus`calls
      ensures Valid() && Healthy() && on == Abs().power
    {
      var status := Read8(SYS_STATUS);
      on := status % 2 == 1;
    }

    /** `g_edid`; the sum and the byte count are taken in 32 bits. */
    method GetEdid(pad: nat, start: Word, count: Word, edid: array<Byte>) returns (status: Status, count': nat)
      requires Valid() && Healthy() && blocks <= BLOCKS_MAX
      requires edid.Length >= count * BLOCK
      modifies bus`calls, edid
      ensures Valid() && Healthy() && Abs() == old(Abs())
      ensures (status, count') == GetStatus(blocks, pad, start, count)
      ensures !Delivers(blocks, pad, start, count) ==> edid[..] == old(edid[..])
      ensures Delivers(blocks, pad, start, count) ==>
                edid[..] == Filled(bus.mem, EDID_RAM + start * BLOCK, old(edid[..]), count' * BLOCK % WORD)
      ensures Delivers(blocks, pad, start, count) && start + count < WORD ==>
                edid[..] == Abs().ram[start * BLOCK..(start + count') * BLOCK] + old(edid[..])[count' * BLOCK..]
    {
      hide Filled; hide Registers; hide Moved; hide Bursts; hide Written;
      count' := count;
      if pad != 0 { return Invalid, count'; }
      if start == 0 && count == 0 { return Done, blocks; }
      if blocks == 0 { return NoData, count'; }
      if start >= blocks || count == 0 { return Invalid, count'; }
      if (start + count) % WORD > blocks { count' := blocks - start; }
      ghost var was := edid[..];
      var n := count' * BLOCK % WORD;
      Wraps(count' * BLOCK);
      MovedExactly(bus.fails, bus.calls, n, Bursts(n));
      var err := bus.Read(EDID_RAM + start * BLOCK, edid, n);
      if start + count < WORD { Inside(bus.mem, was, start, count'); }
      status := Done;
    }
  }

  datatype Status = Done | Invalid | TooBig | BadAddress | NoData

  /** Whether `g_edid` copies blocks out. */
  predicate Delivers(blocks: nat, pad: nat, start: nat, count: nat) {
    pad == 0 && count > 0 && start < blocks
  }

  function GetStatus(blocks: nat, pad: nat, start: Word, count: Word): (Status, nat) {
    if pad != 0 then (Invalid, count)
    else if start == 0 && count == 0 then (Done, blocks)
    else if blocks == 0 then (NoData, count)
    else if start >= blocks || count == 0 then (Invalid, count)
    else (Done, if (start + count) % WORD > blocks then blocks - start else count)
  }

  /** The answers of `g_edid`: start 0 and count 0 ask for the number of blocks, and without blocks there is no data. */
  lemma GetAnswers(blocks: nat, pad: nat, start: Word, count: Word)
    ensures var r := GetStatus(blocks, pad, start, count);
            && (pad != 0 ==> r == (Invalid, count))
            && (pad == 0 && start == 0 && count == 0 ==> r == (Done, blocks))
            && (pad == 0 && (start != 0 || count != 0) && blocks == 0 ==> r == (NoData, count))
            && (pad == 0 && blocks > 0 && ((start != 0 && count == 0) || start >= blocks) ==> r == (Invalid, count))
            && (pad == 0 && count > 0 && start < blocks ==> r.0 == Done)
            && (pad == 0 && count > 0 && start < blocks && start + count <= 0xFFFF_FFFF ==>
                 r.1 == if start + count > blocks then blocks - start else count)
    ensures Delivers(blocks, pad, start, count) <==> pad == 0 && count > 0 && start < blocks
  {}

  /** The blocks delivered end at the blocks written exactly when the 32-bit sum does not wrap. */
  lemma ClippedExactly(blocks: nat, start: Word, count: Word)
    requires Delivers(blocks, 0, start, count) && blocks <= BLOCKS_MAX
    ensures start + GetStatus(blocks, 0, start, count).1 <= blocks <==> start + count < WORD
  {}

  /** With two blocks written, a request from block 1 for all but one of the 2^32 is left as it is. */
  lemma UnclippedExample()
    ensures GetStatus(2, 0, 1, WORD - 1) == (Done, WORD - 1)
  {}

  lemma Wraps(n: nat)
    ensures n % WORD <= n && (n < WORD ==> n % WORD == n)
  {}

  /** Blocks inside the EDID RAM, as a slice of it. */
  lemma Inside(mem: seq<Byte>, was: seq<Byte>, start: nat, count: nat)
    requires |mem| == SPACE && start + count <= BLOCKS_MAX && count * BLOCK <= |was|
    ensures count * BLOCK % WORD == count * BLOCK
    ensures Filled(mem, EDID_RAM + start * BLOCK, was, count * BLOCK)
         == Registers(mem).3[start * BLOCK..(start + count) * BLOCK] + was[count * BLOCK..]
  {
    RamSlice(mem, start, count);
    hide Filled; hide Registers;
    FilledInside(mem, EDID_RAM + start * BLOCK, was, count * BLOCK);
  }

  lemma LengthFrame(mem: seq<Byte>, low: Byte)
    requires |mem| == SPACE
    ensures var (power, hpd, len, ram) := Registers(mem); Registers(Written(mem, EDID_LEN1, [low])).1 == hpd
  {}

  lemma RamSlice(mem: seq<Byte>, start: nat, count: nat)
    requires |mem| == SPACE && start + count <= BLOCKS_MAX
    ensures mem[EDID_RAM + start * BLOCK..EDID_RAM + start * BLOCK + count * BLOCK]
        == Registers(mem).3[start * BLOCK..(start + count) * BLOCK]
  {
    var i, j := start * BLOCK, (start + count) * BLOCK;
    assert j == i + count * BLOCK <= BLOCKS_MAX * BLOCK;
    SliceOfSlice(mem, EDID_RAM, BLOCKS_MAX * BLOCK, i, j);
  }

  lemma SliceOfSlice(s: seq<Byte>, at: nat, n: nat, i: nat, j: nat)
    requires at + n <= |s| && i <= j <= n
    ensures s[at..at + n][i..j] == s[at + i..at + j]
  {
    var a, b := s[at..at + n][i..j], s[at + i..at + j];
    assert |a| == |b| && forall k :: 0 <= k < |a| ==> a[k] == b[k];
  }

  lemma RamGrows(ram: seq<Byte>, edid: seq<Byte>, i: nat)
    requires i + BLOCK <= |edid| && i + BLOCK <= |ram|
    ensures var r := edid[..i] + ram[i..];
            r[..i] + edid[i..i + BLOCK] + r[i + BLOCK..] == edid[..i + BLOCK] + ram[i + BLOCK..]
  {}

  /** In every run `g_edid` hands back blocks of the last accepted image, clipped to its end. */
  lemma {:induction false} GetReturnsLastImage(s: State, es: seq<Event>, start: Word, count: Word)
    requires Initial(s) && forall i :: 0 <= i < |es| ==> ValidEvent(es[i])
    requires Delivers(Run(s, es).blocks, 0, start, count) && start + count < WORD
    ensures var r, image := Run(s, es), LastImage(es);
            var n := GetStatus(r.blocks, 0, start, count).1;
            && n >= 1 && (start + n) * BLOCK <= |image| <= |r.ram|
            && n == (if (start + count) * BLOCK <= |image| then count else |image| / BLOCK - start)
            && r.ram[start * BLOCK..(start + n) * BLOCK] == image[start * BLOCK..(start + n) * BLOCK]
  {
    HotplugSafety(s, es);
  }
}
