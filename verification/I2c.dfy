/** The bridge's register bus, and transfers split into bursts of at most eight bytes. */
module I2c {
  import opened BitStream

  const BURST: nat := 8
  const SPACE: nat := 0x1_0000

  /** One auto-increment transfer of all the values. */
  function Written(mem: seq<Byte>, reg: nat, values: seq<Byte>): (m: seq<Byte>)
    requires reg + |values| <= |mem|
    ensures |m| == |mem|
  {
    mem[..reg] + values + mem[reg + |values|..]
  }

  /** The first n values read from the register on, addresses taken modulo 2^16, the others as they were. */
  function Filled(mem: seq<Byte>, reg: nat, was: seq<Byte>, n: nat): (now: seq<Byte>)
    requires |mem| == SPACE && n <= |was|
    ensures |now| == |was|
  {
    seq(|was|, i requires 0 <= i < |was| => if i < n then mem[(reg + i) % SPACE] else was[i])
  }

  /** Inside the address space that is one slice of the memory. */
  lemma FilledInside(mem: seq<Byte>, reg: nat, was: seq<Byte>, n: nat)
    requires |mem| == SPACE && n <= |was| && reg + n <= SPACE
    ensures Filled(mem, reg, was, n) == mem[reg..reg + n] + was[n..]
  {
    var a, b := Filled(mem, reg, was, n), mem[reg..reg + n] + was[n..];
    forall i | 0 <= i < |was| ensures a[i] == b[i] {
      if i < n { assert (reg + i) % SPACE == reg + i; }
    }
  }

  /** Bursts never straddle the end of the address space when the transfer stays inside it or starts on a burst
   boundary. */
  predicate NoStraddle(reg: nat, n: nat) { reg + n <= SPACE || reg % BURST == 0 }

  lemma BurstInside(reg: nat, n: nat, off: nat)
    requires NoStraddle(reg, n) && off < n && off % BURST == 0
    ensures (reg + off) % SPACE + Chunk(off, n) <= SPACE
  {
    if reg + n > SPACE {
      Aligned(reg, off);
    } else {
      assert (reg + off) % SPACE == reg + off;
    }
  }

  lemma Aligned(x: nat, y: nat)
    requires x % BURST == 0 && y % BURST == 0
    ensures (x + y) % SPACE + BURST <= SPACE
  {
    var q, z := x / BURST + y / BURST, (x + y) / SPACE;
    assert x + y == BURST * q;
    assert (x + y) % SPACE == BURST * (q - 8192 * z);
  }

  lemma AddressStep(reg: nat, off: nat, k: nat)
    requires (reg + off) % SPACE + k < SPACE
    ensures (reg + off + k) % SPACE == (reg + off) % SPACE + k
  {}

  function Bursts(n: nat): nat { (n + BURST - 1) / BURST }

  /** How many of n bytes move when transfer number `next` is the first and those that `fails` names fail. */
  function Moved(fails: nat -> bool, next: nat, n: nat): (m: nat)
    ensures m <= n
    decreases n
  {
    if n == 0 || fails(next) then 0
    else if n <= BURST then n
    else BURST + Moved(fails, next + 1, n - BURST)
  }

  ghost predicate NoFault(fails: nat -> bool, from: nat, to: nat) {
    forall i :: from <= i < to ==> !fails(i)
  }

  /** A failure at burst k moves exactly the first 8k bytes; no failure moves all of them. */
  lemma {:induction false} MovedExactly(fails: nat -> bool, next: nat, n: nat, k: nat)
    requires NoFault(fails, next, next + k)
    ensures k >= Bursts(n) ==> Moved(fails, next, n) == n
    ensures k < Bursts(n) && fails(next + k) ==> Moved(fails, next, n) == BURST * k
    decreases k
  {
    if n > BURST && k > 0 {
      MovedExactly(fails, next + 1, n - BURST, k - 1);
    }
  }

  function Address(s: seq<Byte>): nat
    requires |s| >= 2
  {
    var high: nat, low: nat := s[0], s[1]; high * 256 + low
  }

  /** The big-endian register address, each half cut to eight bits. */
  function AddressBytes(a: nat): (s: seq<Byte>)
    ensures |s| == 2
    ensures var high: nat, low: nat := s[0], s[1]; 256 * high + low == a % 0x1_0000
    ensures Address(s) == a % SPACE
  {
    AddressHalves(a);
    [a / 256 % 256, a % 256]
  }

  lemma AddressHalves(a: nat)
    ensures a / 256 % 256 * 256 + a % 256 == a % SPACE
  {
    var h := a / 256;
    assert a == 256 * h + a % 256 && h == 256 * (h / 256) + h % 256;
    Remainder(a, h / 256, h % 256 * 256 + a % 256);
  }

  lemma Remainder(a: nat, q: nat, r: nat)
    requires a == SPACE * q + r && r < SPACE
    ensures a % SPACE == r
  {}

  lemma WrittenTwice(mem: seq<Byte>, reg: nat, values: seq<Byte>, off: nat, chunk: nat)
    requires off + chunk <= |values| && reg + |values| <= |mem|
    ensures Written(Written(mem, reg, values[..off]), reg + off, values[off..off + chunk])
        == Written(mem, reg, values[..off + chunk])
  {}

  /** The chip behind the bus. A failing transfer moves nothing. */
  class Bus {
    var mem: seq<Byte>
    var calls: nat
    const fails: nat -> bool

    ghost predicate Valid()
      reads this`mem
      ensures Valid() ==> |mem| == SPACE
    {
      |mem| == SPACE
    }

    constructor (mem: seq<Byte>, fails: nat -> bool)
      requires |mem| == SPACE
      ensures Valid() && this.mem == mem && this.fails == fails && calls == 0
    {
      this.mem, this.fails, calls := mem, fails, 0;
    }

    /** A write message: two address bytes, then data. */
    method WriteMessage(msg: seq<Byte>) returns (ok: bool)
      requires Valid() && |msg| >= 2 && Address(msg) + |msg| - 2 <= SPACE
      modifies this
      ensures Valid() && ok == !fails(old(calls)) && calls == old(calls) + 1
      ensures mem == if ok then Written(old(mem), Address(msg), msg[2..]) else old(mem)
    {
      ok := !fails(calls);
      calls := calls + 1;
      if ok {
        var reg := Address(msg);
        mem := Written(mem, reg, msg[2..]);
      }
    }

    /** An address message followed by a read message of n bytes. */
    method ReadMessages(address: seq<Byte>, n: nat) returns (ok: bool, data: seq<Byte>)
      requires Valid() && |address| == 2 && Address(address) + n <= SPACE
      modifies this`calls
      ensures Valid() && ok == !fails(old(calls)) && calls == old(calls) + 1
      ensures data == if ok then mem[Address(address)..][..n] else []
    {
      ok := !fails(calls);
      calls := calls + 1;
      data := if ok then mem[Address(address)..][..n] else [];
    }

    /** `i2c_wr`: gives up silently at the first failing burst. */
    method Write(reg: nat, values: seq<Byte>)
      requires Valid() && reg + |values| <= SPACE
      modifies this
      ensures Valid()
      ensures mem == Written(old(mem), reg, values[..Moved(fails, old(calls), |values|)])
      ensures old(calls) <= calls <= old(calls) + Bursts(|values|)
    {
      hide Written; hide Moved; hide Bursts;
      var n := |values|;
      var off := 0;
      NothingWritten(mem, reg, values);
      NothingMoved(fails, calls, n);
      while off < n
        invariant Valid()
        invariant 0 <= off <= n && (off % BURST == 0 || off == n)
        invariant calls == old(calls) + Bursts(off)
        invariant mem == Written(old(mem), reg, values[..off])
        invariant Moved(fails, old(calls), n) == off + Moved(fails, calls, n - off)
      {
        var chunk := Chunk(off, n);
        var data := AddressBytes(reg + off) + values[off..off + chunk];
        assert data[2..] == values[off..off + chunk];
        WrittenTwice(old(mem), reg, values, off, chunk);
        MovedStep(fails, calls, off, n);
        var ok := WriteMessage(data);
        if !ok { return; }
        off := off + chunk;
      }
      assert values[..n] == values;
    }

    /** `i2c_rd`: true (an error) as soon as a burst fails. */
    method Read(reg: nat, values: array<Byte>, n: nat) returns (err: bool)
      requires Valid() && NoStraddle(reg, n) && n <= values.Length
      modifies this`calls, values
      ensures Valid()
      ensures var m := Moved(fails, old(calls), n);
              && err == (m < n)
              && values[..] == Filled(mem, reg, old(values[..]), m)
      ensures old(calls) <= calls <= old(calls) + Bursts(n)
    {
      hide *;
      ghost var from, was := calls, values[..];
      StartReading(fails, from, n, mem, reg, was);
      var off: nat := 0;
      while off < n
        invariant mem == old(mem) && Reading(fails, from, n, mem, reg, was, off, calls, values[..])
      {
        var chunk := Chunk(off, n);
        ReadStep(fails, from, n, mem, reg, was, off, calls, values[..]);
        var ok := ReadBurst(reg, values, off, chunk);
        if !ok { return true; }
        off := off + chunk;
      }
      AllRead(fails, from, n, mem, reg, was, off, calls, values[..]);
      return false;
    }

    method ReadBurst(reg: nat, values: array<Byte>, off: nat, chunk: nat) returns (ok: bool)
      requires Valid() && (reg + off) % SPACE + chunk <= SPACE && off + chunk <= values.Length
      modifies this`calls, values
      ensures ok == !fails(old(calls)) && calls == old(calls) + 1
      ensures values[..] == if ok then Written(old(values[..]), off, Burst(mem, reg + off, chunk)) else old(values[..])
    {
      var data;
      ok, data := ReadMessages(AddressBytes(reg + off), chunk);
      if ok {
        assert data == Burst(mem, reg + off, chunk);
        Store(values, off, data);
      }
    }
  }

  /** What one burst reads. */
  function Burst(mem: seq<Byte>, a: nat, chunk: nat): (s: seq<Byte>)
    requires |mem| == SPACE && a % SPACE + chunk <= SPACE
    ensures |s| == chunk
  {
    mem[a % SPACE..a % SPACE + chunk]
  }

  /** What `i2c_rd` has done by offset off. */
  ghost predicate Reading(fails: nat -> bool, from: nat, n: nat, mem: seq<Byte>, reg: nat, was: seq<Byte>, off: nat,
      calls: nat, now: seq<Byte>)
    requires |mem| == SPACE && n <= |was|
    ensures Reading(fails, from, n, mem, reg, was, off, calls, now) ==> off <= n && |now| == |was|
  {
    && off <= n && (off % BURST == 0 || off == n) && calls == from + Bursts(off)
    && now == Filled(mem, reg, was, off)
    && Moved(fails, from, n) == off + Moved(fails, calls, n - off)
  }

  lemma StartReading(fails: nat -> bool, from: nat, n: nat, mem: seq<Byte>, reg: nat, was: seq<Byte>)
    requires |mem| == SPACE && n <= |was|
    ensures Reading(fails, from, n, mem, reg, was, 0, from, was)
  {}

  /** One burst: it fails and nothing more moves, or its bytes are in place. */
  lemma ReadStep(fails: nat -> bool, from: nat, n: nat, mem: seq<Byte>, reg: nat, was: seq<Byte>, off: nat,
      calls: nat, now: seq<Byte>)
    requires |mem| == SPACE && NoStraddle(reg, n) && n <= |was| && off < n
    requires Reading(fails, from, n, mem, reg, was, off, calls, now)
    ensures var c := Chunk(off, n);
            && off % BURST == 0 && (reg + off) % SPACE + c <= SPACE
            && var next := Written(now, off, Burst(mem, reg + off, c));
            && (!fails(calls) ==> Reading(fails, from, n, mem, reg, was, off + c, calls + 1, next))
            && (fails(calls) ==> Moved(fails, from, n) == off && now == Filled(mem, reg, was, off))
            && from <= calls < from + Bursts(n)
  {
    hide Moved; hide Bursts; hide Chunk; hide Written; hide Filled;
    BurstInside(reg, n, off);
    ReadSoFar(mem, reg, was, off, Chunk(off, n));
    MovedStep(fails, calls, off, n);
  }

  lemma AllRead(fails: nat -> bool, from: nat, n: nat, mem: seq<Byte>, reg: nat, was: seq<Byte>, off: nat, calls: nat,
      now: seq<Byte>)
    requires |mem| == SPACE && n <= |was| && off >= n && Reading(fails, from, n, mem, reg, was, off, calls, now)
    ensures Moved(fails, from, n) == n && now == Filled(mem, reg, was, n) && calls == from + Bursts(n)
  {}

  lemma NothingMoved(fails: nat -> bool, next: nat, n: nat)
    ensures Moved(fails, next, 0) == 0 && Bursts(0) == 0
    ensures Moved(fails, next, n) == 0 + Moved(fails, next, n - 0)
  {}

  /** One burst's share. */
  lemma MovedStep(fails: nat -> bool, next: nat, off: nat, n: nat)
    requires off < n && off % BURST == 0
    ensures Moved(fails, next, n - off)
         == if fails(next) then 0 else Chunk(off, n) + Moved(fails, next + 1, n - off - Chunk(off, n))
    ensures Bursts(off) + 1 <= Bursts(n) && Bursts(off + Chunk(off, n)) == Bursts(off) + 1
  {}

  lemma ReadSoFar(m: seq<Byte>, reg: nat, was: seq<Byte>, off: nat, chunk: nat)
    requires |m| == SPACE && off + chunk <= |was| && (reg + off) % SPACE + chunk <= SPACE
    ensures Written(Filled(m, reg, was, off), off, Burst(m, reg + off, chunk)) == Filled(m, reg, was, off + chunk)
  {
    var a, b := Written(Filled(m, reg, was, off), off, Burst(m, reg + off, chunk)), Filled(m, reg, was, off + chunk);
    forall i | 0 <= i < |was| ensures a[i] == b[i] {
      if off <= i < off + chunk { AddressStep(reg, off, i - off); }
    }
  }

  /** `min_t(u32, n - off, I2C_BURST)`. */
  function Chunk(off: nat, n: nat): (c: nat)
    requires off < n
    ensures 0 < c <= BURST && off + c <= n
    ensures off % BURST == 0 ==> Bursts(off + c) == Bursts(off) + 1 && ((off + c) % BURST == 0 || off + c == n)
  {
    if n - off < BURST then n - off else BURST
  }

  /** The bus controller stores what it received. */
  method Store(values: array<Byte>, at: nat, data: seq<Byte>)
    requires at + |data| <= values.Length
    modifies values
    ensures values[..] == Written(old(values[..]), at, data)
  {
    for i := 0 to |data|
      invariant forall k :: 0 <= k < values.Length ==>
        values[k] == if at <= k < at + i then data[k - at] else old(values[k])
    {
      values[at + i] := data[i];
    }
  }

  lemma NothingWritten(mem: seq<Byte>, reg: nat, values: seq<Byte>)
    requires reg + |values| <= |mem|
    ensures Written(mem, reg, values[..0]) == mem
  {}
}
