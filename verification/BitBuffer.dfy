/** The QR bit buffer: bytes filled from their most significant bit. */
module BitBuffer {
  import opened BitStream

  /** Bit k of a byte, k = 0 being the most significant. */
  predicate BitOf(b: bv8, k: nat)
    requires k < 8
  {
    (b >> (7 - k)) & 1 == 1
  }

  lemma SetBit(b: bv8, k: nat, i: nat)
    requires k < 8 && i < 8
    ensures BitOf(b | ((128 as bv8) >> k), i) == (i == k || BitOf(b, i))
    ensures !BitOf(0, i)
  {}

  /** The first bit of a byte is the one of value 128, the last the one of value 1. */
  lemma BitValues(b: bv8)
    ensures (BitOf(b, 0) <==> b & 0x80 != 0) && (BitOf(b, 1) <==> b & 0x40 != 0)
    ensures (BitOf(b, 2) <==> b & 0x20 != 0) && (BitOf(b, 3) <==> b & 0x10 != 0)
    ensures (BitOf(b, 4) <==> b & 0x08 != 0) && (BitOf(b, 5) <==> b & 0x04 != 0)
    ensures (BitOf(b, 6) <==> b & 0x02 != 0) && (BitOf(b, 7) <==> b & 0x01 != 0)
  {}

  /** Bit k of a byte string; past its end it is 0. */
  predicate BitAt(s: seq<bv8>, k: nat) {
    k / 8 < |s| && BitOf(s[k / 8], k % 8)
  }

  function ByteBits(b: bv8): (r: seq<bool>)
    ensures |r| == 8
  {
    seq(8, i requires 0 <= i < 8 => BitOf(b, i))
  }

  /** All bits of a byte string in order. */
  function AllBits(s: seq<bv8>): (r: seq<bool>)
    ensures |r| == 8 * |s|
  {
    if s == [] then [] else AllBits(s[..|s| - 1]) + ByteBits(s[|s| - 1])
  }

  lemma {:induction false} AllBitsAt(s: seq<bv8>, k: nat)
    requires k < 8 * |s|
    ensures AllBits(s)[k] == BitAt(s, k)
  {
    hide BitOf;
    if k < 8 * (|s| - 1) { AllBitsAt(s[..|s| - 1], k); }
  }

  /** The r low bits of t, most significant first. */
  function Msb(t: nat, r: nat): (b: seq<bool>)
    ensures |b| == r
  {
    if r == 0 then [] else Msb(t / 2, r - 1) + [t % 2 == 1]
  }

  lemma {:induction false} MsbAt(t: nat, r: nat, n: nat)
    requires n < r
    ensures Msb(t, r)[n] == (Shr(t, r - n - 1) % 2 == 1)
  {
    if n < r - 1 { MsbAt(t / 2, r - 1, n); }
  }

  function MsbValue(b: seq<bool>): nat {
    if b == [] then 0 else 2 * MsbValue(b[..|b| - 1]) + if b[|b| - 1] then 1 else 0
  }

  lemma {:induction false} MsbValueOf(t: nat, r: nat)
    requires t < Pow2(r)
    ensures MsbValue(Msb(t, r)) == t
  {
    if r > 0 {
      MsbValueOf(t / 2, r - 1);
      assert Msb(t, r)[..r - 1] == Msb(t / 2, r - 1);
    }
  }

  ghost predicate ZeroAfter(s: seq<bv8>, n: nat) {
    |s| == (n + 7) / 8 && forall k :: n <= k < 8 * |s| ==> !BitAt(s, k)
  }

  function FirstBits(s: seq<bv8>, n: nat): (b: seq<bool>)
    ensures |b| == n
  {
    seq(n, k requires 0 <= k => BitAt(s, k))
  }

  function WithRoom(s: seq<bv8>, n: nat): seq<bv8> { if |s| <= n / 8 then s + [0] else s }

  lemma RoomForBit(s: seq<bv8>, n: nat)
    requires ZeroAfter(s, n)
    ensures |WithRoom(s, n)| == n / 8 + 1
    ensures FirstBits(WithRoom(s, n), n) == FirstBits(s, n)
    ensures forall k :: n <= k < 8 * |WithRoom(s, n)| ==> !BitAt(WithRoom(s, n), k)
  {
    hide BitOf;
    forall i | 0 <= i < 8 ensures !BitOf(0, i) { SetBit(0, 0, i); }
  }

  lemma BitSet(s: seq<bv8>, n: nat, e: bool)
    requires |s| == n / 8 + 1 && forall k :: n <= k < 8 * |s| ==> !BitAt(s, k)
    ensures var t := if e then s[n / 8 := s[n / 8] | ((128 as bv8) >> (n % 8))] else s;
            ZeroAfter(t, n + 1) && FirstBits(t, n + 1) == FirstBits(s, n) + [e]
  {
    hide BitOf;
    var t := if e then s[n / 8 := s[n / 8] | ((128 as bv8) >> (n % 8))] else s;
    forall k | 0 <= k < 8 * |s| ensures BitAt(t, k) == (BitAt(s, k) || (e && k == n)) {
      SetBit(s[n / 8], n % 8, k % 8);
    }
  }

  class BitBuffer {
    var buffer: seq<bv8>
    var length: nat

    ghost predicate Valid()
      reads this
    {
      ZeroAfter(buffer, length)
    }

    ghost function Bits(): (b: seq<bool>)
      reads this
      ensures |b| == length
    {
      FirstBits(buffer, length)
    }

    constructor ()
      ensures Valid() && Bits() == []
    {
      buffer, length := [], 0;
    }

    method PutBit(e: bool)
      requires Valid()
      modifies this
      ensures Valid() && Bits() == old(Bits()) + [e]
    {
      var n := length / 8;
      RoomForBit(buffer, length);
      if |buffer| <= n { buffer := buffer + [0]; }
      BitSet(buffer, length, e);
      if e { buffer := buffer[n := buffer[n] | ((128 as bv8) >> (length % 8))]; }
      length := length + 1;
    }

    method Put(t: nat, r: nat)
      requires Valid()
      modifies this
      ensures Valid() && Bits() == old(Bits()) + Msb(t, r)
    {
      for n := 0 to r
        invariant Valid() && Bits() == old(Bits()) + Msb(t, r)[..n]
      {
        MsbAt(t, r, n);
        PutBit(Shr(t, r - n - 1) % 2 == 1);
      }
    }
  }

  /** A full buffer holds exactly its bits. */
  lemma BytesOfBits(s: seq<bv8>)
    ensures AllBits(s) == FirstBits(s, 8 * |s|)
  {
    hide BitOf;
    forall k | 0 <= k < 8 * |s| ensures AllBits(s)[k] == BitAt(s, k) { AllBitsAt(s, k); }
  }
}
