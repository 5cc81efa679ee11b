/** Exclusive or on bytes, and big-endian numbers. */
module Bytes {
  import opened BitStream

  /** Bit by bit, lowest first, over w bits. */
  function XorBits(a: nat, b: nat, w: nat): (x: nat)
    ensures x < Pow2(w)
  {
    if w == 0 then 0 else (a + b) % 2 + 2 * XorBits(a / 2, b / 2, w - 1)
  }

  function Xor(a: Byte, b: Byte): Byte {
    assert Pow2(8) == 256;
    XorBits(a, b, 8)
  }

  lemma {:induction false} XorBitsTwice(a: nat, b: nat, w: nat)
    requires a < Pow2(w)
    ensures XorBits(XorBits(a, b, w), b, w) == a
  {
    if w > 0 {
      XorBitsTwice(a / 2, b / 2, w - 1);
      LowBit(a, b, XorBits(a / 2, b / 2, w - 1));
    }
  }

  lemma LowBit(a: nat, b: nat, x: nat)
    ensures var s := (a + b) % 2 + 2 * x; s / 2 == x && (s + b) % 2 == a % 2 && a == a % 2 + 2 * (a / 2)
  {}

  /** A mask applied twice cancels. */
  lemma XorTwice(a: Byte, b: Byte)
    ensures Xor(Xor(a, b), b) == a
  {
    assert Pow2(8) == 256;
    hide XorBits; hide Pow2;
    XorBitsTwice(a, b, 8);
  }

  /** Bit k of a number, bit 0 the lowest. */
  predicate Bit(v: nat, k: nat) { if k == 0 then v % 2 == 1 else Bit(v / 2, k - 1) }

  lemma {:induction false} XorBitsBit(a: nat, b: nat, w: nat, k: nat)
    requires k < w
    ensures Bit(XorBits(a, b, w), k) <==> Bit(a, k) != Bit(b, k)
  {
    var x := XorBits(a / 2, b / 2, w - 1);
    LowBit(a, b, x);
    if k > 0 {
      XorBitsBit(a / 2, b / 2, w - 1, k - 1);
    } else {
      Parity(a, b);
    }
  }

  lemma Parity(a: nat, b: nat)
    ensures (a + b) % 2 == 1 <==> (a % 2 == 1) != (b % 2 == 1)
  {}

  /** A bit of the exclusive or is set exactly when it is set in one of the two bytes. */
  lemma XorBit(a: Byte, b: Byte, k: nat)
    requires k < 8
    ensures Bit(Xor(a, b), k) <==> Bit(a, k) != Bit(b, k)
  {
    hide XorBits; hide Bit;
    XorBitsBit(a, b, 8, k);
  }

  function XorBytes(a: seq<Byte>, b: seq<Byte>): (c: seq<Byte>)
    requires |a| == |b|
    ensures |c| == |a|
  {
    seq(|a|, i requires 0 <= i < |a| => Xor(a[i], b[i]))
  }

  /** The low n bytes of v, highest first. */
  function BigEndian(v: nat, n: nat): (s: seq<Byte>)
    ensures |s| == n
  {
    if n == 0 then [] else BigEndian(v / 256, n - 1) + [v % 256]
  }

  /** Highest byte first. */
  lemma BigEndianLiterals()
    ensures BigEndian(0x0102, 2) == [1, 2] && BigEndian(0x0102_0304, 4) == [1, 2, 3, 4]
    ensures forall v: nat | v < 0x1_0000 :: BigEndian(v, 2) == [v / 256, v % 256]
  {
    forall v: nat | v < 0x1_0000 ensures BigEndian(v, 2) == [v / 256, v % 256] {
      assert BigEndian(v / 256, 1) == [v / 256 % 256];
    }
    assert BigEndian(0x01, 1) == [1];
    assert BigEndian(0x0102_03, 3) == BigEndian(0x0102, 2) + [3];
    assert BigEndian(0x0102_0304, 4) == BigEndian(0x0102_03, 3) + [4];
  }

  function Number(s: seq<Byte>): nat {
    if s == [] then 0 else 256 * Number(s[..|s| - 1]) + s[|s| - 1]
  }

  function Pow256(n: nat): (p: nat)
    ensures p > 0
  {
    if n == 0 then 1 else 256 * Pow256(n - 1)
  }

  lemma {:induction false} NumberOfBigEndian(v: nat, n: nat)
    requires v < Pow256(n)
    ensures Number(BigEndian(v, n)) == v
  {
    if n > 0 { NumberOfBigEndian(v / 256, n - 1); }
  }

  lemma {:induction false} BigEndianOfNumber(s: seq<Byte>)
    ensures Number(s) < Pow256(|s|) && BigEndian(Number(s), |s|) == s
  {
    if s != [] {
      BigEndianOfNumber(s[..|s| - 1]);
      assert s == s[..|s| - 1] + [s[|s| - 1]];
    }
  }

  /** Numbers that differ by a multiple of 256^n have the same n bytes. */
  lemma {:induction false} BigEndianWraps(v: nat, k: nat, n: nat)
    ensures BigEndian(v + k * Pow256(n), n) == BigEndian(v, n)
  {
    if n > 0 {
      var p := k * Pow256(n - 1);
      Scaled(k, n);
      Carry(v, p);
      BigEndianWraps(v / 256, k, n - 1);
    }
  }

  lemma Scaled(k: nat, n: nat)
    requires n > 0
    ensures k * Pow256(n) == 256 * (k * Pow256(n - 1))
  {}

  lemma Carry(v: nat, p: nat)
    ensures (v + 256 * p) / 256 == v / 256 + p && (v + 256 * p) % 256 == v % 256
  {}

  method CopyInto(dst: array<Byte>, src: seq<Byte>)
    requires dst.Length == |src|
    modifies dst
    ensures dst[..] == src
  {
    for i := 0 to |src|
      invariant dst[..i] == src[..i]
    {
      dst[i] := src[i];
    }
  }
}
