/** Numbers as least-significant-bit-first bit strings, and the GIF code packer built on them. */
module BitStream {
  type Byte = x: nat | x < 256

  function Pow2(n: nat): (p: nat)
    ensures p > 0
  {
    if n == 0 then 1 else 2 * Pow2(n - 1)
  }

  function Falses(n: nat): seq<bool> { seq(n, i => false) }

  /** The low w bits of v, lowest first. */
  function Bits(v: nat, w: nat): (b: seq<bool>)
    ensures |b| == w
  {
    if w == 0 then [] else [v % 2 == 1] + Bits(v / 2, w - 1)
  }

  function Value(b: seq<bool>): nat {
    if b == [] then 0 else (if b[0] then 1 else 0) + 2 * Value(b[1..])
  }

  /** The unsigned right shift v >>> k. */
  function Shr(v: nat, k: nat): nat {
    if k == 0 then v else Shr(v / 2, k - 1)
  }

  /** (t << c) | g for a g below 2^c. */
  function ShlOr(t: nat, c: nat, g: nat): nat {
    if c == 0 then t else g % 2 + 2 * ShlOr(t, c - 1, g / 2)
  }

  lemma {:induction false} ValueOfBits(v: nat, w: nat)
    requires v < Pow2(w)
    ensures Value(Bits(v, w)) == v
  {
    if w > 0 { ValueOfBits(v / 2, w - 1); }
  }

  lemma {:induction false} BitsSplit(t: nat, a: nat, r: nat)
    ensures Bits(t, a + r) == Bits(t, a) + Bits(Shr(t, a), r)
  {
    if a > 0 {
      BitsSplit(t / 2, a - 1, r);
      var low, rest := Bits(t / 2, a - 1), Bits(Shr(t, a), r);
      assert Bits(t, a) == [t % 2 == 1] + low && Shr(t, a) == Shr(t / 2, a - 1);
      assert [t % 2 == 1] + low + rest == [t % 2 == 1] + (low + rest);
    }
  }

  lemma BitsCons(b: nat, v: nat, w: nat)
    requires b < 2
    ensures Bits(b + 2 * v, w + 1) == [b == 1] + Bits(v, w)
  {}

  lemma ShlOrStep(t: nat, c: nat, g: nat)
    requires c > 0
    ensures ShlOr(t, c, g) == g % 2 + 2 * ShlOr(t, c - 1, g / 2) && g == g % 2 + 2 * (g / 2)
  {}

  lemma ShlOrNone(t: nat, g: nat, r: nat)
    ensures ShlOr(t, 0, g) == t && Bits(g, 0) + Bits(t, r) == Bits(t, r)
  {}

  lemma {:induction false} BitsJoin(t: nat, c: nat, g: nat, r: nat)
    ensures Bits(ShlOr(t, c, g), c + r) == Bits(g, c) + Bits(t, r)
  {
    hide *;
    if c == 0 {
      ShlOrNone(t, g, r);
    } else {
      BitsJoin(t, c - 1, g / 2, r);
      ShlOrStep(t, c, g);
      BitsCons(g % 2, ShlOr(t, c - 1, g / 2), c + r - 1);
      BitsCons(g % 2, g / 2, c - 1);
      assert [g % 2 == 1] + Bits(g / 2, c - 1) + Bits(t, r) == [g % 2 == 1] + (Bits(g / 2, c - 1) + Bits(t, r));
    }
  }

  lemma {:induction false} ShrBound(t: nat, r: nat, k: nat)
    requires k <= r
    ensures t < Pow2(r) <==> Shr(t, k) < Pow2(r - k)
  {
    if k > 0 { ShrBound(t / 2, r - 1, k - 1); }
  }

  lemma {:induction false} JoinBound(t: nat, c: nat, g: nat, r: nat)
    requires t < Pow2(r)
    ensures ShlOr(t, c, g) < Pow2(c + r)
  {
    if c > 0 { JoinBound(t, c - 1, g / 2, r); }
  }

  lemma {:induction false} BitsPad(g: nat, c: nat, k: nat)
    requires g < Pow2(c)
    ensures Bits(g, c + k) == Bits(g, c) + Falses(k)
  {
    if c > 0 {
      BitsPad(g / 2, c - 1, k);
      assert Bits(g, c) + Falses(k) == [g % 2 == 1] + (Bits(g / 2, c - 1) + Falses(k));
    } else if k > 0 {
      BitsPad(g, 0, k - 1);
      assert Falses(k) == [false] + Falses(k - 1);
    }
  }

  lemma {:induction false} BitsOfValue(b: seq<bool>)
    ensures Value(b) < Pow2(|b|)
    ensures Bits(Value(b), |b|) == b
  {
    if b != [] { BitsOfValue(b[1..]); }
  }

  /** 255 & x. */
  function LowByte(x: nat): (b: Byte)
    ensures Bits(b, 8) == Bits(x, 8)
  {
    BitsOfValue(Bits(x, 8));
    assert Pow2(8) == 256;
    Value(Bits(x, 8))
  }

  function Unpack(f: seq<Byte>): (b: seq<bool>)
    ensures |b| == 8 * |f|
  {
    if f == [] then [] else Unpack(f[..|f| - 1]) + Bits(f[|f| - 1], 8)
  }

  lemma BitsStep(v: nat, w: nat)
    requires w > 0
    ensures Bits(v, w) == [v % 2 == 1] + Bits(v / 2, w - 1)
  {}

  lemma LowestFour(v: nat)
    ensures Bits(v, 4) == [v % 2 == 1, v / 2 % 2 == 1, v / 4 % 2 == 1, v / 8 % 2 == 1]
  {
    hide Bits;
    BitsStep(v, 4);
    BitsStep(v / 2, 3);
    BitsStep(v / 4, 2);
    BitsStep(v / 8, 1);
  }

  lemma Shr4(v: nat)
    ensures Shr(v, 4) == v / 16
  {
    assert Shr(v, 4) == Shr(v / 2, 3) == Shr(v / 2 / 2, 2) == Shr(v / 2 / 2 / 2, 1) == v / 2 / 2 / 2 / 2;
  }

  lemma Sixteenths(b: Byte)
    ensures b / 16 / 2 == b / 32 && b / 16 / 4 == b / 64 && b / 16 / 8 == b / 128 && b / 128 < 2
  {}

  /** A byte is unpacked from the bit of value 1 up to the bit of value 128. */
  lemma LowestBitFirst(b: Byte)
    ensures Unpack([b]) == [b % 2 == 1, b / 2 % 2 == 1, b / 4 % 2 == 1, b / 8 % 2 == 1,
                            b / 16 % 2 == 1, b / 32 % 2 == 1, b / 64 % 2 == 1, b / 128 == 1]
  {
    hide Bits;
    UnpackSnoc([], b);
    assert [] + [b] == [b] && [] + Bits(b, 8) == Bits(b, 8);
    hide Shr; hide Unpack;
    Shr4(b);
    BitsSplit(b, 4, 4);
    LowestFour(b);
    LowestFour(b / 16);
    Sixteenths(b);
  }

  lemma UnpackSnoc(f: seq<Byte>, b: Byte)
    ensures Unpack(f + [b]) == Unpack(f) + Bits(b, 8)
  {
    assert (f + [b])[..|f|] == f;
  }

  /** How many bits fill up the last byte. */
  function Padding(n: nat): (k: nat)
    ensures k < 8 && (n + k) % 8 == 0
  {
    (8 - n % 8) % 8
  }

  /**
   The code packer of the GIF writer: whole bytes in `f`, and `c` bits not yet
   written in `g`.
   */
  class BitWriter {
    var f: seq<Byte>
    var c: nat
    var g: nat

    ghost predicate Valid()
      reads this
    {
      c < 8 && g < Pow2(c)
    }

    ghost function Contents(): (b: seq<bool>)
      reads this
      ensures |b| == 8 * |f| + c
    {
      Unpack(f) + Bits(g, c)
    }

    constructor ()
      ensures Valid() && Contents() == []
    {
      f, c, g := [], 0, 0;
    }

    /** One turn of the writer's loop: completes a byte with the lowest bits of u. */
    method FillByte(u: nat, n: nat) returns (u': nat, n': nat)
      requires Valid() && c + n >= 8 && u < Pow2(n)
      modifies this
      ensures Valid() && c == 0 && n' == n - (8 - old(c)) && u' < Pow2(n')
      ensures Contents() + Bits(u', n') == old(Contents()) + Bits(u, n)
    {
      hide Bits; hide ShlOr; hide Shr; hide LowByte; hide Pow2; hide Unpack;
      ByteStep(f, g, c, u, n);
      NoBits();
      n' := n - (8 - c);
      u' := Shr(u, 8 - c);
      f, g, c := f + [LowByte(ShlOr(u, c, g))], 0, 0;
    }

    /** Appends the r low bits of t; false stands for the exception "length over". */
    method Write(t: nat, r: nat) returns (ok: bool)
      requires Valid()
      modifies this
      ensures Valid()
      ensures ok == (t < Pow2(r))
      ensures Contents() == if ok then old(Contents()) + Bits(t, r) else old(Contents())
    {
      ShrBound(t, r, r);
      NoBits();
      hide Bits; hide Pow2; hide Unpack; hide Shr; hide ShlOr;
      if Shr(t, r) != 0 { return false; }
      var u: nat, n: nat := t, r;
      while c + n >= 8
        invariant Valid()
        invariant u < Pow2(n)
        invariant Contents() + Bits(u, n) == old(Contents()) + Bits(t, r)
        decreases c + n
      {
        u, n := FillByte(u, n);
      }
      LastBits(f, g, c, u, n);
      JoinBound(u, c, g, n);
      g := ShlOr(u, c, g);
      c := c + n;
      return true;
    }

    /** Writes the last partial byte, its unused high bits 0. */
    method Flush()
      requires Valid()
      modifies this
      ensures Unpack(f) == old(Contents()) + Falses(Padding(|old(Contents())|))
    {
      hide Bits; hide Pow2; hide Unpack;
      if c > 0 {
        BitsPad(g, c, 8 - c);
        PartialByte(g, c);
        UnpackSnoc(f, g);
        f := f + [g];
      }
    }
  }

  lemma {:induction false} PartialByte(g: nat, c: nat)
    requires c <= 8 && g < Pow2(c)
    ensures g < 256
  {
    Pow2Monotone(c, 8);
    assert Pow2(8) == 256;
  }

  lemma {:induction false} Pow2Monotone(a: nat, b: nat)
    requires a <= b
    ensures Pow2(a) <= Pow2(b)
  {
    if a < b { Pow2Monotone(a, b - 1); }
  }

  lemma LastBits(f: seq<Byte>, g: nat, c: nat, u: nat, n: nat)
    ensures Unpack(f) + Bits(ShlOr(u, c, g), c + n) == (Unpack(f) + Bits(g, c)) + Bits(u, n)
  {
    hide *;
    BitsJoin(u, c, g, n);
  }

  lemma NoBits()
    ensures Bits(0, 0) == [] && Pow2(0) == 1
  {}

  lemma ByteStep(f: seq<Byte>, g: nat, c: nat, u: nat, n: nat)
    requires c < 8 && c + n >= 8 && u < Pow2(n)
    ensures (Unpack(f + [LowByte(ShlOr(u, c, g))]) + []) + Bits(Shr(u, 8 - c), n - (8 - c))
         == (Unpack(f) + Bits(g, c)) + Bits(u, n)
    ensures Shr(u, 8 - c) < Pow2(n - (8 - c))
  {
    hide Bits; hide ShlOr; hide Shr; hide LowByte; hide Pow2; hide Unpack;
    UnpackSnoc(f, LowByte(ShlOr(u, c, g)));
    BitsSplit(u, 8 - c, n - (8 - c));
    BitsJoin(u, c, g, 8 - c);
    ShrBound(u, n, 8 - c);
  }
}
