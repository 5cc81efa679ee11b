module Gf256 {
  import opened Wrappers

  /** Addition and subtraction of the field. */
  function Add(a: bv8, b: bv8): bv8 { a ^ b }

  /** Multiplication by the generator x modulo x^8 + x^4 + x^3 + x^2 + 1. */
  function Double(a: bv8): bv8 {
    if a & 0x80 == 0 then a << 1 else (a << 1) ^ 0x1d
  }

  function Halve(a: bv8): bv8 {
    if a & 1 == 0 then a >> 1 else ((a ^ 0x1d) >> 1) | 0x80
  }

  /** a multiplied by x^n. */
  function Shift(n: nat, a: bv8): bv8 {
    if n == 0 then a else Double(Shift(n - 1, a))
  }

  /** The n-th power of the generator. */
  function Pow(n: nat): bv8 { Shift(n, 1) }

  lemma XorLaws(a: bv8, b: bv8, c: bv8)
    ensures a ^ b == b ^ a && (a ^ b) ^ c == a ^ (b ^ c)
    ensures a ^ 0 == a && a ^ a == 0 && (a ^ b) ^ b == a
    ensures (a ^ c) ^ (b ^ c) == a ^ b
  {}

  lemma TopBit(a: bv8, b: bv8)
    ensures (a ^ b) & 0x80 == (a & 0x80) ^ (b & 0x80)
    ensures (a ^ b) << 1 == (a << 1) ^ (b << 1)
    ensures a & 0x80 == 0 || a & 0x80 == 0x80
    ensures b & 0x80 == 0 || b & 0x80 == 0x80
  {}

  lemma DoubleLinear(a: bv8, b: bv8)
    ensures Double(Add(a, b)) == Add(Double(a), Double(b))
  {
    TopBit(a, b);
    XorLaws(a << 1, b << 1, 0x1d);
  }

  lemma HalveDouble(a: bv8)
    ensures Halve(Double(a)) == a && Double(Halve(a)) == a && Double(0) == 0
  {}

  lemma {:induction false} ShiftLinear(n: nat, a: bv8, b: bv8)
    ensures Shift(n, Add(a, b)) == Add(Shift(n, a), Shift(n, b))
  {
    hide Double; hide Add;
    if n > 0 {
      ShiftLinear(n - 1, a, b);
      DoubleLinear(Shift(n - 1, a), Shift(n - 1, b));
    }
  }

  lemma {:induction false} ShiftZero(n: nat)
    ensures Shift(n, 0) == 0
  {
    if n > 0 { ShiftZero(n - 1); HalveDouble(0); }
  }

  lemma {:induction false} ShiftInjective(n: nat, a: bv8, b: bv8)
    requires Shift(n, a) == Shift(n, b)
    ensures a == b
  {
    hide Double;
    hide Halve;
    if n > 0 {
      HalveDouble(Shift(n - 1, a));
      HalveDouble(Shift(n - 1, b));
      ShiftInjective(n - 1, a, b);
    }
  }

  lemma {:induction false} ShiftAdd(m: nat, n: nat, a: bv8)
    ensures Shift(m + n, a) == Shift(m, Shift(n, a))
  {
    hide Double;
    if m > 0 { ShiftAdd(m - 1, n, a); }
  }

  lemma {:induction false} PowPeriod(d: nat, q: nat, r: nat)
    requires Pow(d) == 1
    ensures Pow(q * d + r) == Pow(r)
  {
    hide Double;
    if q > 0 {
      PowPeriod(d, q - 1, r);
      ShiftAdd((q - 1) * d + r, d, 1);
      assert q * d + r == ((q - 1) * d + r) + d;
    }
  }

  function Double5(a: bv8): bv8 { Double(Double(Double(Double(Double(a))))) }

  function Double17(a: bv8): bv8 { Double(Double(Double5(Double5(Double5(a))))) }

  lemma Shift5(n: nat, a: bv8)
    ensures Shift(n + 5, a) == Double5(Shift(n, a))
  {
    hide Double;
    assert Shift(n + 2, a) == Double(Double(Shift(n, a)));
    assert Shift(n + 4, a) == Double(Double(Shift(n + 2, a)));
  }

  lemma Jump17(n: nat, v: bv8)
    requires Pow(n) == v
    ensures Pow(n + 17) == Double17(v)
  {
    hide Double;
    Shift5(n, 1); Shift5(n + 5, 1); Shift5(n + 10, 1);
    assert Shift(n + 17, 1) == Double(Shift(n + 16, 1));
  }

  lemma Values17()
    ensures Double17(0x01) == 0x98 && Double17(0x98) == 0x4e && Double17(0x4e) == 0x0a && Double17(0x0a) == 0x99
    ensures Double17(0x99) == 0xd6 && Double17(0xd6) == 0x44 && Double17(0x44) == 0x93 && Double17(0x93) == 0x4f
    ensures Double17(0x4f) == 0x92 && Double17(0x92) == 0xd7 && Double17(0xd7) == 0xdc && Double17(0xdc) == 0xdd
    ensures Double17(0xdd) == 0x45 && Double17(0x45) == 0x0b && Double17(0x0b) == 0x01
  {}

  lemma Pow15()
    ensures Pow(15) == 0x26
  {
    assert Shift(0, 1) == 1;
    hide Shift;
    Shift5(0, 1); Shift5(5, 1); Shift5(10, 1);
  }

  /** The powers that decide the order of the generator. */
  lemma KeyPowers()
    ensures Pow(15) == 0x26 && Pow(51) == 0x0a && Pow(85) == 0xd6 && Pow(255) == 1
  {
    Pow15();
    PowZero();
    Values17();
    hide Pow;
    hide Double17;
    Jump17(0, 0x01); Jump17(17, 0x98); Jump17(34, 0x4e); Jump17(51, 0x0a); Jump17(68, 0x99);
    Jump17(85, 0xd6); Jump17(102, 0x44); Jump17(119, 0x93); Jump17(136, 0x4f); Jump17(153, 0x92);
    Jump17(170, 0xd7); Jump17(187, 0xdc); Jump17(204, 0xdd); Jump17(221, 0x45); Jump17(238, 0x0b);
  }

  /** No smaller power of the generator is 1: its order is exactly 255. */
  lemma {:induction false} OrderIs255(d: nat)
    requires 0 < d < 255
    ensures Pow(d) != 1
  {
    hide Pow;
    KeyPowers();
    PowZero();
    if Pow(d) == 1 {
      var q, r := 255 / d, 255 % d;
      PowPeriod(d, q, r);
      if r != 0 {
        OrderIs255(r);
      } else {
        ProperDivisors(d, q);
        if 15 % d == 0 { PowPeriod(d, 15 / d, 0); }
        if 51 % d == 0 { PowPeriod(d, 51 / d, 0); }
        if 85 % d == 0 { PowPeriod(d, 85 / d, 0); }
      }
    }
  }

  lemma PowZero() ensures Pow(0) == 1 {}

  lemma ProperDivisors(d: nat, q: nat)
    requires 0 < d < 255 && d * q == 255
    ensures 15 % d == 0 || 51 % d == 0 || 85 % d == 0
  {
    if q <= 16 {
      assert q in {3, 5, 15};
    } else {
      assert d <= 15;
    }
  }

  lemma PowInjective(i: nat, j: nat)
    requires i < j < 255
    ensures Pow(i) != Pow(j)
  {
    hide Double;
    if Pow(i) == Pow(j) {
      ShiftAdd(i, j - i, 1);
      ShiftInjective(i, 1, Pow(j - i));
      OrderIs255(j - i);
    }
  }

  lemma PowNonzero(i: nat)
    ensures Pow(i) != 0
  {
    hide Double;
    if Pow(i) == 0 {
      ShiftZero(i);
      ShiftInjective(i, 1, 0);
    }
  }

  function Int(a: bv8): int { a as int }

  lemma IntInjective(a: bv8, b: bv8)
    ensures 0 <= Int(a) < 256
    ensures Int(a) == Int(b) ==> a == b
    ensures Int(a) == 0 ==> a == 0
  {}

  ghost function PowerSet(n: nat): set<int> { set e | 0 <= e < n :: Int(Pow(e)) }

  lemma {:induction false} PowerSetSize(n: nat)
    requires n <= 255
    ensures |PowerSet(n)| == n
  {
    hide Pow;
    hide Int;
    if n > 0 {
      PowerSetSize(n - 1);
      forall e | 0 <= e < n - 1 ensures Int(Pow(e)) != Int(Pow(n - 1)) {
        PowInjective(e, n - 1);
        IntInjective(Pow(e), Pow(n - 1));
      }
      assert PowerSet(n) == PowerSet(n - 1) + {Int(Pow(n - 1))};
    }
  }

  ghost function Range(lo: int, n: nat): (s: set<int>)
    ensures |s| == n
    ensures forall v :: v in s <==> lo <= v < lo + n
  {
    if n == 0 then {} else Range(lo, n - 1) + {lo + n - 1}
  }

  lemma {:induction false} SubsetOfSameSize(a: set<int>, b: set<int>)
    requires a <= b && |a| == |b|
    ensures a == b
  {
    assert b == a + (b - a);
  }

  lemma PowerSetIsRange(n: nat)
    requires n == 255
    ensures PowerSet(n) == Range(1, n)
  {
    hide Pow;
    hide Int;
    forall v | v in PowerSet(n) ensures v in Range(1, n) {
      var e :| 0 <= e < n && v == Int(Pow(e));
      PowNonzero(e);
      IntInjective(Pow(e), 0);
    }
    PowerSetSize(n);
    SubsetOfSameSize(PowerSet(n), Range(1, n));
  }

  /** Every nonzero byte is a power of the generator. */
  lemma LogExists(a: bv8) returns (e: nat)
    requires a != 0
    ensures e < 255 && Pow(e) == a
  {
    hide Pow;
    hide Int;
    var n: nat :| n == 255;
    PowerSetIsRange(n);
    IntInjective(a, a);
    assert Int(a) in PowerSet(n);
    e :| 0 <= e < n && Int(Pow(e)) == Int(a);
    IntInjective(Pow(e), a);
  }

  /** The discrete logarithm that the table `glog` holds. */
  ghost function Log(a: bv8): (e: nat)
    requires a != 0
    ensures e < 255 && Pow(e) == a
  {
    LogSome(a);
    var e: nat :| e < 255 && Pow(e) == a;
    e
  }

  lemma LogSome(a: bv8)
    requires a != 0
    ensures exists e: nat :: e < 255 && Pow(e) == a
  {
    hide Pow;
    var e := LogExists(a);
  }

  /** Multiplication of the field. */
  ghost function Mul(a: bv8, b: bv8): bv8 {
    if a == 0 then 0 else Shift(Log(a), b)
  }

  lemma AddLaws(a: bv8, b: bv8, c: bv8)
    ensures Add(a, b) == Add(b, a) && Add(Add(a, b), c) == Add(a, Add(b, c))
    ensures Add(a, 0) == a && Add(0, a) == a && Add(a, a) == 0 && Add(a, Add(a, b)) == b
    ensures Add(a, b) == 0 ==> a == b
  {}

  lemma MulPow(i: nat, b: bv8)
    ensures Mul(Pow(i), b) == Shift(i, b)
  {
    hide Double;
    PowNonzero(i);
    if b == 0 {
      ShiftZero(i); ShiftZero(Log(Pow(i)));
    } else {
      var k, j := Log(Pow(i)), Log(b);
      ShiftAdd(i, j, 1); ShiftAdd(j, i, 1);
      ShiftAdd(k, j, 1); ShiftAdd(j, k, 1);
    }
  }

  lemma MulZero(a: bv8, b: bv8)
    ensures Mul(a, b) == 0 <==> a == 0 || b == 0
    ensures Mul(a, 1) == a && Mul(1, a) == a
  {
    hide Double;
    if a != 0 {
      ShiftZero(Log(a));
      if Mul(a, b) == 0 { ShiftInjective(Log(a), b, 0); }
    }
    PowZero();
    MulPow(0, a);
  }

  lemma MulCommutes(a: bv8, b: bv8)
    ensures Mul(a, b) == Mul(b, a)
  {
    hide Shift;
    MulZero(a, b);
    MulZero(b, a);
    if a != 0 && b != 0 {
      ShiftAdd(Log(a), Log(b), 1);
      ShiftAdd(Log(b), Log(a), 1);
    }
  }

  lemma MulAssociates(a: bv8, b: bv8, c: bv8)
    ensures Mul(Mul(a, b), c) == Mul(a, Mul(b, c))
  {
    hide Shift;
    MulZero(a, b);
    MulZero(b, c);
    MulZero(a, Mul(b, c));
    MulZero(Mul(a, b), c);
    if a != 0 && b != 0 {
      var i, j := Log(a), Log(b);
      ShiftAdd(i, j, 1);
      MulPow(i + j, c);
      ShiftAdd(i, j, c);
    }
  }

  /** Multiplication distributes over the byte XOR that adds coefficients. */
  lemma MulDistributes(a: bv8, b: bv8, c: bv8)
    ensures Mul(a, Add(b, c)) == Add(Mul(a, b), Mul(a, c))
    ensures Mul(Add(b, c), a) == Add(Mul(b, a), Mul(c, a))
  {
    hide Shift;
    if a != 0 { ShiftLinear(Log(a), b, c); }
    MulCommutes(a, Add(b, c));
    MulCommutes(a, b);
    MulCommutes(a, c);
  }

  lemma PowMul(i: nat, j: nat)
    ensures Mul(Pow(i), Pow(j)) == Pow(i + j)
  {
    hide Shift;
    MulPow(i, Pow(j));
    ShiftAdd(i, j, 1);
  }

  /** The exponent that `gexp` looks up: any integer, reduced modulo the order. */
  function Exponent(n: int): (e: nat)
    ensures e < 255 && (n - e) % 255 == 0
  {
    n % 255
  }

  lemma SameExponent(n: int)
    ensures Exponent(n + 255) == Exponent(n)
  {}

  lemma PowReduces(n: nat)
    ensures Pow(n) == Pow(Exponent(n))
  {
    hide Pow;
    KeyPowers();
    PowPeriod(255, n / 255, n % 255);
  }

  lemma SmallPow(e: nat)
    requires e < 8
    ensures Pow(e) == (1 as bv8) << e
  {
    var v: bv8 := 1;
    assert Shift(0, v) == v;
    if e >= 1 { assert Shift(1, v) == 2; }
    if e >= 2 { assert Shift(2, v) == 4; }
    if e >= 3 { assert Shift(3, v) == 8; }
    if e >= 4 { assert Shift(4, v) == 16; }
    if e >= 5 { assert Shift(5, v) == 32; }
    if e >= 6 { assert Shift(6, v) == 64; }
  }

  /** The recurrence that fills the table is x^8 = x^4 + x^3 + x^2 + 1. */
  lemma PowRecurrence(e: nat)
    requires e >= 8
    ensures Pow(e) == Add(Add(Add(Pow(e - 4), Pow(e - 5)), Pow(e - 6)), Pow(e - 8))
  {
    var v := Pow(7);
    SmallPow(0); SmallPow(2); SmallPow(3); SmallPow(4); SmallPow(7);
    assert Shift(8, 1) == Double(v);
    assert Pow(8) == Add(Add(Add(Pow(4), Pow(3)), Pow(2)), Pow(0));
    hide Double;
    hide Shift;
    var n := e - 8;
    ShiftLinear(n, Pow(4), Pow(3));
    ShiftLinear(n, Add(Pow(4), Pow(3)), Pow(2));
    ShiftLinear(n, Add(Add(Pow(4), Pow(3)), Pow(2)), Pow(0));
    ShiftAdd(n, 8, 1); ShiftAdd(n, 4, 1); ShiftAdd(n, 3, 1); ShiftAdd(n, 2, 1); ShiftAdd(n, 0, 1);
  }

  /** `gexp` and `glog` look up these two tables. */
  class Tables {
    const exp: array<bv8>
    const log: array<nat>

    ghost predicate Valid()
      reads this, exp, log
    {
      && exp.Length == 256 && log.Length == 256
      && (forall e :: 0 <= e < 256 ==> exp[e] == Pow(e))
      && (forall a: bv8 :: a != 0 ==> log[Int(a)] == Log(a))
    }

    constructor ()
      ensures Valid() && fresh(exp) && fresh(log)
    {
      exp := new bv8[256];
      log := new nat[256];
      new;
      hide Pow;
      FillExp(exp);
      FillLog(exp, log);
    }

    static method FillExp(t: array<bv8>)
      requires t.Length == 256
      modifies t
      ensures forall e :: 0 <= e < 256 ==> t[e] == Pow(e)
    {
      hide Pow;
      for e := 0 to 8
        invariant forall k :: 0 <= k < e ==> t[k] == Pow(k)
      {
        SmallPow(e);
        t[e] := 1 << e;
      }
      for e := 8 to 256
        invariant forall k :: 0 <= k < e ==> t[k] == Pow(k)
      {
        PowRecurrence(e);
        t[e] := t[e - 4] ^ t[e - 5] ^ t[e - 6] ^ t[e - 8];
      }
    }

    static method FillLog(t: array<bv8>, r: array<nat>)
      requires t.Length == 256 && r.Length == 256 && t as object != r as object
      requires forall e :: 0 <= e < 256 ==> t[e] == Pow(e)
      modifies r
      ensures forall a: bv8 :: a != 0 ==> r[Int(a)] == Log(a)
    {
      hide Pow;
      hide Int;
      forall a: bv8 ensures 0 <= Int(a) < 256 { IntInjective(a, a); }
      for e := 0 to 255
        invariant forall k :: 0 <= k < e ==> r[Int(Pow(k))] == k
      {
        forall k | 0 <= k < e ensures Int(Pow(k)) != Int(Pow(e)) {
          PowInjective(k, e);
          IntInjective(Pow(k), Pow(e));
        }
        r[Int(t[e])] := e;
      }
      forall a: bv8 | a != 0 ensures r[Int(a)] == Log(a) {
        assert r[Int(Pow(Log(a)))] == Log(a);
      }
    }

    /** The table's entry. */
    method Exp(r: nat) returns (a: bv8)
      requires Valid() && r < 256
      ensures a == Pow(r)
    {
      hide Pow;
      a := exp[r];
    }

    method Gexp(n: int) returns (a: bv8)
      requires Valid()
      ensures a == Pow(Exponent(n))
    {
      hide *;
      var r := n;
      while r < 0
        invariant r < 255 || r == n
        invariant Exponent(r) == Exponent(n)
      {
        SameExponent(r);
        r := r + 255;
      }
      while r >= 256
        invariant 0 <= r
        invariant Exponent(r) == Exponent(n)
        decreases r
      {
        SameExponent(r - 255);
        r := r - 255;
      }
      PowReduces(r);
      a := Exp(r);
    }

    /** `glog` throws on zero. */
    method Glog(a: bv8) returns (e: Option<nat>)
      requires Valid()
      ensures e == if a == 0 then None else Some(Log(a))
    {
      if a < 1 { return None; }
      return Some(log[Int(a)]);
    }
  }
}
