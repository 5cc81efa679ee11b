/**
 Polynomials over GF(256), most significant coefficient first.  Slots the source
 leaves undefined read as 0 in every arithmetic use and are 0 here.
 */
module Polynomial {
  import opened Gf256

  type Poly = seq<bv8>

  function Zeros(n: nat): (p: Poly)
    ensures |p| == n
  {
    seq(n, i => 0)
  }

  /** Leading zeros removed. */
  function Strip(p: Poly): Poly {
    if |p| > 0 && p[0] == 0 then Strip(p[1..]) else p
  }

  /** The source's constructor: strip `p`, then append `r` empty slots. */
  function Make(p: Poly, r: nat): Poly { Strip(p) + Zeros(r) }

  function Plus(p: Poly, q: Poly): (s: Poly)
    requires |p| == |q|
    ensures |s| == |p|
  {
    seq(|p|, i requires 0 <= i < |p| => Add(p[i], q[i]))
  }

  ghost function Scale(c: bv8, p: Poly): (s: Poly)
    ensures |s| == |p|
  {
    seq(|p|, i requires 0 <= i < |p| => Mul(c, p[i]))
  }

  /** Horner evaluation. */
  ghost function Eval(p: Poly, x: bv8): bv8 {
    if p == [] then 0 else Add(Mul(Eval(p[..|p| - 1], x), x), p[|p| - 1])
  }

  ghost function Power(x: bv8, n: nat): bv8 {
    if n == 0 then 1 else Mul(Power(x, n - 1), x)
  }

  lemma EvalSnoc(p: Poly, c: bv8, x: bv8)
    ensures Eval(p + [c], x) == Add(Mul(Eval(p, x), x), c)
  {
    assert (p + [c])[..|p + [c]| - 1] == p;
  }

  lemma {:induction false} EvalLeadingZero(p: Poly, x: bv8)
    ensures Eval([0] + p, x) == Eval(p, x)
  {
    hide Mul; hide Add;
    if p == [] {
      EvalSnoc([], 0, x);
      MulZero(0, x); AddLaws(0, 0, 0);
    } else {
      var q, c := p[..|p| - 1], p[|p| - 1];
      EvalLeadingZero(q, x);
      assert [0] + p == ([0] + q) + [c] && p == q + [c];
      EvalSnoc([0] + q, c, x);
      EvalSnoc(q, c, x);
    }
  }

  lemma {:induction false} EvalStrip(p: Poly, x: bv8)
    ensures Eval(Strip(p), x) == Eval(p, x)
  {
    hide Eval;
    if |p| > 0 && p[0] == 0 {
      EvalStrip(p[1..], x);
      EvalLeadingZero(p[1..], x);
      assert p == [0] + p[1..];
    }
  }

  lemma {:induction false} EvalPlus(p: Poly, q: Poly, x: bv8)
    requires |p| == |q|
    ensures Eval(Plus(p, q), x) == Add(Eval(p, x), Eval(q, x))
  {
    hide Mul; hide Add;
    if p == [] {
      AddLaws(0, 0, 0);
    } else {
      var n := |p| - 1;
      EvalPlus(p[..n], q[..n], x);
      assert Plus(p, q) == Plus(p[..n], q[..n]) + [Add(p[n], q[n])];
      EvalSnoc(Plus(p[..n], q[..n]), Add(p[n], q[n]), x);
      var a, b := Eval(p[..n], x), Eval(q[..n], x);
      MulDistributes(x, a, b);
      FourSums(Mul(a, x), Mul(b, x), p[n], q[n]);
    }
  }

  lemma FourSums(a: bv8, b: bv8, c: bv8, d: bv8)
    ensures Add(Add(a, b), Add(c, d)) == Add(Add(a, c), Add(b, d))
  {
    hide Add;
    AddLaws(a, b, Add(c, d));
    AddLaws(b, c, d);
    AddLaws(c, b, d);
    AddLaws(a, c, Add(b, d));
  }

  lemma {:induction false} EvalScale(c: bv8, p: Poly, x: bv8)
    ensures Eval(Scale(c, p), x) == Mul(c, Eval(p, x))
  {
    hide Mul; hide Add;
    if p == [] {
      MulZero(c, 0);
    } else {
      var n := |p| - 1;
      EvalScale(c, p[..n], x);
      assert Scale(c, p) == Scale(c, p[..n]) + [Mul(c, p[n])];
      EvalSnoc(Scale(c, p[..n]), Mul(c, p[n]), x);
      MulAssociates(c, Eval(p[..n], x), x);
      MulDistributes(c, Mul(Eval(p[..n], x), x), p[n]);
    }
  }

  lemma {:induction false} EvalShift(p: Poly, n: nat, x: bv8)
    ensures Eval(p + Zeros(n), x) == Mul(Eval(p, x), Power(x, n))
  {
    hide Mul; hide Add;
    if n == 0 {
      assert p + Zeros(0) == p;
      MulZero(Eval(p, x), 0);
    } else {
      EvalShift(p, n - 1, x);
      assert p + Zeros(n) == (p + Zeros(n - 1)) + [0];
      EvalSnoc(p + Zeros(n - 1), 0, x);
      MulAssociates(Eval(p, x), Power(x, n - 1), x);
      AddLaws(Eval(p + Zeros(n), x), 0, 0);
      AddLaws(Mul(Eval(p + Zeros(n - 1), x), x), 0, 0);
    }
  }

  lemma {:induction false} EvalZeros(n: nat, x: bv8)
    ensures Eval(Zeros(n), x) == 0
  {
    EvalShift([], n, x);
    assert [] + Zeros(n) == Zeros(n);
    MulZero(0, Power(x, n));
  }

  // --- product ---

  /** Schoolbook product, one row of `b` for each coefficient of `a`. */
  ghost function Product(a: Poly, b: Poly): (p: Poly)
    requires |b| > 0
    ensures |p| == |a| + |b| - 1
    decreases |a|
  {
    if a == [] then Zeros(|b| - 1) else
      var n := |a| - 1;
      Plus(Product(a[..n], b) + [0], Zeros(n) + Scale(a[n], b))
  }

  lemma {:induction false} EvalProduct(a: Poly, b: Poly, x: bv8)
    requires |b| > 0
    ensures Eval(Product(a, b), x) == Mul(Eval(a, x), Eval(b, x))
    decreases |a|
  {
    hide Mul; hide Add;
    MulZero(0, Eval(b, x));
    if a == [] {
      EvalZeros(|b| - 1, x);
    } else {
      var n := |a| - 1;
      var p, u, v := Product(a[..n], b), Eval(a[..n], x), Eval(b, x);
      EvalProduct(a[..n], b, x);
      EvalPlus(p + [0], Zeros(n) + Scale(a[n], b), x);
      EvalSnoc(p, 0, x);
      EvalLeadingZeros(n, Scale(a[n], b), x);
      EvalScale(a[n], b, x);
      AddLaws(Mul(Mul(u, v), x), 0, 0);
      MulAssociates(u, v, x); MulCommutes(v, x); MulAssociates(u, x, v);
      MulDistributes(v, Mul(u, x), a[n]);
    }
  }

  lemma {:induction false} EvalLeadingZeros(n: nat, p: Poly, x: bv8)
    ensures Eval(Zeros(n) + p, x) == Eval(p, x)
  {
    if n == 0 {
      assert Zeros(0) + p == p;
    } else {
      EvalLeadingZeros(n - 1, p, x);
      EvalLeadingZero(Zeros(n - 1) + p, x);
      assert Zeros(n) + p == [0] + (Zeros(n - 1) + p);
    }
  }

  // --- remainder ---

  lemma StripShortens(p: Poly)
    ensures |Strip(p)| <= |p|
    ensures |p| > 0 && p[0] == 0 ==> |Strip(p)| < |p|
    ensures Strip(p) != [] ==> Strip(p)[0] != 0
  {}

  /** What multiple of the divisor cancels the leading coefficient. */
  ghost function Factor(n: Poly, t: Poly): bv8
    requires |n| > 0 && |t| > 0 && n[0] != 0 && t[0] != 0
  {
    Pow(Exponent(Log(n[0]) as int - Log(t[0])))
  }

  ghost function Cancel(n: Poly, t: Poly): (e: Poly)
    requires |n| >= |t| > 0 && n[0] != 0 && t[0] != 0
    ensures |e| == |n|
  {
    Plus(n, Scale(Factor(n, t), t) + Zeros(|n| - |t|))
  }

  lemma CancelsLead(n: Poly, t: Poly)
    requires |n| >= |t| > 0 && n[0] != 0 && t[0] != 0
    ensures Cancel(n, t)[0] == 0
  {
    hide Mul; hide Add; hide Pow;
    var i, j := Log(n[0]), Log(t[0]);
    var k := i as int - j;
    PowMul(Exponent(k), j);
    ExponentSum(k, j, i);
    PowReduces(Exponent(k) + j);
    PowReduces(i);
    AddLaws(n[0], n[0], 0);
  }

  lemma ExponentSum(i: int, j: nat, k: nat)
    requires i + j == k
    ensures Exponent(Exponent(i) + j) == Exponent(k)
  {
  }

  ghost predicate IsPoly(p: Poly) { p == [] || p[0] != 0 }

  /** The remainder as `mod` computes it; it ends because the length falls. */
  ghost function Rem(n: Poly, t: Poly): (r: Poly)
    requires IsPoly(t) && t != []
    requires |n| >= |t| ==> IsPoly(n)
    ensures |r| < |t|
    decreases |n|
  {
    if |n| < |t| then n else
      CancelsLead(n, t);
      StripShortens(Cancel(n, t));
      Rem(Make(Cancel(n, t), 0), t)
  }

  /** One step of `mod` keeps the value at a root of the divisor. */
  lemma CancelAtRoot(n: Poly, t: Poly, x: bv8)
    requires IsPoly(t) && t != [] && |n| >= |t| && IsPoly(n) && Eval(t, x) == 0
    ensures Eval(Make(Cancel(n, t), 0), x) == Eval(n, x)
  {
    hide Mul; hide Add; hide Eval; hide Strip; hide Power;
    var e, f, k := Cancel(n, t), Factor(n, t), |n| - |t|;
    assert Make(e, 0) == Strip(e);
    EvalStrip(e, x);
    EvalPlus(n, Scale(f, t) + Zeros(k), x);
    EvalShift(Scale(f, t), k, x);
    EvalScale(f, t, x);
    MulZero(f, 0);
    MulZero(0, Power(x, k));
    AddLaws(Eval(n, x), 0, 0);
  }

  lemma RemStep(n: Poly, t: Poly)
    requires IsPoly(t) && t != [] && (|n| >= |t| ==> IsPoly(n))
    ensures |n| < |t| ==> Rem(n, t) == n
    ensures |n| >= |t| ==>
              var e := Make(Cancel(n, t), 0);
              |e| < |n| && IsPoly(e) && Rem(n, t) == Rem(e, t)
  {
    hide Cancel; hide Strip;
    if |n| >= |t| {
      CancelsLead(n, t);
      StripShortens(Cancel(n, t));
    }
  }

  /** At a root of the divisor, a polynomial and its remainder agree. */
  lemma {:induction false} RemAtRoot(n: Poly, t: Poly, x: bv8)
    requires IsPoly(t) && t != []
    requires |n| >= |t| ==> IsPoly(n)
    requires Eval(t, x) == 0
    ensures Eval(Rem(n, t), x) == Eval(n, x)
    decreases |n|
  {
    hide Eval; hide Rem; hide Cancel; hide Make;
    RemStep(n, t);
    if |n| >= |t| {
      CancelAtRoot(n, t, x);
      RemAtRoot(Make(Cancel(n, t), 0), t, x);
    }
  }
}
