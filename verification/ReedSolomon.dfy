/** Error-correction bytes of one block: generator, remainder, and the methods that compute them. */
module ReedSolomon {
  import opened Wrappers
  import opened Gf256
  import opened Polynomial

  /** (x - 1)(x - a)...(x - a^(c-1)), leading coefficient first. */
  ghost function Generator(c: nat): (g: Poly)
    ensures |g| == c + 1
  {
    if c == 0 then [1] else Product(Generator(c - 1), [1, Pow(c - 1)])
  }

  lemma {:induction false} GeneratorRoot(c: nat, j: nat)
    requires j < c
    ensures Eval(Generator(c), Pow(j)) == 0
  {
    hide Mul; hide Pow; hide Eval;
    EvalProduct(Generator(c - 1), [1, Pow(c - 1)], Pow(j));
    EvalLinear(Pow(c - 1), Pow(j));
    var u := Eval(Generator(c - 1), Pow(j));
    if j < c - 1 {
      GeneratorRoot(c - 1, j);
    } else {
      AddLaws(Pow(j), 0, 0);
    }
    MulZero(u, Eval([1, Pow(c - 1)], Pow(j)));
  }

  lemma EvalLinear(r: bv8, x: bv8)
    ensures Eval([1, r], x) == Add(x, r)
  {
    hide Mul; hide Add;
    EvalSnoc([1], r, x);
    EvalSnoc([], 1, x);
    assert [1, r] == [1] + [r] && [] + [1] == [1 as bv8];
    MulZero(x, 0); MulCommutes(0, x); AddLaws(1, 0, 0);
  }

  /** Coefficient k, 0 past the end. */
  ghost function At(p: Poly, k: nat): bv8 { if k < |p| then p[k] else 0 }

  lemma {:induction false} ProductByLinear(a: Poly, r: bv8, k: nat)
    requires k <= |a|
    ensures Product(a, [1, r])[k] == Add(At(a, k), if k == 0 then 0 else Mul(r, a[k - 1]))
    decreases |a|
  {
    hide Mul; hide Add;
    AddLaws(0, 0, 0);
    if a != [] {
      var n := |a| - 1;
      var s := Scale(a[n], [1, r]);
      MulZero(a[n], 1); MulCommutes(a[n], r);
      if k <= n { ProductByLinear(a[..n], r, k); }
      var before := (Product(a[..n], [1, r]) + [0])[k];
      AddLaws(before, 0, 0);
      AddLaws(a[n], if k == 0 then 0 else Mul(r, a[k - 1]), 0);
      if k == n && k > 0 { AddLaws(Mul(r, a[k - 1]), a[n], 0); AddLaws(0, Mul(r, a[k - 1]), 0);}
    }
  }

  lemma GeneratorStep(c: nat, k: nat)
    requires c > 0 && k <= c
    ensures Generator(c)[k] == Add(At(Generator(c - 1), k), if k == 0 then 0 else Shift(c - 1, Generator(c - 1)[k - 1]))
  {
    hide Mul; hide Shift; hide Add;
    ProductByLinear(Generator(c - 1), Pow(c - 1), k);
    if k > 0 { MulPow(c - 1, Generator(c - 1)[k - 1]); }
  }

  lemma RecurrenceXors(a: bv8, ka: bv8, b1: bv8, cb: bv8, kcb: bv8, c1b: bv8, x: bv8, y: bv8)
    requires Add(a, ka) == Add(b1, cb)
    requires Add(c1b, kcb) == Add(x, y)
    ensures Add(Add(a, cb), Add(ka, kcb)) == Add(Add(b1, x), Add(c1b, y))
  {
    hide Add;
    FourSums(a, cb, ka, kcb);
    AddLaws(b1, cb, 0);
    AddLaws(Add(b1, cb), cb, kcb);
    AddLaws(cb, b1, kcb);
    AddLaws(c1b, kcb, 0);
    AddLaws(c1b, Add(x, y), 0);
    AddLaws(c1b, x, y); AddLaws(x, c1b, y);
    AddLaws(b1, x, Add(c1b, y));
    AddLaws(cb, Add(cb, b1), kcb);
    AddLaws(Add(b1, cb), cb, kcb);
    AddLaws(b1, cb, cb);
  }

  lemma RecurrenceStep(c: nat, k: nat, a: bv8, b: bv8, d: bv8, e: bv8)
    requires c >= 1 && k >= 1
    requires Add(a, Shift(k, a)) == Add(Shift(k - 1, b), Shift(c - 1, b))
    requires Add(b, Shift(k - 1, b)) == Add(e, Shift(c - 1, d))
    requires Shift(c, e) == Shift(k - 1 + c - 1, d)
    ensures var a', b' := Add(a, Shift(c - 1, b)), Add(b, Shift(c - 1, d));
            Add(a', Shift(k, a')) == Add(Shift(k - 1, b'), Shift(c, b'))
  {
    hide Shift; hide Add;
    var n := c - 1;
    ShiftLinear(k, a, Shift(n, b));       ShiftAdd(k, n, b);
    ShiftLinear(k - 1, b, Shift(n, d));   ShiftAdd(k - 1, n, d);
    ShiftLinear(c, b, Shift(n, d));
    ShiftLinear(c, b, Shift(k - 1, b));   ShiftAdd(c, k - 1, b);
    ShiftLinear(c, e, Shift(n, d));
    assert k + n == c + (k - 1);
    RecurrenceXors(a, Shift(k, a), Shift(k - 1, b), Shift(n, b), Shift(k + n, b), Shift(c, b),
                   Shift(c, e), Shift(c, Shift(n, d)));
  }

  /** Neighbouring coefficients: (1 + a^k) g[k] = (a^(k-1) + a^c) g[k-1]. */
  lemma {:induction false} CoefficientRecurrence(c: nat, k: nat)
    requires 1 <= k <= c
    ensures var a, b := Generator(c)[k], Generator(c)[k - 1];
            Add(a, Shift(k, a)) == Add(Shift(k - 1, b), Shift(c, b))
    decreases c
  {
    hide Shift; hide Add; hide Generator;
    var g, n := Generator(c - 1), c - 1;
    var a, b := At(g, k), g[k - 1];
    var d := if k == 1 then 0 else g[k - 2];
    var e := if k == 1 then 0 else Shift(k - 2, d);
    GeneratorStep(c, k);
    GeneratorStep(c, k - 1);
    if k <= n { CoefficientRecurrence(n, k); } else { ShiftZero(k); AddLaws(Shift(n, b), 0, 0); AddLaws(0, 0, 0); }
    if k > 1 {
      CoefficientRecurrence(n, k - 1);
      ShiftAdd(c, k - 2, d);
    } else {
      ShiftIdentity(b);
      ShiftZero(n); ShiftZero(c); ShiftZero(k - 1 + n);
      AddLaws(b, 0, 0); AddLaws(0, 0, 0);
    }
    RecurrenceStep(c, k, a, b, d, e);
  }

  lemma ShiftIdentity(b: bv8) ensures Shift(0, b) == b {}

  /** Up to degree 254 no coefficient of a generator is 0, so `glog` never throws on one. */
  lemma {:induction false} GeneratorNonzero(c: nat, k: nat)
    requires k <= c < 255
    ensures Generator(c)[k] != 0
  {
    hide Shift; hide Add; hide Generator;
    if k == 0 {
      GeneratorMonic(c);
    } else {
      var a, b := Generator(c)[k], Generator(c)[k - 1];
      GeneratorNonzero(c, k - 1);
      CoefficientRecurrence(c, k);
      if a == 0 {
        ShiftZero(k);
        AddLaws(0, 0, 0);
        EqualShifts(k - 1, c, b);
      }
    }
  }

  lemma EqualShifts(i: nat, j: nat, b: bv8)
    requires i < j < 255 && Add(Shift(i, b), Shift(j, b)) == 0
    ensures b == 0
  {
    hide Shift; hide Add;
    if b != 0 {
      var e := Log(b);
      ShiftAdd(i, e, 1); ShiftAdd(e, i, 1);
      ShiftAdd(j, e, 1); ShiftAdd(e, j, 1);
      AddLaws(Shift(i, b), Shift(j, b), 0);
      ShiftInjective(e, Pow(i), Pow(j));
      PowInjective(i, j);
    }
  }

  lemma {:induction false} GeneratorMonic(c: nat)
    ensures Generator(c)[0] == 1
  {
    hide Shift; hide Add;
    if c > 0 {
      hide Generator;
      GeneratorMonic(c - 1);
      GeneratorStep(c, 0);
      AddLaws(1, 0, 0);
    }
  }

  /** `h` right-aligned in c slots, missing leading coefficients read as 0. */
  function RightAlign(h: Poly, c: nat): (r: Poly)
    requires |h| <= c
    ensures |r| == c
  {
    Zeros(c - |h|) + h
  }

  /** The c error-correction bytes of a data block. */
  ghost function ErrorBytes(data: Poly, c: nat): (ec: Poly)
    ensures |ec| == c
  {
    GeneratorMonic(c);
    StripShortens(data);
    RightAlign(Rem(Make(data, c), Generator(c)), c)
  }

  /** Data followed by its error-correction bytes vanishes at a^0 .. a^(c-1). */
  lemma CodewordRoots(data: Poly, c: nat, j: nat)
    requires j < c
    ensures Eval(data + ErrorBytes(data, c), Pow(j)) == 0
  {
    hide Mul; hide Add; hide Pow;
    var x, g, m := Pow(j), Generator(c), Make(data, c);
    GeneratorMonic(c);
    StripShortens(data);
    var ec := ErrorBytes(data, c);
    GeneratorRoot(c, j);
    RemAtRoot(m, g, x);
    EvalLeadingZeros(c - |Rem(m, g)|, Rem(m, g), x);
    EvalShift(Strip(data), c, x);
    EvalStrip(data, x);
    EvalShift(data, c, x);
    EvalLeadingZeros(|data|, ec, x);
    EvalPlus(data + Zeros(c), Zeros(|data|) + ec, x);
    PlusPadded(data, ec);
    AddLaws(Eval(ec, x), 0, 0);
  }

  lemma PlusPadded(data: Poly, ec: Poly)
    ensures Plus(data + Zeros(|ec|), Zeros(|data|) + ec) == data + ec
  {
    hide Add;
    forall i | 0 <= i < |data| + |ec|
      ensures Plus(data + Zeros(|ec|), Zeros(|data|) + ec)[i] == (data + ec)[i]
    {
      AddLaws((data + ec)[i], 0, 0);
    }
  }

  // --- the bytes are determined by those roots ---

  /** Synthetic division of `p` by (x - r). */
  ghost function Quotient(p: Poly, r: bv8): (q: Poly)
    requires p != []
    ensures |q| == |p| - 1
  {
    seq(|p| - 1, i requires 0 <= i < |p| - 1 => Eval(p[..i + 1], r))
  }

  lemma {:induction false} DivideByRoot(p: Poly, r: bv8, x: bv8)
    requires p != []
    ensures Add(Eval(p, x), Eval(p, r)) == Mul(Add(x, r), Eval(Quotient(p, r), x))
  {
    hide Mul; hide Add;
    var n := |p| - 1;
    if n == 0 {
      assert p == [] + p;
      assert p[..0] == [];
      assert Eval(p, x) == Eval(p, r) by {
        MulZero(x, 0); MulZero(r, 0); MulCommutes(0, x); MulCommutes(0, r);
        EvalSnoc([], p[0], x); EvalSnoc([], p[0], r);
      }
      AddLaws(Eval(p, x), 0, 0);
      MulZero(Add(x, r), 0);
    } else {
      var p0 := p[..n];
      var q0 := Quotient(p0, r);
      DivideByRoot(p0, r, x);
      forall i | 0 <= i < n ensures Quotient(p, r)[i] == (q0 + [Eval(p0, r)])[i] {
        assert p0[..i + 1] == p[..i + 1];
      }
      assert Quotient(p, r) == q0 + [Eval(p0, r)];
      EvalSnoc(q0, Eval(p0, r), x);
      DivisionStep(Eval(p0, x), Eval(p0, r), Eval(q0, x), x, r, p[n]);
    }
  }

  lemma DivisionStep(u: bv8, v: bv8, w: bv8, x: bv8, r: bv8, c: bv8)
    requires Add(u, v) == Mul(Add(x, r), w)
    ensures Add(Add(Mul(u, x), c), Add(Mul(v, r), c)) == Mul(Add(x, r), Add(Mul(w, x), v))
  {
    hide Mul; hide Add;
    var s := Add(x, r);
    MulDistributes(s, Mul(w, x), v);
    MulAssociates(s, w, x);
    MulDistributes(x, u, v);
    MulDistributes(v, x, r);
    MulCommutes(v, x); MulCommutes(v, r); MulCommutes(x, v); MulCommutes(r, v); MulCommutes(x, u); MulCommutes(u, x);
    MulCommutes(s, v);
    FourSums(Mul(u, x), c, Mul(v, r), c);
    AddLaws(c, 0, 0);
    AddLaws(Add(Mul(u, x), Mul(v, r)), 0, 0);
    AddLaws(Mul(u, x), Mul(v, x), Add(Mul(v, x), Mul(v, r)));
    AddLaws(Mul(v, x), Mul(v, r), 0);
  }

  lemma {:induction false} ManyRootsIsZero(p: Poly, c: nat)
    requires |p| <= c <= 255
    requires forall j :: 0 <= j < c ==> Eval(p, Pow(j)) == 0
    ensures p == Zeros(|p|)
    decreases |p|
  {
    hide Mul; hide Add; hide Pow;
    if p != [] {
      var r := Pow(c - 1);
      var q := Quotient(p, r);
      forall j | 0 <= j < c - 1 ensures Eval(q, Pow(j)) == 0 {
        DivideByRoot(p, r, Pow(j));
        AddLaws(0, 0, 0);
        PowInjective(j, c - 1);
        AddLaws(Pow(j), r, 0);
        MulZero(Add(Pow(j), r), Eval(q, Pow(j)));
      }
      ManyRootsIsZero(q, c - 1);
      ZeroQuotient(p, r, |p|);
    }
  }

  lemma {:induction false} ZeroQuotient(p: Poly, r: bv8, n: nat)
    requires p != [] && n <= |p|
    requires Quotient(p, r) == Zeros(|p| - 1) && Eval(p, r) == 0
    ensures p[..n] == Zeros(n) && Eval(p[..n], r) == 0
  {
    hide Mul; hide Add;
    if n > 0 {
      ZeroQuotient(p, r, n - 1);
      var q := p[..n - 1];
      assert p[..n] == q + [p[n - 1]];
      EvalSnoc(q, p[n - 1], r);
      MulZero(0, r);
      AddLaws(0, p[n - 1], 0);
      assert Eval(p[..n], r) == (if n < |p| then Quotient(p, r)[n - 1] else Eval(p, r)) by {
        if n == |p| { assert p[..n] == p; }
      }
    }
  }

  /** Any c bytes that give the same roots are the error-correction bytes. */
  lemma ErrorBytesUnique(data: Poly, c: nat, ec: Poly)
    requires c <= 255 && |ec| == c
    requires forall j :: 0 <= j < c ==> Eval(data + ec, Pow(j)) == 0
    ensures ec == ErrorBytes(data, c)
  {
    hide Mul; hide Add; hide Pow; hide ErrorBytes;
    var e := ErrorBytes(data, c);
    var d := Plus(ec, e);
    forall j | 0 <= j < c ensures Eval(d, Pow(j)) == 0 {
      CodewordRoots(data, c, j);
      EvalPlus(data + ec, data + e, Pow(j));
      SumOfCodewords(data, ec, e);
      EvalLeadingZeros(|data|, d, Pow(j));
      AddLaws(0, 0, 0);
    }
    ManyRootsIsZero(d, c);
    forall i | 0 <= i < c ensures ec[i] == e[i] {
      assert d[i] == Zeros(c)[i];
      AddLaws(ec[i], e[i], 0);
    }
  }

  lemma SumOfCodewords(data: Poly, u: Poly, v: Poly)
    requires |u| == |v|
    ensures Plus(data + u, data + v) == Zeros(|data|) + Plus(u, v)
  {
    hide Add;
    forall i | 0 <= i < |data| ensures Add(data[i], data[i]) == 0 { AddLaws(data[i], data[i], 0); }
  }

  // --- the methods ---

  /** The inner loop of `multiply`: XOR c times `b` into `r` from slot i on; `glog` throws on a zero. */
  method AddRow(gf: Tables, r: array<bv8>, i: nat, c: bv8, b: Poly) returns (ok: bool)
    requires gf.Valid() && r != gf.exp && r as object != gf.log as object
    requires b != [] && i + |b| <= r.Length
    modifies r
    ensures ok == (c != 0 && 0 !in b)
    ensures ok ==> r[..] == Plus(old(r[..]), Zeros(i) + Scale(c, b) + Zeros(r.Length - i - |b|))
  {
    hide Mul; hide Add; hide Pow;
    for j := 0 to |b|
      invariant gf.Valid()
      invariant 0 !in b[..j] && (j > 0 ==> c != 0)
      invariant forall k :: 0 <= k < r.Length ==>
        r[k] == if i <= k < i + j then Add(old(r[k]), Mul(c, b[k - i])) else old(r[k])
    {
      var x := gf.Glog(c);
      if x == None { return false; }
      var y := gf.Glog(b[j]);
      if y == None { return false; }
      var z := gf.Gexp(x.value + y.value);
      PowReduces(x.value + y.value);
      PowMul(x.value, y.value);
      r[i + j] := Add(r[i + j], z);
    }
    forall k | 0 <= k < r.Length
      ensures r[k] == Plus(old(r[..]), Zeros(i) + Scale(c, b) + Zeros(r.Length - i - |b|))[k]
    {
      AddLaws(old(r[k]), 0, 0);
    }
    return true;
  }

  /** `multiply`: throws as soon as a zero coefficient meets `glog`. */
  method Multiply(gf: Tables, a: Poly, b: Poly) returns (p: Option<Poly>)
    requires gf.Valid()
    requires a != [] && b != []
    ensures p == if 0 in a || 0 in b then None else Some(Make(Product(a, b), 0))
  {
    hide Mul; hide Add; hide Pow; hide Tables.Valid;
    var r := new bv8[|a| + |b| - 1](_ => 0);
    assert r[..] == Product([], b) + Zeros(|a|);
    for i := 0 to |a|
      invariant gf.Valid() && fresh(r)
      invariant 0 !in a[..i] && (i > 0 ==> 0 !in b)
      invariant r[..] == Product(a[..i], b) + Zeros(|a| - i)
    {
      var ok := AddRow(gf, r, i, a[i], b);
      if !ok { return None; }
      ProductRow(a, b, i);
    }
    assert a[..|a|] == a;
    assert r[..] == Product(a, b);
    p := Some(Make(r[..], 0));
  }

  lemma ProductRow(a: Poly, b: Poly, i: nat)
    requires b != [] && i < |a|
    ensures Plus(Product(a[..i], b) + Zeros(|a| - i), Zeros(i) + Scale(a[i], b) + Zeros(|a| - i - 1))
         == Product(a[..i + 1], b) + Zeros(|a| - i - 1)
  {
    hide Mul; hide Add;
    AddLaws(0, 0, 0);
    assert a[..i + 1][..i] == a[..i];
    assert Zeros(|a| - i) == [0] + Zeros(|a| - i - 1);
  }

  lemma GeneratorHasNoZero(c: nat)
    requires c < 255
    ensures 0 !in Generator(c)
  {
    hide Generator;
    forall k | 0 <= k <= c ensures Generator(c)[k] != 0 { GeneratorNonzero(c, k); }
  }

  lemma MakeNonzeroLead(p: Poly)
    requires p != [] && p[0] != 0
    ensures Make(p, 0) == p
  {}

  /** `getErrorCorrectPolynomial`. */
  method ErrorCorrectPolynomial(gf: Tables, c: nat) returns (g: Option<Poly>)
    requires gf.Valid() && c < 256
    ensures g == Some(Generator(c))
  {
    hide Mul; hide Add; hide Pow; hide Tables.Valid; hide Product; hide Make;
    g := Some([1]);
    for e := 0 to c
      invariant g == Some(Generator(e))
    {
      var root := gf.Gexp(e);
      PowReduces(e);
      PowNonzero(e);
      GeneratorHasNoZero(e);
      GeneratorMonic(e + 1);
      MakeNonzeroLead(Generator(e + 1));
      g := Multiply(gf, g.value, [1, root]);
    }
  }

  /** `mod`: one leading coefficient cancelled for each call. */
  method Mod(gf: Tables, n: Poly, t: Poly) returns (r: Option<Poly>)
    requires gf.Valid()
    requires IsPoly(t) && t != []
    requires |n| >= |t| ==> IsPoly(n)
    ensures r == if |n| >= |t| && 0 in t then None else Some(Rem(n, t))
    decreases |n|
  {
    hide Mul; hide Add; hide Pow; hide Tables.Valid;
    if |n| < |t| { return Some(n); }
    var x := gf.Glog(n[0]);
    var y := gf.Glog(t[0]);
    var ratio := x.value as int - y.value;
    var e := new bv8[|n|](i requires 0 <= i < |n| => n[i]);
    var o := 0;
    while o < |t|
      invariant 0 <= o <= |t| && gf.Valid() && fresh(e)
      invariant 0 !in t[..o]
      invariant forall k :: 0 <= k < |n| ==>
        e[k] == if k < o then Add(n[k], Mul(Factor(n, t), t[k])) else n[k]
    {
      var z := gf.Glog(t[o]);
      if z == None { return None; }
      var v := gf.Gexp(z.value + ratio);
      FactorTimes(n, t, z.value, ratio);
      e[o] := Add(e[o], v);
      o := o + 1;
    }
    forall k | 0 <= k < |n| ensures e[k] == Cancel(n, t)[k] { AddLaws(n[k], 0, 0); }
    assert e[..] == Cancel(n, t);
    CancelsLead(n, t);
    StripShortens(e[..]);
    r := Mod(gf, Make(e[..], 0), t);
  }

  lemma FactorTimes(n: Poly, t: Poly, z: nat, ratio: int)
    requires |n| > 0 && |t| > 0 && n[0] != 0 && t[0] != 0
    requires ratio == Log(n[0]) as int - Log(t[0])
    ensures Pow(Exponent(z + ratio)) == Mul(Factor(n, t), Pow(z))
  {
    hide Mul; hide Pow;
    PowMul(Exponent(ratio), z);
    PowReduces(Exponent(ratio) + z);
  }

  /** The error-correction part of `p` for one block: remainder, then right alignment. */
  method BlockErrorBytes(gf: Tables, data: seq<bv8>, c: nat) returns (ec: Option<seq<bv8>>)
    requires gf.Valid() && c < 255
    ensures ec == Some(ErrorBytes(data, c))
  {
    hide Mul; hide Add; hide Pow; hide Tables.Valid; hide Generator; hide Rem;
    var g := ErrorCorrectPolynomial(gf, c);
    GeneratorMonic(c);
    GeneratorHasNoZero(c);
    StripShortens(data);
    var h := Mod(gf, Make(data, |g.value| - 1), g.value);
    var a := new bv8[|g.value| - 1];
    for i := 0 to a.Length
      invariant forall k :: 0 <= k < i ==> a[k] == ErrorBytes(data, c)[k]
    {
      var s := i + |h.value| - a.Length;
      a[i] := if s >= 0 then h.value[s] else 0;
    }
    assert a[..] == ErrorBytes(data, c);
    ec := Some(a[..]);
  }
}
