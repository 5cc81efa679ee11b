/** One-time codes: dynamic truncation, and the verifier with its replay guard. */
module Totp {
  import opened Wrappers
  import opened BitStream
  import opened Bytes
  import M = Macro

  const DIGITS := 6
  const PERIOD := 30

  type Mac = s: seq<Byte> | |s| == 20 witness seq(20, i => 0)

  /** The library calls, left abstract: the base32 decoder and HMAC-SHA1 from a key and a message. */
  datatype Crypto = Crypto(decode: string -> Option<seq<Byte>>, hmac: (seq<Byte>, seq<Byte>) -> Mac)

  // --- the code for one step ---

  function Pow10(n: nat): (p: nat)
    ensures p > 0
  {
    if n == 0 then 1 else 10 * Pow10(n - 1)
  }

  /** The powers of ten, in 32-bit arithmetic. */
  method Power(n: nat) returns (p: nat)
    ensures p == Pow10(n) % 0x1_0000_0000
  {
    p := 1;
    for i := 0 to n
      invariant p == Pow10(i) % 0x1_0000_0000
    {
      Wraps(Pow10(i));
      p := p * 10 % 0x1_0000_0000;
    }
  }

  lemma Wraps(x: nat)
    ensures x % 0x1_0000_0000 * 10 % 0x1_0000_0000 == 10 * x % 0x1_0000_0000
  {
    var r, q := x % 0x1_0000_0000, x / 0x1_0000_0000;
    assert 10 * x == r * 10 + 0x1_0000_0000 * (10 * q);
    WholeWords(r * 10, 10 * q);
  }

  lemma WholeWords(a: nat, k: nat)
    ensures (a + 0x1_0000_0000 * k) % 0x1_0000_0000 == a % 0x1_0000_0000
  {}

  /** The last n decimal digits of v, zeros in front. */
  function Fixed(v: nat, n: nat): (s: string)
    ensures |s| == n
  {
    if n == 0 then "" else Fixed(v / 10, n - 1) + ['0' + (v % 10) as char]
  }

  lemma {:induction false} FixedReadsBack(v: nat, n: nat)
    requires v < Pow10(n)
    ensures M.Digits(Fixed(v, n)) == Some(v)
  {
    if n > 0 {
      FixedReadsBack(v / 10, n - 1);
      assert Fixed(v, n)[..n - 1] == Fixed(v / 10, n - 1);
    }
  }

  lemma FixedStep(v: nat, n: nat)
    ensures Fixed(v, n + 1) == Fixed(v / 10, n) + ['0' + (v % 10) as char] && Fixed(v, 0) == ""
  {}

  function Digit(v: nat): char { '0' + (v % 10) as char }

  /** Six digits, the hundred thousands first. */
  lemma SixDigits(v: nat)
    ensures Fixed(v, 6) == [Digit(v / 10 / 10 / 10 / 10 / 10), Digit(v / 10 / 10 / 10 / 10), Digit(v / 10 / 10 / 10),
                            Digit(v / 10 / 10), Digit(v / 10), Digit(v)]
    ensures Fixed(42, 6) == "000042" && Fixed(123456, 6) == "123456"
  {
    SixAt(v);
    Samples();
    hide Fixed; hide Digit;
  }

  lemma Samples()
    ensures Fixed(42, 6) == "000042" && Fixed(123456, 6) == "123456"
  {
    hide Fixed;
    FixedStep(42, 5); FixedStep(4, 4); FixedStep(0, 3); FixedStep(0, 2); FixedStep(0, 1); FixedStep(0, 0);
    FixedStep(123456, 5); FixedStep(12345, 4); FixedStep(1234, 3); FixedStep(123, 2); FixedStep(12, 1); FixedStep(1, 0);
  }

  lemma SixAt(v: nat)
    ensures Fixed(v, 6) == [Digit(v / 10 / 10 / 10 / 10 / 10), Digit(v / 10 / 10 / 10 / 10), Digit(v / 10 / 10 / 10),
                            Digit(v / 10 / 10), Digit(v / 10), Digit(v)]
  {
    hide Fixed;
    var a, b, c, d, e := v / 10, v / 10 / 10, v / 10 / 10 / 10, v / 10 / 10 / 10 / 10, v / 10 / 10 / 10 / 10 / 10;
    FixedStep(v, 5); FixedStep(a, 4); FixedStep(b, 3); FixedStep(c, 2); FixedStep(d, 1); FixedStep(e, 0);
    hide Digit;
  }

  /** Four bytes at the offset the last byte names, without the top bit. */
  function Truncate(sum: Mac): nat {
    var off := sum[19] % 16;
    var a: nat, b: nat, c: nat, d: nat := sum[off], sum[off + 1], sum[off + 2], sum[off + 3];
    a % 128 * 0x100_0000 + b * 0x1_0000 + c * 0x100 + d
  }

  /** Dynamic truncation, section 5.3 of RFC 4226: a big-endian number modulo 2^31. */
  lemma TruncateIsNumber(sum: Mac)
    ensures var off := sum[19] % 16; Truncate(sum) == Number(sum[off..off + 4]) % 0x8000_0000
  {
    var off := sum[19] % 16;
    var s := sum[off..off + 4];
    assert s[..3][..2] == s[..2] && s[..2][..1] == s[..1] && s[..1][..0] == [];
    var a: nat, b: nat, c: nat, d: nat := s[0], s[1], s[2], s[3];
    assert Number(s[..1]) == a;
    assert Number(s[..2]) == 256 * a + b;
    assert Number(s[..3]) == 256 * (256 * a + b) + c;
    TopBit(a, b * 0x1_0000 + c * 0x100 + d);
  }

  lemma TopBit(a: nat, low: nat)
    requires low < 0x100_0000
    ensures (a * 0x100_0000 + low) % 0x8000_0000 == a % 128 * 0x100_0000 + low
  {
    var q := a / 128;
    assert a * 0x100_0000 + low == q * 0x8000_0000 + (a % 128 * 0x100_0000 + low);
  }

  function Code(c: Crypto, secret: string, counter: nat): (code: Option<string>)
    ensures code.Some? ==> |code.value| == DIGITS
  {
    match c.decode(secret)
    case None => None
    case Some(key) =>
      if key == [] then None
      else Some(Fixed(Truncate(c.hmac(key, BigEndian(counter, 8))) % Pow10(DIGITS), DIGITS))
  }

  /** The code is six digits that read back as the truncated MAC modulo a million. */
  lemma CodeIsTruncatedMac(c: Crypto, secret: string, counter: nat)
    requires Code(c, secret, counter).Some?
    ensures var sum := c.hmac(c.decode(secret).value, BigEndian(counter, 8));
            var off := sum[19] % 16;
            M.Digits(Code(c, secret, counter).value) == Some(Number(sum[off..off + 4]) % 0x8000_0000 % 1000000)
  {
    var sum := c.hmac(c.decode(secret).value, BigEndian(counter, 8));
    TruncateIsNumber(sum);
    Million();
    hide Truncate; hide Number; hide Fixed; hide Pow10; hide BigEndian; hide M.Digits;
    FixedReadsBack(Truncate(sum) % Pow10(DIGITS), DIGITS);
  }

  lemma Million()
    ensures Pow10(DIGITS) == 1000000
  {
    assert Pow10(3) == 1000;
    assert Pow10(6) == 1000 * Pow10(3);
  }

  method ComputeCode(c: Crypto, secret: string, counter: nat) returns (code: Option<string>)
    ensures code == Code(c, secret, counter)
    ensures code == None <==> c.decode(secret) == None || c.decode(secret) == Some([])
  {
    hide Fixed; hide BigEndian;
    var key := c.decode(secret);
    if key == None || key.value == [] { return None; }
    var sum := c.hmac(key.value, BigEndian(counter, 8));
    var modulus := Power(DIGITS);
    Million();
    return Some(Fixed(Truncate(sum) % modulus, DIGITS));
  }

  // --- the verifier ---

  /** Integer division that rounds toward zero. */
  function StepOf(time: int): int { if time >= 0 then time / PERIOD else -(-time / PERIOD) }

  /** A step the verifier may accept: in the window, not negative, after the last one, and with this code. */
  predicate Matches(c: Crypto, secret: string, code: string, time: int, last: int, step: int) {
    && StepOf(time) - 1 <= step <= StepOf(time) + 1
    && step >= 0 && step > last
    && Code(c, secret, step) == Some(M.Trim(code))
  }

  function Accept(c: Crypto, secret: string, code: string, time: int, last: int): Option<int> {
    var now := StepOf(time);
    if Matches(c, secret, code, time, last, now - 1) then Some(now - 1)
    else if Matches(c, secret, code, time, last, now) then Some(now)
    else if Matches(c, secret, code, time, last, now + 1) then Some(now + 1)
    else None
  }

  /** The clock is in the step's thirty seconds, the thirty before or the thirty after; below 0 it rounds up. */
  predicate Near(time: int, step: int) {
    if time >= 0 then 30 * (step - 1) <= time < 30 * (step + 2)
    else (step == 0 && time > -60) || (step == 1 && time > -30)
  }

  lemma NearIsWindow(time: int, step: int)
    requires step >= 0
    ensures Near(time, step) <==> StepOf(time) - 1 <= step <= StepOf(time) + 1
  {
    if time >= 0 {
      assert time == 30 * (time / 30) + time % 30;
    } else {
      assert -time == 30 * (-time / 30) + -time % 30;
    }
  }

  /** The accepted step is the least fresh one near the clock that has this code, if there is one. */
  lemma AcceptIsLeast(c: Crypto, secret: string, code: string, time: int, last: int)
    ensures match Accept(c, secret, code, time, last)
            case Some(step) =>
              && step >= 0 && step > last && Near(time, step) && Code(c, secret, step) == Some(M.Trim(code))
              && forall s: nat :: last < s < step && Near(time, s) ==> Code(c, secret, s) != Some(M.Trim(code))
            case None =>
              forall s: nat :: last < s && Near(time, s) ==> Code(c, secret, s) != Some(M.Trim(code))
  {
    hide Code; hide M.Trim; hide StepOf; hide Near;
    forall s: nat ensures Near(time, s) <==> StepOf(time) - 1 <= s <= StepOf(time) + 1 { NearIsWindow(time, s); }
  }

  method Verify(c: Crypto, secret: string, code: string, time: int, last: int) returns (r: Option<int>)
    ensures r == Accept(c, secret, code, time, last)
    ensures r.Some? ==>
              && r.value >= 0 && r.value > last && Near(time, r.value) && Code(c, secret, r.value) == Some(M.Trim(code))
              && forall s: nat :: last < s < r.value && Near(time, s) ==> Code(c, secret, s) != Some(M.Trim(code))
    ensures r == None ==> forall s: nat :: last < s && Near(time, s) ==> Code(c, secret, s) != Some(M.Trim(code))
  {
    AcceptIsLeast(c, secret, code, time, last);
    r := Search(c, secret, code, time, last);
  }

  /** The loop of the verifier. */
  method Search(c: Crypto, secret: string, code: string, time: int, last: int) returns (r: Option<int>)
    ensures r == Accept(c, secret, code, time, last)
  {
    hide Code; hide M.Trim; hide StepOf;
    var trimmed := M.Trim(code);
    CodeLength(c, secret);
    if |trimmed| != DIGITS { return None; }
    var now := StepOf(time);
    for d := -1 to 2
      invariant forall s :: s < now + d ==> !Matches(c, secret, code, time, last, s)
    {
      var step := now + d;
      if step < 0 || step <= last { continue; }
      var want := ComputeCode(c, secret, step);
      if want == None {
        NoKey(c, secret, step);
        return None;
      }
      if want.value == trimmed { return Some(step); }
    }
    return None;
  }

  lemma CodeLength(c: Crypto, secret: string)
    ensures forall step: nat :: Code(c, secret, step).Some? ==> |Code(c, secret, step).value| == DIGITS
  {}

  lemma NoKey(c: Crypto, secret: string, step: nat)
    requires Code(c, secret, step) == None
    ensures forall s: nat :: Code(c, secret, s) == None
  {}

  /** A fresh step's code in the window is accepted, for that step or for an earlier fresh one with the same code. */
  lemma FreshCodeAccepted(c: Crypto, secret: string, code: string, time: int, last: int, step: nat)
    requires Code(c, secret, step) == Some(M.Trim(code)) && last < step && Near(time, step)
    ensures var r := Accept(c, secret, code, time, last);
            r.Some? && last < r.value <= step && r.value >= 0 && Code(c, secret, r.value) == Code(c, secret, step)
  {
    hide Code; hide M.Trim; hide StepOf; hide Near;
    NearIsWindow(time, step);
    assert Matches(c, secret, code, time, last, step);
  }
}
