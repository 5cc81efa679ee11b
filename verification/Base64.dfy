/** The base64 writer and reader of the QR file; both keep a 32-bit accumulator they never mask. */
module Base64 {
  import opened Wrappers
  import opened BitStream

  const WORD: nat := 0x1_0000_0000

  function CharOf(v: nat): (c: char)
    requires v < 64
  {
    (if v < 26 then 65 + v else if v < 52 then v - 26 + 97 else if v < 62 then v - 52 + 48
     else if v == 62 then 43 else 47) as char
  }

  /** None is the exception for a character outside the alphabet. */
  function ValueOf(c: char): Option<nat> {
    var t := c as int;
    if 65 <= t <= 90 then Some(t - 65)
    else if 97 <= t <= 122 then Some(t - 97 + 26)
    else if 48 <= t <= 57 then Some(t - 48 + 52)
    else if t == 43 then Some(62)
    else if t == 47 then Some(63)
    else None
  }

  /** What the regular expression `\s` matches. */
  predicate IsSpace(c: char) {
    c == ' ' || '\t' <= c <= '\r' || c == '\U{00A0}' || c == '\U{FEFF}' || c == '\U{1680}'
        || '\U{2000}' <= c <= '\U{200A}'
    || c == '\U{2028}' || c == '\U{2029}' || c == '\U{202F}' || c == '\U{205F}' || c == '\U{3000}'
  }

  lemma AlphabetRoundTrip(v: nat)
    requires v < 64
    ensures ValueOf(CharOf(v)) == Some(v) && CharOf(v) != '=' && !IsSpace(CharOf(v))
  {}

  const UPPER: string := "ABCDEFGHIJKLMNOPQRSTUVWXYZ"
  const LOWER: string := "abcdefghijklmnopqrstuvwxyz"
  const OTHERS: string := "0123456789+/"

  /** The alphabet of the RFC, in order. */
  function Alphabet(v: nat): char
    requires v < 64
  {
    if v < 26 then UPPER[v] else if v < 52 then LOWER[v - 26] else OTHERS[v - 52]
  }

  lemma AlphabetIs(v: nat)
    requires v < 64
    ensures CharOf(v) == Alphabet(v)
  {
    if v < 26 { UpperCase(v); } else if v < 52 { LowerCase(v); } else { OtherCharacters(v); }
    hide CharOf;
  }

  lemma UpperCase(v: nat)
    requires v < 26
    ensures CharOf(v) == UPPER[v]
  {}

  lemma LowerCase(v: nat)
    requires 26 <= v < 52
    ensures CharOf(v) == LOWER[v - 26]
  {}

  lemma OtherCharacters(v: nat)
    requires 52 <= v < 64
    ensures CharOf(v) == OTHERS[v - 52]
  {}

  // --- the encoding of RFC 4648, section 4 ---

  function ByteAt(d: seq<Byte>, k: nat): Byte { if k < |d| then d[k] else 0 }

  /** Six bits of the 24-bit group that character p belongs to. */
  function Sextet(d: seq<Byte>, p: nat): (v: nat)
    ensures v < 64
  {
    var a, b, c := ByteAt(d, p / 4 * 3), ByteAt(d, p / 4 * 3 + 1), ByteAt(d, p / 4 * 3 + 2);
    if p % 4 == 0 then a / 4
    else if p % 4 == 1 then a % 4 * 16 + b / 16
    else if p % 4 == 2 then b % 16 * 4 + c / 64
    else c % 64
  }

  /** Four sextets are the 24 bits of three bytes, both highest first. */
  lemma SextetsAreBytes(d: seq<Byte>, k: nat)
    ensures var a: nat, b: nat, c: nat := ByteAt(d, 3 * k), ByteAt(d, 3 * k + 1), ByteAt(d, 3 * k + 2);
            ((Sextet(d, 4 * k) * 64 + Sextet(d, 4 * k + 1)) * 64 + Sextet(d, 4 * k + 2)) * 64 + Sextet(d, 4 * k + 3)
            == (a * 256 + b) * 256 + c
  {
    Group(ByteAt(d, 3 * k), ByteAt(d, 3 * k + 1), ByteAt(d, 3 * k + 2));
    assert 4 * k / 4 == k && (4 * k + 1) / 4 == k && (4 * k + 2) / 4 == k && (4 * k + 3) / 4 == k;
    hide ByteAt;
  }

  lemma Group(a: nat, b: nat, c: nat)
    ensures (((a / 4) * 64 + (a % 4 * 16 + b / 16)) * 64 + (b % 16 * 4 + c / 64)) * 64 + c % 64
         == (a * 256 + b) * 256 + c
  {
    assert a == 4 * (a / 4) + a % 4 && b == 16 * (b / 16) + b % 16 && c == 64 * (c / 64) + c % 64;
  }

  /** How many characters carry bits of n bytes. */
  function Carrying(n: nat): nat { n / 3 * 4 + if n % 3 == 0 then 0 else n % 3 + 1 }

  function Encoded(d: seq<Byte>): string {
    seq((|d| + 2) / 3 * 4, p requires 0 <= p => if p < Carrying(|d|) then CharOf(Sextet(d, p)) else '=')
  }

  /** Length and padding: four characters for three bytes begun, '=' for each sextet without a bit of the data. */
  lemma EncodedShape(d: seq<Byte>)
    ensures 4 * |d| <= 3 * |Encoded(d)| < 4 * |d| + 12 && |Encoded(d)| % 4 == 0
    ensures forall p :: 0 <= p < |Encoded(d)| ==>
              Encoded(d)[p] == if 6 * p < 8 * |d| then Alphabet(Sextet(d, p)) else '='
  {
    hide Sextet; hide CharOf;
    forall p | 0 <= p < |Encoded(d)|
      ensures Encoded(d)[p] == if 6 * p < 8 * |d| then Alphabet(Sextet(d, p)) else '='
    {
      AlphabetIs(Sextet(d, p));
      CarryingIs(|d|, p);
    }
  }

  lemma CarryingIs(n: nat, p: nat)
    ensures p < Carrying(n) <==> 6 * p < 8 * n
  {}

  // --- the writer ---

  /** 6-bit groups cut from the accumulator t holding r bits, while r >= 6. */
  function Cut(t: nat, r: nat): (s: string)
    decreases r
  {
    if r < 6 then [] else [CharOf(Shr(t, r - 6) % 64)] + Cut(t, r - 6)
  }

  lemma CutOne(t: nat, r: nat)
    requires r >= 6
    ensures Cut(t, r) == [CharOf(Shr(t, r - 6) % 64)] + Cut(t, r - 6)
  {}

  lemma CutNone(t: nat, r: nat)
    requires r < 6
    ensures Cut(t, r) == []
  {}

  /** The characters of n are those of all complete sextets of d. */
  ghost predicate Spelled(d: seq<Byte>, n: string) {
    && |n| == |d| / 3 * 4 + |d| % 3
    && (forall p :: 0 <= p < |n| ==> n[p] == CharOf(Sextet(d, p)))
  }

  function Pads(k: nat): string { seq(k, _ => '=') }

  class Writer {
    var t: nat
    var r: nat
    var e: nat
    var n: string
    ghost var data: seq<Byte>

    /** Everything but the last r bits of the data is written; t ends with those bits. */
    ghost predicate Valid()
      reads this
    {
      && t < WORD && e == |data| && r == 2 * (|data| % 3)
      && Spelled(data, n)
      && (r == 2 ==> t % 4 == data[|data| - 1] % 4)
      && (r == 4 ==> t % 16 == data[|data| - 1] % 16)
    }

    constructor ()
      ensures Valid() && data == []
    {
      t, r, e, n, data := 0, 0, 0, "", [];
    }

    method WriteByte(b: Byte)
      requires Valid()
      modifies this
      ensures Valid() && data == old(data) + [b]
    {
      NextSextets(data, b, t, n);
      hide Cut; hide CharOf; hide Sextet; hide Shr; hide Spelled;
      t := (t * 256 + b) % WORD;
      r := r + 8;
      e := e + 1;
      EmitSextets();
      data := data + [b];
    }

    method EmitSextets()
      modifies this`r, this`n
      ensures n == old(n) + Cut(t, old(r)) && r == old(r) % 6
    {
      hide Cut; hide CharOf; hide Shr;
      while r >= 6
        invariant old(n) + Cut(t, old(r)) == n + Cut(t, r) && r % 6 == old(r) % 6
      {
        CutOne(t, r);
        n := n + [CharOf(Shr(t, r - 6) % 64)];
        r := r - 6;
      }
      CutNone(t, r);
    }

    /** Writes the last bits, padded with zeros, and the '=' that fill up the group. */
    method Flush()
      requires Valid()
      modifies this
      ensures n == Encoded(data) && data == old(data)
    {
      LastSextet(data, t, n);
      EncodedEnd(data, n);
      hide Spelled; hide Encoded; hide CharOf; hide Sextet; hide Pads;
      if r > 0 {
        n := n + [CharOf(t * (if r == 2 then 16 else 4) % WORD % 64)];
        t, r := 0, 0;
      }
      if e % 3 != 0 { Fill(3 - e % 3); }
    }

    method Fill(o: nat)
      modifies this`n
      ensures n == old(n) + Pads(o)
    {
      for a := 0 to o
        invariant n == old(n) + Pads(a)
      {
        n := n + "=";
      }
    }
  }

  // --- arithmetic of the accumulator ---

  lemma Div4(j: nat, r: nat) requires r < 4 ensures (4 * j + r) / 4 == j {}
  lemma Div16(j: nat, r: nat) requires r < 16 ensures (16 * j + r) / 16 == j {}
  lemma Div64(j: nat, r: nat) requires r < 64 ensures (64 * j + r) / 64 == j {}
  lemma Mod4(j: nat, r: nat) requires r < 4 ensures (4 * j + r) % 4 == r {}
  lemma Mod16(j: nat, r: nat) requires r < 16 ensures (16 * j + r) % 16 == r {}
  lemma Mod64(j: nat, r: nat) requires r < 64 ensures (64 * j + r) % 64 == r {}
  lemma Mod256(j: nat, r: nat) requires r < 256 ensures (256 * j + r) % 256 == r {}

  /** What is left of x in a 32-bit word agrees with x in the low bits below d. */
  lemma Residue(x: nat, d: nat, e: nat, h: nat, w: nat) returns (m: nat)
    requires d * e == WORD && x == d * h + w && w < d
    ensures x % WORD == d * m + w
  {
    var z := x / WORD;
    var k := h - e * z;
    assert x % WORD == x - WORD * z;
    assert WORD * z == d * (e * z);
    assert d * k == d * h - d * (e * z);
    Negative(d, k);
    m := k;
  }

  lemma Negative(d: nat, k: int)
    ensures k < 0 ==> d * k + d <= 0
  {}

  lemma Cut8(t: nat, b: nat)
    requires b < 256
    ensures var u := (t * 256 + b) % WORD; u / 4 % 64 == b / 4 && u % 4 == b % 4
  {
    var m := Residue(t * 256 + b, 256, 0x100_0000, t, b);
    Fields4(m, b / 4, b % 4);
  }

  lemma Fields4(m: nat, s: nat, y: nat)
    requires s < 64 && y < 4
    ensures var u := 256 * m + 4 * s + y; u / 4 % 64 == s && u % 4 == y
  {
    Div4(64 * m + s, y); Mod4(64 * m + s, y); Mod64(m, s);
  }

  lemma Fields16(m: nat, s: nat, y: nat)
    requires s < 64 && y < 16
    ensures var u := 1024 * m + 16 * s + y; u / 16 % 64 == s && u % 16 == y
  {
    Div16(64 * m + s, y); Mod16(64 * m + s, y); Mod64(m, s);
  }

  lemma Fields64(m: nat, s: nat, y: nat)
    requires s < 64 && y < 64
    ensures var u := 4096 * m + 64 * s + y; u / 64 % 64 == s && u % 64 == y
  {
    Div64(64 * m + s, y); Mod64(64 * m + s, y); Mod64(m, s);
  }

  lemma Cut10(t: nat, a: nat, b: nat)
    requires a < 256 && b < 256 && t % 4 == a % 4
    ensures var u := (t * 256 + b) % WORD; u / 16 % 64 == a % 4 * 16 + b / 16 && u % 16 == b % 16
  {
    Cut10At(t, t / 4, a % 4, b, b / 16, b % 16);
  }

  lemma Cut10At(t: nat, h: nat, l: nat, b: nat, x: nat, y: nat)
    requires t == 4 * h + l && l < 4 && b == 16 * x + y && x < 16 && y < 16
    ensures var u := (t * 256 + b) % WORD; u / 16 % 64 == l * 16 + x && u % 16 == y
  {
    var m := Residue(t * 256 + b, 1024, 0x40_0000, h, 256 * l + b);
    Fields16(m, 16 * l + x, y);
  }

  lemma Cut12(t: nat, a: nat, b: nat)
    requires a < 256 && b < 256 && t % 16 == a % 16
    ensures var u := (t * 256 + b) % WORD; u / 64 % 64 == a % 16 * 4 + b / 64 && u % 64 == b % 64
  {
    Cut12At(t, t / 16, a % 16, b, b / 64, b % 64);
  }

  lemma Cut12At(t: nat, h: nat, l: nat, b: nat, x: nat, y: nat)
    requires t == 16 * h + l && l < 16 && b == 64 * x + y && x < 4 && y < 64
    ensures var u := (t * 256 + b) % WORD; u / 64 % 64 == l * 4 + x && u % 64 == y
  {
    var m := Residue(t * 256 + b, 4096, 0x10_0000, h, 256 * l + b);
    Fields64(m, 4 * l + x, y);
  }

  lemma Tail2(t: nat, a: nat)
    requires t % 4 == a % 4
    ensures t * 16 % WORD % 64 == a % 4 * 16
  {
    var h, l := t / 4, a % 4;
    var m := Residue(16 * t, 64, 0x400_0000, h, 16 * l);
    Mod64(m, 16 * l);
  }

  lemma Tail4(t: nat, a: nat)
    requires t % 16 == a % 16
    ensures t * 4 % WORD % 64 == a % 16 * 4
  {
    var h, l := t / 16, a % 16;
    var m := Residue(4 * t, 64, 0x400_0000, h, 4 * l);
    Mod64(m, 4 * l);
  }

  lemma Push1(n: nat, v: nat, b: nat)
    requires v < 64 && b < 256 && n % 16 == b / 16 && v / 4 == b % 16
    ensures var u := (n * 64 + v) % WORD; u / 4 % 256 == b && u % 4 == v % 4
  {
    Push1At(n, n / 16, b / 16, v, b % 16, v % 4);
  }

  lemma Push1At(n: nat, h: nat, l: nat, v: nat, x: nat, y: nat)
    requires n == 16 * h + l && l < 16 && v == 4 * x + y && x < 16 && y < 4
    ensures var u := (n * 64 + v) % WORD; u / 4 % 256 == 16 * l + x && u % 4 == y
  {
    var m := Residue(n * 64 + v, 1024, 0x40_0000, h, 64 * l + v);
    var b := 16 * l + x;
    Div4(256 * m + b, y); Mod4(256 * m + b, y); Mod256(m, b);
  }

  lemma Push2(n: nat, v: nat, b: nat)
    requires v < 64 && b < 256 && n % 4 == b / 64 && v == b % 64
    ensures (n * 64 + v) % WORD % 256 == b
  {
    var h, l := n / 4, b / 64;
    var m := Residue(n * 64 + v, 256, 0x100_0000, h, 64 * l + v);
    Mod256(m, b);
  }

  lemma Push0(n: nat, v: nat, v2: nat, b: nat)
    requires v < 64 && v2 < 64 && b < 256 && v == b / 4 && v2 / 16 == b % 4
    ensures var u := ((n * 64 + v) % WORD * 64 + v2) % WORD; u / 16 % 256 == b && u % 16 == v2 % 16
  {
    var k := Residue(n * 64 + v, 64, 0x400_0000, n, v);
    Push0At(64 * k + v, k, v, v2, b % 4, v2 % 16, b);
  }

  lemma Push0At(n: nat, k: nat, v: nat, v2: nat, x: nat, y: nat, b: nat)
    requires n == 64 * k + v && v < 64 && v2 == 16 * x + y && x < 4 && y < 16 && b == 4 * v + x
    ensures var u := (n * 64 + v2) % WORD; u / 16 % 256 == b && u % 16 == y
  {
    var m := Residue(n * 64 + v2, 4096, 0x10_0000, k, 64 * v + v2);
    Div16(256 * m + b, y); Mod16(256 * m + b, y); Mod256(m, b);
  }

  lemma Shr2(t: nat)
    ensures Shr(t, 2) == t / 4
  {
    assert Shr(t / 2, 1) == Shr(t / 2 / 2, 0);
  }

  lemma ShrEven(t: nat)
    ensures Shr(t, 0) == t && Shr(t, 2) == t / 4 && Shr(t, 4) == t / 16 && Shr(t, 6) == t / 64
  {
    Shr2(t); Shr2(t / 4); Shr2(t / 16);
    assert Shr(t, 4) == Shr(t / 2 / 2, 2);
    assert Shr(t, 6) == Shr(t / 2 / 2, 4);
    assert Shr(t / 4, 4) == Shr(t / 4 / 2 / 2, 2);
  }

  lemma CutCases(u: nat)
    ensures Cut(u, 8) == [CharOf(u / 4 % 64)]
    ensures Cut(u, 10) == [CharOf(u / 16 % 64)]
    ensures Cut(u, 12) == [CharOf(u / 64 % 64), CharOf(u % 64)]
  {
    ShrEven(u);
    hide Shr; hide CharOf;
    assert Cut(u, 2) == [] && Cut(u, 4) == [] && Cut(u, 0) == [];
    assert Cut(u, 6) == [CharOf(u % 64)];
  }

  lemma EmittedStay(d: seq<Byte>, b: Byte, p: nat)
    requires p < |d| / 3 * 4 + |d| % 3
    ensures Sextet(d, p) == Sextet(d + [b], p)
  {}

  /** The sextets that byte b completes. */
  lemma NewSextets(d: seq<Byte>, b: Byte)
    ensures var q, d' := |d| / 3 * 4, d + [b];
            && (|d| % 3 == 0 ==> Sextet(d', q) == b / 4)
            && (|d| % 3 == 1 ==> Sextet(d', q + 1) == d[|d| - 1] % 4 * 16 + b / 16)
            && (|d| % 3 == 2 ==> Sextet(d', q + 2) == d[|d| - 1] % 16 * 4 + b / 64 && Sextet(d', q + 3) == b % 64)
  {}

  /** What one more byte adds to the text. */
  lemma NextSextets(d: seq<Byte>, b: Byte, t: nat, n: string)
    requires Spelled(d, n)
    requires |d| % 3 == 1 ==> t % 4 == d[|d| - 1] % 4
    requires |d| % 3 == 2 ==> t % 16 == d[|d| - 1] % 16
    ensures var u, d' := (t * 256 + b) % WORD, d + [b];
            var m := n + Cut(u, 2 * (|d| % 3) + 8);
            && Spelled(d', m)
            && (|d'| % 3 == 1 ==> u % 4 == b % 4) && (|d'| % 3 == 2 ==> u % 16 == b % 16)
  {
    hide Sextet; hide Cut; hide CharOf;
    CutCases((t * 256 + b) % WORD);
    if |d| % 3 == 0 { Cut8(t, b); }
    else if |d| % 3 == 1 { Cut10(t, d[|d| - 1], b); }
    else { Cut12(t, d[|d| - 1], b); }
    forall p | 0 <= p < |n| ensures n[p] == CharOf(Sextet(d + [b], p)) { EmittedStay(d, b, p); }
    NewSextets(d, b);
  }

  /** What flushing adds to the text. */
  lemma EncodedEnd(d: seq<Byte>, n: string)
    requires Spelled(d, n)
    ensures |d| % 3 == 0 ==> Encoded(d) == n
    ensures |d| % 3 != 0 ==> Encoded(d) == n + [CharOf(Sextet(d, |n|))] + Pads(3 - |d| % 3)
  {
    hide CharOf; hide Sextet;
  }

  lemma LastSextet(d: seq<Byte>, t: nat, n: string)
    requires Spelled(d, n)
    requires |d| % 3 == 1 ==> t % 4 == d[|d| - 1] % 4
    requires |d| % 3 == 2 ==> t % 16 == d[|d| - 1] % 16
    ensures |d| % 3 == 1 ==> t * 16 % WORD % 64 == Sextet(d, |n|)
    ensures |d| % 3 == 2 ==> t * 4 % WORD % 64 == Sextet(d, |n|)
  {
    OpenSextet(d);
    hide Sextet;
    if |d| % 3 == 1 { Tail2(t, d[|d| - 1]); }
    if |d| % 3 == 2 { Tail4(t, d[|d| - 1]); }
  }

  lemma OpenSextet(d: seq<Byte>)
    ensures |d| % 3 == 1 ==> Sextet(d, |d| / 3 * 4 + 1) == d[|d| - 1] % 4 * 16
    ensures |d| % 3 == 2 ==> Sextet(d, |d| / 3 * 4 + 2) == d[|d| - 1] % 16 * 4
  {}

  // --- the reader ---

  datatype Item = Byte(value: Byte) | End | Throws

  datatype Reading = Reading(item: Item, e: nat, n: nat, o: nat)

  /** `read` from position e with the o low bits of n still unread. */
  function Read(r: string, e: nat, n: nat, o: nat): Reading
    requires e <= |r|
    decreases if o < 8 then |r| - e + 1 else 0
  {
    if o >= 8 then Reading(Item.Byte(Shr(n, o - 8) % 256), e, n, o - 8)
    else if e == |r| then Reading(if o == 0 then End else Throws, e, n, o)
    else if r[e] == '=' then Reading(End, e + 1, n, 0)
    else if IsSpace(r[e]) then Read(r, e + 1, n, o)
    else match ValueOf(r[e])
      case None => Reading(Throws, e + 1, n, o)
      case Some(v) => Read(r, e + 1, (n * 64 + v) % WORD, o + 6)
  }

  class Reader {
    const r: string
    var e: nat
    var n: nat
    var o: nat

    ghost predicate Valid()
      reads this
    {
      e <= |r|
    }

    constructor (text: string)
      ensures Valid() && r == text && e == n == o == 0
    {
      r, e, n, o := text, 0, 0, 0;
    }

    method ReadByte() returns (item: Item)
      requires Valid()
      modifies this
      ensures Valid()
      ensures Reading(item, e, n, o) == Read(r, old(e), old(n), old(o))
    {
      while o < 8
        invariant Valid()
        invariant Read(r, e, n, o) == Read(r, old(e), old(n), old(o))
        decreases if o < 8 then |r| - e + 1 else 0
      {
        if e >= |r| {
          return if o == 0 then End else Throws;
        }
        var t := r[e];
        e := e + 1;
        if t == '=' {
          o := 0;
          return End;
        }
        if !IsSpace(t) {
          var v := ValueOf(t);
          if v == None { return Throws; }
          n := (n * 64 + v.value) % WORD;
          o := o + 6;
        }
      }
      item := Item.Byte(Shr(n, o - 8) % 256);
      o := o - 8;
    }
  }

  /** All items up to the first that is not a byte. */
  function ReadAll(r: string, e: nat, n: nat, o: nat): (seq<Byte>, Reading)
    requires e <= |r|
    decreases 8 * (|r| - e) + o
  {
    ReadAdvances(r, e, n, o);
    var x := Read(r, e, n, o);
    if x.item.Byte? then
      var (rest, last) := ReadAll(r, x.e, x.n, x.o);
      ([x.item.value] + rest, last)
    else ([], x)
  }

  lemma {:induction false} ReadAdvances(r: string, e: nat, n: nat, o: nat)
    requires e <= |r|
    ensures var x := Read(r, e, n, o);
            e <= x.e <= |r| && (x.item.Byte? ==> 8 * (|r| - x.e) + x.o < 8 * (|r| - e) + o)
    decreases if o < 8 then |r| - e + 1 else 0
  {
    if o < 8 && e < |r| && r[e] != '=' {
      if IsSpace(r[e]) { ReadAdvances(r, e + 1, n, o); }
      else if ValueOf(r[e]).Some? { ReadAdvances(r, e + 1, (n * 64 + ValueOf(r[e]).value) % WORD, o + 6); }
    }
  }

  /** What the reader still holds after k bytes of d: the bits of the last character it did not use. */
  ghost predicate Holds(d: seq<Byte>, k: nat, e: nat, n: nat, o: nat) {
    && k <= |d| && e == Carrying(k) && n < WORD
    && o == (if k % 3 == 0 then 0 else if k % 3 == 1 then 4 else 2)
    && (k % 3 == 1 ==> n % 16 == ByteAt(d, k) / 16)
    && (k % 3 == 2 ==> n % 4 == ByteAt(d, k) / 64)
  }

  lemma ReadChar(d: seq<Byte>, p: nat, n: nat, o: nat)
    requires p < Carrying(|d|) && o < 8
    ensures p < |Encoded(d)|
    ensures Read(Encoded(d), p, n, o) == Read(Encoded(d), p + 1, (n * 64 + Sextet(d, p)) % WORD, o + 6)
  {
    AlphabetRoundTrip(Sextet(d, p));
  }

  lemma ReadNext(d: seq<Byte>, k: nat, e: nat, n: nat, o: nat)
    requires Holds(d, k, e, n, o) && k < |d|
    ensures e <= |Encoded(d)|
    ensures var x := Read(Encoded(d), e, n, o); x.item == Item.Byte(d[k]) && Holds(d, k + 1, x.e, x.n, x.o)
  {
    hide Sextet; hide Encoded; hide Shr; hide Read;
    var v := Sextet(d, e);
    SextetParts(d, k, e);
    ReadChar(d, e, n, o);
    var n1 := (n * 64 + v) % WORD;
    if k % 3 == 0 {
      var v2 := Sextet(d, e + 1);
      ReadChar(d, e + 1, n1, 6);
      Push0(n, v, v2, d[k]);
      ReadWhole(Encoded(d), e + 2, (n1 * 64 + v2) % WORD, 12);
    } else if k % 3 == 1 {
      Push1(n, v, d[k]);
      ReadWhole(Encoded(d), e + 1, n1, 10);
    } else {
      Push2(n, v, d[k]);
      ReadWhole(Encoded(d), e + 1, n1, 8);
    }
  }

  /** With a whole byte at hand the reader hands it out. */
  lemma ReadWhole(r: string, e: nat, n: nat, o: nat)
    requires e <= |r|
    ensures o == 8 ==> Read(r, e, n, o) == Reading(Item.Byte(n % 256), e, n, 0)
    ensures o == 10 ==> Read(r, e, n, o) == Reading(Item.Byte(n / 4 % 256), e, n, 2)
    ensures o == 12 ==> Read(r, e, n, o) == Reading(Item.Byte(n / 16 % 256), e, n, 4)
  {
    ShrEven(n);
    hide Shr;
  }

  /** The sextets that carry byte k, taken apart. */
  lemma SextetParts(d: seq<Byte>, k: nat, e: nat)
    requires k < |d| && e == Carrying(k)
    ensures e < Carrying(|d|) && (k % 3 == 0 ==> e + 1 < Carrying(|d|))
    ensures k % 3 == 0 ==> Sextet(d, e) == d[k] / 4 && Sextet(d, e + 1) / 16 == d[k] % 4
    ensures k % 3 == 0 ==> Sextet(d, e + 1) % 16 == ByteAt(d, k + 1) / 16
    ensures k % 3 == 1 ==> Sextet(d, e) / 4 == d[k] % 16 && Sextet(d, e) % 4 == ByteAt(d, k + 1) / 64
    ensures k % 3 == 2 ==> Sextet(d, e) == d[k] % 64
  {}

  lemma {:induction false} ReadTail(d: seq<Byte>, k: nat, e: nat, n: nat, o: nat)
    requires Holds(d, k, e, n, o)
    ensures e <= |Encoded(d)|
    ensures var (bytes, last) := ReadAll(Encoded(d), e, n, o); bytes == d[k..] && last.item == End
    decreases |d| - k
  {
    HoldsBound(d, k, e, n, o);
    hide Read; hide Encoded; hide Holds;
    if k < |d| {
      ReadNext(d, k, e, n, o);
      var x := Read(Encoded(d), e, n, o);
      ReadTail(d, k + 1, x.e, x.n, x.o);
    } else {
      ReadEnd(d, e, n, o);
    }
  }

  lemma HoldsBound(d: seq<Byte>, k: nat, e: nat, n: nat, o: nat)
    requires Holds(d, k, e, n, o)
    ensures e <= |Encoded(d)| && k <= |d|
  {}

  lemma ReadEnd(d: seq<Byte>, e: nat, n: nat, o: nat)
    requires Holds(d, |d|, e, n, o)
    ensures e <= |Encoded(d)| && Read(Encoded(d), e, n, o).item == End
  {}

  /** Reading back what was written: the same bytes, then the end, and no exception. */
  lemma RoundTrip(d: seq<Byte>)
    ensures ReadAll(Encoded(d), 0, 0, 0).0 == d
    ensures ReadAll(Encoded(d), 0, 0, 0).1.item == End
  {
    ReadTail(d, 0, 0, 0, 0);
    assert d[0..] == d;
  }
}
