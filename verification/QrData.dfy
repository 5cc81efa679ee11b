/** Data segments, padding to the capacity, and reading the segments back. */
module QrData {
  import opened Wrappers
  import opened BitStream
  import opened BitBuffer

  const NUMERIC: nat := 1
  const ALPHANUMERIC: nat := 2
  const BYTE: nat := 4
  const KANJI: nat := 8

  /** `getLengthInBits`: the width of the character count; None where the source throws. */
  function CountWidth(mode: nat, version: nat): Option<nat> {
    if mode !in {NUMERIC, ALPHANUMERIC, BYTE, KANJI} then None
    else if 1 <= version < 10 then Some(if mode == NUMERIC then 10 else if mode == ALPHANUMERIC then 9 else 8)
    else if version < 27 then
      Some(if mode == NUMERIC then 12 else if mode == ALPHANUMERIC then 11 else if mode == BYTE then 16 else 10)
    else if version < 41 then
      Some(if mode == NUMERIC then 14 else if mode == ALPHANUMERIC then 13 else if mode == BYTE then 16 else 12)
    else None
  }

  /** How many bits the characters of a segment take. */
  function PayloadWidth(mode: nat, count: nat): nat {
    if mode == NUMERIC then count / 3 * 10 + (if count % 3 == 0 then 0 else if count % 3 == 1 then 4 else 7)
    else if mode == ALPHANUMERIC then count / 2 * 11 + count % 2 * 6
    else if mode == BYTE then count * 8
    else count * 13
  }

  datatype Segment = Segment(mode: nat, count: nat, payload: seq<bool>)

  ghost predicate ValidSegment(s: Segment, version: nat) {
    && 1 <= version <= 40
    && var w := CountWidth(s.mode, version);
       w.Some? && s.count < Pow2(w.value) && |s.payload| == PayloadWidth(s.mode, s.count)
  }

  function SegmentBits(s: Segment, version: nat): seq<bool>
    requires CountWidth(s.mode, version).Some?
  {
    Msb(s.mode, 4) + Msb(s.count, CountWidth(s.mode, version).value) + s.payload
  }

  /** Segments whose counts fit their fields and whose payloads match their counts; what a reader can read. */
  ghost predicate ValidSegments(segs: seq<Segment>, version: nat)
    ensures ValidSegments(segs, version) ==> Writable(segs, version)
  {
    forall i :: 0 <= i < |segs| ==> ValidSegment(segs[i], version)
  }

  /** Segments of a known mode; the low bits of any count are written. */
  predicate Writable(segs: seq<Segment>, version: nat) {
    forall i :: 0 <= i < |segs| ==> CountWidth(segs[i].mode, version).Some?
  }

  function DataBits(segs: seq<Segment>, version: nat): seq<bool>
    requires Writable(segs, version)
  {
    if segs == [] then [] else SegmentBits(segs[0], version) + DataBits(segs[1..], version)
  }

  // --- padding ---

  /** Alternating pad bytes 236 and 17 up to the capacity. */
  function PadBytes(len: nat, cap: nat, first: bool): seq<bool>
    decreases cap - len
  {
    if len >= cap then [] else Msb(if first then 236 else 17, 8) + PadBytes(len + 8, cap, !first)
  }

  function Terminated(bits: seq<bool>, cap: nat): seq<bool> {
    var t := bits + if |bits| + 4 <= cap then Msb(0, 4) else [];
    t + Falses(Padding(|t|))
  }

  function Padded(bits: seq<bool>, cap: nat): seq<bool> {
    var t := Terminated(bits, cap);
    t + PadBytes(|t|, cap, true)
  }

  lemma {:induction false} PadBytesLength(len: nat, cap: nat, first: bool)
    requires len <= cap && (cap - len) % 8 == 0
    ensures |PadBytes(len, cap, first)| == cap - len
    decreases cap - len
  {
    if len < cap { PadBytesLength(len + 8, cap, !first); }
  }

  /** Whenever the data fits, padding ends exactly at the capacity and leaves the data in front. */
  lemma PaddedFillsCapacity(bits: seq<bool>, cap: nat)
    requires cap % 8 == 0 && |bits| <= cap
    ensures |Padded(bits, cap)| == cap && bits <= Padded(bits, cap)
  {
    PadBytesLength(|Terminated(bits, cap)|, cap, true);
  }

  /** Behind the data: the four zero bits of the terminator if they fit, zeros to the next whole byte, no one bit. */
  lemma TerminatorBits(bits: seq<bool>, cap: nat)
    ensures var t, least := Terminated(bits, cap), |bits| + if |bits| + 4 <= cap then 4 else 0;
            && bits <= t && least <= |t| < least + 8 && |t| % 8 == 0
            && forall k :: |bits| <= k < |t| ==> !t[k]
  {
    FourZeros();
    hide Msb;
  }

  lemma MsbStep(v: nat, w: nat)
    ensures Msb(v, w + 1) == Msb(v / 2, w) + [v % 2 == 1] && Msb(v, 0) == []
  {}

  lemma FourZeros()
    ensures Msb(0, 4) == [false, false, false, false]
  {
    hide Msb;
    MsbStep(0, 3); MsbStep(0, 2); MsbStep(0, 1); MsbStep(0, 0);
    assert [] + [false] + [false] + [false] + [false] == [false, false, false, false];
  }

  /** 11101100 and 00010001. */
  function PadByte(even: bool): (b: seq<bool>)
    ensures |b| == 8
  {
    if even then [true, true, true, false, true, true, false, false]
    else [false, false, false, true, false, false, false, true]
  }

  lemma PadLiterals()
    ensures Msb(236, 8) == PadByte(true) && Msb(17, 8) == PadByte(false)
  {
    hide Msb;
    MsbStep(236, 7); MsbStep(118, 6); MsbStep(59, 5); MsbStep(29, 4);
    MsbStep(14, 3); MsbStep(7, 2); MsbStep(3, 1); MsbStep(1, 0);
    assert [] + [true] + [true] + [true] + [false] + [true] + [true] + [false] + [false] == PadByte(true);
    MsbStep(17, 7); MsbStep(8, 6); MsbStep(4, 5); MsbStep(2, 4);
    MsbStep(1, 3); MsbStep(0, 2); MsbStep(0, 1); MsbStep(0, 0);
    assert [] + [false] + [false] + [false] + [true] + [false] + [false] + [false] + [true] == PadByte(false);
  }

  lemma PadUnfold(len: nat, cap: nat, first: bool)
    requires len < cap
    ensures PadBytes(len, cap, first) == PadByte(first) + PadBytes(len + 8, cap, !first)
  {
    PadLiterals();
    hide Msb; hide PadByte;
  }

  /** Pad bytes alternate, from the first whole byte behind the terminator. */
  lemma {:induction false} PadByteAt(len: nat, cap: nat, first: bool, k: nat)
    requires len + 8 * k < cap
    ensures 8 * k + 8 <= |PadBytes(len, cap, first)|
    ensures PadBytes(len, cap, first)[8 * k..8 * k + 8] == PadByte((k % 2 == 0) == first)
    decreases k
  {
    hide *;
    PadUnfold(len, cap, first);
    var head, rest := PadByte(first), PadBytes(len + 8, cap, !first);
    if k > 0 {
      PadByteAt(len + 8, cap, !first, k - 1);
      assert (head + rest)[8 * k..8 * k + 8] == rest[8 * (k - 1)..8 * (k - 1) + 8];
    } else {
      assert (head + rest)[..8] == head;
    }
  }

  lemma ModeBits()
    ensures Msb(1, 4) == [false, false, false, true] && Msb(2, 4) == [false, false, true, false]
    ensures Msb(4, 4) == [false, true, false, false] && Msb(8, 4) == [true, false, false, false]
  {
    hide Msb;
    MsbStep(8, 3); MsbStep(4, 2); MsbStep(2, 1); MsbStep(1, 0);
    assert [] + [true] + [false] + [false] + [false] == [true, false, false, false];
    MsbStep(4, 3); MsbStep(2, 2); MsbStep(1, 1); MsbStep(0, 0);
    assert [] + [false] + [true] + [false] + [false] == [false, true, false, false];
    MsbStep(2, 3); MsbStep(1, 2); MsbStep(0, 1);
    assert [] + [false] + [false] + [true] + [false] == [false, false, true, false];
    MsbStep(1, 3); MsbStep(0, 2);
    assert [] + [false] + [false] + [false] + [true] == [false, false, false, true];
  }

  // --- a reader ---

  /** The count fields of versions 1 to 9, 10 to 26 and 27 to 40, as a reader knows them. */
  function FieldWidth(mode: nat, version: nat): Option<nat> {
    if version < 1 || version > 40 then None
    else
      var range := if version <= 9 then 0 else if version <= 26 then 1 else 2;
      match mode
      case 1 => Some([10, 12, 14][range])
      case 2 => Some([9, 11, 13][range])
      case 4 => Some([8, 16, 16][range])
      case 8 => Some([8, 10, 12][range])
      case _ => None
  }

  lemma FieldWidths(mode: nat, version: nat)
    requires 1 <= version <= 40
    ensures CountWidth(mode, version) == FieldWidth(mode, version)
    ensures FieldWidth(mode, version).Some? ==> mode in {1, 2, 4, 8}
  {}

  /** A mode of four bits, a count of w bits read most significant first, the payload behind it. */
  predicate Laid(s: Segment, bits: seq<bool>, mode: seq<bool>, w: nat) {
    && |bits| == 4 + w + |s.payload| && bits[..4] == mode
    && MsbValue(bits[4..4 + w]) == s.count % Pow2(w) && bits[4 + w..] == s.payload
  }

  /** Where every mode's count and payload are, bit by bit. */
  lemma SegmentLayout(s: Segment, version: nat)
    requires 1 <= version <= 40 && CountWidth(s.mode, version).Some?
    ensures var b, low, high := SegmentBits(s, version), version <= 9, version >= 27;
            && (s.mode == 1 ==> Laid(s, b, [false, false, false, true], if low then 10 else if high then 14 else 12))
            && (s.mode == 2 ==> Laid(s, b, [false, false, true, false], if low then 9 else if high then 13 else 11))
            && (s.mode == 4 ==> Laid(s, b, [false, true, false, false], if low then 8 else 16))
            && (s.mode == 8 ==> Laid(s, b, [true, false, false, false], if low then 8 else if high then 12 else 10))
            && s.mode in {1, 2, 4, 8}
  {
    ModeBits();
    var w := CountWidth(s.mode, version).value;
    LowBits(s.count, w);
    hide Msb; hide MsbValue; hide Pow2;
    var b := SegmentBits(s, version);
    assert b[..4] == Msb(s.mode, 4) && b[4..4 + w] == Msb(s.count, w) && b[4 + w..] == s.payload;
  }

  lemma {:induction false} LowBits(t: nat, w: nat)
    ensures MsbValue(Msb(t, w)) == t % Pow2(w)
  {
    if w > 0 {
      LowBits(t / 2, w - 1);
      assert Msb(t, w)[..w - 1] == Msb(t / 2, w - 1);
      Halves(t, Pow2(w - 1));
    }
  }

  lemma Halves(t: nat, p: nat)
    requires p > 0
    ensures t % (2 * p) == 2 * (t / 2 % p) + t % 2
  {
    var h := t / 2;
    var q, m := h / p, h % p;
    assert h == p * q + m;
    assert t == 2 * p * q + (2 * m + t % 2);
    DivModUnique(t, 2 * p, q, 2 * m + t % 2);
  }

  lemma DivModUnique(t: nat, d: nat, q: nat, m: nat)
    requires d > 0 && m < d && t == d * q + m
    ensures t % d == m
  {
    var z := t / d;
    assert t == d * z + t % d;
    Multiples(d, z, q);
    Multiples(d, q, z);
  }

  lemma {:induction false} Multiples(d: nat, x: nat, y: nat)
    ensures x < y ==> d * x + d <= d * y
  {
    if x < y {
      Multiples(d, x, y - 1);
      Next(d, y - 1);
    }
  }

  lemma Next(d: nat, x: nat)
    ensures d * (x + 1) == d * x + d
  {}

  /** The bits of all segments, counted with the reader's field widths. */
  function Length(segs: seq<Segment>, version: nat): nat
    requires forall i :: 0 <= i < |segs| ==> FieldWidth(segs[i].mode, version).Some?
  {
    if segs == [] then 0
    else 4 + FieldWidth(segs[0].mode, version).value + |segs[0].payload| + Length(segs[1..], version)
  }

  lemma {:induction false} DataLength(segs: seq<Segment>, version: nat)
    requires 1 <= version <= 40
    ensures Writable(segs, version) <==> forall i :: 0 <= i < |segs| ==> FieldWidth(segs[i].mode, version).Some?
    ensures Writable(segs, version) ==> |DataBits(segs, version)| == Length(segs, version)
  {
    forall i | 0 <= i < |segs| ensures CountWidth(segs[i].mode, version) == FieldWidth(segs[i].mode, version) {
      FieldWidths(segs[i].mode, version);
    }
    hide CountWidth; hide FieldWidth;
    if segs != [] { DataLength(segs[1..], version); }
  }

  /** Segments up to a zero mode or fewer than four bits. */
  function Parse(bits: seq<bool>, version: nat): seq<Segment>
    decreases |bits|
  {
    if |bits| < 4 then [] else
      var mode := MsbValue(bits[..4]);
      var width := FieldWidth(mode, version);
      if width == None || |bits| < 4 + width.value then [] else
        var count := MsbValue(bits[4..4 + width.value]);
        var start := 4 + width.value;
        var end := start + PayloadWidth(mode, count);
        if |bits| < end then [] else [Segment(mode, count, bits[start..end])] + Parse(bits[end..], version)
  }

  lemma ParseStep(bits: seq<bool>, version: nat, s: Segment, w: nat, rest: seq<bool>)
    requires FieldWidth(s.mode, version) == Some(w) && |s.payload| == PayloadWidth(s.mode, s.count)
    requires |bits| == 4 + w + |s.payload| + |rest| && MsbValue(bits[..4]) == s.mode
    requires MsbValue(bits[4..4 + w]) == s.count && bits[4 + w..4 + w + |s.payload|] == s.payload
    requires bits[4 + w + |s.payload|..] == rest
    ensures Parse(bits, version) == [s] + Parse(rest, version)
  {
    hide MsbValue; hide FieldWidth; hide PayloadWidth;
  }

  lemma ParseOne(s: Segment, version: nat, rest: seq<bool>)
    requires ValidSegment(s, version)
    ensures Parse(SegmentBits(s, version) + rest, version) == [s] + Parse(rest, version)
  {
    FieldWidths(s.mode, version);
    assert s.mode in {1, 2, 4, 8};
    var w := CountWidth(s.mode, version).value;
    var bits := SegmentBits(s, version) + rest;
    hide Pow2; hide FieldWidth; hide CountWidth; hide PayloadWidth; hide Parse;
    SixteenIsPow2();
    MsbValueOf(s.mode, 4);
    MsbValueOf(s.count, w);
    hide Msb; hide MsbValue;
    assert bits[..4] == Msb(s.mode, 4);
    assert bits[4..4 + w] == Msb(s.count, w);
    assert bits[4 + w..4 + w + |s.payload|] == s.payload;
    assert bits[4 + w + |s.payload|..] == rest;
    ParseStep(bits, version, s, w, rest);
  }

  lemma SixteenIsPow2() ensures Pow2(4) == 16 {}

  lemma {:induction false} ParseStops(bits: seq<bool>, version: nat)
    requires |bits| >= 4 ==> bits[..4] == Msb(0, 4)
    ensures Parse(bits, version) == []
  {
    if |bits| >= 4 {
      SixteenIsPow2();
      MsbValueOf(0, 4);
    }
  }

  /** No padding is ever read back as data: exactly the segments return. */
  lemma {:induction false} SegmentsRecovered(segs: seq<Segment>, version: nat, pad: seq<bool>)
    requires ValidSegments(segs, version)
    requires |pad| >= 4 ==> pad[..4] == Msb(0, 4)
    ensures Parse(DataBits(segs, version) + pad, version) == segs
  {
    hide Parse; hide SegmentBits;
    if segs == [] {
      assert DataBits(segs, version) + pad == pad;
      ParseStops(pad, version);
    } else {
      var rest := DataBits(segs[1..], version) + pad;
      assert DataBits(segs, version) + pad == SegmentBits(segs[0], version) + rest;
      ParseOne(segs[0], version, rest);
      SegmentsRecovered(segs[1..], version, pad);
    }
  }

  lemma PaddingStops(bits: seq<bool>, cap: nat)
    requires cap % 8 == 0 && |bits| <= cap
    ensures var pad := Padded(bits, cap)[|bits|..];
            Padded(bits, cap) == bits + pad && (|pad| >= 4 ==> pad[..4] == Msb(0, 4))
  {
    PaddedFillsCapacity(bits, cap);
    hide Msb; hide PadBytes;
    var p := Padded(bits, cap);
    if cap - |bits| >= 4 {
      assert Terminated(bits, cap)[|bits|..|bits| + 4] == Msb(0, 4);
    }
  }

  /** The padded codewords read back as the segments that were put in. */
  lemma PaddedRoundTrip(segs: seq<Segment>, version: nat, cap: nat)
    requires ValidSegments(segs, version) && cap % 8 == 0 && |DataBits(segs, version)| <= cap
    ensures Parse(Padded(DataBits(segs, version), cap), version) == segs
  {
    hide Parse; hide Padded; hide DataBits; hide ValidSegments;
    var bits := DataBits(segs, version);
    PaddingStops(bits, cap);
    SegmentsRecovered(segs, version, Padded(bits, cap)[|bits|..]);
  }

  // --- createData ---

  /** The exceptions of `createData`. */
  datatype Failure = UnknownMode | Overflow

  /** The bit buffer `createData` fills. */
  method FillBuffer(segs: seq<Segment>, version: nat, dataCount: nat) returns (r: Result<BitBuffer, Failure>)
    ensures r == Err(UnknownMode) <==> !Writable(segs, version)
    ensures r == Err(Overflow) <==> Writable(segs, version) && |DataBits(segs, version)| > 8 * dataCount
    ensures 1 <= version <= 40 ==>
              var known := forall i :: 0 <= i < |segs| ==> FieldWidth(segs[i].mode, version).Some?;
              && (r == Err(UnknownMode) <==> !known)
              && (r == Err(Overflow) <==> known && Length(segs, version) > 8 * dataCount)
    ensures r.Ok? ==> fresh(r.value) && r.value.Valid()
    ensures r.Ok? ==> r.value.Bits() == Padded(DataBits(segs, version), 8 * dataCount)
  {
    hide *;
    if 1 <= version <= 40 { DataLength(segs, version); }
    var o := new BitBuffer();
    NoSegments(segs);
    for i := 0 to |segs|
      invariant fresh(o) && o.Valid() && (Writable(segs[i..], version) <==> Writable(segs, version))
      invariant Writable(segs, version) ==> o.Bits() + DataBits(segs[i..], version) == DataBits(segs, version)
    {
      NextSegment(segs, version, i);
      if CountWidth(segs[i].mode, version) == None { return Err(UnknownMode); }
      ghost var before := o.Bits();
      PutSegment(o, segs[i], version);
      assert Writable(segs, version) ==>
          o.Bits() + DataBits(segs[i + 1..], version)
          == before + (SegmentBits(segs[i], version) + DataBits(segs[i + 1..], version));
    }
    NoMoreSegments(segs, version);
    ghost var bits := o.Bits();
    assert bits == DataBits(segs, version);
    var cap := 8 * dataCount;
    if o.length > cap { return Err(Overflow); }
    Terminate(o, cap);
    TerminatedIsWhole(bits, cap);
    Pad(o, cap);
    PaddedIs(bits, cap);
    r := Ok(o);
  }

  lemma NoSegments(segs: seq<Segment>)
    ensures segs[0..] == segs
  {}

  lemma NoMoreSegments(segs: seq<Segment>, version: nat)
    ensures segs[|segs|..] == [] && Writable([], version) && DataBits([], version) == []
  {}

  lemma NextSegment(segs: seq<Segment>, version: nat, i: nat)
    requires i < |segs|
    ensures Writable(segs[i..], version) <==>
              CountWidth(segs[i].mode, version).Some? && Writable(segs[i + 1..], version)
    ensures Writable(segs[i..], version) ==>
              DataBits(segs[i..], version) == SegmentBits(segs[i], version) + DataBits(segs[i + 1..], version)
  {
    var s := segs[i..];
    assert s[0] == segs[i] && s[1..] == segs[i + 1..];
    assert forall k :: 0 < k < |s| ==> s[k] == s[1..][k - 1];
  }

  lemma TerminatedIsWhole(bits: seq<bool>, cap: nat)
    ensures |Terminated(bits, cap)| % 8 == 0
  {}

  lemma PaddedIs(bits: seq<bool>, cap: nat)
    ensures Padded(bits, cap) == Terminated(bits, cap) + PadBytes(|Terminated(bits, cap)|, cap, true)
  {}

  /** The terminator, when there is room for it, and zeros up to a byte boundary. */
  method Terminate(o: BitBuffer, cap: nat)
    requires o.Valid()
    modifies o
    ensures o.Valid() && o.Bits() == Terminated(old(o.Bits()), cap)
  {
    hide *;
    ghost var bits := o.Bits();
    if o.length + 4 <= cap { o.Put(0, 4); }
    AlignToByte(o);
    TerminatedIs(bits, cap);
  }

  lemma TerminatedIs(bits: seq<bool>, cap: nat)
    ensures var t := bits + if |bits| + 4 <= cap then Msb(0, 4) else [];
            Terminated(bits, cap) == t + Falses(Padding(|t|))
  {
    assert bits + [] == bits;
  }

  lemma PaddingIsLeast(n: nat, k: nat)
    requires k <= Padding(n)
    ensures (n + k) % 8 == 0 <==> k == Padding(n)
  {}

  method AlignToByte(o: BitBuffer)
    requires o.Valid()
    modifies o
    ensures o.Valid() && o.Bits() == old(o.Bits()) + Falses(Padding(|old(o.Bits())|))
  {
    ghost var t, k: nat := o.Bits(), 0;
    assert t + Falses(0) == t;
    PaddingIsLeast(|t|, 0);
    hide *;
    while o.length % 8 != 0
      invariant o.Valid() && o.length == |t| + k && k <= Padding(|t|)
      invariant o.Bits() == t + Falses(k)
      decreases Padding(|t|) - k
    {
      PaddingIsLeast(|t|, k);
      o.PutBit(false);
      OneMoreFalse(k);
      k := k + 1;
    }
    PaddingIsLeast(|t|, k);
  }

  lemma OneMoreFalse(k: nat)
    ensures Falses(k) + [false] == Falses(k + 1)
  {}

  method PutSegment(o: BitBuffer, a: Segment, version: nat)
    requires o.Valid() && CountWidth(a.mode, version).Some?
    modifies o
    ensures o.Valid() && o.Bits() == old(o.Bits()) + SegmentBits(a, version)
  {
    hide Msb; hide FirstBits; hide ZeroAfter;
    o.Put(a.mode, 4);
    o.Put(a.count, CountWidth(a.mode, version).value);
    for n := 0 to |a.payload|
      invariant o.Valid()
      invariant o.Bits()
             == old(o.Bits()) + Msb(a.mode, 4) + Msb(a.count, CountWidth(a.mode, version).value) + a.payload[..n]
    {
      o.PutBit(a.payload[n]);
    }
  }

  method Pad(o: BitBuffer, cap: nat)
    requires o.Valid() && o.length % 8 == 0 && cap % 8 == 0
    modifies o
    ensures o.Valid() && o.Bits() == old(o.Bits()) + PadBytes(|old(o.Bits())|, cap, true)
  {
    hide Msb; hide FirstBits; hide ZeroAfter;
    while true
      invariant o.Valid()
      invariant o.Bits() + PadBytes(o.length, cap, true) == old(o.Bits()) + PadBytes(|old(o.Bits())|, cap, true)
      decreases cap - o.length
    {
      if o.length >= cap { break; }
      ghost var b := o.Bits();
      o.Put(236, 8);
      assert PadBytes(|b|, cap, true) == Msb(236, 8) + PadBytes(|b| + 8, cap, false);
      if o.length >= cap { break; }
      o.Put(17, 8);
      assert PadBytes(|b| + 8, cap, false) == Msb(17, 8) + PadBytes(|b| + 16, cap, true);
    }
  }

  // --- byte mode, the mode the page uses ---

  /** What a byte segment writes: eight bits for every byte. */
  function BytePayload(data: seq<Byte>): (p: seq<bool>)
    ensures |p| == PayloadWidth(BYTE, |data|)
  {
    if data == [] then [] else Msb(data[0], 8) + BytePayload(data[1..])
  }

  function PayloadBytes(p: seq<bool>): seq<nat>
    decreases |p|
  {
    if |p| < 8 then [] else [MsbValue(p[..8])] + PayloadBytes(p[8..])
  }

  lemma {:induction false} BytesRecovered(data: seq<Byte>)
    ensures PayloadBytes(BytePayload(data)) == data
  {
    if data != [] {
      var p := BytePayload(data);
      BytesRecovered(data[1..]);
      assert Pow2(8) == 256;
      MsbValueOf(data[0], 8);
      hide Msb; hide MsbValue;
      assert p[..8] == Msb(data[0], 8) && p[8..] == BytePayload(data[1..]);
    }
  }
}
