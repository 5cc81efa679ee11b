/** WebSocket framing, sections 5.2 and 5.3 of RFC 6455: the frame reader and the frame writer. */
module WebSocket {
  import opened Wrappers
  import opened BitStream
  import opened Bytes

  /** Which of the three length encodings a frame uses. */
  datatype Size = Seven | Sixteen | SixtyFour

  /** One frame; `first` holds the opcode in its low four bits, `payload` is the plain text under the mask. */
  datatype Frame = Frame(first: Byte, size: Size, mask: Option<seq<Byte>>, payload: seq<Byte>)

  const MAX_LENGTH := 0x8000_0000_0000_0000

  predicate Valid(f: Frame) {
    && (f.mask.Some? ==> |f.mask.value| == 4)
    && |f.payload| < match f.size case Seven => 126 case Sixteen => 65536 case SixtyFour => MAX_LENGTH
  }

  /** Applying a mask; applying it again takes it off. */
  function Masked(mask: Option<seq<Byte>>, p: seq<Byte>): (q: seq<Byte>)
    requires mask.Some? ==> |mask.value| == 4
    ensures |q| == |p|
  {
    if mask == None then p else seq(|p|, i requires 0 <= i < |p| => Xor(p[i], mask.value[i % 4]))
  }

  lemma MaskedTwice(mask: Option<seq<Byte>>, p: seq<Byte>)
    requires mask.Some? ==> |mask.value| == 4
    ensures Masked(mask, Masked(mask, p)) == p
  {
    hide Xor;
    if mask.Some? {
      forall i | 0 <= i < |p| ensures Masked(mask, Masked(mask, p))[i] == p[i] { XorTwice(p[i], mask.value[i % 4]); }
    }
  }

  /** Every bit of a payload byte differs from the wire exactly where the mask byte of its position has a bit. */
  lemma MaskedBit(m: seq<Byte>, p: seq<Byte>, i: nat, k: nat)
    requires |m| == 4 && i < |p| && k < 8
    ensures Bit(Masked(Some(m), p)[i], k) <==> Bit(p[i], k) != Bit(m[i % 4], k)
    ensures Masked(None, p) == p
  {
    hide Bit; hide Xor;
    XorBit(p[i], m[i % 4], k);
  }

  function ExtLen(size: Size): nat { match size case Seven => 0 case Sixteen => 2 case SixtyFour => 8 }

  function LengthByte(f: Frame): Byte
    requires Valid(f)
  {
    (match f.size case Seven => |f.payload| case Sixteen => 126 case SixtyFour => 127)
      + if f.mask.Some? then 128 else 0
  }

  function MaskBytes(f: Frame): seq<Byte> { if f.mask.Some? then f.mask.value else [] }

  /** The bytes of a frame on the wire. */
  function Serialize(f: Frame): seq<Byte>
    requires Valid(f)
  {
    [f.first, LengthByte(f)] + BigEndian(|f.payload|, ExtLen(f.size)) + MaskBytes(f) + Masked(f.mask, f.payload)
  }

  lemma SplitNumber(n: nat)
    ensures n < 0x1_0000 ==> BigEndian(n, 2) == [n / 256, n % 256]
    ensures BigEndian(n, 0) == []
  {
    BigEndianLiterals();
  }

  /** The wire format written out: mask bit 128, lengths 126 and 127 announce the longer ones, the mask comes last. */
  lemma WireFormat(f: Frame)
    requires Valid(f)
    ensures var s, b: nat, n := Serialize(f), if f.mask.Some? then 128 else 0, |f.payload|;
            var m := if f.mask.Some? then f.mask.value else [];
            && s[0] == f.first
            && (f.size == Seven ==> n < 126 && s == [f.first, b + n] + m + Masked(f.mask, f.payload))
            && (f.size == Sixteen ==> n < 0x1_0000)
            && (f.size == Sixteen ==> s == [f.first, b + 126, n / 256, n % 256] + m + Masked(f.mask, f.payload))
            && (f.size == SixtyFour ==> s == [f.first, b + 127] + BigEndian(n, 8) + m + Masked(f.mask, f.payload))
  {
    SplitNumber(|f.payload|);
    hide BigEndian; hide Masked;
    var h, m, p := [f.first, LengthByte(f)], MaskBytes(f), Masked(f.mask, f.payload);
    if f.size == Sixteen {
      var n := |f.payload|;
      assert h + [n / 256, n % 256] == [f.first, LengthByte(f), n / 256, n % 256];
    } else if f.size == Seven {
      assert h + [] == h;
    }
  }

  // --- reading one frame ---

  datatype Reading = Got(frame: Frame, rest: seq<Byte>) | Short | TooLong(rest: seq<Byte>)

  function SizeOf(b: Byte): Size { if b % 128 == 126 then Sixteen else if b % 128 == 127 then SixtyFour else Seven }

  function MaskLen(b: Byte): nat { if b >= 128 then 4 else 0 }

  /** Where the payload starts, from the second byte. */
  function Start(b: Byte): nat { 2 + ExtLen(SizeOf(b)) + MaskLen(b) }

  /** The payload length of a whole header. */
  function Length(s: seq<Byte>): nat
    requires |s| >= 2 && |s| >= Start(s[1])
  {
    if SizeOf(s[1]) == Seven then s[1] % 128 else Number(s[2..2 + ExtLen(SizeOf(s[1]))])
  }

  function MaskOf(s: seq<Byte>): (m: Option<seq<Byte>>)
    requires |s| >= 2 && |s| >= Start(s[1])
    ensures m.Some? ==> |m.value| == 4
  {
    if s[1] >= 128 then Some(s[Start(s[1]) - 4..Start(s[1])]) else None
  }

  function ReadFrame(s: seq<Byte>): Reading {
    if |s| < 2 || |s| < Start(s[1]) then Short
    else
      var at, n, mask := Start(s[1]), Length(s), MaskOf(s);
      if n >= MAX_LENGTH then TooLong(s[at..])
      else if |s| < at + n then Short
      else Got(Frame(s[0], SizeOf(s[1]), mask, Masked(mask, s[at..at + n])), s[at + n..])
  }

  lemma SecondByte(f: Frame)
    requires Valid(f)
    ensures SizeOf(LengthByte(f)) == f.size && (LengthByte(f) >= 128 <==> f.mask.Some?)
    ensures f.size == Seven ==> LengthByte(f) % 128 == |f.payload|
  {}

  lemma Powers()
    ensures Pow256(2) == 65536 && Pow256(8) == 2 * MAX_LENGTH
  {
    assert Pow256(2) == 256 * Pow256(1) && Pow256(4) == 256 * (256 * Pow256(2))
        && Pow256(8) == 256 * (256 * (256 * (256 * Pow256(4))));
  }

  lemma Slices(h: seq<Byte>, e: seq<Byte>, m: seq<Byte>, p: seq<Byte>, rest: seq<Byte>)
    ensures var s, i := h + e + m + p + rest, |h| + |e|;
            && s[..|h|] == h && s[|h|..i] == e && s[i..i + |m|] == m
            && s[i + |m|..i + |m| + |p|] == p && s[i + |m| + |p|..] == rest
  {}

  lemma HeaderOf(f: Frame, rest: seq<Byte>)
    requires Valid(f)
    ensures var s, at := Serialize(f) + rest, Start(LengthByte(f));
            && |s| >= at + |f.payload| && s[0] == f.first && s[1] == LengthByte(f)
            && s[2..2 + ExtLen(f.size)] == BigEndian(|f.payload|, ExtLen(f.size))
            && (f.mask.Some? ==> s[at - 4..at] == f.mask.value)
            && s[at..at + |f.payload|] == Masked(f.mask, f.payload) && s[at + |f.payload|..] == rest
  {
    SecondByte(f);
    var h := [f.first, LengthByte(f)];
    Slices(h, BigEndian(|f.payload|, ExtLen(f.size)), MaskBytes(f), Masked(f.mask, f.payload), rest);
    hide SizeOf; hide LengthByte; hide BigEndian; hide Masked; hide ExtLen;
    assert (Serialize(f) + rest)[..2][0] == f.first && (Serialize(f) + rest)[..2][1] == LengthByte(f);
  }

  lemma LengthOf(f: Frame, s: seq<Byte>)
    requires Valid(f) && |s| >= Start(LengthByte(f)) && s[1] == LengthByte(f)
    requires s[2..2 + ExtLen(f.size)] == BigEndian(|f.payload|, ExtLen(f.size))
    ensures Length(s) == |f.payload|
  {
    SecondByte(f);
    Powers();
    hide LengthByte; hide BigEndian; hide Number; hide Pow256; hide SizeOf;
    if f.size != Seven { NumberOfBigEndian(|f.payload|, ExtLen(f.size)); }
  }

  /** A frame is read back whole, whatever follows it. */
  lemma ReadSerialized(f: Frame, rest: seq<Byte>)
    requires Valid(f)
    ensures ReadFrame(Serialize(f) + rest) == Got(f, rest)
  {
    var s, at := Serialize(f) + rest, Start(LengthByte(f));
    HeaderOf(f, rest);
    SecondByte(f);
    hide Serialize; hide LengthByte; hide BigEndian; hide Masked; hide SizeOf;
    LengthOf(f, s);
    MaskedTwice(f.mask, f.payload);
    assert MaskOf(s) == f.mask;
  }

  lemma Pieces(s: seq<Byte>, i: nat, j: nat, k: nat)
    requires 2 <= i <= j <= k <= |s|
    ensures s == [s[0], s[1]] + s[2..i] + s[i..j] + s[j..k] + s[k..]
  {}

  /** The length fits its encoding, and encodes back to the bytes it came from. */
  lemma LengthBytes(s: seq<Byte>)
    requires |s| >= 2 && |s| >= Start(s[1]) && Length(s) < MAX_LENGTH
    ensures var z, n := SizeOf(s[1]), Length(s);
            && n < (match z case Seven => 126 case Sixteen => 65536 case SixtyFour => MAX_LENGTH)
            && BigEndian(n, ExtLen(z)) == s[2..2 + ExtLen(z)]
            && s[1] == (match z case Seven => n case Sixteen => 126 case SixtyFour => 127) 
                     + if s[1] >= 128 then 128 else 0
  {
    var e := s[2..2 + ExtLen(SizeOf(s[1]))];
    BigEndianOfNumber(e);
    Powers();
    hide Number; hide Pow256;
    if SizeOf(s[1]) != Seven { hide BigEndian; }
  }

  /** Whatever is read was the serialized frame, followed by what is left. */
  lemma SerializeRead(s: seq<Byte>, f: Frame, rest: seq<Byte>)
    requires ReadFrame(s) == Got(f, rest)
    ensures Valid(f) && s == Serialize(f) + rest
  {
    var at, n := Start(s[1]), Length(s);
    LengthBytes(s);
    MaskedTwice(MaskOf(s), s[at..at + n]);
    hide BigEndian; hide Masked; hide SizeOf; hide ExtLen; hide Length;
    Pieces(s, 2 + ExtLen(SizeOf(s[1])), at, at + n);
    assert s[at - MaskLen(s[1])..at] == MaskBytes(f);
  }

  /** Reading a stream yields a frame exactly when the stream starts with that frame. */
  lemma ReadIsParse(s: seq<Byte>, f: Frame, rest: seq<Byte>)
    ensures ReadFrame(s) == Got(f, rest) <==> Valid(f) && s == Serialize(f) + rest
  {
    if ReadFrame(s) == Got(f, rest) { SerializeRead(s, f, rest); }
    if Valid(f) && s == Serialize(f) + rest { ReadSerialized(f, rest); }
  }

  lemma SamePrefix(s: seq<Byte>, k: nat)
    requires k <= |s| && k >= 2 && k >= Start(s[1])
    ensures Length(s[..k]) == Length(s)
  {
    hide Number;
    var e := ExtLen(SizeOf(s[1]));
    assert s[..k][2..2 + e] == s[2..2 + e];
  }

  /** More input does not change a frame already complete. */
  lemma GotExtends(s: seq<Byte>, k: nat, f: Frame, rest: seq<Byte>)
    requires k <= |s| && ReadFrame(s[..k]) == Got(f, rest)
    ensures ReadFrame(s) == Got(f, rest + s[k..])
  {
    hide *;
    SerializeRead(s[..k], f, rest);
    ReadSerialized(f, rest + s[k..]);
    assert Serialize(f) + (rest + s[k..]) == s[..k] + s[k..] == s;
  }

  lemma TooLongExtends(s: seq<Byte>, k: nat)
    requires k <= |s| && ReadFrame(s[..k]).TooLong?
    ensures ReadFrame(s).TooLong?
  {
    hide Length; hide Masked; hide ExtLen; hide SizeOf;
    SamePrefix(s, k);
  }

  /** A frame cut off anywhere is never read as a frame. */
  lemma CutFrameIsShort(f: Frame, k: nat)
    requires Valid(f) && k < |Serialize(f)|
    ensures ReadFrame(Serialize(f)[..k]) == Short
  {
    hide *;
    var s := Serialize(f);
    ReadSerialized(f, []);
    assert s + [] == s;
    match ReadFrame(s[..k]) {
      case Got(g, rest) => GotExtends(s, k, g, rest);
      case TooLong(_) => TooLongExtends(s, k);
      case Short =>
    }
  }

  // --- writing one frame ---

  function SizeFor(n: nat): Size { if n < 126 then Seven else if n < 65536 then Sixteen else SixtyFour }

  /** The frame the writer sends: final, unmasked, the shortest length encoding. */
  function Sent(opcode: Byte, payload: seq<Byte>): Frame {
    Frame(if opcode >= 128 then opcode else 128 + opcode, SizeFor(|payload|), None, payload)
  }

  function Opcode(f: Frame): nat { f.first % 16 }

  /** What the writer writes, the reader reads back: opcode and payload, in every length class. */
  lemma WrittenIsRead(opcode: Byte, payload: seq<Byte>, rest: seq<Byte>)
    requires opcode < 16 && |payload| < MAX_LENGTH
    ensures var f := Sent(opcode, payload);
            && Valid(f) && ReadFrame(Serialize(f) + rest) == Got(f, rest)
            && Opcode(f) == opcode && f.payload == payload
  {
    hide ReadFrame; hide Serialize;
    ReadSerialized(Sent(opcode, payload), rest);
  }

  /** A sent frame byte by byte: the final bit and the opcode, no mask, the shortest length, the payload as it is. */
  lemma SentBytes(opcode: Byte, payload: seq<Byte>)
    requires opcode < 16 && |payload| < MAX_LENGTH
    ensures var s, n := Serialize(Sent(opcode, payload)), |payload|;
            && (n < 126 ==> s == [128 + opcode, n] + payload)
            && (126 <= n < 0x1_0000 ==> s == [128 + opcode, 126, n / 256, n % 256] + payload)
            && (n >= 0x1_0000 ==> s == [128 + opcode, 127] + BigEndian(n, 8) + payload)
  {
    var f, n := Sent(opcode, payload), |payload|;
    WireFormat(f);
    MaskedBit0(payload);
    hide Serialize; hide Masked; hide BigEndian;
    assert [128 + opcode, n] + [] == [128 + opcode, n];
    assert [128 + opcode, 126, n / 256, n % 256] + [] == [128 + opcode, 126, n / 256, n % 256];
    assert [128 + opcode, 127] + BigEndian(n, 8) + [] == [128 + opcode, 127] + BigEndian(n, 8);
  }

  lemma MaskedBit0(p: seq<Byte>)
    ensures Masked(None, p) == p
  {}

  // --- reading one message ---

  datatype Outcome = Message(payload: seq<Byte>) | Closed | ReadError | BadLength

  /** The outcome, the unread input, and the payloads of the pongs written meanwhile. */
  datatype Received = Received(outcome: Outcome, rest: seq<Byte>, pongs: seq<seq<Byte>>)

  predicate IsData(f: Frame) { Opcode(f) == 1 || Opcode(f) == 2 }

  predicate IsClose(f: Frame) { Opcode(f) == 8 }

  predicate IsPing(f: Frame) { Opcode(f) == 9 }

  lemma ReadShrinks(s: seq<Byte>)
    ensures ReadFrame(s).Got? ==> |ReadFrame(s).rest| < |s| && |ReadFrame(s).frame.payload| < MAX_LENGTH
  {
    hide SizeOf; hide Masked; hide Length; hide MaskOf;
  }

  predicate AllFit(pongs: seq<seq<Byte>>) { forall i :: 0 <= i < |pongs| ==> |pongs[i]| < MAX_LENGTH }

  function Receive(s: seq<Byte>): (r: Received)
    ensures AllFit(r.pongs)
    decreases |s|
  {
    ReadShrinks(s);
    match ReadFrame(s)
    case Short => Received(ReadError, [], [])
    case TooLong(rest) => Received(BadLength, rest, [])
    case Got(f, rest) =>
      if IsData(f) then Received(Message(f.payload), rest, [])
      else if IsClose(f) then Received(Closed, rest, [])
      else
        var r := Receive(rest);
        if IsPing(f) then r.(pongs := [f.payload] + r.pongs) else r
  }

  predicate AllValid(fs: seq<Frame>) { forall i :: 0 <= i < |fs| ==> Valid(fs[i]) }

  function Stream(fs: seq<Frame>): seq<Byte>
    requires AllValid(fs)
  {
    if fs == [] then [] else Serialize(fs[0]) + Stream(fs[1..])
  }

  function PingPayloads(fs: seq<Frame>): seq<seq<Byte>> {
    if fs == [] then [] else (if IsPing(fs[0]) then [fs[0].payload] else []) + PingPayloads(fs[1..])
  }

  predicate Control(fs: seq<Frame>) { forall i :: 0 <= i < |fs| ==> !IsData(fs[i]) && !IsClose(fs[i]) }

  /** The first data frame is returned unmasked and consumed exactly; every earlier ping is answered in order. */
  lemma {:induction false} FirstDataFrame(before: seq<Frame>, f: Frame, rest: seq<Byte>)
    requires AllValid(before) && Control(before) && Valid(f) && (IsData(f) || IsClose(f))
    ensures Receive(Stream(before) + Serialize(f) + rest)
              == Received(if IsData(f) then Message(f.payload) else Closed, rest, PingPayloads(before))
  {
    hide ReadFrame; hide Serialize; hide Valid; hide IsPing; hide IsData; hide IsClose;
    if before == [] {
      ReadSerialized(f, rest);
      assert Stream(before) + Serialize(f) + rest == Serialize(f) + rest;
    } else {
      var tail := Stream(before[1..]) + Serialize(f) + rest;
      FirstDataFrame(before[1..], f, rest);
      ReadSerialized(before[0], tail);
      assert Stream(before) + Serialize(f) + rest == Serialize(before[0]) + tail;
    }
  }

  /** The frames passed over, and the stream from the frame that ended the reading. */
  ghost function Passed(s: seq<Byte>): (seq<Frame>, seq<Byte>)
    decreases |s|
  {
    ReadShrinks(s);
    match ReadFrame(s)
    case Got(f, rest) => if IsData(f) || IsClose(f) then ([], s) else ([f] + Passed(rest).0, Passed(rest).1)
    case _ => ([], s)
  }

  lemma {:induction false} PassedOver(s: seq<Byte>)
    ensures var before := Passed(s).0;
            && AllValid(before) && Control(before)
            && s == Stream(before) + Passed(s).1 && Receive(s).pongs == PingPayloads(before)
    ensures var r := Receive(s); match ReadFrame(Passed(s).1)
              case Short => r.outcome == ReadError
              case TooLong(rest) => r.outcome == BadLength && r.rest == rest
              case Got(f, rest) =>
                && r.rest == rest
                && if IsData(f) then r.outcome == Message(f.payload) else IsClose(f) && r.outcome == Closed
    decreases |s|
  {
    hide Serialize; hide Valid; hide IsPing; hide IsData; hide IsClose;
    ReadShrinks(s);
    match ReadFrame(s) {
      case Got(g, rest) =>
        SerializeRead(s, g, rest);
        hide ReadFrame;
        if !IsData(g) && !IsClose(g) {
          PassedOver(rest);
          AddPassed(g, Passed(rest).0, rest, Passed(rest).1);
        } else {
          assert s == Stream([]) + s;
        }
      case _ =>
        assert s == Stream([]) + s;
    }
  }

  lemma AddPassed(g: Frame, before: seq<Frame>, rest: seq<Byte>, last: seq<Byte>)
    requires Valid(g) && AllValid(before) && Control(before) && !IsData(g) && !IsClose(g)
        && rest == Stream(before) + last
    ensures AllValid([g] + before) && Control([g] + before) && Serialize(g) + rest == Stream([g] + before) + last
    ensures PingPayloads([g] + before) == (if IsPing(g) then [g.payload] else []) + PingPayloads(before)
  {
    hide Serialize; hide Valid; hide IsPing; hide IsData; hide IsClose;
    assert ([g] + before)[1..] == before;
    assert Serialize(g) + (Stream(before) + last) == Serialize(g) + Stream(before) + last;
  }

  /** Conversely, a message received was the first data frame of the stream, and everything before it was passed over
   whole. */
  lemma MessageWasSent(s: seq<Byte>, payload: seq<Byte>)
    requires Receive(s).outcome == Message(payload)
    ensures exists before, f :: AllValid(before) && Control(before) && Valid(f) && IsData(f) && f.payload == payload
              && s == Stream(before) + Serialize(f) + Receive(s).rest && Receive(s).pongs == PingPayloads(before)
  {
    PassedOver(s);
    hide *;
    var last := Passed(s).1;
    var f, rest := ReadFrame(last).frame, ReadFrame(last).rest;
    SerializeRead(last, f, rest);
    assert s == Stream(Passed(s).0) + Serialize(f) + Receive(s).rest;
  }

  // --- the connection ---

  /** The pongs on the wire, in order. */
  function PongBytes(pongs: seq<seq<Byte>>): (s: seq<Byte>)
    requires AllFit(pongs)
  {
    if pongs == [] then [] else PongBytes(pongs[..|pongs| - 1]) + Serialize(Sent(0xA, pongs[|pongs| - 1]))
  }

  /** XORs the payload with the mask, in place. */
  method Unmask(payload: array<Byte>, mask: seq<Byte>)
    requires |mask| == 4
    modifies payload
    ensures payload[..] == Masked(Some(mask), old(payload[..]))
  {
    hide Xor;
    for i := 0 to payload.Length
      invariant forall k :: 0 <= k < i ==> payload[k] == Xor(old(payload[k]), mask[k % 4])
      invariant forall k :: i <= k < payload.Length ==> payload[k] == old(payload[k])
    {
      payload[i] := Xor(payload[i], mask[i % 4]);
    }
  }

  /** Opcodes 1 and 2 carry data, 8 closes, 9 asks for a pong of opcode 10, and all others are passed over. */
  lemma Opcodes(f: Frame, rest: seq<Byte>)
    requires Valid(f)
    ensures var r, op := Receive(Serialize(f) + rest), f.first % 16;
            && (op == 1 || op == 2 ==> r == Received(Message(f.payload), rest, []))
            && (op == 8 ==> r == Received(Closed, rest, []))
            && (op == 9 ==> r.outcome == Receive(rest).outcome && r.rest == Receive(rest).rest
                            && r.pongs == [f.payload] + Receive(rest).pongs)
            && (op !in {1, 2, 8, 9} ==> r == Receive(rest))
    ensures |f.payload| < MAX_LENGTH && AllFit([f.payload])
    ensures |f.payload| < 126 ==> PongBytes([f.payload]) == [0x8A, |f.payload|] + f.payload
  {
    ReadSerialized(f, rest);
    OnePong(f.payload);
    SentBytes(0xA, f.payload);
    hide ReadFrame; hide Serialize; hide PongBytes;
  }

  /** What one frame does: the outcome if it ends the reading, and the input left. */
  function After(s: seq<Byte>): (Option<Outcome>, seq<Byte>) {
    match ReadFrame(s)
    case Short => (Some(ReadError), [])
    case TooLong(rest) => (Some(BadLength), rest)
    case Got(f, rest) =>
      (if IsData(f) then Some(Message(f.payload)) else if IsClose(f) then Some(Closed) else None, rest)
  }

  /** The pong one frame asks for. */
  function Answered(s: seq<Byte>): (pongs: seq<seq<Byte>>)
    ensures AllFit(pongs)
  {
    ReadShrinks(s);
    match ReadFrame(s)
    case Got(f, _) => if IsPing(f) then [f.payload] else []
    case _ => []
  }

  function Resume(pongs: seq<seq<Byte>>, r: Received): Received { r.(pongs := pongs + r.pongs) }

  lemma NoPongs()
    ensures AllFit([]) && PongBytes([]) == []
  {}

  lemma OnePong(p: seq<Byte>)
    requires |p| < MAX_LENGTH
    ensures AllFit([p]) && PongBytes([p]) == Serialize(Sent(0xA, p))
  {
    hide Serialize;
    assert [p][..0] == [];
  }

  lemma Resumed(s: seq<Byte>)
    ensures Receive(s) == Resume([], Receive(s))
  {
    hide Receive;
    assert [] + Receive(s).pongs == Receive(s).pongs;
  }

  lemma {:induction false} PongsConcat(a: seq<seq<Byte>>, b: seq<seq<Byte>>)
    requires AllFit(a) && AllFit(b)
    ensures AllFit(a + b) && PongBytes(a + b) == PongBytes(a) + PongBytes(b)
  {
    hide Serialize;
    if b == [] {
      assert a + b == a;
    } else {
      PongsConcat(a, b[..|b| - 1]);
      assert (a + b)[..|a + b| - 1] == a + b[..|b| - 1];
    }
  }

  lemma ReceiveStep(s: seq<Byte>)
    ensures var (e, rest) := After(s);
            && (e.Some? ==> Receive(s) == Received(e.value, rest, Answered(s)))
            && (e == None ==> |rest| < |s| && Receive(s) == Resume(Answered(s), Receive(rest)))
  {
    ReadShrinks(s);
    hide ReadFrame;
    if ReadFrame(s).Got? && After(s).0 == None && !IsPing(ReadFrame(s).frame) { Resumed(ReadFrame(s).rest); }
  }

  lemma ResumeResumes(a: seq<seq<Byte>>, b: seq<seq<Byte>>, r: Received)
    ensures Resume(a, Resume(b, r)) == Resume(a + b, r)
    ensures Resume(a, r.(pongs := b)) == r.(pongs := a + b)
  {
    assert a + (b + r.pongs) == a + b + r.pongs;
  }

  /** One frame's part in the whole reading. */
  lemma NextPongs(s: seq<Byte>, pongs: seq<seq<Byte>>)
    requires AllFit(pongs)
    ensures AllFit(pongs + Answered(s)) && PongBytes(pongs + Answered(s)) == PongBytes(pongs) + PongBytes(Answered(s))
    ensures After(s).0.Some? ==>
              Resume(pongs, Receive(s)) == Received(After(s).0.value, After(s).1, pongs + Answered(s))
    ensures After(s).0 == None ==>
              |After(s).1| < |s| && Resume(pongs, Receive(s)) == Resume(pongs + Answered(s), Receive(After(s).1))
  {
    hide *;
    PongsConcat(pongs, Answered(s));
    ReceiveStep(s);
    if After(s).0 == None {
      ResumeResumes(pongs, Answered(s), Receive(After(s).1));
    } else {
      ResumeResumes(pongs, Answered(s), Receive(s));
    }
  }

  class Conn {
    var input: seq<Byte>
    var output: seq<Byte>

    constructor (stream: seq<Byte>)
      ensures input == stream && output == []
    {
      input, output := stream, [];
    }

    /** Reads exactly n bytes, or fails having used up the stream. */
    method ReadFull(n: nat) returns (r: Option<seq<Byte>>)
      modifies this`input
      ensures if n <= |old(input)| then r == Some(old(input)[..n]) && input == old(input)[n..]
              else r == None && input == []
    {
      if n <= |input| {
        r, input := Some(input[..n]), input[n..];
      } else {
        r, input := None, [];
      }
    }

    /** The header: first byte, announced length, mask. */
    method ReadHeader() returns (r: Option<(Byte, Size, nat, Option<seq<Byte>>)>)
      modifies this`input
      ensures r == None <==> |old(input)| < 2 || |old(input)| < Start(old(input)[1])
      ensures r == None ==> input == []
      ensures r.Some? ==>
                && r.value == (old(input)[0], SizeOf(old(input)[1]), Length(old(input)), MaskOf(old(input)))
                && input == old(input)[Start(old(input)[1])..]
    {
      hide Number;
      ghost var s := input;
      var h := ReadFull(2);
      if h == None { return None; }
      assert s[2..][..0] == [];
      var n, size := h.value[1] % 128, Seven;
      if n == 126 {
        var ext := ReadFull(2);
        if ext == None { return None; }
        n, size := Number(ext.value), Sixteen;
        assert s[2..][..2] == s[2..4];
      } else if n == 127 {
        var ext := ReadFull(8);
        if ext == None { return None; }
        n, size := Number(ext.value), SixtyFour;
        assert s[2..][..8] == s[2..10];
      }
      ghost var e := 2 + ExtLen(size);
      assert input == s[e..];
      var mask := None;
      if h.value[1] >= 128 {
        var m := ReadFull(4);
        if m == None { return None; }
        mask := m;
        assert s[e..][..4] == s[e..e + 4] && s[e..][4..] == s[e + 4..];
      }
      return Some((h.value[0], size, n, mask));
    }

    /** The payload, unmasked in place. */
    method ReadPayload(n: nat, mask: Option<seq<Byte>>) returns (r: Option<seq<Byte>>)
      requires mask.Some? ==> |mask.value| == 4
      modifies this`input
      ensures if n <= |old(input)| then r == Some(Masked(mask, old(input)[..n])) && input == old(input)[n..]
              else r == None && input == []
    {
      var got := ReadFull(n);
      if got == None { return None; }
      var payload := new Byte[n];
      CopyInto(payload, got.value);
      if mask.Some? { Unmask(payload, mask.value); }
      return Some(payload[..]);
    }

    method WriteFrame(opcode: Byte, payload: seq<Byte>)
      requires |payload| < MAX_LENGTH
      modifies this`output
      ensures output == old(output) + Serialize(Sent(opcode, payload))
    {
      hide BigEndian;
      var n := |payload|;
      var hdr: seq<Byte> := [if opcode >= 128 then opcode else 128 + opcode];
      if n < 126 {
        hdr := hdr + [n];
        NoBytes(n);
      } else if n < 65536 {
        hdr := hdr + [126] + BigEndian(n, 2);
      } else {
        hdr := hdr + [127] + BigEndian(n, 8);
      }
      output := output + hdr;
      output := output + payload;
      assert hdr + payload == Serialize(Sent(opcode, payload));
    }


    /** Reads one frame and, unless it ends the message, answers it. */
    method ReadOne() returns (r: Option<Outcome>)
      modifies this
      ensures input == After(old(input)).1 && r == After(old(input)).0
      ensures output == old(output) + PongBytes(Answered(old(input)))
    {
      ghost var s, o := input, output;
      assert o + [] == o;
      var h := ReadHeader();
      if h == None { return Some(ReadError); }
      var (first, size, n, mask) := h.value;
      if n >= MAX_LENGTH { return Some(BadLength); }
      var payload := ReadPayload(n, mask);
      if payload == None { return Some(ReadError); }
      ghost var at := Start(s[1]);
      assert s[at..][..n] == s[at..at + n] && s[at..][n..] == s[at + n..];
      assert ReadFrame(s) == Got(Frame(first, size, mask, payload.value), input);
      hide ReadFrame; hide Serialize; hide Length; hide MaskOf; hide SizeOf;
      var opcode := first % 16;
      if opcode == 1 || opcode == 2 { return Some(Message(payload.value)); }
      if opcode == 8 { return Some(Closed); }
      if opcode == 9 {
        WriteFrame(0xA, payload.value);
        OnePong(payload.value);
      }
      return None;
    }

    /** Returns the next data frame's payload, answering pings on the way. */
    method ReadMessage() returns (r: Outcome)
      modifies this
      ensures r == Receive(old(input)).outcome && input == Receive(old(input)).rest
      ensures output == old(output) + PongBytes(Receive(old(input)).pongs)
    {
      hide *;
      ghost var s, pongs := input, [];
      NoPongs();
      Resumed(input);
      while true
        invariant Receive(s) == Resume(pongs, Receive(input))
        invariant AllFit(pongs) && output == old(output) + PongBytes(pongs)
        decreases |input|
      {
        ghost var before := input;
        var e := ReadOne();
        NextPongs(before, pongs);
        pongs := pongs + Answered(before);
        if e.Some? { return e.value; }
      }
    }
  }

  lemma NoBytes(n: nat)
    ensures BigEndian(n, 0) == []
  {}
}
