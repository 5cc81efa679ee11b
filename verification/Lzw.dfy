/** The GIF writer's LZW compressor, and a decoder after Appendix F of the GIF89a specification. */
module Lzw {
  import opened Wrappers
  import opened BitStream

  /** Pixels of a two-bit code size. The QR images use only 0 and 1. */
  type Pixel = p: nat | p < 4

  const CLEAR: nat := 4
  const END: nat := 5

  /** The strings of a table in code order. Codes 4 and 5 name the two control strings. */
  type Strings = seq<seq<nat>>

  const INITIAL: Strings := [[0], [1], [2], [3], [CLEAR], [END]]

  datatype Code = Code(value: nat, width: nat)

  ghost function IndexOf(t: Strings, v: seq<nat>): (i: nat)
    requires v in t
    ensures i < |t| && t[i] == v
  {
    var i :| 0 <= i < |t| && t[i] == v; i
  }

  ghost predicate HasPixels(t: Strings) { forall p: Pixel :: [p] in t }

  // --- what the compressor emits ---

  function Grow(t: Strings, n: nat, s: seq<nat>): (Strings, nat) {
    if |t| < 4095 then (t + [s], if |t| == Pow2(n) then n + 1 else n) else (t, n)
  }

  ghost function Emit(t: Strings, n: nat, v: seq<nat>, rest: seq<Pixel>): seq<Code>
    requires v in t && HasPixels(t)
    decreases |rest|
  {
    if rest == [] then [Code(IndexOf(t, v), n), Code(END, n)]
    else if v + [rest[0]] in t then Emit(t, n, v + [rest[0]], rest[1..])
    else
      var (t', n') := Grow(t, n, v + [rest[0]]);
      assert HasPixels(t');
      [Code(IndexOf(t, v), n)] + Emit(t', n', [rest[0]], rest[1..])
  }

  lemma InitialHasPixels()
    ensures HasPixels(INITIAL)
  {
    forall p: Pixel ensures [p] in INITIAL { assert INITIAL[p] == [p]; }
  }

  /** The whole code stream. No pixels at all are coded as a single pixel 0. */
  ghost function Codes(px: seq<Pixel>): seq<Code> {
    InitialHasPixels();
    [Code(CLEAR, 3)] + if px == [] then Emit(INITIAL, 3, [0], []) else Emit(INITIAL, 3, [px[0]], px[1..])
  }

  ghost function CodeBits(cs: seq<Code>): seq<bool> {
    if cs == [] then [] else Bits(cs[0].value, cs[0].width) + CodeBits(cs[1..])
  }

  ghost predicate TableOk(t: Strings, n: nat) {
    && 6 <= |t| <= 4095 && t[..6] == INITIAL && Distinct(t)
    && 3 <= n <= 12 && |t| <= Pow2(n)
    && forall i :: 6 <= i < |t| ==> |t[i]| >= 2
  }

  /** Every code fits the width it is written with: "length over" never happens. */
  lemma {:induction false} EmittedCodesFit(t: Strings, n: nat, v: seq<nat>, rest: seq<Pixel>, k: nat)
    requires TableOk(t, n) && v in t && HasPixels(t) && v != []
    requires k < |Emit(t, n, v, rest)|
    ensures var c := Emit(t, n, v, rest)[k]; c.value < Pow2(c.width) && 3 <= c.width <= 12
    decreases |rest|
  {
    if rest == [] {
    } else if v + [rest[0]] in t {
      EmittedCodesFit(t, n, v + [rest[0]], rest[1..], k);
    } else {
      GrowKeepsTable(t, n, v + [rest[0]]);
      var (t', n') := Grow(t, n, v + [rest[0]]);
      if k > 0 { EmittedCodesFit(t', n', [rest[0]], rest[1..], k - 1); }
    }
  }

  lemma GrowKeepsTable(t: Strings, n: nat, s: seq<nat>)
    requires TableOk(t, n) && s !in t && |s| >= 2
    ensures var (t', n') := Grow(t, n, s); TableOk(t', n')
  {
    assert Pow2(12) == 4096;
  }

  // --- the decoder ---

  function Lookup(d: Strings, prev: seq<nat>, c: nat): Option<seq<nat>> {
    if c < |d| then Some(d[c])
    else if c == |d| && prev != [] then Some(prev + [prev[0]])
    else None
  }

  function Learn(d: Strings, n: nat, prev: seq<nat>, s: seq<nat>): (Strings, nat)
    requires s != []
  {
    if prev == [] || |d| >= 4096 then (d, n)
    else (d + [prev + [s[0]]], if |d| + 1 == Pow2(n) && n < 12 then n + 1 else n)
  }

  predicate NonEmptyEntries(d: Strings) { forall i :: 0 <= i < |d| ==> d[i] != [] }

  /**
   Reads codes of n bits until `need` pixels are out, or until the END code when
   `need` is None.  None means a bad code or the end of the data.
   */
  function Decode(b: seq<bool>, d: Strings, n: nat, prev: seq<nat>, need: Option<nat>): Option<seq<nat>>
    requires n >= 1 && NonEmptyEntries(d)
    decreases |b|
  {
    if need == Some(0) then Some([])
    else if |b| < n then None
    else
      var c := Value(b[..n]);
      if c == CLEAR then Decode(b[n..], INITIAL, 3, [], need)
      else if c == END then if need == None then Some([]) else None
      else match Lookup(d, prev, c)
        case None => None
        case Some(s) =>
          var (d', n') := Learn(d, n, prev, s);
          Prepend(s, Decode(b[n..], d', n', s, Left(need, s)))
  }

  function DecodeFile(f: seq<Byte>, need: Option<nat>): Option<seq<nat>> {
    Decode(Unpack(f), INITIAL, 3, [], need)
  }

  /** How far the decoder's table lags behind the compressor's. */
  ghost predicate Synced(t: Strings, v: seq<nat>, d: Strings, prev: seq<nat>)
    requires v != []
  {
    || (prev == [] && d == t == INITIAL)
    || (prev != [] && |d| + 1 == |t| && d == t[..|d|] && t[|d|] == prev + [v[0]])
    || (prev != [] && |t| == 4095 && |d| >= 4095 && d[..4095] == t)
  }

  ghost predicate IsPixels(v: seq<nat>) { v != [] && forall i :: 0 <= i < |v| ==> v[i] < 4 }

  lemma SyncedEntries(t: Strings, n: nat, v: seq<nat>, d: Strings, prev: seq<nat>)
    requires TableOk(t, n) && v in t && IsPixels(v) && NonEmptyEntries(d) && Synced(t, v, d, prev)
    ensures Lookup(d, prev, IndexOf(t, v)) == Some(v)
    ensures IndexOf(t, v) != CLEAR && IndexOf(t, v) != END && IndexOf(t, v) < Pow2(n)
  {
    var i := IndexOf(t, v);
    assert t[CLEAR] == t[..6][CLEAR] == [CLEAR] && t[END] == t[..6][END] == [END];
    assert v[0] < 4 && t[i][0] == v[0];
    if |d| == i {
      assert v == prev + [v[0]];
    } else if |d| >= 4095 {
      assert t[i] == d[..4095][i];
    }
  }

  lemma SyncedAfter(t: Strings, n: nat, v: seq<nat>, d: Strings, prev: seq<nat>, p: Pixel)
    requires TableOk(t, n) && v in t && IsPixels(v) && NonEmptyEntries(d) && Synced(t, v, d, prev)
    ensures var (t', n') := Grow(t, n, v + [p]);
            var (d', m) := Learn(d, n, prev, v);
            m == n' && Synced(t', [p], d', v) && NonEmptyEntries(d')
  {
    assert Pow2(12) == 4096 && Pow2(11) == 2048 && Pow2(3) == 8;
    if |t| == 4095 && n < 12 { Pow2Monotone(n, 11); }
    var (d', m) := Learn(d, n, prev, v);
    if prev != [] && |d| < 4095 {
      assert d' == t;
    }
  }

  function Left(need: Option<nat>, s: seq<nat>): Option<nat> {
    if need == None then None else Some(if |s| < need.value then need.value - |s| else 0)
  }

  function Prepend(s: seq<nat>, r: Option<seq<nat>>): Option<seq<nat>> {
    match r case None => None case Some(out) => Some(s + out)
  }

  /** One code read back: the string it stood for, then the rest from the next synced state. */
  lemma DecodeStep(t: Strings, n: nat, v: seq<nat>, d: Strings, prev: seq<nat>, b: seq<bool>, need: Option<nat>)
    requires TableOk(t, n) && v in t && IsPixels(v) && NonEmptyEntries(d) && Synced(t, v, d, prev)
    requires need != Some(0)
    ensures var (d', m) := Learn(d, n, prev, v);
            && m >= 1 && NonEmptyEntries(d')
            && Decode(Bits(IndexOf(t, v), n) + b, d, n, prev, need) == Prepend(v, Decode(b, d', m, v, Left(need, v)))
  {
    var i := IndexOf(t, v);
    SyncedEntries(t, n, v, d, prev);
    ValueOfBits(i, n);
    var all := Bits(i, n) + b;
    assert all[..n] == Bits(i, n) && all[n..] == b;
  }

  lemma CodeBitsCons(c: Code, cs: seq<Code>, tail: seq<bool>)
    ensures CodeBits([c] + cs) + tail == Bits(c.value, c.width) + (CodeBits(cs) + tail)
  {
    assert ([c] + cs)[1..] == cs;
  }

  lemma CodeBitsNil(tail: seq<bool>)
    ensures CodeBits([]) + tail == tail && CodeBits([]) == []
  {}

  lemma TableWidth(t: Strings, n: nat)
    requires TableOk(t, n)
    ensures 3 <= n <= 12
  {}

  /** The last pixel code and, behind it, the END code. */
  lemma DecodeLast(t: Strings, n: nat, v: seq<nat>, d: Strings, prev: seq<nat>, tail: seq<bool>, need: Option<nat>)
    requires TableOk(t, n) && v in t && HasPixels(t)
    requires IsPixels(v) && NonEmptyEntries(d) && Synced(t, v, d, prev)
    requires need != Some(0)
    ensures var (d', m) := Learn(d, n, prev, v);
            && m >= 1 && NonEmptyEntries(d')
            && Decode(CodeBits(Emit(t, n, v, [])) + tail, d, n, prev, need)
            == Prepend(v, Decode(Bits(END, n) + tail, d', m, v, Left(need, v)))
  {
    hide Decode; hide Synced; hide TableOk; hide Bits; hide CodeBits; hide Learn; hide Distinct;
    var c, e := Code(IndexOf(t, v), n), Code(END, n);
    assert Emit(t, n, v, []) == [c] + ([e] + []);
    CodeBitsCons(c, [e] + [], tail);
    CodeBitsCons(e, [], tail);
    CodeBitsNil(tail);
    DecodeStep(t, n, v, d, prev, Bits(END, n) + tail, need);
  }

  // --- round trip of the code stream ---

  /** The compressor's table and code width when it writes its last pixel code. */
  ghost function Final(t: Strings, n: nat, v: seq<nat>, rest: seq<Pixel>): (Strings, nat)
    decreases |rest|
  {
    if rest == [] then (t, n)
    else if v + [rest[0]] in t then Final(t, n, v + [rest[0]], rest[1..])
    else
      var (t', n') := Grow(t, n, v + [rest[0]]);
      Final(t', n', [rest[0]], rest[1..])
  }

  lemma PixelStrings(v: seq<nat>, p: Pixel)
    requires IsPixels(v)
    ensures IsPixels(v + [p]) && IsPixels([p])
  {}

  lemma GrowKeepsPixels(t: Strings, n: nat, v: seq<nat>, p: Pixel)
    requires HasPixels(t)
    ensures HasPixels(Grow(t, n, v + [p]).0) && [p] in Grow(t, n, v + [p]).0
  {
    assert forall q: Pixel :: [q] in t ==> [q] in Grow(t, n, v + [p]).0;
  }

  lemma SyncedExtends(t: Strings, v: seq<nat>, d: Strings, prev: seq<nat>, p: Pixel)
    requires v != [] && Synced(t, v, d, prev)
    ensures Synced(t, v + [p], d, prev)
  {}

  ghost predicate Wants(need: Option<nat>, k: nat) { need == None || need == Some(k) }

  lemma LeftWants(need: Option<nat>, v: seq<nat>, k: nat)
    requires Wants(need, |v| + k)
    ensures Wants(Left(need, v), k) && (Left(need, v) == None <==> need == None)
    ensures k == 0 ==> Left(need, v) == if need == None then None else Some(0)
  {}

  lemma WantsMore(need: Option<nat>, v: seq<nat>, k: nat)
    requires v != [] && Wants(need, |v| + k)
    ensures need != Some(0)
  {}

  /** Reading the stream yields the pixels, then goes on at the END code with the next width m. */
  lemma {:induction false} DecodeEmitted(t: Strings, n: nat, v: seq<nat>, rest: seq<Pixel>, d: Strings, prev: seq<nat>,
                                         tail: seq<bool>, need: Option<nat>)
    returns (d': Strings, m: nat, s: seq<nat>, left: Option<nat>)
    requires TableOk(t, n) && v in t && HasPixels(t)
    requires IsPixels(v) && NonEmptyEntries(d) && Synced(t, v, d, prev)
    requires v != [] && Wants(need, |v| + |rest|)
    ensures NonEmptyEntries(d') && left == (if need == None then None else Some(0))
    ensures var (tf, nf) := Final(t, n, v, rest);
            && nf >= 3 && m == (if |tf| == Pow2(nf) then nf + 1 else nf)
            && Decode(CodeBits(Emit(t, n, v, rest)) + tail, d, n, prev, need)
            == Prepend(v + rest, Decode(Bits(END, nf) + tail, d', m, s, left))
    decreases |rest|
  {
    hide Decode; hide Synced; hide TableOk; hide Bits; hide CodeBits; hide Learn; hide Distinct;
    hide HasPixels; hide IsPixels; hide NonEmptyEntries; hide Lookup; hide Prepend; hide Pow2; hide Grow;
    hide Left; hide Wants;
    if rest != [] && v + [rest[0]] in t {
      SyncedExtends(t, v, d, prev, rest[0]);
      PixelStrings(v, rest[0]);
      assert |v + [rest[0]]| + |rest[1..]| == |v| + |rest|;
      d', m, s, left := DecodeEmitted(t, n, v + [rest[0]], rest[1..], d, prev, tail, need);
      assert v + [rest[0]] + rest[1..] == v + rest;
    } else if rest == [] {
      TableWidth(t, n);
      WantsMore(need, v, 0);
      DecodeLast(t, n, v, d, prev, tail, need);
      LastWidth(t, n, v, d, prev);
      LeftWants(need, v, 0);
      var (d1, m1) := Learn(d, n, prev, v);
      d', m := d1, m1;
      s, left := v, Left(need, v);
      assert v + rest == v;
    } else {
      GrowKeepsTable(t, n, v + [rest[0]]);
      SyncedAfter(t, n, v, d, prev, rest[0]);
      var (t', n') := Grow(t, n, v + [rest[0]]);
      GrowKeepsPixels(t, n, v, rest[0]);
      PixelStrings(v, rest[0]);
      var cs := Emit(t', n', [rest[0]], rest[1..]);
      CodeBitsCons(Code(IndexOf(t, v), n), cs, tail);
      WantsMore(need, v, |rest|);
      DecodeStep(t, n, v, d, prev, CodeBits(cs) + tail, need);
      var (d1, m1) := Learn(d, n, prev, v);
      LeftWants(need, v, |rest|);
      assert |[rest[0]]| + |rest[1..]| == |rest|;
      d', m, s, left := DecodeEmitted(t', n', [rest[0]], rest[1..], d1, v, tail, Left(need, v));
      PrependTwice(v, rest, Decode(Bits(END, Final(t, n, v, rest).1) + tail, d', m, s, left));
    }
  }

  lemma PrependTwice(v: seq<nat>, rest: seq<nat>, r: Option<seq<nat>>)
    requires rest != []
    ensures Prepend(v, Prepend([rest[0]] + rest[1..], r)) == Prepend(v + rest, r)
  {
    assert [rest[0]] + rest[1..] == rest;
    if r != None { assert v + (rest + r.value) == (v + rest) + r.value; }
  }

  lemma LastWidth(t: Strings, n: nat, v: seq<nat>, d: Strings, prev: seq<nat>)
    requires TableOk(t, n) && v in t && IsPixels(v) && NonEmptyEntries(d) && Synced(t, v, d, prev)
    ensures Learn(d, n, prev, v).1 == if |t| == Pow2(n) then n + 1 else n
  {
    assert Pow2(12) == 4096 && Pow2(11) == 2048 && Pow2(3) == 8;
    if |t| == 4095 && n < 12 { Pow2Monotone(n, 11); }
    if n > 3 { Pow2Monotone(4, n); }
  }

  lemma ReadEnd(n: nat, m: nat, k: nat, d: Strings, prev: seq<nat>)
    requires n >= 3 && (m == n || m == n + 1) && NonEmptyEntries(d)
    ensures Decode(Bits(END, n) + Falses(k), d, m, prev, None) == if m == n + 1 && k == 0 then None else Some([])
  {
    Pow2Monotone(3, n);
    assert Pow2(3) == 8;
    var b := Bits(END, n) + Falses(k);
    if m == n {
      assert b[..m] == Bits(END, n);
      ValueOfBits(END, n);
    } else if k > 0 {
      BitsPad(END, n, 1);
      assert b[..m] == Bits(END, n + 1);
      ValueOfBits(END, n + 1);
    }
  }

  /** The table and width behind the last pixel code of an image. */
  ghost function FinalState(px: seq<Pixel>): (Strings, nat)
    requires px != []
  {
    Final(INITIAL, 3, [px[0]], px[1..])
  }

  /** END is read at a width it was not written with: exactly eleven pixel codes before it, a final table of sixteen. */
  ghost predicate EndIsCut(px: seq<Pixel>)
    requires px != []
  {
    |FinalState(px).0| == 16
  }

  // --- how far the compressor is: bits written and pixels covered ---

  /** The bits behind a table of size entries at width n: every code is counted by the table it found. */
  function Ledger(size: nat, n: nat): int { n * (size - 1) - Pow2(n) - 4 }

  /** The least width, from 3 on, that has room for the table. */
  predicate Fitted(size: nat, n: nat) { n >= 3 && size <= Pow2(n) && (n > 3 ==> Pow2(n - 1) < size) }

  /** Each entry is at most one pixel longer than the longest before it. */
  ghost predicate ShortEntries(t: Strings) { forall i :: 0 <= i < |t| ==> |t[i]| + 5 <= |t| }

  lemma LedgerGrows(t: Strings, n: nat, s: seq<nat>)
    requires |t| < 4095 && Fitted(|t|, n)
    ensures var (t', n') := Grow(t, n, s);
            |t'| == |t| + 1 && Fitted(|t'|, n') && Ledger(|t'|, n') == Ledger(|t|, n) + n
  {
    assert Pow2(n + 1) == 2 * Pow2(n);
    var size := |t|;
    assert (n + 1) * size == n * size + size;
    assert n * (size - 1) + n == n * size;
  }

  lemma EntriesGrow(t: Strings, n: nat, v: seq<nat>, p: Pixel)
    requires ShortEntries(t) && v in t && |t| < 4095
    ensures ShortEntries(Grow(t, n, v + [p]).0)
  {}

  /** Twice the pixels that the codes between two table sizes can cover. */
  function Reach(size: nat, size': nat): int { (size' - 5) * (size' - 4) - (size - 6) * (size - 5) }

  lemma ReachStep(size: nat, size': nat)
    ensures Reach(size, size') == 2 * (size - 5) + Reach(size + 1, size')
    ensures Reach(size, size) == 2 * (size - 5)
  {
    var k, m := size - 5, size' - 5;
    assert Reach(size, size') == m * (m + 1) - (k - 1) * k;
    assert Reach(size + 1, size') == m * (m + 1) - k * (k + 1);
    assert k * (k + 1) == k * k + k && (k - 1) * k == k * k - k;
    assert Reach(size, size) == k * (k + 1) - (k - 1) * k;
  }

  /** Unless the table freezes, its final size and width give the bits written and bound the pixels covered. */
  lemma {:induction false} Account(t: Strings, n: nat, v: seq<nat>, rest: seq<Pixel>)
    requires TableOk(t, n) && v in t && HasPixels(t) && v != [] && Fitted(|t|, n) && ShortEntries(t)
    ensures var (tf, nf) := Final(t, n, v, rest);
            && |t| <= |tf| <= 4095
            && (|tf| < 4095 ==>
                 && Fitted(|tf|, nf)
                 && |CodeBits(Emit(t, n, v, rest))| == Ledger(|tf|, nf) - Ledger(|t|, n) + 2 * nf
                 && 2 * (|v| + |rest|) <= Reach(|t|, |tf|))
    decreases |rest|
  {
    hide TableOk; hide HasPixels; hide CodeBits; hide Bits; hide Fitted; hide Ledger; hide Reach; hide ShortEntries;
    hide Emit; hide Final;
    TableSize(t, n);
    if rest == [] {
      AtEnd(t, n, v);
    } else {
      FinalStep(t, n, v, rest);
      if v + [rest[0]] in t {
        EmitExtends(t, n, v, rest);
        Account(t, n, v + [rest[0]], rest[1..]);
      } else {
        GrowKeepsTable(t, n, v + [rest[0]]);
        GrowKeepsPixels(t, n, v, rest[0]);
        EmitStep(t, n, v, rest);
        if |t| < 4095 {
          LedgerGrows(t, n, v + [rest[0]]);
          EntriesGrow(t, n, v, rest[0]);
          var (t', n') := Grow(t, n, v + [rest[0]]);
          Account(t', n', [rest[0]], rest[1..]);
          ReachStep(|t|, |Final(t, n, v, rest).0|);
          EntryLength(t, v);
        } else {
          FrozenStays(t, n, [rest[0]], rest[1..]);
        }
      }
    }
  }

  lemma TableSize(t: Strings, n: nat)
    requires TableOk(t, n)
    ensures 6 <= |t| <= 4095
  {}

  lemma EntryLength(t: Strings, v: seq<nat>)
    requires ShortEntries(t) && v in t
    ensures |v| + 5 <= |t|
  {}

  lemma AtEnd(t: Strings, n: nat, v: seq<nat>)
    requires HasPixels(t) && v in t && ShortEntries(t)
    ensures Final(t, n, v, []) == (t, n)
    ensures |CodeBits(Emit(t, n, v, []))| == 2 * n && 2 * |v| <= Reach(|t|, |t|)
  {
    hide HasPixels; hide CodeBits; hide Reach;
    WriteAtEnd(t, n, v);
    ReachStep(|t|, |t|);
  }

  lemma {:induction false} FrozenStays(t: Strings, n: nat, v: seq<nat>, rest: seq<Pixel>)
    requires |t| == 4095
    ensures Final(t, n, v, rest) == (t, n)
    decreases |rest|
  {
    if rest != [] {
      FrozenStays(t, n, if v + [rest[0]] in t then v + [rest[0]] else [rest[0]], rest[1..]);
    }
  }

  lemma StartAccount()
    ensures Fitted(6, 3) && Ledger(6, 3) == 3 && ShortEntries(INITIAL)
  {
    assert Pow2(3) == 8;
  }

  /** What the whole image adds up to. */
  lemma ImageAccount(px: seq<Pixel>)
    requires px != []
    ensures var (t, n) := FinalState(px);
            && 6 <= |t| <= 4095
            && (|t| < 4095 ==> Fitted(|t|, n) && 2 * |px| <= Reach(6, |t|))
            && (|t| < 4095 ==> |CodeBits(Codes(px))| == Ledger(|t|, n) + 2 * n)
  {
    StartAccount();
    StartFacts(px[0]);
    hide TableOk; hide HasPixels; hide CodeBits; hide Bits; hide Fitted; hide Ledger; hide Reach; hide ShortEntries;
    hide Emit; hide Final;
    Account(INITIAL, 3, [px[0]], px[1..]);
    StartBits(px, px[0], px[1..]);
  }

  /** A table that fills its width leaves no padding only when it has sixteen entries. */
  lemma FullTable(size: nat, n: nat)
    requires Fitted(size, n) && 6 <= size < 4095
    ensures size == Pow2(n) && (Ledger(size, n) + 2 * n) % 8 == 0 <==> size == 16
  {
    assert Pow2(4) == 16 && Pow2(3) == 8 && Pow2(12) == 4096;
    if n > 4 { Pow2Monotone(4, n - 1); }
    if n >= 12 { Pow2Monotone(12, n); }
    if size == Pow2(n) {
      Eights(n);
      Balance(n, Pow2(n) / 8);
      hide Pow2;
    }
  }

  lemma Balance(n: nat, k: nat)
    ensures n * (8 * k - 1) - 8 * k - 4 + 2 * n == 8 * (n * k - k) + (n - 4)
  {
    assert n * (8 * k - 1) == 8 * (n * k) - n;
  }

  lemma Eights(n: nat)
    requires n >= 3
    ensures Pow2(n) % 8 == 0
  {
    if n > 3 { Eights(n - 1); }
  }

  /** Padding is missing behind a code that has just been outgrown exactly when the final table has sixteen entries. */
  lemma CutExactly(px: seq<Pixel>)
    requires px != []
    ensures |FinalState(px).0| == Pow2(FinalState(px).1) && |CodeBits(Codes(px))| % 8 == 0 <==> EndIsCut(px)
    ensures EndIsCut(px) ==> |px| <= 66
  {
    ImageAccount(px);
    hide FinalState; hide Codes; hide CodeBits; hide Fitted; hide Ledger;
    var (t, n) := FinalState(px);
    if |t| < 4095 { FullTable(|t|, n); } else { NoPower(n); }
  }

  lemma NoPower(n: nat)
    ensures Pow2(n) != 4095
  {}

  // Images of one colour: the strings 0, 00, 000, ... are entered one after the other.

  function Run(i: nat): seq<Pixel> { seq(i, _ => 0) }

  /** The table behind j codes of such an image. */
  function RunTable(j: nat): (t: Strings)
    ensures |t| == 6 + j && t[..6] == INITIAL
  {
    if j == 0 then INITIAL else RunTable(j - 1) + [Run(j + 1)]
  }

  /** Where Run(i) is in the table. */
  function RunIndex(i: nat): nat { if i == 1 then 0 else 4 + i }

  ghost predicate KnownRuns(t: Strings, j: nat) {
    && |t| == 6 + j && HasPixels(t)
    && (forall i :: 1 <= i <= j + 1 ==> t[RunIndex(i)] == Run(i))
    && (forall k :: 0 <= k < |t| ==> |t[k]| <= j + 1)
  }

  lemma {:induction false} RunTableKnows(j: nat)
    ensures KnownRuns(RunTable(j), j)
  {
    hide HasPixels; hide Run; hide KnownRuns;
    if j == 0 {
      FirstRun();
    } else {
      RunTableKnows(j - 1);
      RunEntered(RunTable(j - 1), j);
    }
  }

  lemma RunEntered(t: Strings, j: nat)
    requires j > 0 && KnownRuns(t, j - 1)
    ensures KnownRuns(t + [Run(j + 1)], j)
  {
    hide HasPixels; hide Run;
    RunLength(j + 1);
    MorePixels(t, Run(j + 1));
  }

  lemma FirstRun()
    ensures KnownRuns(INITIAL, 0)
  {
    InitialTable();
    assert Run(1) == [0];
  }

  lemma MorePixels(t: Strings, s: seq<nat>)
    requires HasPixels(t)
    ensures HasPixels(t + [s])
  {
    assert forall p: Pixel :: [p] in t ==> [p] in t + [s];
  }

  lemma RunLength(i: nat)
    ensures |Run(i)| == i && Run(i + 1) == Run(i) + [0] && (i > 0 ==> Run(i)[0] == 0 && Run(i)[1..] == Run(i - 1))
  {}

  /** The table size at the end of such an image. */
  ghost function Outcome(j: nat, n: nat, i: nat, r: nat): nat
    requires 1 <= i <= j + 1
  {
    RunTableKnows(j);
    |Final(RunTable(j), n, Run(i), Run(r)).0|
  }

  /** One code: the match grows to the longest known run, then the next run is entered. */
  lemma {:induction false} RunCode(j: nat, n: nat, i: nat, r: nat)
    requires 1 <= i <= j + 1 <= r + i && j < 4000
    ensures var left := r + i - j - 1;
            Outcome(j, n, i, r)
            == if left == 0 then 6 + j else Outcome(j + 1, if 6 + j == Pow2(n) then n + 1 else n, 1, left - 1)
    decreases j + 1 - i
  {
    hide HasPixels; hide Run; hide RunTable; hide Final;
    var t, v, rest := RunTable(j), Run(i), Run(r);
    RunTableKnows(j);
    RunLength(i); RunLength(r); RunLength(i + 1);
    if r > 0 { FinalStep(t, n, v, rest); } else { assert Final(t, n, v, rest) == (t, n) by { NothingLeft(t, n, v); } }
    if i <= j {
      RunCode(j, n, i + 1, r - 1);
    } else if r > 0 {
      RunTableKnows(j + 1);
      RunLength(1); RunLength(0);
      NextTable(j);
    }
  }

  lemma NothingLeft(t: Strings, n: nat, v: seq<nat>)
    ensures Final(t, n, v, []) == (t, n)
  {}

  lemma NextTable(j: nat)
    ensures RunTable(j + 1) == RunTable(j) + [Run(j + 2)] && Run(1) == [0]
  {}

  lemma WriteAtEnd(t: Strings, n: nat, v: seq<nat>)
    requires HasPixels(t) && v in t
    ensures |CodeBits(Emit(t, n, v, []))| == 2 * n
  {
    hide CodeBits;
    CodeBitsCons0(Code(IndexOf(t, v), n), [Code(END, n)] + []);
    CodeBitsCons0(Code(END, n), []);
    CodeBitsNil([]);
    assert Emit(t, n, v, []) == [Code(IndexOf(t, v), n)] + ([Code(END, n)] + []);
  }

  lemma FinalStep(t: Strings, n: nat, v: seq<nat>, rest: seq<Pixel>)
    requires rest != []
    ensures Final(t, n, v, rest) ==
      if v + [rest[0]] in t then Final(t, n, v + [rest[0]], rest[1..])
      else var (t', n') := Grow(t, n, v + [rest[0]]); Final(t', n', [rest[0]], rest[1..])
  {}

  /** The pixels of codes j to m of such an image, code k covering k + 1. */
  function Span(j: nat, m: nat): (r: nat)
    requires j <= m
    ensures r > j && 2 * r == (m + 1) * (m + 2) - j * (j + 1)
    decreases m - j
  {
    assert (j + 1) * (j + 2) == j * (j + 1) + 2 * (j + 1);
    j + 1 + if j == m then 0 else Span(j + 1, m)
  }

  lemma {:induction false} RunsFill(j: nat, m: nat, n: nat)
    requires j <= m < 4000
    ensures Outcome(j, n, 1, Span(j, m) - 1) == 6 + m
    decreases m - j
  {
    hide Outcome; hide Pow2;
    RunCode(j, n, 1, Span(j, m) - 1);
    if j < m { RunsFill(j + 1, m, if 6 + j == Pow2(n) then n + 1 else n); }
  }

  /** The bound is sharp: 66 pixels of colour 0 take eleven codes, and END is cut. */
  lemma EndCutExample(px: seq<Pixel>)
    requires px == Run(66)
    ensures EndIsCut(px)
  {
    RunLength(66); RunLength(1);
    assert Run(1) == [0];
    hide Run; hide Final; hide RunTable; hide Span;
    assert Span(0, 10) == 66;
    RunsFill(0, 10, 3);
    assert RunTable(0) == INITIAL by { EmptyRunTable(); }
  }

  lemma EmptyRunTable()
    ensures RunTable(0) == INITIAL
  {}

  /** The bytes hold the code stream, the last byte padded with zero bits. */
  ghost predicate HoldsCodes(f: seq<Byte>, px: seq<Pixel>) {
    Unpack(f) == CodeBits(Codes(px)) + Falses(Padding(|CodeBits(Codes(px))|))
  }

  lemma InitialTable()
    ensures TableOk(INITIAL, 3) && HasPixels(INITIAL) && NonEmptyEntries(INITIAL)
  {
    assert INITIAL[..6] == INITIAL;
    assert Pow2(3) == 8;
    InitialHasPixels();
  }

  lemma StartFacts(p: Pixel)
    ensures TableOk(INITIAL, 3) && HasPixels(INITIAL) && NonEmptyEntries(INITIAL)
    ensures [p] in INITIAL && IsPixels([p]) && Synced(INITIAL, [p], INITIAL, []) && CLEAR < Pow2(3)
  {
    InitialTable();
  }

  lemma AfterClear(f: seq<Byte>, px: seq<Pixel>, need: Option<nat>)
    requires HoldsCodes(f, px) && px != [] && need != Some(0)
    ensures NonEmptyEntries(INITIAL) && HasPixels(INITIAL) && [px[0]] in INITIAL
    ensures DecodeFile(f, need)
         == Decode(CodeBits(Emit(INITIAL, 3, [px[0]], px[1..])) + Falses(Padding(|CodeBits(Codes(px))|)),
                   INITIAL, 3, [], need)
  {
    InitialTable();
    var cs, tail := Emit(INITIAL, 3, [px[0]], px[1..]), Falses(Padding(|CodeBits(Codes(px))|));
    CodeBitsCons(Code(CLEAR, 3), cs, tail);
    var all := Unpack(f);
    assert all[..3] == Bits(CLEAR, 3) && all[3..] == CodeBits(cs) + tail;
    ValueOfBits(CLEAR, 3);
  }

  lemma DecodeNothing(b: seq<bool>, d: Strings, n: nat, prev: seq<nat>)
    requires n >= 1 && NonEmptyEntries(d)
    ensures Decode(b, d, n, prev, Some(0)) == Some([])
  {}

  lemma WholeByCount(t: Strings, n: nat, v: seq<nat>, rest: seq<Pixel>, tail: seq<bool>, need: Option<nat>)
    requires TableOk(t, n) && v in t && HasPixels(t)
    requires v != [] && IsPixels(v) && NonEmptyEntries(t) && Synced(t, v, t, [])
    requires need == Some(|v| + |rest|)
    ensures Decode(CodeBits(Emit(t, n, v, rest)) + tail, t, n, [], need) == Some(v + rest)
  {
    hide Decode; hide Bits; hide CodeBits; hide TableOk; hide Emit; hide Final; hide Synced; hide IsPixels;
    hide HasPixels;
    var d, m, s, left := DecodeEmitted(t, n, v, rest, t, [], tail, need);
    DecodeNothing(Bits(END, Final(t, n, v, rest).1) + tail, d, m, s);
    assert v + rest + [] == v + rest;
  }

  lemma WholeToEnd(t: Strings, n: nat, v: seq<nat>, rest: seq<Pixel>, k: nat)
    requires TableOk(t, n) && v in t && HasPixels(t)
    requires v != [] && IsPixels(v) && NonEmptyEntries(t) && Synced(t, v, t, [])
    ensures Decode(CodeBits(Emit(t, n, v, rest)) + Falses(k), t, n, [], None)
         == if |Final(t, n, v, rest).0| == Pow2(Final(t, n, v, rest).1) && k == 0 then None else Some(v + rest)
  {
    hide Decode; hide Bits; hide CodeBits; hide TableOk; hide Emit; hide Final; hide Synced; hide IsPixels;
    hide HasPixels; hide Pow2;
    var d, m, s, left := DecodeEmitted(t, n, v, rest, t, [], Falses(k), None);
    ReadEnd(Final(t, n, v, rest).1, m, k, d, s);
    assert v + rest + [] == v + rest;
  }

  /** A decoder that stops at the pixel count recovers every image. */
  lemma PixelsRecovered(f: seq<Byte>, px: seq<Pixel>)
    requires HoldsCodes(f, px)
    ensures DecodeFile(f, Some(|px|)) == Some(px)
  {
    hide Decode; hide Bits; hide CodeBits; hide TableOk; hide Emit; hide Synced; hide HasPixels; hide Codes;
    hide Unpack;
    if px != [] {
      var need := Some(|px|);
      AfterClear(f, px, need);
      StartFacts(px[0]);
      assert [px[0]] + px[1..] == px;
      WholeByCount(INITIAL, 3, [px[0]], px[1..], Falses(Padding(|CodeBits(Codes(px))|)), need);
    } else {
      DecodeNothing(Unpack(f), INITIAL, 3, []);
    }
  }

  /** A decoder that waits for END recovers an image unless the final table has exactly sixteen entries. */
  lemma PixelsRecoveredToEnd(f: seq<Byte>, px: seq<Pixel>)
    requires HoldsCodes(f, px) && px != []
    ensures DecodeFile(f, None) == if EndIsCut(px) then None else Some(px)
  {
    hide Decode; hide Bits; hide CodeBits; hide TableOk; hide Emit; hide Synced; hide HasPixels; hide Codes;
    hide Unpack; hide Final;
    hide EndIsCut;
    AfterClear(f, px, None);
    StartFacts(px[0]);
    assert [px[0]] + px[1..] == px;
    CutExactly(px);
    WholeToEnd(INITIAL, 3, [px[0]], px[1..], Padding(|CodeBits(Codes(px))|));
  }

  /** Eleven codes cover at most 66 pixels, so every larger image is read to END. */
  lemma LargeImagesReadToEnd(f: seq<Byte>, px: seq<Pixel>)
    requires HoldsCodes(f, px) && |px| > 66
    ensures DecodeFile(f, None) == Some(px)
  {
    PixelsRecoveredToEnd(f, px);
    CutExactly(px);
    hide DecodeFile; hide EndIsCut;
  }

  /** Every image of `createDataURL`: at least 21 modules a side, each at least a pixel wide, in any margin. */
  lemma SymbolImagesReadToEnd(f: seq<Byte>, px: seq<Pixel>, modules: nat, cell: nat, margin: nat)
    requires HoldsCodes(f, px) && modules >= 21 && cell >= 1
    requires |px| == (modules * cell + 2 * margin) * (modules * cell + 2 * margin)
    ensures DecodeFile(f, None) == Some(px)
  {
    hide DecodeFile; hide HoldsCodes;
    var side := modules * cell + 2 * margin;
    assert modules * cell >= 21 by { assert modules * cell >= modules * 1; }
    assert side * side >= 21 * side;
    LargeImagesReadToEnd(f, px);
  }

  /** The code stream of no pixels is that of one pixel of colour 0. */
  lemma NoPixelsReadAsOne(f: seq<Byte>)
    requires HoldsCodes(f, [])
    ensures HoldsCodes(f, [0]) && DecodeFile(f, Some(1)) == Some([0])
  {
    assert [0][1..] == [];
    assert Codes([]) == Codes([0]);
    hide Codes; hide DecodeFile; hide CodeBits; hide Unpack;
    PixelsRecovered(f, [0]);
  }

  lemma IndexIs(t: Strings, i: nat)
    requires Distinct(t) && i < |t|
    ensures IndexOf(t, t[i]) == i
  {}

  /** Clear code 4, the code of one pixel, end code 5, three bits each. */
  lemma OnePixelCodes(p: Pixel)
    ensures Codes([p]) == [Code(4, 3), Code(p, 3), Code(5, 3)]
  {
    StartFacts(p);
    assert INITIAL[p] == [p];
    IndexIs(INITIAL, p);
    assert [p][1..] == [];
  }

  /** The first string entered gets code 6, and can be used at once. */
  lemma ThreePixelCodes(p: Pixel)
    ensures Codes([p, p, p]) == [Code(4, 3), Code(p, 3), Code(6, 3), Code(5, 3)]
  {
    StartFacts(p);
    assert INITIAL[p] == [p];
    IndexIs(INITIAL, p);
    var pp: seq<nat> := [p, p];
    var t: Strings := INITIAL + [pp];
    NotInitial(p);
    GrowKeepsTable(INITIAL, 3, pp);
    GrowKeepsPixels(INITIAL, 3, [p], p);
    assert Grow(INITIAL, 3, pp) == (t, 3) by { assert Pow2(3) == 8; }
    assert t[6] == pp;
    IndexIs(t, 6);
    hide TableOk; hide HasPixels; hide Pow2; hide Distinct; hide Emit; hide Grow;
    assert [p, p, p][1..] == [p, p] && [p, p][1..] == [p] && [p][1..] == [];
    assert [p] + [p] == pp;
    EmitWrites(INITIAL, 3, [p], [p, p]);
    EmitExtends(t, 3, [p], [p]);
    LastCodes(t, 3, pp);
    var rest: seq<Code> := [Code(6, 3), Code(5, 3)];
    assert [Code(4, 3)] + ([Code(p, 3)] + rest) == [Code(4, 3), Code(p, 3), Code(6, 3), Code(5, 3)];
  }

  lemma NotInitial(p: Pixel)
    ensures [p, p] !in INITIAL
  {}

  lemma EmitWrites(t: Strings, n: nat, v: seq<nat>, rest: seq<Pixel>)
    requires v in t && HasPixels(t) && rest != [] && v + [rest[0]] !in t
    ensures var (t', n') := Grow(t, n, v + [rest[0]]);
            && [rest[0]] in t' && HasPixels(t')
            && Emit(t, n, v, rest) == [Code(IndexOf(t, v), n)] + Emit(t', n', [rest[0]], rest[1..])
  {
    GrowKeepsPixels(t, n, v, rest[0]);
    hide HasPixels;
  }

  lemma LastCodes(t: Strings, n: nat, v: seq<nat>)
    requires v in t && HasPixels(t)
    ensures Emit(t, n, v, []) == [Code(IndexOf(t, v), n), Code(5, n)]
  {}

  // --- the compressor itself ---

  /** The string table: codes are handed out in order, a repeated key throws. */
  class Dictionary {
    var t: map<seq<nat>, nat>
    var r: nat
    ghost var strings: Strings

    ghost predicate Valid()
      reads this
    {
      && r == |strings| && Distinct(strings)
      && (forall s :: s in t <==> s in strings)
      && (forall i :: 0 <= i < |strings| ==> t[strings[i]] == i)
    }

    constructor ()
      ensures Valid() && strings == []
    {
      t, r, strings := map[], 0, [];
    }

    method Add(s: seq<nat>) returns (ok: bool)
      requires Valid()
      modifies this
      ensures Valid()
      ensures ok == (s !in old(strings))
      ensures strings == if ok then old(strings) + [s] else old(strings)
    {
      if s in t { return false; }
      t := t[s := r];
      r := r + 1;
      strings := strings + [s];
      return true;
    }

    function Size(): (n: nat)
      requires Valid()
      reads this
      ensures n == |strings|
    {
      r
    }

    function Index(s: seq<nat>): (i: nat)
      requires Valid() && s in strings
      reads this
      ensures i == IndexOf(strings, s)
    {
      t[s]
    }

    function Contains(s: seq<nat>): (b: bool)
      requires Valid()
      reads this
      ensures b == (s in strings)
    {
      s in t
    }
  }

  method InitialDictionary() returns (dict: Dictionary)
    ensures fresh(dict) && dict.Valid() && dict.strings == INITIAL
  {
    dict := new Dictionary();
    for a := 0 to 6
      invariant dict.Valid() && fresh(dict) && dict.strings == INITIAL[..a]
    {
      assert INITIAL[..a + 1] == INITIAL[..a] + [[a]];
      var ok := dict.Add([a]);
    }
  }

  /** A longest match ends: write its code and enter it, one pixel longer, into the table. */
  method WriteCode(dict: Dictionary, out: BitWriter, n: nat, v: seq<nat>, d: Pixel) returns (ok: bool, n': nat)
    requires dict.Valid() && out.Valid() && TableOk(dict.strings, n)
    requires HasPixels(dict.strings) && v in dict.strings && v != [] && v + [d] !in dict.strings
    modifies dict, out
    ensures ok && dict.Valid() && out.Valid()
    ensures (dict.strings, n') == Grow(old(dict.strings), n, v + [d])
    ensures out.Contents() == old(out.Contents()) + Bits(IndexOf(old(dict.strings), v), n)
  {
    hide Dictionary.Valid; hide BitWriter.Valid; hide BitWriter.Contents;
    hide Bits; hide Emit; hide CodeBits; hide TableOk; hide HasPixels; hide Pow2; hide Distinct;
    WriteLast(dict.strings, n, v);
    n' := n;
    ok := out.Write(dict.Index(v), n);
    if ok && dict.Size() < 4095 {
      if dict.Size() == Pow2(n) { n' := n + 1; }
      ok := dict.Add(v + [d]);
    }
  }

  /** One pixel: the match grows by it, or the match is written and a new one starts. */
  method TakePixel(dict: Dictionary, out: BitWriter, n: nat, v: seq<nat>, d: Pixel, ghost rest: seq<Pixel>)
    returns (n': nat, v': seq<nat>)
    requires dict.Valid() && out.Valid() && TableOk(dict.strings, n)
    requires HasPixels(dict.strings) && v in dict.strings && v != [] && rest != [] && rest[0] == d
    modifies dict, out
    ensures dict.Valid() && out.Valid() && TableOk(dict.strings, n')
    ensures HasPixels(dict.strings) && v' in dict.strings && v' != []
    ensures out.Contents() + CodeBits(Emit(dict.strings, n', v', rest[1..]))
        == old(out.Contents()) + CodeBits(Emit(old(dict.strings), n, v, rest))
  {
    hide *;
    ghost var t0, before := dict.strings, out.Contents();
    if dict.Contains(v + [d]) {
      EmitExtends(t0, n, v, rest);
      n', v' := n, v + [d];
    } else {
      GrowKeepsTable(t0, n, v + [d]);
      GrowKeepsPixels(t0, n, v, d);
      EmitStep(t0, n, v, rest);
      var ok;
      ok, n' := WriteCode(dict, out, n, v, d);
      v' := [d];
      assert before + Bits(IndexOf(t0, v), n) + CodeBits(Emit(dict.strings, n', v', rest[1..]))
          == before + (Bits(IndexOf(t0, v), n) + CodeBits(Emit(dict.strings, n', v', rest[1..])));
    }
  }

  /** Compresses the pixels; None would be an exception, and there is none. */
  method Compress(px: seq<Pixel>) returns (f: Option<seq<Byte>>)
    ensures f.Some? && HoldsCodes(f.value, px)
  {
    hide *;
    var dict := InitialDictionary();
    var out := new BitWriter();
    var n := 3;
    StartFacts(0);
    var ok := out.Write(CLEAR, n);
    var first: Pixel := if px == [] then 0 else px[0];
    ghost var rest := if px == [] then [] else px[1..];
    ghost var all := CodeBits(Codes(px));
    StartFacts(first);
    StartBits(px, first, rest);
    var v: seq<nat>, s := [first], 1;
    while s < |px|
      invariant dict.Valid() && out.Valid() && fresh(dict) && fresh(out)
      invariant rest == if s <= |px| then px[s..] else []
      invariant TableOk(dict.strings, n) && HasPixels(dict.strings) && v in dict.strings && v != []
      invariant out.Contents() + CodeBits(Emit(dict.strings, n, v, rest)) == all
      decreases |px| - s
    {
      assert rest[0] == px[s] && rest[1..] == px[s + 1..];
      n, v := TakePixel(dict, out, n, v, px[s], rest);
      s := s + 1;
      rest := px[s..];
    }
    assert rest == [];
    ok := WriteEnd(dict, out, n, v);
    assert out.Contents() == all;
    out.Flush();
    HoldsByBits(out.f, px);
    f := Some(out.f);
  }

  lemma HoldsByBits(f: seq<Byte>, px: seq<Pixel>)
    requires Unpack(f) == CodeBits(Codes(px)) + Falses(Padding(|CodeBits(Codes(px))|))
    ensures HoldsCodes(f, px)
  {}

  method WriteEnd(dict: Dictionary, out: BitWriter, n: nat, v: seq<nat>) returns (ok: bool)
    requires dict.Valid() && out.Valid() && TableOk(dict.strings, n)
    requires HasPixels(dict.strings) && v in dict.strings && v != []
    modifies out
    ensures ok && out.Valid()
    ensures out.Contents() == old(out.Contents()) + CodeBits(Emit(dict.strings, n, v, []))
  {
    hide *;
    WriteLast(dict.strings, n, v);
    ghost var was, last := out.Contents(), Bits(IndexOf(dict.strings, v), n);
    ok := out.Write(dict.Index(v), n);
    assert ok && out.Contents() == was + last;
    ok := out.Write(END, n);
    assert was + last + Bits(END, n) == was + (last + Bits(END, n));
  }

  lemma StartBits(px: seq<Pixel>, first: Pixel, rest: seq<Pixel>)
    requires first == (if px == [] then 0 else px[0]) && rest == if px == [] then [] else px[1..]
    ensures [first] in INITIAL && HasPixels(INITIAL)
    ensures Bits(CLEAR, 3) + CodeBits(Emit(INITIAL, 3, [first], rest)) == CodeBits(Codes(px))
  {
    hide CodeBits; hide Bits; hide TableOk; hide Emit;
    StartFacts(first);
    var cs := Emit(INITIAL, 3, [first], rest);
    CodeBitsCons0(Code(CLEAR, 3), cs);
    assert Codes(px) == [Code(CLEAR, 3)] + cs;
  }

  lemma EmitExtends(t: Strings, n: nat, v: seq<nat>, rest: seq<Pixel>)
    requires v in t && HasPixels(t) && rest != [] && v + [rest[0]] in t
    ensures Emit(t, n, v, rest) == Emit(t, n, v + [rest[0]], rest[1..])
  {}

  lemma EmitStep(t: Strings, n: nat, v: seq<nat>, rest: seq<Pixel>)
    requires v in t && HasPixels(t) && rest != [] && v + [rest[0]] !in t
    ensures var (t', n') := Grow(t, n, v + [rest[0]]);
            && [rest[0]] in t' && HasPixels(t')
            && CodeBits(Emit(t, n, v, rest)) == Bits(IndexOf(t, v), n) + CodeBits(Emit(t', n', [rest[0]], rest[1..]))
  {
    hide CodeBits; hide Bits; hide HasPixels;
    GrowKeepsPixels(t, n, v, rest[0]);
    var (t', n') := Grow(t, n, v + [rest[0]]);
    var cs := Emit(t', n', [rest[0]], rest[1..]);
    CodeBitsCons0(Code(IndexOf(t, v), n), cs);
    assert Emit(t, n, v, rest) == [Code(IndexOf(t, v), n)] + cs;
  }

  lemma WriteLast(t: Strings, n: nat, v: seq<nat>)
    requires TableOk(t, n) && HasPixels(t) && v in t && v != []
    ensures CodeBits(Emit(t, n, v, [])) == Bits(IndexOf(t, v), n) + Bits(END, n)
    ensures IndexOf(t, v) < Pow2(n) && END < Pow2(n) && Distinct(t)
  {
    hide CodeBits; hide Bits;
    var c, e := Code(IndexOf(t, v), n), Code(END, n);
    assert Emit(t, n, v, []) == [c] + ([e] + []);
    CodeBitsCons0(c, [e] + []);
    CodeBitsCons0(e, []);
    CodeBitsNil([]);
    EmittedCodesFit(t, n, v, [], 0);
    TableWidth(t, n);
    Pow2Monotone(3, n);
  }

  lemma CodeBitsCons0(c: Code, cs: seq<Code>)
    ensures CodeBits([c] + cs) == Bits(c.value, c.width) + CodeBits(cs)
  {
    assert ([c] + cs)[1..] == cs;
  }
}
