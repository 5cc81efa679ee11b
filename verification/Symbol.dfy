/** A whole QR symbol: segments to modules, and back. */
module Symbol {
  import opened Wrappers
  import opened Gf256
  import opened BitBuffer
  import opened QrData
  import opened Interleave
  import opened Matrix

  lemma SameByteBits(a: bv8, b: bv8)
    requires ByteBits(a) == ByteBits(b)
    ensures a == b
  {
    forall k | 0 <= k < 8 ensures BitOf(a, k) == BitOf(b, k) {
      assert ByteBits(a)[k] == ByteBits(b)[k];
    }
    SameBits(a, b);
  }

  lemma SameBits(a: bv8, b: bv8)
    requires forall k :: 0 <= k < 8 ==> BitOf(a, k) == BitOf(b, k)
    ensures a == b
  {
    assert BitOf(a, 0) == BitOf(b, 0) && BitOf(a, 1) == BitOf(b, 1) && BitOf(a, 2) == BitOf(b, 2)
        && BitOf(a, 3) == BitOf(b, 3);
    assert BitOf(a, 4) == BitOf(b, 4) && BitOf(a, 5) == BitOf(b, 5) && BitOf(a, 6) == BitOf(b, 6)
        && BitOf(a, 7) == BitOf(b, 7);
  }

  /** Bytes are determined by their bits. */
  lemma {:induction false} SameAllBits(s: seq<bv8>, t: seq<bv8>)
    requires AllBits(s) == AllBits(t)
    ensures s == t
  {
    if s != [] {
      var n := |s| - 1;
      assert AllBits(s)[..8 * n] == AllBits(s[..n]) && AllBits(t)[..8 * n] == AllBits(t[..n]);
      assert AllBits(s)[8 * n..] == ByteBits(s[n]) && AllBits(t)[8 * n..] == ByteBits(t[n]);
      SameAllBits(s[..n], t[..n]);
      SameByteBits(s[n], t[n]);
    }
  }

  /** The codewords of a symbol: padded data in blocks, each with its error correction. */
  ghost predicate IsCodewords(data: seq<bv8>, buffer: seq<bv8>, segs: seq<Segment>, version: nat, blocks: seq<Block>) {
    && Writable(segs, version) && ValidBlocks(blocks)
    && DataCounts(blocks)[..|blocks|] == DataCounts(blocks)
    && |buffer| == Sum(DataCounts(blocks))
    && |QrData.DataBits(segs, version)| <= 8 * |buffer|
    && AllBits(buffer) == Padded(QrData.DataBits(segs, version), 8 * |buffer|)
    && var rows := DataBlocks(buffer, blocks, |blocks|);
       data == Interleaved(rows) + Interleaved(EcBlocks(rows, blocks))
  }

  /** `createData`: bit buffer, blocks, error correction, interleaving. */
  method CreateData(gf: Tables, segs: seq<Segment>, version: nat, blocks: seq<Block>)
    returns (r: Result<array<bv8>, Failure>, ghost buffer: seq<bv8>)
    requires gf.Valid() && ValidBlocks(blocks)
    ensures r == Err(UnknownMode) <==> !Writable(segs, version)
    ensures r == Err(Overflow) <==>
              Writable(segs, version) && |QrData.DataBits(segs, version)| > 8 * Sum(DataCounts(blocks))
    ensures 1 <= version <= 40 ==>
              var known := forall i :: 0 <= i < |segs| ==> FieldWidth(segs[i].mode, version).Some?;
              && (r == Err(UnknownMode) <==> !known)
              && (r == Err(Overflow) <==> known && QrData.Length(segs, version) > 8 * Sum(DataCounts(blocks)))
    ensures r.Ok? ==> fresh(r.value) && r.value.Length == Sum(TotalCounts(blocks))
    ensures r.Ok? ==> IsCodewords(r.value[..], buffer, segs, version, blocks)
  {
    hide *;
    var dataCount := 0;
    SumOfNone(blocks);
    for u := 0 to |blocks|
      invariant dataCount == Sum(DataCounts(blocks)[..u])
    {
      CountStep(blocks, u);
      dataCount := dataCount + blocks[u].dataCount;
    }
    AllBlocks(blocks);
    var o := FillBuffer(segs, version, dataCount);
    if o.Err? { return Err(o.error), []; }
    buffer := o.value.buffer;
    FullBuffer(o.value, QrData.DataBits(segs, version), dataCount);
    var d := CreateBytes(gf, o.value.buffer, blocks);
    AreCodewords(d[..], buffer, segs, version, blocks);
    r := Ok(d);
  }

  lemma SumOfNone(blocks: seq<Block>) ensures Sum(DataCounts(blocks)[..0]) == 0 {}

  lemma CountStep(blocks: seq<Block>, u: nat)
    requires u < |blocks|
    ensures Sum(DataCounts(blocks)[..u + 1]) == Sum(DataCounts(blocks)[..u]) + blocks[u].dataCount
  {
    SumStep(DataCounts(blocks), u);
  }

  lemma FullBuffer(o: BitBuffer, bits: seq<bool>, dataCount: nat)
    requires o.Valid() && |bits| <= 8 * dataCount && o.Bits() == Padded(bits, 8 * dataCount)
    ensures |o.buffer| == dataCount && AllBits(o.buffer) == o.Bits()
  {
    hide BitAt;
    PaddedFillsCapacity(bits, 8 * dataCount);
    BytesOfBits(o.buffer);
  }

  lemma AreCodewords(data: seq<bv8>, buffer: seq<bv8>, segs: seq<Segment>, version: nat, blocks: seq<Block>)
    requires Writable(segs, version) && ValidBlocks(blocks)
    requires DataCounts(blocks)[..|blocks|] == DataCounts(blocks) && |buffer| == Sum(DataCounts(blocks))
    requires |QrData.DataBits(segs, version)| <= 8 * |buffer|
    requires AllBits(buffer) == Padded(QrData.DataBits(segs, version), 8 * |buffer|)
    requires var rows := DataBlocks(buffer, blocks, |blocks|);
             data == Interleaved(rows) + Interleaved(EcBlocks(rows, blocks))
    ensures IsCodewords(data, buffer, segs, version, blocks)
  {}

  /** What a reader makes of the codewords: de-interleave, join the blocks, parse. */
  ghost function ReadSegments(data: seq<bv8>, version: nat, blocks: seq<Block>): seq<Segment>
    requires Sum(DataCounts(blocks)) <= |data|
    requires forall u, g :: 0 <= u < |blocks| && 0 <= g < DataCounts(blocks)[u]
               ==> Position(DataCounts(blocks), g, u) < Sum(DataCounts(blocks))
  {
    var rows := Deinterleave(DataCounts(blocks), data[..Sum(DataCounts(blocks))]);
    Parse(AllBits(Concat(rows)), version)
  }

  /** De-interleaving and parsing the codewords gives the segments back. */
  lemma CodewordsRoundTrip(data: seq<bv8>, buffer: seq<bv8>, segs: seq<Segment>, version: nat, blocks: seq<Block>)
    requires IsCodewords(data, buffer, segs, version, blocks) && ValidSegments(segs, version)
    ensures Sum(DataCounts(blocks)) <= |data|
    ensures forall u, g :: 0 <= u < |blocks| && 0 <= g < DataCounts(blocks)[u]
              ==> Position(DataCounts(blocks), g, u) < Sum(DataCounts(blocks))
    ensures ReadSegments(data, version, blocks) == segs
  {
    hide Parse; hide Padded; hide Interleaved; hide AllBits; hide ValidSegments; hide QrData.DataBits; hide Position;
    var rows := DataBlocks(buffer, blocks, |blocks|);
    BlocksTogether(buffer, blocks, |blocks|);
    InterleavedLength(rows);
    InterleaveRoundTrip(rows);
    assert data[..Sum(DataCounts(blocks))] == Interleaved(rows);
    assert Concat(rows) == buffer;
    PaddedRoundTrip(segs, version, 8 * |buffer|);
  }

  /**
   A symbol with room for all codewords scans back: the codewords are the only bytes
   with the scanned bits, and reading them gives the segments.
   */
  lemma SymbolRoundTrip(g0: Grid, g: Grid, size: nat, data: seq<bv8>, mask: (int, int) -> bool,
                        buffer: seq<bv8>, segs: seq<Segment>, version: nat, blocks: seq<Block>, read: seq<bv8>)
    requires size > 0 && Placed(g0, g, Slots(size, Free(g0)), data, mask)
    requires IsCodewords(data, buffer, segs, version, blocks) && ValidSegments(segs, version)
    requires |Slots(size, Free(g0))| >= 8 * |data| && |read| == |data|
    ensures var e := Slots(size, Free(g0));
            && (forall k :: 0 <= k < |e| ==> e[k] in g && g[e[k]].Some?)
            && (AllBits(read) == Scan(g, e, mask)[..8 * |data|] ==>
                 && Sum(DataCounts(blocks)) <= |read|
                 && (forall u, n :: 0 <= u < |blocks| && 0 <= n < DataCounts(blocks)[u]
                      ==> Position(DataCounts(blocks), n, u) < Sum(DataCounts(blocks)))
                 && ReadSegments(read, version, blocks) == segs)
  {
    hide AllBits; hide IsCodewords; hide ReadSegments; hide Position; hide Placed; hide Slots;
    ScanReadsData(g0, g, size, data, mask);
    CodewordsRoundTrip(data, buffer, segs, version, blocks);
    var e := Slots(size, Free(g0));
    if AllBits(read) == Scan(g, e, mask)[..8 * |data|] {
      SameAllBits(read, data);
    }
  }
}
