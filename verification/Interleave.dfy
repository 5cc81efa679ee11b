/** Splitting the codewords into blocks, error correction, and interleaving. */
module Interleave {
  import opened Gf256
  import RS = ReedSolomon

  type Row = seq<bv8>

  // --- interleaving by columns ---

  /** Entry g of every row that has one, top to bottom. */
  function Column(rows: seq<Row>, g: nat): seq<bv8> {
    if rows == [] then [] else
      var last := rows[|rows| - 1];
      Column(rows[..|rows| - 1], g) + if g < |last| then [last[g]] else []
  }

  function Columns(rows: seq<Row>, n: nat): seq<bv8> {
    if n == 0 then [] else Columns(rows, n - 1) + Column(rows, n - 1)
  }

  function MaxLength(rows: seq<Row>): nat {
    if rows == [] then 0 else
      var m := MaxLength(rows[..|rows| - 1]);
      if m > |rows[|rows| - 1]| then m else |rows[|rows| - 1]|
  }

  function Interleaved(rows: seq<Row>): seq<bv8> { Columns(rows, MaxLength(rows)) }

  // --- where each entry lands, from the row lengths alone ---

  function Lengths(rows: seq<Row>): (l: seq<nat>)
    ensures |l| == |rows|
  {
    seq(|rows|, u requires 0 <= u < |rows| => |rows[u]|)
  }

  /** How many of the lengths exceed g. */
  function CountLonger(l: seq<nat>, g: nat): nat {
    if l == [] then 0 else CountLonger(l[..|l| - 1], g) + if l[|l| - 1] > g then 1 else 0
  }

  /** The position of entry g of row u in the interleaved string. */
  function Position(l: seq<nat>, g: nat, u: nat): nat
    requires u <= |l|
  {
    ColumnStart(l, g) + CountLonger(l[..u], g)
  }

  function ColumnStart(l: seq<nat>, g: nat): nat {
    if g == 0 then 0 else ColumnStart(l, g - 1) + CountLonger(l, g - 1)
  }

  function Sum(l: seq<nat>): nat {
    if l == [] then 0 else Sum(l[..|l| - 1]) + l[|l| - 1]
  }

  /** Undoes interleaving, knowing only the block lengths. */
  function Deinterleave(l: seq<nat>, s: seq<bv8>): seq<Row>
    requires forall u, g :: 0 <= u < |l| && 0 <= g < l[u] ==> Position(l, g, u) < |s|
  {
    seq(|l|, u requires 0 <= u < |l| => seq(l[u], g requires 0 <= g < l[u] => s[Position(l, g, u)]))
  }

  lemma {:induction false} ColumnSize(rows: seq<Row>, g: nat)
    ensures |Column(rows, g)| == CountLonger(Lengths(rows), g)
  {
    if rows != [] {
      var n := |rows| - 1;
      ColumnSize(rows[..n], g);
      assert Lengths(rows)[..n] == Lengths(rows[..n]) && Lengths(rows)[n] == |rows[n]|;
    }
  }

  lemma {:induction false} ColumnEntry(rows: seq<Row>, g: nat, u: nat)
    requires u < |rows| && g < |rows[u]|
    ensures var p := CountLonger(Lengths(rows)[..u], g); p < |Column(rows, g)| && Column(rows, g)[p] == rows[u][g]
  {
    var n := |rows| - 1;
    var init := rows[..n];
    assert Lengths(rows)[..u] == Lengths(init)[..u];
    hide Lengths; hide CountLonger;
    if u < n {
      ColumnEntry(init, g, u);
    } else {
      ColumnSize(init, g);
      assert Lengths(init)[..n] == Lengths(init);
    }
  }

  lemma ColumnEntries(rows: seq<Row>, g: nat)
    ensures |Column(rows, g)| == CountLonger(Lengths(rows), g)
    ensures forall u :: 0 <= u < |rows| && g < |rows[u]| ==>
      CountLonger(Lengths(rows)[..u], g) < |Column(rows, g)|
          && Column(rows, g)[CountLonger(Lengths(rows)[..u], g)] == rows[u][g]
  {
    hide Lengths; hide CountLonger; hide Column;
    ColumnSize(rows, g);
    forall u | 0 <= u < |rows| && g < |rows[u]|
      ensures CountLonger(Lengths(rows)[..u], g) < |Column(rows, g)|
          && Column(rows, g)[CountLonger(Lengths(rows)[..u], g)] == rows[u][g]
    {
      ColumnEntry(rows, g, u);
    }
  }

  lemma {:induction false} ColumnsEntries(rows: seq<Row>, n: nat, g: nat, u: nat)
    requires u < |rows| && g < |rows[u]|
    ensures |Columns(rows, n)| == ColumnStart(Lengths(rows), n)
    ensures g < n ==> Position(Lengths(rows), g, u) < |Columns(rows, n)|
                      && Columns(rows, n)[Position(Lengths(rows), g, u)] == rows[u][g]
  {
    hide CountLonger; hide Column; hide Lengths;
    if n > 0 {
      ColumnsEntries(rows, n - 1, g, u);
      ColumnEntries(rows, n - 1);
    }
  }

  lemma {:induction false} MaxLengthBounds(rows: seq<Row>, u: nat)
    requires u < |rows|
    ensures |rows[u]| <= MaxLength(rows)
  {
    if u < |rows| - 1 { MaxLengthBounds(rows[..|rows| - 1], u); }
  }

  /** De-interleaving recovers every block, whatever the layout. */
  lemma InterleaveRoundTrip(rows: seq<Row>)
    ensures forall u, g :: 0 <= u < |rows| && 0 <= g < Lengths(rows)[u] ==>
              Position(Lengths(rows), g, u) < |Interleaved(rows)|
    ensures Deinterleave(Lengths(rows), Interleaved(rows)) == rows
  {
    var s, l := Interleaved(rows), Lengths(rows);
    forall u, g | 0 <= u < |rows| && 0 <= g < l[u]
      ensures Position(l, g, u) < |s| && s[Position(l, g, u)] == rows[u][g]
    {
      MaxLengthBounds(rows, u);
      ColumnsEntries(rows, MaxLength(rows), g, u);
    }
    hide Position; hide Interleaved;
    var d := Deinterleave(l, s);
    forall u | 0 <= u < |rows| ensures d[u] == rows[u] {}
  }

  /** Blocks of one length n: entry g of block u is at g times the number of blocks, plus u. */
  lemma EqualBlocks(rows: seq<Row>, n: nat, g: nat, u: nat)
    requires u < |rows| && g < n && forall v :: 0 <= v < |rows| ==> |rows[v]| == n
    ensures g * |rows| + u < |Interleaved(rows)| && Interleaved(rows)[g * |rows| + u] == rows[u][g]
  {
    InterleaveRoundTrip(rows);
    var l := Lengths(rows);
    StartOfEqual(l, n, g);
    AllLonger(l[..u], n, g);
    assert Position(l, g, u) == g * |rows| + u;
    MaxLengthBounds(rows, u);
    ColumnsEntries(rows, MaxLength(rows), g, u);
  }

  lemma {:induction false} AllLonger(l: seq<nat>, n: nat, g: nat)
    requires g < n && forall v :: 0 <= v < |l| ==> l[v] == n
    ensures CountLonger(l, g) == |l|
  {
    if l != [] { AllLonger(l[..|l| - 1], n, g); }
  }

  lemma {:induction false} StartOfEqual(l: seq<nat>, n: nat, g: nat)
    requires g < n && forall v :: 0 <= v < |l| ==> l[v] == n
    ensures ColumnStart(l, g) == g * |l|
  {
    hide CountLonger;
    if g > 0 {
      StartOfEqual(l, n, g - 1);
      AllLonger(l, n, g - 1);
      assert g * |l| == (g - 1) * |l| + |l|;
    }
  }

  lemma LongerBlockColumns(a: bv8, b: bv8, c: bv8, d: bv8, e: bv8)
    ensures var rows := [[a, b], [c, d, e]];
            && MaxLength(rows) == 3
            && Column(rows, 0) == [a, c] && Column(rows, 1) == [b, d] && Column(rows, 2) == [e]
  {
    var rows := [[a, b], [c, d, e]];
    assert rows[..1] == [[a, b]] && rows[..1][..0] == [];
    assert MaxLength(rows[..1]) == 2;
    assert Column(rows[..1], 0) == [a] && Column(rows[..1], 1) == [b] && Column(rows[..1], 2) == [];
  }

  /** A block longer than the others goes on alone at the end. */
  lemma LongerBlockLast(a: bv8, b: bv8, c: bv8, d: bv8, e: bv8)
    ensures Interleaved([[a, b], [c, d, e]]) == [a, c, b, d, e]
  {
    var rows := [[a, b], [c, d, e]];
    hide Column; hide MaxLength;
    LongerBlockColumns(a, b, c, d, e);
    assert Columns(rows, 1) == [] + [a, c];
    assert Columns(rows, 2) == [a, c, b, d];
    assert Columns(rows, 3) == [a, c, b, d, e];
  }

  // --- total length ---

  function Capped(l: seq<nat>, n: nat): nat {
    if l == [] then 0 else Capped(l[..|l| - 1], n) + if l[|l| - 1] < n then l[|l| - 1] else n
  }

  lemma {:induction false} CappedStep(l: seq<nat>, n: nat)
    ensures Capped(l, n + 1) == Capped(l, n) + CountLonger(l, n)
    ensures Capped(l, 0) == 0
  {
    if l != [] { CappedStep(l[..|l| - 1], n); }
  }

  lemma {:induction false} StartIsCapped(l: seq<nat>, n: nat)
    ensures ColumnStart(l, n) == Capped(l, n)
  {
    if n > 0 { StartIsCapped(l, n - 1); CappedStep(l, n - 1); } else { CappedStep(l, 0); }
  }

  lemma {:induction false} CappedIsSum(rows: seq<Row>, n: nat)
    requires n >= MaxLength(rows)
    ensures Capped(Lengths(rows), n) == Sum(Lengths(rows))
  {
    if rows != [] {
      var init := rows[..|rows| - 1];
      assert Lengths(rows)[..|rows| - 1] == Lengths(init);
      CappedIsSum(init, n);
    }
  }

  lemma {:induction false} ColumnsLength(rows: seq<Row>, n: nat)
    ensures |Columns(rows, n)| == ColumnStart(Lengths(rows), n)
  {
    hide CountLonger; hide Column; hide Lengths;
    if n > 0 { ColumnsLength(rows, n - 1); ColumnEntries(rows, n - 1); }
  }

  /** The interleaved string is as long as all its blocks together. */
  lemma InterleavedLength(rows: seq<Row>)
    ensures |Interleaved(rows)| == Sum(Lengths(rows))
  {
    ColumnsLength(rows, MaxLength(rows));
    StartIsCapped(Lengths(rows), MaxLength(rows));
    CappedIsSum(rows, MaxLength(rows));
  }

  // --- createBytes ---

  datatype Block = Block(totalCount: nat, dataCount: nat)

  function DataCounts(blocks: seq<Block>): (l: seq<nat>)
    ensures |l| == |blocks|
  {
    seq(|blocks|, u requires 0 <= u < |blocks| => blocks[u].dataCount)
  }

  function TotalCounts(blocks: seq<Block>): (l: seq<nat>)
    ensures |l| == |blocks|
  {
    seq(|blocks|, u requires 0 <= u < |blocks| => blocks[u].totalCount)
  }

  ghost predicate ValidBlocks(blocks: seq<Block>) {
    forall u :: 0 <= u < |blocks| ==> blocks[u].dataCount <= blocks[u].totalCount < blocks[u].dataCount + 255
  }

  /** The first n data blocks, cut from the buffer one after the other. */
  function DataBlocks(buffer: seq<bv8>, blocks: seq<Block>, n: nat): (rows: seq<Row>)
    requires n <= |blocks| && Sum(DataCounts(blocks)[..n]) <= |buffer|
    ensures |rows| == n
  {
    if n == 0 then [] else
      SumStep(DataCounts(blocks), n - 1);
      var e := Sum(DataCounts(blocks)[..n - 1]);
      DataBlocks(buffer, blocks, n - 1) + [buffer[e..e + blocks[n - 1].dataCount]]
  }

  lemma SumStep(l: seq<nat>, n: nat)
    requires n < |l|
    ensures Sum(l[..n + 1]) == Sum(l[..n]) + l[n]
  {
    assert l[..n + 1][..n] == l[..n];
  }

  /** The error-correction bytes of every data block. */
  ghost function EcBlocks(rows: seq<Row>, blocks: seq<Block>): (ec: seq<Row>)
    requires |rows| <= |blocks| && ValidBlocks(blocks)
    ensures |ec| == |rows|
  {
    seq(|rows|, u requires 0 <= u < |rows| => RS.ErrorBytes(rows[u], blocks[u].totalCount - blocks[u].dataCount))
  }

  /** Writes a set of rows column by column into `d` from position w on. */
  method WriteColumns(d: array<bv8>, w0: nat, rows: seq<Row>, max: nat) returns (w: nat)
    requires max == MaxLength(rows) && w0 + Sum(Lengths(rows)) <= d.Length
    modifies d
    ensures w == w0 + Sum(Lengths(rows))
    ensures d[..w] == old(d[..w0]) + Interleaved(rows)
  {
    InterleavedLength(rows);
    hide Column; hide Columns; hide MaxLength; hide Sum; hide Lengths;
    NoColumns(rows);
    w := w0;
    for g := 0 to max
      invariant w == w0 + |Columns(rows, g)| && w <= d.Length
      invariant d[..w] == old(d[..w0]) + Columns(rows, g)
    {
      NextColumn(rows, g, max);
      ColumnStarts(rows, g);
      for u := 0 to |rows|
        invariant w == w0 + |Columns(rows, g)| + |Column(rows[..u], g)| && w <= d.Length
        invariant d[..w] == old(d[..w0]) + Columns(rows, g) + Column(rows[..u], g)
      {
        ColumnRow(rows, g, u);
        if g < |rows[u]| {
          d[w] := rows[u][g];
          w := w + 1;
        }
      }
      assert rows[..|rows|] == rows;
    }
  }

  lemma NoColumns(rows: seq<Row>)
    ensures Columns(rows, 0) == []
  {}

  lemma NextColumn(rows: seq<Row>, g: nat, max: nat)
    requires g < max && max == MaxLength(rows)
    ensures Columns(rows, g + 1) == Columns(rows, g) + Column(rows, g)
    ensures |Columns(rows, g + 1)| <= |Interleaved(rows)|
  {
    ColumnsGrow(rows, g + 1, max);
  }

  lemma {:induction false} ColumnsGrow(rows: seq<Row>, g: nat, max: nat)
    requires g <= max
    ensures |Columns(rows, g)| <= |Columns(rows, max)|
  {
    if g < max { ColumnsGrow(rows, g, max - 1); }
  }

  lemma ColumnStarts(rows: seq<Row>, g: nat)
    ensures Column(rows[..0], g) == []
  {}

  lemma ColumnRow(rows: seq<Row>, g: nat, u: nat)
    requires u < |rows|
    ensures Column(rows[..u + 1], g) == Column(rows[..u], g) + if g < |rows[u]| then [rows[u][g]] else []
    ensures |Column(rows[..u + 1], g)| <= |Column(rows, g)|
  {
    assert rows[..u + 1][..u] == rows[..u];
    ColumnGrows(rows, g, u + 1);
  }

  lemma {:induction false} ColumnGrows(rows: seq<Row>, g: nat, u: nat)
    requires u <= |rows|
    ensures |Column(rows[..u], g)| <= |Column(rows, g)|
  {
    if u < |rows| {
      var init := rows[..|rows| - 1];
      ColumnGrows(init, g, u);
      assert init[..u] == rows[..u];
    } else {
      assert rows[..u] == rows;
    }
  }

  /** The first half of `createBytes`: the blocks, their error correction, and the longest of each. */
  method BuildBlocks(gf: Tables, buffer: seq<bv8>, blocks: seq<Block>)
    returns (data: seq<Row>, ec: seq<Row>, maxData: nat, maxEc: nat)
    requires gf.Valid() && ValidBlocks(blocks)
    requires Sum(DataCounts(blocks)) <= |buffer|
    ensures DataCounts(blocks)[..|blocks|] == DataCounts(blocks)
    ensures data == DataBlocks(buffer, blocks, |blocks|) && ec == EcBlocks(data, blocks)
    ensures maxData == MaxLength(data) && maxEc == MaxLength(ec)
    ensures Sum(Lengths(data)) + Sum(Lengths(ec)) == Sum(TotalCounts(blocks))
  {
    hide *;
    var offset: nat := 0;
    data, ec, maxData, maxEc := [], [], 0, 0;
    FirstBlock(buffer, blocks);
    for u := 0 to |blocks|
      invariant Built(buffer, blocks, u, offset, data, ec, maxData, maxEc)
    {
      var f, c := NextBlock(buffer, blocks, u, offset, data, ec, maxData, maxEc);
      var row := buffer[offset..offset + f];
      var e := RS.BlockErrorBytes(gf, row, c);
      BuiltStep(buffer, blocks, u, offset, data, ec, maxData, maxEc);
      offset := offset + f;
      maxData := if maxData > f then maxData else f;
      maxEc := if maxEc > c then maxEc else c;
      data := data + [row];
      ec := ec + [e.value];
    }
    AllBuilt(buffer, blocks, offset, data, ec, maxData, maxEc);
  }

  /** The state of `createBytes` after u blocks. */
  ghost predicate Built(buffer: seq<bv8>, blocks: seq<Block>, u: nat, offset: nat, data: seq<Row>, ec: seq<Row>,
      maxData: nat, maxEc: nat)
    requires u <= |blocks| && ValidBlocks(blocks)
  {
    && |data| == |ec| == u
    && offset == Sum(DataCounts(blocks)[..u]) <= |buffer|
    && data == DataBlocks(buffer, blocks, u) && ec == EcBlocks(data, blocks)
    && maxData == MaxLength(data) && maxEc == MaxLength(ec)
    && Sum(Lengths(data)) + Sum(Lengths(ec)) == Sum(TotalCounts(blocks)[..u])
  }

  lemma BuiltStep(buffer: seq<bv8>, blocks: seq<Block>, u: nat, offset: nat, data: seq<Row>, ec: seq<Row>,
      maxData: nat, maxEc: nat)
    requires u < |blocks| && ValidBlocks(blocks) && Sum(DataCounts(blocks)) <= |buffer|
    requires Built(buffer, blocks, u, offset, data, ec, maxData, maxEc)
    ensures var f, c := blocks[u].dataCount, blocks[u].totalCount - blocks[u].dataCount;
            && offset + f <= |buffer|
            && Built(buffer, blocks, u + 1, offset + f, data + [buffer[offset..offset + f]],
                     ec + [RS.ErrorBytes(buffer[offset..offset + f], c)],
                     if maxData > f then maxData else f, if maxEc > c then maxEc else c)
  {
    hide RS.ErrorBytes; hide Sum; hide MaxLength; hide Lengths;
    var f, c := blocks[u].dataCount, blocks[u].totalCount - blocks[u].dataCount;
    SumStep(DataCounts(blocks), u);
    SumStep(TotalCounts(blocks), u);
    SumPrefix(DataCounts(blocks), u + 1);
    var row := buffer[offset..offset + f];
    var e := RS.ErrorBytes(row, c);
    MoreRows(data, row);
    MoreRows(ec, e);
    MoreBlocks(buffer, blocks, u, data, ec);
  }

  lemma AllBuilt(buffer: seq<bv8>, blocks: seq<Block>, offset: nat, data: seq<Row>, ec: seq<Row>, maxData: nat,
      maxEc: nat)
    requires ValidBlocks(blocks) && Built(buffer, blocks, |blocks|, offset, data, ec, maxData, maxEc)
    ensures DataCounts(blocks)[..|blocks|] == DataCounts(blocks) && Sum(DataCounts(blocks)) <= |buffer|
    ensures data == DataBlocks(buffer, blocks, |blocks|) && ec == EcBlocks(data, blocks)
    ensures maxData == MaxLength(data) && maxEc == MaxLength(ec)
    ensures Sum(Lengths(data)) + Sum(Lengths(ec)) == Sum(TotalCounts(blocks))
  {
    AllBlocks(blocks);
  }

  /** `createBytes`: cut the buffer into blocks, add error correction, interleave both kinds. */
  method CreateBytes(gf: Tables, buffer: seq<bv8>, blocks: seq<Block>) returns (d: array<bv8>)
    requires gf.Valid() && ValidBlocks(blocks)
    requires Sum(DataCounts(blocks)) <= |buffer|
    ensures fresh(d) && d.Length == Sum(TotalCounts(blocks))
    ensures DataCounts(blocks)[..|blocks|] == DataCounts(blocks)
    ensures var rows := DataBlocks(buffer, blocks, |blocks|);
            d[..] == Interleaved(rows) + Interleaved(EcBlocks(rows, blocks))
  {
    hide *;
    var data, ec, maxData, maxEc := BuildBlocks(gf, buffer, blocks);
    var total := 0;
    AllBlocks(blocks);
    for g := 0 to |blocks|
      invariant total == Sum(TotalCounts(blocks)[..g])
    {
      TotalStep(blocks, g);
      total := total + blocks[g].totalCount;
    }
    d := new bv8[total];
    var w := WriteColumns(d, 0, data, maxData);
    w := WriteColumns(d, w, ec, maxEc);
    assert d[..w] == d[..];
  }

  lemma TotalStep(blocks: seq<Block>, g: nat)
    requires g < |blocks|
    ensures Sum(TotalCounts(blocks)[..g + 1]) == Sum(TotalCounts(blocks)[..g]) + blocks[g].totalCount
  {
    SumStep(TotalCounts(blocks), g);
  }

  lemma FirstBlock(buffer: seq<bv8>, blocks: seq<Block>)
    requires ValidBlocks(blocks)
    ensures Built(buffer, blocks, 0, 0, [], [], 0, 0)
  {}

  lemma AllBlocks(blocks: seq<Block>)
    ensures TotalCounts(blocks)[..|blocks|] == TotalCounts(blocks)
        && DataCounts(blocks)[..|blocks|] == DataCounts(blocks)
    ensures Sum(TotalCounts(blocks)[..0]) == 0
  {}

  method NextBlock(buffer: seq<bv8>, blocks: seq<Block>, u: nat,
                   ghost offset: nat, ghost data: seq<Row>, ghost ec: seq<Row>,
                   ghost maxData: nat, ghost maxEc: nat)
    returns (f: nat, c: nat)
    requires u < |blocks| && ValidBlocks(blocks) && Sum(DataCounts(blocks)) <= |buffer|
    requires Built(buffer, blocks, u, offset, data, ec, maxData, maxEc)
    ensures f == blocks[u].dataCount && c == blocks[u].totalCount - f && c < 255
    ensures offset + f <= |buffer|
  {
    f := blocks[u].dataCount;
    c := blocks[u].totalCount - f;
    SumStep(DataCounts(blocks), u);
    SumPrefix(DataCounts(blocks), u + 1);
  }

  lemma {:induction false} SumPrefix(l: seq<nat>, n: nat)
    requires n <= |l|
    ensures Sum(l[..n]) <= Sum(l)
  {
    if n == |l| {
      assert l[..n] == l;
    } else {
      SumPrefix(l[..|l| - 1], n);
      assert l[..|l| - 1][..n] == l[..n];
    }
  }

  lemma MoreRows(rows: seq<Row>, row: Row)
    ensures MaxLength(rows + [row]) == if MaxLength(rows) > |row| then MaxLength(rows) else |row|
    ensures Sum(Lengths(rows + [row])) == Sum(Lengths(rows)) + |row|
  {
    assert (rows + [row])[..|rows|] == rows;
    assert Lengths(rows + [row]) == Lengths(rows) + [|row|];
    assert (Lengths(rows) + [|row|])[..|rows|] == Lengths(rows);
  }

  lemma MoreBlocks(buffer: seq<bv8>, blocks: seq<Block>, u: nat, data: seq<Row>, ec: seq<Row>)
    requires u < |blocks| && ValidBlocks(blocks) && Sum(DataCounts(blocks)) <= |buffer|
    requires Sum(DataCounts(blocks)[..u]) <= |buffer|
    requires Sum(DataCounts(blocks)[..u + 1]) == Sum(DataCounts(blocks)[..u]) + blocks[u].dataCount <= |buffer|
    requires data == DataBlocks(buffer, blocks, u) && ec == EcBlocks(data, blocks)
    ensures var e, f := Sum(DataCounts(blocks)[..u]), blocks[u].dataCount;
            var row := buffer[e..e + f];
            && data + [row] == DataBlocks(buffer, blocks, u + 1)
            && ec + [RS.ErrorBytes(row, blocks[u].totalCount - f)] == EcBlocks(data + [row], blocks)
  {
    hide RS.ErrorBytes;
  }

  // --- the way back ---

  function Concat(rows: seq<Row>): seq<bv8> {
    if rows == [] then [] else Concat(rows[..|rows| - 1]) + rows[|rows| - 1]
  }

  /** The data blocks, put together again, are the buffer. */
  lemma {:induction false} BlocksTogether(buffer: seq<bv8>, blocks: seq<Block>, n: nat)
    requires n <= |blocks| && Sum(DataCounts(blocks)[..n]) <= |buffer|
    ensures Concat(DataBlocks(buffer, blocks, n)) == buffer[..Sum(DataCounts(blocks)[..n])]
    ensures Lengths(DataBlocks(buffer, blocks, n)) == DataCounts(blocks)[..n]
  {
    if n > 0 {
      SumStep(DataCounts(blocks), n - 1);
      BlocksTogether(buffer, blocks, n - 1);
    }
  }
}
