/** Placing the codewords in the QR matrix along the two-column zigzag. */
module Matrix {
  import opened Wrappers
  import opened BitStream
  import opened BitBuffer

  datatype Cell = Cell(row: int, col: int)

  // --- the path ---

  /** The right column of pair j: column 6 belongs to no pair. */
  function RightCol(size: nat, j: nat): int {
    var c := size - 1 - 2 * j; if c > 6 then c else c - 1
  }

  /** Even pairs run upwards, odd pairs downwards; within a row the right cell is first. */
  function CellAt(size: nat, j: nat, q: nat, g: nat): Cell {
    Cell(if j % 2 == 0 then size - 1 - q else q, RightCol(size, j) - g)
  }

  function PairPath(size: nat, j: nat, q: nat): (p: seq<Cell>)
    ensures |p| == 2 * q
  {
    if q == 0 then [] else PairPath(size, j, q - 1) + [CellAt(size, j, q - 1, 0), CellAt(size, j, q - 1, 1)]
  }

  /** The first `pairs` column pairs of the zigzag. */
  function Path(size: nat, pairs: nat): seq<Cell> {
    if pairs == 0 then [] else Path(size, pairs - 1) + PairPath(size, pairs - 1, size)
  }

  lemma {:induction false} PairPathAt(size: nat, j: nat, n: nat, q: nat, g: nat)
    requires q < n && g < 2
    ensures PairPath(size, j, n)[2 * q + g] == CellAt(size, j, q, g)
  {
    hide CellAt;
    if q < n - 1 { PairPathAt(size, j, n - 1, q, g); }
  }

  lemma {:induction false} PathAt(size: nat, pairs: nat, j: nat, q: nat, g: nat)
    requires j < pairs && q < size && g < 2
    ensures |Path(size, pairs)| == 2 * (size * pairs) && 2 * (size * j + q) + g < 2 * (size * pairs)
    ensures Path(size, pairs)[2 * (size * j + q) + g] == CellAt(size, j, q, g)
  {
    hide CellAt; hide PairPath;
    PathLength(size, pairs - 1);
    Blocks(size, pairs, j);
    if j < pairs - 1 {
      PathAt(size, pairs - 1, j, q, g);
    } else {
      PairPathAt(size, j, size, q, g);
    }
  }

  lemma {:induction false} PathLength(size: nat, pairs: nat)
    ensures |Path(size, pairs)| == 2 * (size * pairs)
  {
    hide PairPath;
    if pairs > 0 {
      PathLength(size, pairs - 1);
      Blocks(size, pairs, pairs - 1);
    }
  }

  lemma Blocks(size: nat, pairs: nat, j: nat)
    requires j < pairs
    ensures size * pairs == size * (pairs - 1) + size && size * j + size <= size * pairs
  {
    assert size * (pairs - 1) <= size * pairs;
    assert size * (j + 1) <= size * pairs by { Grows(size, j + 1, pairs); }
  }

  lemma Grows(size: nat, x: nat, y: nat)
    requires x <= y
    ensures size * x <= size * y
  {}

  /**
   The zigzag step by step, from the lower right corner: right module, then left; then the next row, upwards in the
   first pair and turning with every pair; at the edge two columns further left in the same row, jumping column 6.
   */
  lemma PathSteps(size: nat, pairs: nat, j: nat, q: nat)
    requires size % 2 == 1 && size >= 7 && j < pairs && 2 * pairs <= size - 1 && q < size
    ensures var p, i := Path(size, pairs), 2 * (size * j + q);
            && |p| == 2 * (size * pairs) && i + 1 < |p|
            && p[0] == Cell(size - 1, if size == 7 then 5 else size - 1)
            && p[i + 1] == Cell(p[i].row, p[i].col - 1)
            && (q + 1 < size ==> i + 2 < |p| && p[i + 2] == Cell(p[i].row + (if j % 2 == 0 then -1 else 1), p[i].col))
            && (q + 1 == size && j + 1 < pairs ==>
                 i + 2 < |p| && p[i + 2] == Cell(p[i].row, if p[i].col == 8 then 5 else p[i].col - 2))
  {
    hide Path; hide CellAt;
    CellSteps(size, j, q);
    PathAt(size, pairs, 0, 0, 0);
    PathAt(size, pairs, j, q, 0);
    PathAt(size, pairs, j, q, 1);
    if q + 1 < size { PathAt(size, pairs, j, q + 1, 0); }
    if q + 1 == size && j + 1 < pairs {
      PathAt(size, pairs, j + 1, 0, 0);
      NextPair(size, j);
    }
  }

  lemma NextPair(size: nat, j: nat)
    ensures size * (j + 1) == size * j + size
  {}

  lemma CellSteps(size: nat, j: nat, q: nat)
    requires size % 2 == 1 && size >= 7 && 2 * (j + 1) <= size - 1 && q < size
    ensures CellAt(size, 0, 0, 0) == Cell(size - 1, if size == 7 then 5 else size - 1)
    ensures var x := CellAt(size, j, q, 0);
            && CellAt(size, j, q, 1) == Cell(x.row, x.col - 1)
            && CellAt(size, j, q + 1, 0) == Cell(x.row + (if j % 2 == 0 then -1 else 1), x.col)
            && (q + 1 == size && 2 * (j + 2) <= size - 1 ==>
                 CellAt(size, j + 1, 0, 0) == Cell(x.row, if x.col == 8 then 5 else x.col - 2))
  {
    var h := size / 2;
    assert size - 1 - 2 * j == 2 * (h - j);
    assert (j + 1) % 2 == if j % 2 == 0 then 1 else 0;
  }

  predicate InPair(size: nat, j: nat, q: nat, x: Cell) {
    && RightCol(size, j) - 1 <= x.col <= RightCol(size, j)
    && (if j % 2 == 0 then size - q <= x.row < size else 0 <= x.row < q)
  }

  predicate InPairs(size: nat, pairs: nat, x: Cell) {
    0 <= x.row < size && x.col != 6 && pairs > 0 && RightCol(size, pairs - 1) - 1 <= x.col < size
  }

  ghost predicate Enumerates(s: seq<Cell>, cells: Cell -> bool) {
    Distinct(s) && forall x :: x in s <==> cells(x)
  }

  lemma DistinctConcat(p: seq<Cell>, s: seq<Cell>)
    requires Distinct(p) && Distinct(s) && forall x :: x in p ==> x !in s
    ensures Distinct(p + s) && forall x :: x in p + s <==> x in p || x in s
  {
    forall i, j | 0 <= i < j < |p + s| ensures (p + s)[i] != (p + s)[j] {
      if i < |p| <= j { assert p[i] in p && s[j - |p|] in s; }
    }
  }

  lemma {:induction false} PairPathCells(size: nat, j: nat, q: nat)
    requires q <= size
    ensures Enumerates(PairPath(size, j, q), x => InPair(size, j, q, x))
  {
    if q > 0 {
      var p, a, b := PairPath(size, j, q - 1), CellAt(size, j, q - 1, 0), CellAt(size, j, q - 1, 1);
      PairPathCells(size, j, q - 1);
      assert forall x :: x in [a, b] <==> x == a || x == b;
      DistinctConcat(p, [a, b]);
    }
  }

  lemma PairsStep(size: nat, pairs: nat, x: Cell)
    requires size % 2 == 1 && size >= 7 && 0 < pairs && 2 * pairs <= size - 1
    ensures InPairs(size, pairs, x) <==> InPairs(size, pairs - 1, x) || InPair(size, pairs - 1, size, x)
    ensures !(InPairs(size, pairs - 1, x) && InPair(size, pairs - 1, size, x))
  {}

  /** The whole path visits every cell outside column 6 exactly once. */
  lemma {:induction false} PathCells(size: nat, pairs: nat)
    requires size % 2 == 1 && size >= 7 && 2 * pairs <= size - 1
    ensures Enumerates(Path(size, pairs), x => InPairs(size, pairs, x))
  {
    hide InPair; hide Distinct;
    if pairs > 0 {
      PathCells(size, pairs - 1);
      PairPathCells(size, pairs - 1, size);
      forall x ensures InPairs(size, pairs, x) <==> InPairs(size, pairs - 1, x) || InPair(size, pairs - 1, size, x)
               ensures !(InPairs(size, pairs - 1, x) && InPair(size, pairs - 1, size, x)) { PairsStep(size, pairs, x); }
      var p, s := Path(size, pairs - 1), PairPath(size, pairs - 1, size);
      forall x | x in p ensures x !in s {
        PairsStep(size, pairs, x);
        assert InPairs(size, pairs - 1, x);
      }
      DistinctConcat(p, s);
    } else {
      assert Distinct<Cell>([]) by { EmptyDistinct(); }
    }
  }

  lemma EmptyDistinct() ensures Distinct<Cell>([]) {}

  /** The empty modules in the order the path reaches them. */
  function Empties(path: seq<Cell>, free: set<Cell>): seq<Cell>
  {
    if path == [] then [] else
      var x := path[|path| - 1];
      Empties(path[..|path| - 1], free) + if x in free then [x] else []
  }

  lemma {:induction false} EmptiesCells(path: seq<Cell>, free: set<Cell>)
    ensures forall x :: x in Empties(path, free) <==> x in path && x in free
  {
    if path != [] {
      EmptiesCells(path[..|path| - 1], free);
    }
  }

  lemma {:induction false} EmptiesDistinct(path: seq<Cell>, free: set<Cell>)
    requires Distinct(path)
    ensures Distinct(Empties(path, free))
  {
    if path != [] {
      EmptiesDistinct(path[..|path| - 1], free);
      EmptiesCells(path[..|path| - 1], free);
    }
  }

  lemma EmptiesSnoc(path: seq<Cell>, x: Cell, free: set<Cell>)
    ensures Empties(path + [x], free) == Empties(path, free) + if x in free then [x] else []
  {
    assert (path + [x])[..|path|] == path;
  }

  /** The modules `mapData` fills, in order. */
  ghost function Slots(size: nat, free: set<Cell>): seq<Cell>
    requires size > 0
  {
    Empties(Path(size, (size - 1) / 2), free)
  }

  /** Exactly the empty modules outside column 6, none of them twice. */
  lemma SlotsCoverMatrix(size: nat, free: set<Cell>)
    requires size % 2 == 1 && size >= 7
    requires forall x :: x in free ==> 0 <= x.row < size && 0 <= x.col < size
    ensures Distinct(Slots(size, free))
    ensures forall x :: x in Slots(size, free) <==> x in free && x.col != 6
  {
    var pairs := (size - 1) / 2;
    PathCells(size, pairs);
    assert RightCol(size, pairs - 1) == 1;
    hide Path; hide Distinct; hide RightCol; hide Empties;
    EmptiesDistinct(Path(size, pairs), free);
    EmptiesCells(Path(size, pairs), free);
  }

  // --- mapData ---

  type Grid = map<Cell, Option<bool>>

  /** The modules of the matrix; None is one that no function pattern has set. */
  ghost function GridOf(o: array2<Option<bool>>): Grid
    reads o
  {
    map x: Cell | x in CellsOf(o.Length0, o.Length1) :: o[x.row, x.col]
  }

  ghost function CellsOf(rows: nat, cols: nat): (s: set<Cell>)
    ensures forall x :: x in s <==> 0 <= x.row < rows && 0 <= x.col < cols
  {
    set r, c | 0 <= r < rows && 0 <= c < cols :: Cell(r, c)
  }

  lemma GridCell(o: array2<Option<bool>>, x: Cell)
    ensures x in GridOf(o) <==> 0 <= x.row < o.Length0 && 0 <= x.col < o.Length1
    ensures x in GridOf(o) ==> GridOf(o)[x] == o[x.row, x.col]
  {}

  ghost function Free(g: Grid): set<Cell> { set x | x in g && g[x] == None }

  /** `g` is `g0` with data bit k, inverted under the mask, in the k-th of the cells `e`. */
  ghost predicate Placed(g0: Grid, g: Grid, e: seq<Cell>, data: seq<bv8>, mask: (int, int) -> bool) {
    && g.Keys == g0.Keys
    && (forall k :: 0 <= k < |e| ==> e[k] in g && g[e[k]] == Some(BitAt(data, k) != mask(e[k].row, e[k].col)))
    && (forall x :: x in g && x !in e ==> g[x] == g0[x])
  }

  /** What the path has covered before module g of row q of pair j. */
  function Before(size: nat, j: nat, q: nat, g: nat): seq<Cell> {
    Path(size, j) + PairPath(size, j, q) + if g == 0 then [] else [CellAt(size, j, q, 0)]
  }

  lemma NotVisited(size: nat, j: nat, q: nat, g: nat)
    requires size % 2 == 1 && size >= 7 && 2 * (j + 1) <= size - 1 && q < size && g < 2
    ensures CellAt(size, j, q, g) !in Before(size, j, q, g)
    ensures 0 <= CellAt(size, j, q, g).row < size && 0 <= CellAt(size, j, q, g).col < size
  {
    PathCells(size, j);
    PairPathCells(size, j, q);
    var x := CellAt(size, j, q, g);
    hide Path; hide PairPath;
    PairsStep(size, j + 1, x);
    assert InPair(size, j, size, x) && !InPair(size, j, q, x);
  }

  /** One module: skipped when preset, else given the next data bit. */
  method PlaceModule(o: array2<Option<bool>>, data: seq<bv8>, mask: (int, int) -> bool, n: int, c: int, u: nat, a: nat,
                     ghost path: seq<Cell>, ghost g0: Grid)
    returns (u': nat, a': nat)
    requires 0 <= n < o.Length0 && 0 <= c < o.Length1 && Cell(n, c) !in path
    requires Placed(g0, GridOf(o), Empties(path, Free(g0)), data, mask)
    requires a <= 7 && |Empties(path, Free(g0))| == 8 * u + 7 - a
    modifies o
    ensures Placed(g0, GridOf(o), Empties(path + [Cell(n, c)], Free(g0)), data, mask)
    ensures a' <= 7 && |Empties(path + [Cell(n, c)], Free(g0))| == 8 * u' + 7 - a'
  {
    ghost var x, g := Cell(n, c), GridOf(o);
    GridCell(o, x);
    EmptiesCells(path, Free(g0));
    assert g[x] == g0[x];
    hide Empties; hide BitAt;
    EmptiesSnoc(path, x, Free(g0));
    u', a' := u, a;
    if o[n, c] == None {
      var l := NextBit(data, u, a);
      if mask(n, c) { l := !l; }
      o[n, c] := Some(l);
      assert GridOf(o) == g[x := Some(l)];
      PlacedNext(g0, g, Empties(path, Free(g0)), data, mask, x);
      if a == 0 { u', a' := u + 1, 7; } else { a' := a - 1; }
    } else {
      assert Empties(path + [x], Free(g0)) == Empties(path, Free(g0));
    }
  }

  method NextBit(data: seq<bv8>, u: nat, a: nat) returns (l: bool)
    requires a <= 7
    ensures l == BitAt(data, 8 * u + 7 - a)
  {
    l := false;
    if u < |data| { l := (data[u] >> a) & 1 == 1; }
  }

  lemma PlacedNext(g0: Grid, g: Grid, e: seq<Cell>, data: seq<bv8>, mask: (int, int) -> bool, x: Cell)
    requires Placed(g0, g, e, data, mask) && x in g && x !in e
    ensures Placed(g0, g[x := Some(BitAt(data, |e|) != mask(x.row, x.col))], e + [x], data, mask)
  {
    hide BitAt;
    var b := Some(BitAt(data, |e|) != mask(x.row, x.col));
    var g', e' := g[x := b], e + [x];
    assert g'.Keys == g.Keys;
    forall k | 0 <= k < |e'| ensures e'[k] in g' && g'[e'[k]] == Some(BitAt(data, k) != mask(e'[k].row, e'[k].col)) {
      if k < |e| { assert e'[k] == e[k] && e[k] != x; }
    }
  }

  /** One run up or down a column pair. */
  method FillPair(o: array2<Option<bool>>, data: seq<bv8>, mask: (int, int) -> bool, c: int, start: int, e: int,
                  u: nat, a: nat,
                  ghost j: nat, ghost g0: Grid)
    returns (u': nat, a': nat, end: int)
    requires o.Length0 == o.Length1 && o.Length0 % 2 == 1 && o.Length0 >= 7 && 2 * (j + 1) <= o.Length0 - 1
    requires c == RightCol(o.Length0, j)
    requires if j % 2 == 0 then start == o.Length0 - 1 && e == -1 else start == 0 && e == 1
    requires Placed(g0, GridOf(o), Empties(Path(o.Length0, j), Free(g0)), data, mask)
    requires a <= 7 && |Empties(Path(o.Length0, j), Free(g0))| == 8 * u + 7 - a
    modifies o
    ensures Placed(g0, GridOf(o), Empties(Path(o.Length0, j + 1), Free(g0)), data, mask)
    ensures a' <= 7 && |Empties(Path(o.Length0, j + 1), Free(g0))| == 8 * u' + 7 - a'
    ensures end == if j % 2 == 0 then 0 else o.Length0 - 1
  {
    hide *;
    var size := o.Length0;
    var n, q: nat := start, 0;
    u', a' := u, a;
    BeforeStart(size, j);
    CellCoordinates(size, j, 0);
    while true
      invariant q < size && n == if j % 2 == 0 then size - 1 - q else q
      invariant Placed(g0, GridOf(o), Empties(Before(size, j, q, 0), Free(g0)), data, mask)
      invariant a' <= 7 && |Empties(Before(size, j, q, 0), Free(g0))| == 8 * u' + 7 - a'
      decreases size - q
    {
      NotVisited(size, j, q, 0);
      NotVisited(size, j, q, 1);
      CellCoordinates(size, j, q);
      BeforeStep(size, j, q);
      u', a' := PlaceModule(o, data, mask, n, c, u', a', Before(size, j, q, 0), g0);
      u', a' := PlaceModule(o, data, mask, n, c - 1, u', a', Before(size, j, q, 1), g0);
      n := n + e;
      if n < 0 || size <= n {
        n := n - e;
        break;
      }
      q := q + 1;
    }
    BeforeEnd(size, j, q);
    end := n;
  }

  lemma CellCoordinates(size: nat, j: nat, q: nat)
    requires q < size
    ensures CellAt(size, j, q, 0) == Cell(if j % 2 == 0 then size - 1 - q else q, RightCol(size, j))
    ensures CellAt(size, j, q, 1) == Cell(if j % 2 == 0 then size - 1 - q else q, RightCol(size, j) - 1)
  {}

  lemma BeforeStart(size: nat, j: nat)
    ensures Before(size, j, 0, 0) == Path(size, j)
  {}

  lemma BeforeStep(size: nat, j: nat, q: nat)
    ensures Before(size, j, q, 0) + [CellAt(size, j, q, 0)] == Before(size, j, q, 1)
    ensures Before(size, j, q, 1) + [CellAt(size, j, q, 1)] == Before(size, j, q + 1, 0)
  {}

  lemma BeforeEnd(size: nat, j: nat, q: nat)
    requires q + 1 == size
    ensures Before(size, j, q + 1, 0) == Path(size, j + 1)
  {}

  /** Module k holds bit k % 8 of byte k / 8, most significant first and 0 past the data, inverted where the mask is. */
  lemma ModuleBits(g0: Grid, g: Grid, e: seq<Cell>, data: seq<bv8>, mask: (int, int) -> bool)
    requires Placed(g0, g, e, data, mask)
    ensures forall k :: 0 <= k < |e| ==>
              var bit, m := k / 8 < |data| && (data[k / 8] >> (7 - k % 8)) & 1 == 1, mask(e[k].row, e[k].col);
              e[k] in g && g[e[k]] == Some(if m then !bit else bit)
  {}

  /** `mapData`: one pass over the zigzag, a data bit for every module still empty. */
  method MapData(o: array2<Option<bool>>, data: seq<bv8>, mask: (int, int) -> bool)
    requires o.Length0 == o.Length1 && o.Length0 % 2 == 1 && o.Length0 >= 7
    modifies o
    ensures Placed(old(GridOf(o)), GridOf(o), Slots(o.Length0, Free(old(GridOf(o)))), data, mask)
    ensures var e := Slots(o.Length0, Free(old(GridOf(o))));
            forall k :: 0 <= k < |e| ==>
              var bit, m := k / 8 < |data| && (data[k / 8] >> (7 - k % 8)) & 1 == 1, mask(e[k].row, e[k].col);
              e[k] in GridOf(o) && GridOf(o)[e[k]] == Some(if m then !bit else bit)
  {
    hide *;
    var size := o.Length0;
    ghost var g0 := GridOf(o);
    NothingPlaced(g0, size, data, mask);
    var e, n, a: nat, u: nat := -1, size - 1, 7, 0;
    var c := size - 1;
    ghost var j: nat := 0;
    while c > 0
      invariant 2 * j <= size - 1
      invariant c == if size - 1 - 2 * j >= 6 then size - 1 - 2 * j else size - 2 - 2 * j
      invariant if j % 2 == 0 then n == size - 1 && e == -1 else n == 0 && e == 1
      invariant a <= 7 && |Empties(Path(size, j), Free(g0))| == 8 * u + 7 - a
      invariant Placed(g0, GridOf(o), Empties(Path(size, j), Free(g0)), data, mask)
      decreases c
    {
      if c == 6 { c := c - 1; }
      RightColumn(size, j);
      u, a, n := FillPair(o, data, mask, c, n, e, u, a, j, g0);
      e := -e;
      j := j + 1;
      c := c - 2;
    }
    SlotsArePath(size, j, Free(g0));
    ModuleBits(g0, GridOf(o), Slots(size, Free(g0)), data, mask);
  }

  lemma NothingPlaced(g0: Grid, size: nat, data: seq<bv8>, mask: (int, int) -> bool)
    ensures Empties(Path(size, 0), Free(g0)) == [] && Placed(g0, g0, [], data, mask)
  {}

  lemma RightColumn(size: nat, j: nat)
    ensures RightCol(size, j) == if size - 1 - 2 * j > 6 then size - 1 - 2 * j else size - 2 - 2 * j
  {}

  lemma SlotsArePath(size: nat, j: nat, free: set<Cell>)
    requires size > 0 && j == (size - 1) / 2
    ensures Slots(size, free) == Empties(Path(size, j), free)
  {}

  /** What a scanner reads along the path once it has undone the mask. */
  ghost function Scan(g: Grid, e: seq<Cell>, mask: (int, int) -> bool): (s: seq<bool>)
    requires forall k :: 0 <= k < |e| ==> e[k] in g && g[e[k]].Some?
    ensures |s| == |e|
  {
    seq(|e|, k requires 0 <= k < |e| => g[e[k]].value != mask(e[k].row, e[k].col))
  }

  /** The scanner reads the codewords bit by bit, then zeros. */
  lemma ScanReadsData(g0: Grid, g: Grid, size: nat, data: seq<bv8>, mask: (int, int) -> bool)
    requires size > 0 && Placed(g0, g, Slots(size, Free(g0)), data, mask)
    ensures var e := Slots(size, Free(g0));
            && (forall k :: 0 <= k < |e| ==> e[k] in g && g[e[k]].Some?)
            && (if |e| <= 8 * |data| then Scan(g, e, mask) == AllBits(data)[..|e|]
                else Scan(g, e, mask) == AllBits(data) + Falses(|e| - 8 * |data|))
  {
    var e := Slots(size, Free(g0));
    hide BitAt; hide Slots; hide AllBits;
    forall k | 0 <= k < |e|
      ensures Scan(g, e, mask)[k] == if k < 8 * |data| then AllBits(data)[k] else false
    {
      if k < 8 * |data| { AllBitsAt(data, k); } else { PastTheEnd(data, k); }
    }
    hide Scan; hide Placed;
    BitsThenZeros(Scan(g, e, mask), AllBits(data));
  }

  lemma BitsThenZeros(s: seq<bool>, b: seq<bool>)
    requires forall k :: 0 <= k < |s| ==> s[k] == if k < |b| then b[k] else false
    ensures if |s| <= |b| then s == b[..|s|] else s == b + Falses(|s| - |b|)
  {}

  lemma PastTheEnd(data: seq<bv8>, k: nat)
    requires k >= 8 * |data|
    ensures !BitAt(data, k)
  {}
}
