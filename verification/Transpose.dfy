/** The transpose functions of `cachelab/trans.c`: the plain loops, the blocked ones, and the check. */
module Transpose {

  /** An element of A: row `ii` and column `jj`. */
  datatype Cell = Cell(row: int, col: int)

  // ---- The orders in which the loops visit the elements ----

  /** `k` elements of a row. */
  function RowCells(row: int, col: int, k: nat): seq<Cell> {
    if k == 0 then [] else RowCells(row, col, k - 1) + [Cell(row, col + k - 1)]
  }

  /** `k` rows of the block at (`row`, `col`). */
  function BlockCells(row: int, col: int, k: nat): seq<Cell> {
    if k == 0 then [] else BlockCells(row, col, k - 1) + RowCells(row + k - 1, col, 4)
  }

  /** The first `k` blocks along a band of four rows. */
  function BandCells(row: int, k: nat): seq<Cell> {
    if k == 0 then [] else BandCells(row, k - 1) + BlockCells(row, 4 * (k - 1), 4)
  }

  /** The first `k` bands, each of `blocks` blocks. */
  function BlockedCells(blocks: nat, k: nat): seq<Cell> {
    if k == 0 then [] else BlockedCells(blocks, k - 1) + BandCells(4 * (k - 1), blocks)
  }

  /** How often a loop that starts at 0 and adds 4 runs before it reaches `n`. */
  function Fours(n: nat): nat {
    (n + 3) / 4
  }

  lemma FoursStep(i: nat, k: nat, n: nat)
    requires i == 4 * k && i < n + 4
    ensures if i < n then k < Fours(n) else k == Fours(n)
    ensures n % 4 == 0 ==> if i < n then i + 4 <= n else i == n
  {
  }

  /** The visits of `transpose_blocking`. */
  function BlockedOrder(m: nat, n: nat): seq<Cell> {
    BlockedCells(Fours(m), Fours(n))
  }

  /** The visits of `trans`. */
  function PlainOrder(m: nat, n: nat): seq<Cell> {
    if n == 0 then [] else PlainOrder(m, n - 1) + RowCells(n - 1, 0, m)
  }

  predicate InRect(c: Cell, top: int, bottom: int, left: int, right: int) {
    top <= c.row < bottom && left <= c.col < right
  }

  /** Every element of the rectangle is visited exactly once, and nothing else is. */
  ghost predicate Tiles(order: seq<Cell>, top: int, bottom: int, left: int, right: int) {
    forall c: Cell :: multiset(order)[c] == if InRect(c, top, bottom, left, right) then 1 else 0
  }

  lemma TilesBelow(x: seq<Cell>, y: seq<Cell>, top: int, middle: int, bottom: int, left: int, right: int)
    requires top <= middle <= bottom && Tiles(x, top, middle, left, right) && Tiles(y, middle, bottom, left, right)
    ensures Tiles(x + y, top, bottom, left, right)
  {
  }

  lemma TilesBeside(x: seq<Cell>, y: seq<Cell>, top: int, bottom: int, left: int, middle: int, right: int)
    requires left <= middle <= right && Tiles(x, top, bottom, left, middle) && Tiles(y, top, bottom, middle, right)
    ensures Tiles(x + y, top, bottom, left, right)
  {
  }

  lemma {:induction false} RowTiles(row: int, col: int, k: nat)
    ensures Tiles(RowCells(row, col, k), row, row + 1, col, col + k)
  {
    if k > 0 {
      RowTiles(row, col, k - 1);
      TilesBeside(RowCells(row, col, k - 1), [Cell(row, col + k - 1)], row, row + 1, col, col + k - 1, col + k);
    }
  }

  lemma {:induction false} BlockTiles(row: int, col: int, k: nat)
    ensures Tiles(BlockCells(row, col, k), row, row + k, col, col + 4)
  {
    if k > 0 {
      var above, last := BlockCells(row, col, k - 1), RowCells(row + k - 1, col, 4);
      BlockTiles(row, col, k - 1);
      RowTiles(row + k - 1, col, 4);
      assert Tiles(last, row + k - 1, row + k, col, col + 4);
      TilesBelow(above, last, row, row + k - 1, row + k, col, col + 4);
    }
  }

  lemma {:induction false} BandTiles(row: int, k: nat)
    ensures Tiles(BandCells(row, k), row, row + 4, 0, 4 * k)
  {
    if k > 0 {
      BandTiles(row, k - 1);
      BlockTiles(row, 4 * (k - 1), 4);
      TilesBeside(BandCells(row, k - 1), BlockCells(row, 4 * (k - 1), 4), row, row + 4, 0, 4 * (k - 1), 4 * k);
    }
  }

  lemma {:induction false} BlockedTiles(blocks: nat, k: nat)
    ensures Tiles(BlockedCells(blocks, k), 0, 4 * k, 0, 4 * blocks)
  {
    if k > 0 {
      BlockedTiles(blocks, k - 1);
      BandTiles(4 * (k - 1), blocks);
      TilesBelow(BlockedCells(blocks, k - 1), BandCells(4 * (k - 1), blocks),
                 0, 4 * (k - 1), 4 * k, 0, 4 * blocks);
    }
  }

  lemma {:induction false} PlainTiles(m: nat, n: nat)
    ensures Tiles(PlainOrder(m, n), 0, n, 0, m)
  {
    if n > 0 {
      PlainTiles(m, n - 1);
      RowTiles(n - 1, 0, m);
      TilesBelow(PlainOrder(m, n - 1), RowCells(n - 1, 0, m), 0, n - 1, n, 0, m);
    }
  }

  /** For sides divisible by four both functions visit the same elements, each of them once. */
  lemma BlockedIsPermuted(m: nat, n: nat)
    requires m % 4 == 0 && n % 4 == 0
    ensures Tiles(BlockedOrder(m, n), 0, n, 0, m)
    ensures multiset(BlockedOrder(m, n)) == multiset(PlainOrder(m, n))
  {
    BlockedTiles(Fours(m), Fours(n));
    PlainTiles(m, n);
    assert 4 * Fours(m) == m && 4 * Fours(n) == n;
  }

  // ---- The order of the visits ----

  predicate RowMajor(a: Cell, b: Cell) {
    a.row < b.row || (a.row == b.row && a.col < b.col)
  }

  /** By bands of four rows, then by blocks of four columns, then row by row. */
  predicate Blockwise(a: Cell, b: Cell) {
    if a.row / 4 != b.row / 4 then a.row / 4 < b.row / 4
    else if a.col / 4 != b.col / 4 then a.col / 4 < b.col / 4
    else RowMajor(a, b)
  }

  ghost predicate InOrder(order: seq<Cell>, before: (Cell, Cell) -> bool) {
    forall i, j | 0 <= i < j < |order| :: before(order[i], order[j])
  }

  lemma JoinInOrder(x: seq<Cell>, y: seq<Cell>, before: (Cell, Cell) -> bool)
    requires InOrder(x, before) && InOrder(y, before) && forall a, b | a in x && b in y :: before(a, b)
    ensures InOrder(x + y, before)
  {
  }

  ghost predicate RowsIn(order: seq<Cell>, top: int, bottom: int) {
    forall c | c in order :: top <= c.row < bottom
  }

  lemma TilesInside(order: seq<Cell>, top: int, bottom: int, left: int, right: int)
    requires Tiles(order, top, bottom, left, right)
    ensures (forall c | c in order :: InRect(c, top, bottom, left, right)) && RowsIn(order, top, bottom)
  {
    forall c | c in order
      ensures InRect(c, top, bottom, left, right)
    {
      assert multiset(order)[c] > 0;
    }
  }

  lemma JoinRows(x: seq<Cell>, y: seq<Cell>, top: int, middle: int, bottom: int)
    requires InOrder(x, RowMajor) && InOrder(y, RowMajor) && RowsIn(x, top, middle) && RowsIn(y, middle, bottom)
    requires top <= middle <= bottom
    ensures InOrder(x + y, RowMajor) && RowsIn(x + y, top, bottom)
  {
    JoinInOrder(x, y, RowMajor);
  }

  lemma {:induction false} RowInOrder(row: int, col: int, k: nat)
    ensures InOrder(RowCells(row, col, k), RowMajor) && RowsIn(RowCells(row, col, k), row, row + 1)
  {
    if k > 0 {
      RowInOrder(row, col, k - 1);
      RowTiles(row, col, k - 1);
      TilesInside(RowCells(row, col, k - 1), row, row + 1, col, col + (k - 1));
      JoinInOrder(RowCells(row, col, k - 1), [Cell(row, col + k - 1)], RowMajor);
    }
  }

  /** `trans` goes through A row by row. */
  lemma {:induction false} PlainInOrder(m: nat, n: nat)
    ensures InOrder(PlainOrder(m, n), RowMajor) && RowsIn(PlainOrder(m, n), 0, n)
  {
    if n > 0 {
      PlainInOrder(m, n - 1);
      RowInOrder(n - 1, 0, m);
      JoinRows(PlainOrder(m, n - 1), RowCells(n - 1, 0, m), 0, n - 1, n);
    }
  }

  lemma {:induction false} BlockInOrder(row: int, col: int, k: nat)
    ensures InOrder(BlockCells(row, col, k), RowMajor) && RowsIn(BlockCells(row, col, k), row, row + k)
  {
    if k > 0 {
      BlockInOrder(row, col, k - 1);
      RowInOrder(row + k - 1, col, 4);
      JoinRows(BlockCells(row, col, k - 1), RowCells(row + k - 1, col, 4), row, row + k - 1, row + k);
    }
  }

  ghost predicate InBlock(order: seq<Cell>, p: nat, q: nat) {
    forall c | c in order :: c.row / 4 == p && c.col / 4 == q
  }

  ghost predicate InBand(order: seq<Cell>, p: nat, k: nat) {
    forall c | c in order :: c.row / 4 == p && c.col / 4 < k
  }

  ghost predicate InBands(order: seq<Cell>, k: nat) {
    forall c | c in order :: c.row / 4 < k
  }

  lemma BlockIsIn(p: nat, q: nat)
    ensures InBlock(BlockCells(4 * p, 4 * q, 4), p, q)
  {
    BlockTiles(4 * p, 4 * q, 4);
    TilesInside(BlockCells(4 * p, 4 * q, 4), 4 * p, 4 * p + 4, 4 * q, 4 * q + 4);
  }

  /** Inside one block of the grid the blockwise order is row by row. */
  lemma WholeBlockInOrder(p: nat, q: nat)
    ensures InOrder(BlockCells(4 * p, 4 * q, 4), Blockwise)
  {
    var order := BlockCells(4 * p, 4 * q, 4);
    BlockInOrder(4 * p, 4 * q, 4);
    BlockIsIn(p, q);
    forall i, j | 0 <= i < j < |order|
      ensures Blockwise(order[i], order[j])
    {
      assert RowMajor(order[i], order[j]) && order[i] in order && order[j] in order;
    }
  }

  lemma JoinBlock(x: seq<Cell>, y: seq<Cell>, p: nat, q: nat)
    requires InOrder(x, Blockwise) && InOrder(y, Blockwise) && InBand(x, p, q) && InBlock(y, p, q)
    ensures InOrder(x + y, Blockwise) && InBand(x + y, p, q + 1)
  {
    JoinInOrder(x, y, Blockwise);
  }

  lemma JoinBand(x: seq<Cell>, y: seq<Cell>, p: nat, k: nat)
    requires InOrder(x, Blockwise) && InOrder(y, Blockwise) && InBands(x, p) && InBand(y, p, k)
    ensures InOrder(x + y, Blockwise) && InBands(x + y, p + 1)
  {
    JoinInOrder(x, y, Blockwise);
  }

  lemma {:induction false} BandInOrder(p: nat, k: nat)
    ensures InOrder(BandCells(4 * p, k), Blockwise) && InBand(BandCells(4 * p, k), p, k)
  {
    if k > 0 {
      BandInOrder(p, k - 1);
      WholeBlockInOrder(p, k - 1);
      BlockIsIn(p, k - 1);
      JoinBlock(BandCells(4 * p, k - 1), BlockCells(4 * p, 4 * (k - 1), 4), p, k - 1);
    }
  }

  /** `transpose_blocking` goes through A block by block. */
  lemma {:induction false} BlockedInOrder(blocks: nat, k: nat)
    ensures InOrder(BlockedCells(blocks, k), Blockwise) && InBands(BlockedCells(blocks, k), k)
  {
    if k > 0 {
      BlockedInOrder(blocks, k - 1);
      BandInOrder(k - 1, blocks);
      JoinBand(BlockedCells(blocks, k - 1), BandCells(4 * (k - 1), blocks), k - 1, blocks);
    }
  }

  // ---- Bounds ----

  ghost predicate InBounds(order: seq<Cell>, m: nat, n: nat) {
    forall c | c in order :: InRect(c, 0, n, 0, m)
  }

  predicate Blockable(m: nat, n: nat) {
    m == 0 || n == 0 || (m % 4 == 0 && n % 4 == 0)
  }

  /** The blocked loops stay inside the matrices exactly when both sides are divisible by four, or one is 0. */
  lemma StaysInBoundsIff(m: nat, n: nat)
    ensures InBounds(BlockedOrder(m, n), m, n) <==> Blockable(m, n)
  {
    var order := BlockedOrder(m, n);
    BlockedTiles(Fours(m), Fours(n));
    var bottom, right := 4 * Fours(n), 4 * Fours(m);
    forall c: Cell ensures c in order <==> InRect(c, 0, bottom, 0, right) {
      assert c in order <==> multiset(order)[c] > 0;
    }
    if m > 0 && n > 0 {
      assert Cell(bottom - 1, 0) in order && Cell(0, right - 1) in order;
    }
  }

  // ---- The functions themselves, on A[N][M] and B[M][N] ----

  ghost predicate Shapes(m: nat, n: nat, a: array2<int>, b: array2<int>) {
    a != b && a.Length0 == n && a.Length1 == m && b.Length0 == m && b.Length1 == n
  }

  ghost predicate Transposed(m: nat, n: nat, a: array2<int>, b: array2<int>)
    requires Shapes(m, n, a, b)
    reads a, b
  {
    forall i, j | 0 <= i < n && 0 <= j < m :: b[j, i] == a[i, j]
  }

  /** The visited elements have been copied. */
  ghost predicate Copied(order: seq<Cell>, m: nat, n: nat, a: array2<int>, b: array2<int>)
    requires Shapes(m, n, a, b)
    reads a, b
  {
    forall c | c in order :: InRect(c, 0, n, 0, m) && b[c.col, c.row] == a[c.row, c.col]
  }

  lemma CopiedIsTransposed(order: seq<Cell>, m: nat, n: nat, a: array2<int>, b: array2<int>)
    requires Shapes(m, n, a, b) && Copied(order, m, n, a, b) && Tiles(order, 0, n, 0, m)
    ensures Transposed(m, n, a, b)
  {
    forall i, j | 0 <= i < n && 0 <= j < m ensures b[j, i] == a[i, j] {
      assert multiset(order)[Cell(i, j)] == 1;
      assert Cell(i, j) in order;
    }
  }

  /** `B[j][i] = A[i][j]`: one more visit, behind those already made. */
  method CopyCell(i: nat, j: nat, m: nat, n: nat, a: array2<int>, b: array2<int>, ghost before: seq<Cell>)
    returns (ghost visits: seq<Cell>)
    requires Shapes(m, n, a, b) && i < n && j < m && Copied(before, m, n, a, b)
    modifies b
    ensures visits == before + [Cell(i, j)] && Copied(visits, m, n, a, b)
  {
    b[j, i] := a[i, j];
    visits := before + [Cell(i, j)];
  }

  /** `trans`, with its visits. */
  method Trans(m: nat, n: nat, a: array2<int>, b: array2<int>) returns (ghost visits: seq<Cell>)
    requires Shapes(m, n, a, b)
    modifies b
    ensures visits == PlainOrder(m, n) && Transposed(m, n, a, b)
  {
    visits := [];
    var i := 0;
    while i < n
      invariant i <= n && visits == PlainOrder(m, i) && Copied(visits, m, n, a, b)
    {
      visits := TransRow(i, m, n, a, b, visits);
      i := i + 1;
    }
    PlainTiles(m, n);
    CopiedIsTransposed(visits, m, n, a, b);
  }

  method TransRow(i: nat, m: nat, n: nat, a: array2<int>, b: array2<int>, ghost before: seq<Cell>)
    returns (ghost visits: seq<Cell>)
    requires Shapes(m, n, a, b) && i < n && Copied(before, m, n, a, b)
    modifies b
    ensures visits == before + RowCells(i, 0, m) && Copied(visits, m, n, a, b)
  {
    visits := before;
    var j := 0;
    while j < m
      invariant j <= m && visits == before + RowCells(i, 0, j) && Copied(visits, m, n, a, b)
    {
      visits := CopyCell(i, j, m, n, a, b, visits);
      j := j + 1;
    }
  }

  /** `transpose_blocking`, with its visits; B is what `trans` makes it. */
  method TransposeBlocking(m: nat, n: nat, a: array2<int>, b: array2<int>) returns (ghost visits: seq<Cell>)
    requires Shapes(m, n, a, b) && Blockable(m, n)
    modifies b
    ensures visits == BlockedOrder(m, n) && Transposed(m, n, a, b)
  {
    visits := [];
    var i: nat := 0;
    ghost var k: nat := 0;
    while i < n
      invariant i == 4 * k && i < n + 4 && visits == BlockedCells(Fours(m), k) && Copied(visits, m, n, a, b)
    {
      FoursStep(i, k, n);
      visits := Band(i, m, n, a, b, visits);
      i, k := i + 4, k + 1;
    }
    FoursStep(i, k, n);
    BlockedTransposes(m, n, a, b);
  }

  lemma BlockedTransposes(m: nat, n: nat, a: array2<int>, b: array2<int>)
    requires Shapes(m, n, a, b) && Blockable(m, n) && Copied(BlockedOrder(m, n), m, n, a, b)
    ensures Transposed(m, n, a, b)
  {
    if m > 0 && n > 0 {
      BlockedIsPermuted(m, n);
      CopiedIsTransposed(BlockedOrder(m, n), m, n, a, b);
    }
  }

  method Band(i: nat, m: nat, n: nat, a: array2<int>, b: array2<int>, ghost before: seq<Cell>)
    returns (ghost visits: seq<Cell>)
    requires Shapes(m, n, a, b) && m % 4 == 0 && (m > 0 ==> i + 4 <= n) && Copied(before, m, n, a, b)
    modifies b
    ensures visits == before + BandCells(i, Fours(m)) && Copied(visits, m, n, a, b)
  {
    visits := before;
    var j: nat := 0;
    ghost var k: nat := 0;
    while j < m
      invariant j == 4 * k && j <= m && visits == before + BandCells(i, k) && Copied(visits, m, n, a, b)
    {
      FoursStep(j, k, m);
      visits := Block(i, j, m, n, a, b, visits);
      BandGrows(before, i, j, k);
      j, k := j + 4, k + 1;
    }
    FoursStep(j, k, m);
  }

  lemma BandGrows(order: seq<Cell>, i: nat, j: nat, k: nat)
    requires j == 4 * k
    ensures order + BandCells(i, k) + BlockCells(i, j, 4) == order + BandCells(i, k + 1)
  {
  }

  method Block(i: nat, j: nat, m: nat, n: nat, a: array2<int>, b: array2<int>, ghost before: seq<Cell>)
    returns (ghost visits: seq<Cell>)
    requires Shapes(m, n, a, b) && i + 4 <= n && j + 4 <= m && Copied(before, m, n, a, b)
    modifies b
    ensures visits == before + BlockCells(i, j, 4) && Copied(visits, m, n, a, b)
  {
    visits := before;
    var ii := i;
    while ii < i + 4
      invariant i <= ii <= i + 4 && visits == before + BlockCells(i, j, ii - i) && Copied(visits, m, n, a, b)
    {
      visits := BlockRow(ii, j, m, n, a, b, visits);
      ii := ii + 1;
    }
  }

  method BlockRow(ii: nat, j: nat, m: nat, n: nat, a: array2<int>, b: array2<int>, ghost before: seq<Cell>)
    returns (ghost visits: seq<Cell>)
    requires Shapes(m, n, a, b) && ii < n && j + 4 <= m && Copied(before, m, n, a, b)
    modifies b
    ensures visits == before + RowCells(ii, j, 4) && Copied(visits, m, n, a, b)
  {
    visits := before;
    var jj := j;
    while jj < j + 4
      invariant j <= jj <= j + 4 && visits == before + RowCells(ii, j, jj - j) && Copied(visits, m, n, a, b)
    {
      visits := CopyCell(ii, jj, m, n, a, b, visits);
      jj := jj + 1;
    }
  }

  /** One line of the inner block: `w` reads into temporaries, then `w` writes. */
  method CopyRun(w: nat, ii: nat, jj: nat, m: nat, n: nat, a: array2<int>, b: array2<int>, ghost order: seq<Cell>)
    requires Shapes(m, n, a, b) && (w == 4 || w == 8) && ii < n && jj + w <= m && Copied(order, m, n, a, b)
    modifies b
    ensures Copied(order + RowCells(ii, jj, w), m, n, a, b)
  {
    assert order + RowCells(ii, jj, 0) == order;
    if w == 8 {
      var tmp0, tmp1, tmp2, tmp3 := a[ii, jj], a[ii, jj + 1], a[ii, jj + 2], a[ii, jj + 3];
      var tmp4, tmp5, tmp6, tmp7 := a[ii, jj + 4], a[ii, jj + 5], a[ii, jj + 6], a[ii, jj + 7];
      WriteFour(tmp0, tmp1, tmp2, tmp3, ii, jj, 0, m, n, a, b, order);
      WriteFour(tmp4, tmp5, tmp6, tmp7, ii, jj, 4, m, n, a, b, order);
    } else {
      var tmp0, tmp1, tmp2, tmp3 := a[ii, jj], a[ii, jj + 1], a[ii, jj + 2], a[ii, jj + 3];
      WriteFour(tmp0, tmp1, tmp2, tmp3, ii, jj, 0, m, n, a, b, order);
    }
  }

  method WriteFour(t0: int, t1: int, t2: int, t3: int, ii: nat, jj: nat, k: nat,
                   m: nat, n: nat, a: array2<int>, b: array2<int>, ghost order: seq<Cell>)
    requires Shapes(m, n, a, b) && ii < n && jj + k + 4 <= m && Copied(order + RowCells(ii, jj, k), m, n, a, b)
    requires t0 == a[ii, jj + k] && t1 == a[ii, jj + k + 1] && t2 == a[ii, jj + k + 2] && t3 == a[ii, jj + k + 3]
    modifies b
    ensures Copied(order + RowCells(ii, jj, k + 4), m, n, a, b)
  {
    WriteTwo(t0, t1, ii, jj, k, m, n, a, b, order);
    WriteTwo(t2, t3, ii, jj, k + 2, m, n, a, b, order);
  }

  method WriteTwo(t0: int, t1: int, ii: nat, jj: nat, k: nat,
                  m: nat, n: nat, a: array2<int>, b: array2<int>, ghost order: seq<Cell>)
    requires Shapes(m, n, a, b) && ii < n && jj + k + 2 <= m && Copied(order + RowCells(ii, jj, k), m, n, a, b)
    requires t0 == a[ii, jj + k] && t1 == a[ii, jj + k + 1]
    modifies b
    ensures Copied(order + RowCells(ii, jj, k + 2), m, n, a, b)
  {
    WriteTemp(t0, ii, jj, k, m, n, a, b, order);
    WriteTemp(t1, ii, jj, k + 1, m, n, a, b, order);
  }

  method WriteTemp(tmp: int, ii: nat, jj: nat, k: nat,
                   m: nat, n: nat, a: array2<int>, b: array2<int>, ghost order: seq<Cell>)
    requires Shapes(m, n, a, b) && ii < n && jj + k < m && Copied(order + RowCells(ii, jj, k), m, n, a, b)
    requires tmp == a[ii, jj + k]
    modifies b
    ensures Copied(order + RowCells(ii, jj, k + 1), m, n, a, b)
  {
    b[jj + k, ii] := tmp;
    assert order + RowCells(ii, jj, k + 1) == order + RowCells(ii, jj, k) + [Cell(ii, jj + k)];
  }

  /** Rows `i` to `i + w` of the strip of columns `j` to `j + w`. */
  method StripBlock(w: nat, i: nat, j: nat, side: nat, a: array2<int>, b: array2<int>,
                    ghost order: seq<Cell>, ghost above: seq<Cell>) returns (ghost strip: seq<Cell>)
    requires Shapes(side, side, a, b) && (w == 4 || w == 8) && i + w <= side && j + w <= side
    requires Copied(order + above, side, side, a, b) && Tiles(above, 0, i, j, j + w)
    modifies b
    ensures Copied(order + strip, side, side, a, b) && Tiles(strip, 0, i + w, j, j + w)
  {
    var ii := i;
    strip := above;
    while ii < i + w
      invariant i <= ii <= i + w
      invariant Copied(order + strip, side, side, a, b) && Tiles(strip, 0, ii, j, j + w)
    {
      CopyRun(w, ii, j, side, side, a, b, order + strip);
      RowTiles(ii, j, w);
      TilesBelow(strip, RowCells(ii, j, w), 0, ii, ii + 1, j, j + w);
      assert order + strip + RowCells(ii, j, w) == order + (strip + RowCells(ii, j, w));
      strip := strip + RowCells(ii, j, w);
      ii := ii + 1;
    }
  }

  /** The middle loop: all rows of the strip of columns `j` to `j + w`. */
  method Strip(w: nat, j: nat, side: nat, a: array2<int>, b: array2<int>, ghost left: seq<Cell>)
    returns (ghost order: seq<Cell>)
    requires Shapes(side, side, a, b) && (w == 4 || w == 8) && side % 8 == 0 && j + w <= side
    requires Copied(left, side, side, a, b) && Tiles(left, 0, side, 0, j)
    modifies b
    ensures Copied(order, side, side, a, b) && Tiles(order, 0, side, 0, j + w)
  {
    var i := 0;
    ghost var strip: seq<Cell> := [];
    assert left + strip == left;
    while i < side
      invariant 0 <= i <= side && Aligned(w, i)
      invariant Copied(left + strip, side, side, a, b) && Tiles(strip, 0, i, j, j + w)
    {
      NextMultiple(w, i, side);
      strip := StripBlock(w, i, j, side, a, b, left, strip);
      i := i + w;
    }
    TilesBeside(left, strip, 0, side, 0, j, j + w);
    order := left + strip;
  }

  predicate Aligned(w: nat, i: int) {
    if w == 8 then i % 8 == 0 else i % 4 == 0
  }

  lemma NextMultiple(w: nat, i: nat, side: nat)
    requires (w == 4 || w == 8) && side % 8 == 0 && i < side && Aligned(w, i)
    ensures i + w <= side && Aligned(w, i + w)
  {
  }

  /** The nests of `transpose_submit`, by blocks of `w` columns. */
  method SubmitBlocked(w: nat, side: nat, a: array2<int>, b: array2<int>)
    requires Shapes(side, side, a, b) && (w == 4 || w == 8) && side % 8 == 0
    modifies b
    ensures Transposed(side, side, a, b)
  {
    var j := 0;
    ghost var order: seq<Cell> := [];
    while j < side
      invariant 0 <= j <= side && Aligned(w, j)
      invariant Copied(order, side, side, a, b) && Tiles(order, 0, side, 0, j)
    {
      NextMultiple(w, j, side);
      order := Strip(w, j, side, a, b, order);
      j := j + w;
    }
    CopiedIsTransposed(order, side, side, a, b);
  }

  /** `transpose_submit`: the three sizes it knows are transposed, any other leaves B as it is. */
  method TransposeSubmit(m: nat, n: nat, a: array2<int>, b: array2<int>)
    requires Shapes(m, n, a, b)
    modifies b
    ensures if (m, n) in {(32, 32), (64, 64), (61, 67)} then Transposed(m, n, a, b)
            else forall i, j | 0 <= i < m && 0 <= j < n :: b[i, j] == old(b[i, j])
  {
    if m == 32 && n == 32 {
      SubmitBlocked(8, 32, a, b);
    }
    if m == 64 && n == 64 {
      SubmitBlocked(4, 64, a, b);
    }
    if m == 61 && n == 67 {
      var _ := Trans(m, n, a, b);
    }
  }

  /** `is_transpose`. */
  method IsTranspose(m: nat, n: nat, a: array2<int>, b: array2<int>) returns (same: bool)
    requires Shapes(m, n, a, b)
    ensures same <==> Transposed(m, n, a, b)
  {
    var i := 0;
    while i < n
      invariant 0 <= i <= n && forall r, c | 0 <= r < i && 0 <= c < m :: b[c, r] == a[r, c]
    {
      var j := 0;
      while j < m
        invariant 0 <= j <= m && forall c | 0 <= c < j :: b[c, i] == a[i, c]
      {
        if a[i, j] != b[j, i] {
          return false;
        }
        j := j + 1;
      }
      i := i + 1;
    }
    return true;
  }
}
