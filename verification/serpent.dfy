/**
 * The zig-zag ("serpent") scan of an 8x8 block, as produced by SerpentIterator.java.
 *
 * The iterator is a small state machine over seven integer/boolean fields. It is
 * modelled as an immutable `Cursor` value: `Probe` says which cell the next call of
 * `next()` reads, `Advance` is the state change that call makes. `Walk` lists the
 * cells a cursor still visits, and `Traverse` is a for-each loop over a fresh
 * iterator (`Fresh`). The scan is proved against `ScanIndex`, a closed-form
 * position of a cell on its anti-diagonal, and against the table of Figure A.6
 * of ITU-T T.81 (`T81Order`).
 */
module Serpent {
  import opened Wrappers

  /** A grid coordinate: `row` is the first array index, `col` the second. */
  datatype Cell = Cell(row: int, col: int)

  predicate InGrid(c: Cell) {
    0 <= c.row < 8 && 0 <= c.col < 8
  }

  /** An 8x8 array of samples: eight rows of eight cells each. */
  predicate IsGrid(a: seq<seq<real>>) {
    |a| == 8 && forall i :: 0 <= i < 8 ==> |a[i]| == 8
  }

  /** The sample a grid holds at `c`. */
  function At(a: seq<seq<real>>, c: Cell): real
    requires IsGrid(a) && InGrid(c)
  {
    a[c.row][c.col]
  }

  /** Whether diagonal `d` is walked upwards; the direction flips from one diagonal to the next. */
  predicate Ascending(d: nat) {
    if d == 0 then true else !Ascending(d - 1)
  }

  /** Number of cells on anti-diagonal `d` (the cells with row + col == d). */
  function DiagonalLength(d: int): int {
    (if d <= 14 - d then d else 14 - d) + 1
  }

  /** Number of cells on the diagonals before diagonal `d`. */
  function DiagonalStart(d: nat): nat
    requires d <= 15
  {
    if d == 0 then 0 else DiagonalStart(d - 1) + DiagonalLength(d - 1)
  }

  /** The smallest row (and smallest column) that occurs on diagonal `d`. */
  function DiagonalFirst(d: int): int {
    if d <= 7 then 0 else d - 7
  }

  /**
   * Position of a cell in the zig-zag scan. Diagonals are scanned in increasing
   * order; an ascending diagonal from its lowest-left cell upwards (column
   * increasing), the others from the top-right cell downwards (row increasing).
   */
  function ScanIndex(c: Cell): int
    requires InGrid(c)
  {
    var d := c.row + c.col;
    DiagonalStart(d) + (if Ascending(d) then c.col else c.row) - DiagonalFirst(d)
  }

  /** The fifteen diagonals hold 64 cells in all. */
  lemma DiagonalsCoverGrid()
    ensures DiagonalStart(15) == 64
  {
    assert DiagonalStart(1) == 1;
    assert DiagonalStart(2) == 3;
    assert DiagonalStart(3) == 6;
    assert DiagonalStart(4) == 10;
    assert DiagonalStart(5) == 15;
    assert DiagonalStart(6) == 21;
    assert DiagonalStart(7) == 28;
    assert DiagonalStart(8) == 36;
    assert DiagonalStart(9) == 43;
    assert DiagonalStart(10) == 49;
    assert DiagonalStart(11) == 54;
    assert DiagonalStart(12) == 58;
    assert DiagonalStart(13) == 61;
    assert DiagonalStart(14) == 63;
    assert DiagonalStart(15) == 64;
  }

  lemma {:induction false} DiagonalStartGrows(d: nat, e: nat)
    requires d <= e <= 15
    ensures DiagonalStart(d) + (if d < e then DiagonalLength(d) else 0) <= DiagonalStart(e)
    decreases e - d
  {
    if d < e {
      if d + 1 < e {
        DiagonalStartGrows(d + 1, e);
      }
    }
  }

  /** The scan position of every grid cell lies in [0, 64), inside its own diagonal's range. */
  lemma ScanIndexRange(c: Cell)
    requires InGrid(c)
    ensures DiagonalStart(c.row + c.col) <= ScanIndex(c) < DiagonalStart(c.row + c.col + 1)
    ensures 0 <= ScanIndex(c) < 64
  {
    DiagonalsCoverGrid();
    DiagonalStartGrows(c.row + c.col + 1, 15);
  }

  /** The position ranges of two different diagonals do not overlap. */
  lemma DiagonalsDisjoint(d: nat, e: nat, k: int)
    requires d < e <= 14
    requires DiagonalStart(d) <= k < DiagonalStart(d + 1)
    ensures k < DiagonalStart(e)
  {
    if d + 1 < e {
      DiagonalStartGrows(d + 1, e);
    }
  }

  /** Two grid cells with the same scan position are the same cell. */
  lemma ScanIndexInjective(a: Cell, b: Cell)
    requires InGrid(a) && InGrid(b) && ScanIndex(a) == ScanIndex(b)
    ensures a == b
  {
    ScanIndexRange(a);
    ScanIndexRange(b);
    SamePosition(a.row + a.col, b.row + b.col, ScanIndex(a));
  }

  /** A position lies on one diagonal only. */
  lemma SamePosition(d: nat, e: nat, k: int)
    requires d <= 14 && e <= 14
    requires DiagonalStart(d) <= k < DiagonalStart(d + 1)
    requires DiagonalStart(e) <= k < DiagonalStart(e + 1)
    ensures d == e
  {
    if d < e {
      DiagonalsDisjoint(d, e, k);
    } else if e < d {
      DiagonalsDisjoint(e, d, k);
    }
  }

  // ---------------------------------------------------------------------------
  // The iterator state machine

  /** The mutable fields of a SerpentIterator. */
  datatype Cursor = Cursor(
    linearCoord: int,
    localI: int,
    currentI: int,
    localJ: int,
    currentJ: int,
    iterations: int,
    asc: bool)

  /** The field values of a freshly constructed iterator. */
  const Fresh := Cursor(1, 0, 0, 0, 0, 1, true)

  predicate HasNext(c: Cursor) {
    c.linearCoord < 65
  }

  /**
   * The shape of every cursor reachable from `Fresh` that still has a next cell:
   * it points at offset localI - currentJ of diagonal currentI + currentJ, and
   * linearCoord - 1 cells have been read so far.
   */
  ghost predicate Active(c: Cursor) {
    var d := c.currentI + c.currentJ;
    && 0 <= c.currentI <= 7
    && c.iterations == c.currentI + 1
    && 0 <= c.currentJ
    && (c.currentJ > 0 ==> c.currentI == 7)
    && d <= 14
    && c.currentJ <= c.localI < c.iterations
    && c.localJ == d - c.localI
    && c.asc == Ascending(d)
    && c.linearCoord == 1 + DiagonalStart(d) + c.localI - c.currentJ
  }

  lemma ActiveHasNext(c: Cursor)
    requires Active(c)
    ensures HasNext(c)
  {
    var d := c.currentI + c.currentJ;
    DiagonalsCoverGrid();
    DiagonalStartGrows(d + 1, 15);
  }

  lemma FreshIsActive()
    ensures Active(Fresh)
  {
  }

  /** The cursors reachable from `Fresh`: active ones, and exhausted ones. */
  ghost predicate Reachable(c: Cursor) {
    Active(c) || c.linearCoord == 65
  }

  /** The cell the next call of `next()` reads: array[localJ][localI] when ascending, else array[localI][localJ]. */
  function Probe(c: Cursor): (cell: Cell)
    requires Active(c)
    ensures InGrid(cell)
    ensures ScanIndex(cell) == c.linearCoord - 1
  {
    if c.asc then Cell(c.localJ, c.localI) else Cell(c.localI, c.localJ)
  }

  /** `endLine()`: move to the start of the next diagonal and flip the direction. */
  function EndLine(c: Cursor): Cursor {
    var c' := if c.currentI < 7
      then c.(currentI := c.currentI + 1, iterations := c.iterations + 1)
      else c.(currentJ := c.currentJ + 1);
    c'.(asc := !c'.asc, localJ := c'.currentI, localI := c'.currentJ)
  }

  /** The state change of one call of `next()` while `hasNext()` holds. */
  function Advance(c: Cursor): (c': Cursor)
    requires Active(c)
    ensures Reachable(c')
    ensures c'.linearCoord == c.linearCoord + 1
  {
    var stepped := c.(localJ := c.localJ - 1, localI := c.localI + 1, linearCoord := c.linearCoord + 1);
    var c' := if stepped.localI >= stepped.iterations then EndLine(stepped) else stepped;
    AdvanceStaysReachable(c, stepped, c');
    c'
  }

  lemma AdvanceStaysReachable(c: Cursor, stepped: Cursor, c': Cursor)
    requires Active(c)
    requires stepped == c.(localJ := c.localJ - 1, localI := c.localI + 1, linearCoord := c.linearCoord + 1)
    requires c' == if stepped.localI >= stepped.iterations then EndLine(stepped) else stepped
    ensures Reachable(c')
  {
    if stepped.localI < stepped.iterations {
      assert Active(c');
    } else if c.currentI + c.currentJ == 14 {
      DiagonalEndExhausts(c, stepped);
    } else {
      DiagonalEndMovesOn(c, stepped);
    }
  }

  lemma DiagonalEndExhausts(c: Cursor, stepped: Cursor)
    requires Active(c) && c.currentI + c.currentJ == 14
    requires stepped == c.(localJ := c.localJ - 1, localI := c.localI + 1, linearCoord := c.linearCoord + 1)
    requires stepped.localI >= stepped.iterations
    ensures EndLine(stepped).linearCoord == 65
  {
    DiagonalsCoverGrid();
  }

  lemma DiagonalEndMovesOn(c: Cursor, stepped: Cursor)
    requires Active(c) && c.currentI + c.currentJ < 14
    requires stepped == c.(localJ := c.localJ - 1, localI := c.localI + 1, linearCoord := c.linearCoord + 1)
    requires stepped.localI >= stepped.iterations
    ensures Active(EndLine(stepped))
  {
    var d := c.currentI + c.currentJ;
    var e := EndLine(stepped);
    assert DiagonalStart(d + 1) == DiagonalStart(d) + DiagonalLength(d);
    assert e.linearCoord == 1 + DiagonalStart(d + 1);
    assert e.currentI + e.currentJ == d + 1;
  }

  /**
   * `next()`: the sample read and the cursor afterwards. Once the scan is
   * exhausted it yields None (Java's null) and leaves the cursor as it was.
   */
  function Next(a: seq<seq<real>>, c: Cursor): (r: (Option<real>, Cursor))
    requires IsGrid(a) && Reachable(c)
    ensures Reachable(r.1)
    ensures HasNext(c) <==> r.0.Some?
    ensures HasNext(c) ==> r.0.value == At(a, Probe(c)) && r.1.linearCoord == c.linearCoord + 1
    ensures !HasNext(c) ==> r.1 == c
  {
    if HasNext(c) then (Some(At(a, Probe(c))), Advance(c)) else (None, c)
  }

  /** The cells a cursor still visits, in order, until `hasNext()` turns false. */
  function Walk(c: Cursor): (cells: seq<Cell>)
    requires Reachable(c)
    ensures |cells| == 65 - c.linearCoord
    ensures forall m :: 0 <= m < |cells| ==> InGrid(cells[m]) && ScanIndex(cells[m]) == c.linearCoord - 1 + m
    decreases 65 - c.linearCoord
  {
    if HasNext(c) then [Probe(c)] + Walk(Advance(c))
    else
      assert !Active(c) by {
        if Active(c) { ActiveHasNext(c); }
      }
      []
  }

  // ---------------------------------------------------------------------------
  // The scan order

  /** `cells` lists the 64 grid cells in zig-zag order. */
  ghost predicate IsScanOrder(cells: seq<Cell>) {
    |cells| == 64 && forall k :: 0 <= k < 64 ==> InGrid(cells[k]) && ScanIndex(cells[k]) == k
  }

  /** An iterator that has not been advanced yet visits the cells in zig-zag order. */
  lemma WalkIsScanOrder(c: Cursor)
    requires Reachable(c) && c.linearCoord == 1
    ensures IsScanOrder(Walk(c))
  {
  }

  /**
   * A zig-zag order is a permutation of the grid: its cells are pairwise distinct and
   * every grid cell `c` occurs in it, at position `ScanIndex(c)`.
   */
  lemma ScanOrderIsPermutation(cells: seq<Cell>)
    requires IsScanOrder(cells)
    ensures forall k, m :: 0 <= k < m < 64 ==> cells[k] != cells[m]
    ensures forall c :: InGrid(c) ==> c in cells && cells[ScanIndex(c)] == c
  {
    forall c | InGrid(c)
      ensures c in cells && cells[ScanIndex(c)] == c
    {
      ScanIndexRange(c);
      ScanIndexInjective(c, cells[ScanIndex(c)]);
    }
  }

  /**
   * Consecutive cells of the scan: inside an ascending diagonal the scan moves up
   * and right, inside the others down and left; otherwise it moves on to the start
   * of the next diagonal.
   */
  lemma ScanSteps(a: Cell, b: Cell)
    requires InGrid(a) && InGrid(b) && ScanIndex(a) + 1 == ScanIndex(b)
    ensures b.row + b.col == a.row + a.col || b.row + b.col == a.row + a.col + 1
    ensures b.row + b.col == a.row + a.col ==>
      if Ascending(a.row + a.col) then b == Cell(a.row - 1, a.col + 1) else b == Cell(a.row + 1, a.col - 1)
    ensures b.row + b.col == a.row + a.col + 1 ==> ScanIndex(b) == DiagonalStart(b.row + b.col)
  {
    ScanIndexRange(a);
    ScanIndexRange(b);
    ConsecutivePositions(a.row + a.col, b.row + b.col, ScanIndex(a));
    if b.row + b.col == a.row + a.col {
      StepWithinDiagonal(a, b);
    }
  }

  /** Positions `k` and `k + 1` lie on the same diagonal, or `k + 1` starts the next one. */
  lemma ConsecutivePositions(d: nat, e: nat, k: int)
    requires d <= 14 && e <= 14
    requires DiagonalStart(d) <= k < DiagonalStart(d + 1)
    requires DiagonalStart(e) <= k + 1 < DiagonalStart(e + 1)
    ensures e == d || (e == d + 1 && k + 1 == DiagonalStart(e))
  {
    if e < d {
      DiagonalsDisjoint(e, d, k + 1);
    } else if e > d + 1 {
      DiagonalStartGrows(d + 1, e);
    }
  }

  /** Two consecutive cells of one diagonal are neighbours along it, in the diagonal's direction. */
  lemma StepWithinDiagonal(a: Cell, b: Cell)
    requires InGrid(a) && InGrid(b) && ScanIndex(a) + 1 == ScanIndex(b)
    requires a.row + a.col == b.row + b.col
    ensures Ascending(a.row + a.col) ==> b == Cell(a.row - 1, a.col + 1)
    ensures !Ascending(a.row + a.col) ==> b == Cell(a.row + 1, a.col - 1)
  {
  }

  // ---------------------------------------------------------------------------
  // Traversal

  /**
   * A for-each loop over a fresh iterator: `hasNext()` holds for exactly 64 calls of
   * `next()`, which read the samples in zig-zag order; the 65th call yields None.
   * `cells` records which cell each call read.
   */
  method Traverse(a: seq<seq<real>>) returns (values: seq<real>, cells: seq<Cell>, after: Option<real>)
    requires IsGrid(a)
    ensures |values| == |cells| == 64
    ensures IsScanOrder(cells)
    ensures forall k :: 0 <= k < 64 ==> values[k] == At(a, cells[k])
    ensures after == None
  {
    FreshIsActive();
    values, cells, after := Drain(a, Fresh);
  }

  /** `values` are the samples of `a` in zig-zag order. */
  ghost predicate IsZigZagScan(a: seq<seq<real>>, values: seq<real>)
    requires IsGrid(a)
  {
    && |values| == 64
    && exists cells :: IsScanOrder(cells) && forall k :: 0 <= k < 64 ==> values[k] == At(a, cells[k])
  }

  /** The loop of `Traverse`, from a cursor that has not been advanced yet. */
  method Drain(a: seq<seq<real>>, start: Cursor) returns (values: seq<real>, cells: seq<Cell>, after: Option<real>)
    requires IsGrid(a) && Active(start) && start.linearCoord == 1
    ensures |values| == |cells| == 64
    ensures IsScanOrder(cells)
    ensures forall k :: 0 <= k < 64 ==> values[k] == At(a, cells[k])
    ensures after == None
  {
    var c := start;
    values, cells := [], [];
    while HasNext(c)
      invariant Reachable(c)
      invariant |values| == |cells| == c.linearCoord - 1
      invariant forall k :: 0 <= k < |cells| ==> InGrid(cells[k]) && ScanIndex(cells[k]) == k
      invariant forall k :: 0 <= k < |cells| ==> values[k] == At(a, cells[k])
      decreases 65 - c.linearCoord
    {
      var cell := Probe(c);
      var step := Next(a, c);
      values, cells, c := values + [step.0.value], cells + [cell], step.1;
    }
    if Active(c) {
      ActiveHasNext(c);
    }
    after := Next(a, c).0;
  }

  // ---------------------------------------------------------------------------
  // Figure A.6 of ITU-T T.81

  /** The zig-zag position of each coefficient, row by row, as drawn in Figure A.6 of ITU-T T.81. */
  const T81Order: seq<seq<int>> := [
    [ 0,  1,  5,  6, 14, 15, 27, 28],
    [ 2,  4,  7, 13, 16, 26, 29, 42],
    [ 3,  8, 12, 17, 25, 30, 41, 43],
    [ 9, 11, 18, 24, 31, 40, 44, 53],
    [10, 19, 23, 32, 39, 45, 52, 54],
    [20, 22, 33, 38, 46, 51, 55, 60],
    [21, 34, 37, 47, 50, 56, 59, 61],
    [35, 36, 48, 49, 57, 58, 62, 63]]

  lemma Row0Positions()
    ensures ScanIndex(Cell(0, 0)) == 0
    ensures ScanIndex(Cell(0, 1)) == 1
    ensures ScanIndex(Cell(0, 2)) == 5
    ensures ScanIndex(Cell(0, 3)) == 6
    ensures ScanIndex(Cell(0, 4)) == 14
    ensures ScanIndex(Cell(0, 5)) == 15
    ensures ScanIndex(Cell(0, 6)) == 27
    ensures ScanIndex(Cell(0, 7)) == 28
  {
  }

  /** Row 0 of Figure A.6. */
  lemma ScanMatchesT81Row0(c: int)
    requires 0 <= c < 8
    ensures ScanIndex(Cell(0, c)) == T81Order[0][c]
  {
    Row0Positions();
  }

  lemma Row1Positions()
    ensures ScanIndex(Cell(1, 0)) == 2
    ensures ScanIndex(Cell(1, 1)) == 4
    ensures ScanIndex(Cell(1, 2)) == 7
    ensures ScanIndex(Cell(1, 3)) == 13
    ensures ScanIndex(Cell(1, 4)) == 16
    ensures ScanIndex(Cell(1, 5)) == 26
    ensures ScanIndex(Cell(1, 6)) == 29
    ensures ScanIndex(Cell(1, 7)) == 42
  {
  }

  /** Row 1 of Figure A.6. */
  lemma ScanMatchesT81Row1(c: int)
    requires 0 <= c < 8
    ensures ScanIndex(Cell(1, c)) == T81Order[1][c]
  {
    Row1Positions();
  }

  lemma Row2Positions()
    ensures ScanIndex(Cell(2, 0)) == 3
    ensures ScanIndex(Cell(2, 1)) == 8
    ensures ScanIndex(Cell(2, 2)) == 12
    ensures ScanIndex(Cell(2, 3)) == 17
    ensures ScanIndex(Cell(2, 4)) == 25
    ensures ScanIndex(Cell(2, 5)) == 30
    ensures ScanIndex(Cell(2, 6)) == 41
    ensures ScanIndex(Cell(2, 7)) == 43
  {
  }

  /** Row 2 of Figure A.6. */
  lemma ScanMatchesT81Row2(c: int)
    requires 0 <= c < 8
    ensures ScanIndex(Cell(2, c)) == T81Order[2][c]
  {
    Row2Positions();
  }

  lemma Row3Positions()
    ensures ScanIndex(Cell(3, 0)) == 9
    ensures ScanIndex(Cell(3, 1)) == 11
    ensures ScanIndex(Cell(3, 2)) == 18
    ensures ScanIndex(Cell(3, 3)) == 24
    ensures ScanIndex(Cell(3, 4)) == 31
    ensures ScanIndex(Cell(3, 5)) == 40
    ensures ScanIndex(Cell(3, 6)) == 44
    ensures ScanIndex(Cell(3, 7)) == 53
  {
  }

  /** Row 3 of Figure A.6. */
  lemma ScanMatchesT81Row3(c: int)
    requires 0 <= c < 8
    ensures ScanIndex(Cell(3, c)) == T81Order[3][c]
  {
    Row3Positions();
  }

  lemma Row4Positions()
    ensures ScanIndex(Cell(4, 0)) == 10
    ensures ScanIndex(Cell(4, 1)) == 19
    ensures ScanIndex(Cell(4, 2)) == 23
    ensures ScanIndex(Cell(4, 3)) == 32
    ensures ScanIndex(Cell(4, 4)) == 39
    ensures ScanIndex(Cell(4, 5)) == 45
    ensures ScanIndex(Cell(4, 6)) == 52
    ensures ScanIndex(Cell(4, 7)) == 54
  {
  }

  /** Row 4 of Figure A.6. */
  lemma ScanMatchesT81Row4(c: int)
    requires 0 <= c < 8
    ensures ScanIndex(Cell(4, c)) == T81Order[4][c]
  {
    Row4Positions();
  }

  lemma Row5Positions()
    ensures ScanIndex(Cell(5, 0)) == 20
    ensures ScanIndex(Cell(5, 1)) == 22
    ensures ScanIndex(Cell(5, 2)) == 33
    ensures ScanIndex(Cell(5, 3)) == 38
    ensures ScanIndex(Cell(5, 4)) == 46
    ensures ScanIndex(Cell(5, 5)) == 51
    ensures ScanIndex(Cell(5, 6)) == 55
    ensures ScanIndex(Cell(5, 7)) == 60
  {
  }

  /** Row 5 of Figure A.6. */
  lemma ScanMatchesT81Row5(c: int)
    requires 0 <= c < 8
    ensures ScanIndex(Cell(5, c)) == T81Order[5][c]
  {
    Row5Positions();
  }

  lemma Row6Positions()
    ensures ScanIndex(Cell(6, 0)) == 21
    ensures ScanIndex(Cell(6, 1)) == 34
    ensures ScanIndex(Cell(6, 2)) == 37
    ensures ScanIndex(Cell(6, 3)) == 47
    ensures ScanIndex(Cell(6, 4)) == 50
    ensures ScanIndex(Cell(6, 5)) == 56
    ensures ScanIndex(Cell(6, 6)) == 59
    ensures ScanIndex(Cell(6, 7)) == 61
  {
  }

  /** Row 6 of Figure A.6. */
  lemma ScanMatchesT81Row6(c: int)
    requires 0 <= c < 8
    ensures ScanIndex(Cell(6, c)) == T81Order[6][c]
  {
    Row6Positions();
  }

  lemma Row7Positions()
    ensures ScanIndex(Cell(7, 0)) == 35
    ensures ScanIndex(Cell(7, 1)) == 36
    ensures ScanIndex(Cell(7, 2)) == 48
    ensures ScanIndex(Cell(7, 3)) == 49
    ensures ScanIndex(Cell(7, 4)) == 57
    ensures ScanIndex(Cell(7, 5)) == 58
    ensures ScanIndex(Cell(7, 6)) == 62
    ensures ScanIndex(Cell(7, 7)) == 63
  {
  }

  /** Row 7 of Figure A.6. */
  lemma ScanMatchesT81Row7(c: int)
    requires 0 <= c < 8
    ensures ScanIndex(Cell(7, c)) == T81Order[7][c]
  {
    Row7Positions();
  }

  /** The scan order is the zig-zag sequence of Figure A.6 of ITU-T T.81. */
  lemma ScanMatchesT81(r: int, c: int)
    requires 0 <= r < 8 && 0 <= c < 8
    ensures ScanIndex(Cell(r, c)) == T81Order[r][c]
  {
    if r == 0 { ScanMatchesT81Row0(c); }
    else if r == 1 { ScanMatchesT81Row1(c); }
    else if r == 2 { ScanMatchesT81Row2(c); }
    else if r == 3 { ScanMatchesT81Row3(c); }
    else if r == 4 { ScanMatchesT81Row4(c); }
    else if r == 5 { ScanMatchesT81Row5(c); }
    else if r == 6 { ScanMatchesT81Row6(c); }
    else { ScanMatchesT81Row7(c); }
  }
}
