/** The cellular-automaton part of the board engine: grids, the neighbour
    count exactly as `_calculate_neighbours` in gol.py computes it, the B3/S23 rule, one generation,
    and stamping a structure onto a grid. */
module Life {

  datatype Option<T> = None | Some(value: T)

  /** A board: a list of rows, each a list of cells; 1 is alive. */
  type Grid = seq<seq<int>>

  /** `rows` rows of `columns` cells each. */
  predicate IsGrid(g: Grid, rows: nat, columns: nat)
  {
    |g| == rows && forall r :: 0 <= r < rows ==> |g[r]| == columns
  }

  /** Every cell is 0 or 1. */
  predicate IsBinaryGrid(g: Grid)
  {
    forall r, c :: 0 <= r < |g| && 0 <= c < |g[r]| ==> g[r][c] == 0 || g[r][c] == 1
  }

  /** Cell (r, c), or 0 outside the grid. The blank and changed flags read
      cells through this function only. */
  function At(g: Grid, r: int, c: int): int
  {
    if 0 <= r < |g| && 0 <= c < |g[r]| then g[r][c] else 0
  }

  /** No cell is alive. */
  predicate IsBlank(g: Grid)
  {
    forall r, c :: 0 <= r < |g| && 0 <= c < |g[r]| ==> At(g, r, c) != 1
  }

  /** Some cell holds different values in the two grids. */
  predicate Changed(a: Grid, b: Grid)
  {
    exists r, c :: 0 <= r < |a| && 0 <= c < |a[r]| && At(a, r, c) != At(b, r, c)
  }

  /** In a blank grid every cell counts as dead, inside the grid or not. */
  lemma BlankIsDead(g: Grid, r: int, c: int)
    requires IsBlank(g)
    ensures Live(g, r, c) == 0
  {
    if 0 <= r < |g| && 0 <= c < |g[r]| {
      assert At(g, r, c) != 1;
    }
  }

  /** The all-dead `rows` x `columns` grid a new board starts from. */
  function EmptyGrid(rows: nat, columns: nat): (g: Grid)
    ensures IsGrid(g, rows, columns) && IsBinaryGrid(g) && IsBlank(g)
  {
    seq(rows, _ => seq(columns, _ => 0))
  }

  /** Two grids of the same shape with the same cells are equal. */
  lemma GridExtensionality(a: Grid, b: Grid)
    requires |a| == |b| && forall r :: 0 <= r < |a| ==> |a[r]| == |b[r]|
    requires forall r, c :: 0 <= r < |a| && 0 <= c < |a[r]| ==> a[r][c] == b[r][c]
    ensures a == b
  {
    forall r | 0 <= r < |a|
      ensures a[r] == b[r]
    {
    }
  }

  // ---------------------------------------------------------------------
  // Neighbour count

  /** Python's `s[i]`: a negative index counts from the end; any other index
      outside the list raises IndexError, here None. */
  function PyIndex<T>(s: seq<T>, i: int): (v: Option<T>)
    ensures v.Some? <==> -|s| <= i < |s|
  {
    if 0 <= i < |s| then Some(s[i])
    else if -|s| <= i < 0 then Some(s[|s| + i])
    else None
  }

  /** One guarded probe of `_calculate_neighbours` in gol.py: it looks up
      `g[row][column]` with Python indexing, counts 1 when that cell is 1 and
      `guard` holds, and counts 0 when the lookup raises IndexError. */
  function Probe(g: Grid, row: int, column: int, guard: bool): (p: nat)
    ensures p <= 1
  {
    match PyIndex(g, row)
    case None => 0
    case Some(line) =>
      match PyIndex(line, column)
      case None => 0
      case Some(v) => if v == 1 && guard then 1 else 0
  }

  /** The neighbour count of cell (x, y) (x the column, y the row) written
      probe by probe as `_calculate_neighbours` in gol.py writes it, in its
      order and with its guards. */
  function SourceNeighbours(g: Grid, x: int, y: int): (n: nat)
    ensures n <= 8
  {
    Probe(g, y - 1, x, y >= 1)
    + Probe(g, y + 1, x, true)
    + Probe(g, y, x - 1, x >= 1)
    + Probe(g, y, x + 1, true)
    + Probe(g, y - 1, x - 1, y >= 1 && x >= 1)
    + Probe(g, y - 1, x + 1, y >= 1)
    + Probe(g, y + 1, x - 1, x >= 0)
    + Probe(g, y + 1, x + 1, true)
  }

  /** 1 when (row, column) is inside the grid and alive, else 0. */
  function Live(g: Grid, row: int, column: int): nat
  {
    if 0 <= row < |g| && 0 <= column < |g[row]| && g[row][column] == 1 then 1 else 0
  }

  /** The live cells of the Moore neighbourhood of (x, y) that lie inside the
      grid, with no wrap-around. */
  function CleanNeighbours(g: Grid, x: int, y: int): (n: nat)
    ensures n <= 8
  {
    Live(g, y - 1, x - 1) + Live(g, y - 1, x) + Live(g, y - 1, x + 1)
    + Live(g, y, x - 1) + Live(g, y, x + 1)
    + Live(g, y + 1, x - 1) + Live(g, y + 1, x) + Live(g, y + 1, x + 1)
  }

  /** The one probe whose guard does not reject Python's wrap-around: at
      column 0 the lower-left lookup uses column -1 and so reads the last cell
      of the next row. */
  function WrapTerm(g: Grid, x: int, y: int): nat
  {
    if x == 0 && 0 <= y && y + 1 < |g| && |g[y + 1]| > 0 && g[y + 1][|g[y + 1]| - 1] == 1 then 1 else 0
  }

  /** The neighbour count the board uses: the clean Moore count plus the wrap
      term. */
  function Neighbours(g: Grid, x: int, y: int): (n: nat)
    ensures n <= 8
  {
    CleanNeighbours(g, x, y) + WrapTerm(g, x, y)
  }

  /** For every cell `update_board` in gol.py asks about, the probe-by-probe count with
      Python's indexing is exactly the clean count plus the wrap term: every
      other out-of-range lookup either raises or is rejected by its guard. */
  lemma NeighboursMatchSource(g: Grid, x: int, y: int)
    requires 0 <= y < |g| && 0 <= x
    ensures SourceNeighbours(g, x, y) == Neighbours(g, x, y)
  {
  }

  /** Away from column 0, and anywhere on the last row, the count is the clean
      Moore count. */
  lemma NeighboursClean(g: Grid, x: int, y: int)
    requires 0 <= y < |g| && 0 <= x
    requires x >= 1 || y == |g| - 1
    ensures SourceNeighbours(g, x, y) == CleanNeighbours(g, x, y)
  {
    NeighboursMatchSource(g, x, y);
  }

  /** Never more than 6 neighbours are counted at column 0 and never more
      than 8 anywhere. */
  lemma NeighboursBound(g: Grid, x: int, y: int)
    requires 0 <= y < |g| && 0 <= x
    ensures SourceNeighbours(g, x, y) <= (if x == 0 then 6 else 8)
  {
    NeighboursMatchSource(g, x, y);
  }

  /** The wrap term is observable: in a horizontal blinker on a 3 x 3 grid the
      top-left cell sees three live cells instead of two, so it is born,
      although the clean count would leave it dead. */
  lemma WrapChangesTheCount()
    ensures var g: Grid := [[0, 0, 0], [1, 1, 1], [0, 0, 0]];
            SourceNeighbours(g, 0, 0) == 3 && CleanNeighbours(g, 0, 0) == 2
            && Rule(g[0][0], SourceNeighbours(g, 0, 0)) == 1
            && Rule(g[0][0], CleanNeighbours(g, 0, 0)) == 0
  {
  }

  // ---------------------------------------------------------------------
  // One generation

  /** Conway's rule in the branch order of `update_board` in gol.py; a cell that matches no
      branch is dead in the new grid. */
  function Rule(state: int, neighbours: nat): (next: int)
    ensures next == 0 || next == 1
    ensures next == 1 <==> (state == 1 && (neighbours == 2 || neighbours == 3))
                           || (state == 0 && neighbours == 3)
  {
    if state == 1 && neighbours < 2 then 0
    else if state == 1 && 1 < neighbours < 4 then 1
    else if state == 1 && neighbours > 3 then 0
    else if state == 0 && neighbours == 3 then 1
    else 0
  }

  /** Cells c.. of row r of the next generation, each computed from the old
      grid only. */
  function NextRow(g: Grid, r: nat, c: nat): (row: seq<int>)
    requires r < |g| && c <= |g[r]|
    ensures |row| == |g[r]| - c
    decreases |g[r]| - c
  {
    if c == |g[r]| then [] else [Rule(g[r][c], Neighbours(g, c, r))] + NextRow(g, r, c + 1)
  }

  /** Rows r.. of the next generation. */
  function NextRows(g: Grid, r: nat): (rows: Grid)
    requires r <= |g|
    ensures |rows| == |g| - r
    decreases |g| - r
  {
    if r == |g| then [] else [NextRow(g, r, 0)] + NextRows(g, r + 1)
  }

  /** The next generation: the grid is rebuilt row by row, cell by cell, and
      every new cell depends on the old grid only. */
  function Step(g: Grid): (next: Grid)
    ensures |next| == |g|
  {
    NextRows(g, 0)
  }

  lemma {:induction false} NextRowsRow(g: Grid, r0: nat, r: nat)
    requires r0 <= r < |g|
    ensures NextRows(g, r0)[r - r0] == NextRow(g, r, 0)
    decreases r - r0
  {
    if r0 < r {
      NextRowsRow(g, r0 + 1, r);
    }
  }

  /** The next generation has the shape of the old one. */
  lemma StepShape(g: Grid)
    ensures forall r :: 0 <= r < |g| ==> |Step(g)[r]| == |g[r]|
  {
    forall r | 0 <= r < |g|
      ensures |Step(g)[r]| == |g[r]|
    {
      NextRowsRow(g, 0, r);
    }
  }

  lemma {:induction false} NextRowCell(g: Grid, r: nat, c0: nat, c: nat)
    requires r < |g| && c0 <= c < |g[r]|
    ensures NextRow(g, r, c0)[c - c0] == Rule(g[r][c], Neighbours(g, c, r))
    decreases c - c0
  {
    if c0 < c {
      NextRowCell(g, r, c0 + 1, c);
    }
  }

  /** A cell of the next generation is alive iff it was alive with two or three
      live neighbours, or dead with exactly three. */
  lemma StepCell(g: Grid, r: nat, c: nat)
    requires r < |g| && c < |g[r]|
    ensures |Step(g)[r]| == |g[r]|
    ensures Step(g)[r][c] == Rule(g[r][c], Neighbours(g, c, r))
    ensures Step(g)[r][c] == 1 <==>
              (g[r][c] == 1 && (Neighbours(g, c, r) == 2 || Neighbours(g, c, r) == 3))
              || (g[r][c] == 0 && Neighbours(g, c, r) == 3)
  {
    NextRowsRow(g, 0, r);
    NextRowCell(g, r, 0, c);
  }

  /** The next generation holds only 0 and 1. */
  lemma StepBinary(g: Grid)
    ensures IsBinaryGrid(Step(g))
  {
    StepShape(g);
    forall r, c | 0 <= r < |g| && 0 <= c < |g[r]|
      ensures Step(g)[r][c] == 0 || Step(g)[r][c] == 1
    {
      StepCell(g, r, c);
    }
  }

  /** A blank grid gives every cell zero neighbours. */
  lemma BlankHasNoNeighbours(g: Grid, x: int, y: int)
    requires IsBlank(g)
    ensures Neighbours(g, x, y) == 0
  {
    BlankIsDead(g, y - 1, x - 1);
    BlankIsDead(g, y - 1, x);
    BlankIsDead(g, y - 1, x + 1);
    BlankIsDead(g, y, x - 1);
    BlankIsDead(g, y, x + 1);
    BlankIsDead(g, y + 1, x - 1);
    BlankIsDead(g, y + 1, x);
    BlankIsDead(g, y + 1, x + 1);
    if x == 0 && 0 <= y && y + 1 < |g| && |g[y + 1]| > 0 {
      BlankIsDead(g, y + 1, |g[y + 1]| - 1);
    }
  }

  /** A blank grid stays blank, and a blank binary grid does not change. */
  lemma StepOfBlank(g: Grid)
    requires IsBlank(g)
    ensures IsBlank(Step(g))
    ensures IsBinaryGrid(g) ==> Step(g) == g
  {
    var next := Step(g);
    StepShape(g);
    forall r, c | 0 <= r < |g| && 0 <= c < |g[r]|
      ensures next[r][c] == 0 && At(next, r, c) != 1
      ensures IsBinaryGrid(g) ==> g[r][c] == 0
    {
      BlankHasNoNeighbours(g, c, r);
      StepCell(g, r, c);
      BlankIsDead(g, r, c);
    }
    if IsBinaryGrid(g) {
      StepShape(g);
      GridExtensionality(next, g);
    }
  }

  // ---------------------------------------------------------------------
  // Stamping a structure

  /** The structure's footprint at (xoffset, yoffset) lies inside the grid;
      the structure's rows may differ in length. */
  predicate Fits(g: Grid, s: seq<seq<int>>, xoffset: nat, yoffset: nat)
  {
    yoffset + |s| <= |g| &&
    forall y :: 0 <= y < |s| ==> xoffset + |s[y]| <= |g[yoffset + y]|
  }

  /** Whether grid cell (r, c) is covered by the structure placed at the offsets. */
  predicate InFootprint(s: seq<seq<int>>, xoffset: nat, yoffset: nat, r: int, c: int)
  {
    yoffset <= r < yoffset + |s| && xoffset <= c < xoffset + |s[r - yoffset]|
  }

  /** The grid after stamping: each covered cell becomes 1 when the structure's
      entry is 1 and 0 otherwise; every other cell keeps its value. */
  function Stamp(g: Grid, s: seq<seq<int>>, xoffset: nat, yoffset: nat): (r: Grid)
    requires Fits(g, s, xoffset, yoffset)
    ensures |r| == |g| && forall i :: 0 <= i < |g| ==> |r[i]| == |g[i]|
  {
    seq(|g|, i requires 0 <= i < |g| =>
      seq(|g[i]|, j requires 0 <= j < |g[i]| =>
        if InFootprint(s, xoffset, yoffset, i, j)
        then (if s[i - yoffset][j - xoffset] == 1 then 1 else 0)
        else g[i][j]))
  }

  /** Stamping keeps a binary grid binary. */
  lemma StampBinary(g: Grid, s: seq<seq<int>>, xoffset: nat, yoffset: nat)
    requires Fits(g, s, xoffset, yoffset) && IsBinaryGrid(g)
    ensures IsBinaryGrid(Stamp(g, s, xoffset, yoffset))
  {
  }

  /** Stamping the same structure twice is the same as stamping it once. */
  lemma StampIdempotent(g: Grid, s: seq<seq<int>>, xoffset: nat, yoffset: nat)
    requires Fits(g, s, xoffset, yoffset)
    ensures Fits(Stamp(g, s, xoffset, yoffset), s, xoffset, yoffset)
    ensures Stamp(Stamp(g, s, xoffset, yoffset), s, xoffset, yoffset) == Stamp(g, s, xoffset, yoffset)
  {
    var once := Stamp(g, s, xoffset, yoffset);
    GridExtensionality(Stamp(once, s, xoffset, yoffset), once);
  }

  /** Onto a blank grid, the stamped grid is blank iff no entry of the
      structure is 1. */
  lemma StampOntoBlank(g: Grid, s: seq<seq<int>>, xoffset: nat, yoffset: nat)
    requires Fits(g, s, xoffset, yoffset) && IsBlank(g)
    ensures IsBlank(Stamp(g, s, xoffset, yoffset)) <==>
              forall y, x :: 0 <= y < |s| && 0 <= x < |s[y]| ==> s[y][x] != 1
  {
    var t := Stamp(g, s, xoffset, yoffset);
    if !forall y, x :: 0 <= y < |s| && 0 <= x < |s[y]| ==> s[y][x] != 1 {
      var y, x :| 0 <= y < |s| && 0 <= x < |s[y]| && s[y][x] == 1;
      assert InFootprint(s, xoffset, yoffset, y + yoffset, x + xoffset);
      assert At(t, y + yoffset, x + xoffset) == 1;
    } else {
      forall r, c | 0 <= r < |t| && 0 <= c < |t[r]|
        ensures At(t, r, c) != 1
      {
        assert At(g, r, c) != 1;
      }
    }
  }
}
