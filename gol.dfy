/** The board engine: the observable state of a board as a value, the
    transitions `update_board`, `reset` and `test` make on it, and the class
    `GOL` whose methods perform those transitions in place. */
module Gol {
  import opened Life

  /** Everything a board exposes besides its fixed dimensions. */
  datatype GameState = GameState(
    board: Grid,
    hasRun: bool,
    originalBoard: Option<Grid>,
    iteration: nat,
    isBlank: Option<bool>,
    isChanged: Option<bool>)

  /** A freshly constructed board of `columns` x `rows`. */
  function Initial(columns: nat, rows: nat): GameState
  {
    GameState(EmptyGrid(rows, columns), false, None, 0, None, None)
  }

  // The transitions below are stated for any generation function `step`;
  // the board object runs them with `Step`. None of the properties proved
  // about them depends on the rule itself.

  /** The state after one `update_board`: the new board is `step` of the old
      one, the snapshot is taken when the board had not run, and the flags
      say whether the new board is blank and whether any cell changed. */
  function AfterUpdate(step: Grid -> Grid, s: GameState): (t: GameState)
    ensures t.hasRun && t.isBlank.Some? && t.isChanged.Some?
    ensures t.iteration == s.iteration + 1
    ensures s.hasRun ==> t.originalBoard == s.originalBoard
    ensures !s.hasRun ==> t.originalBoard == Some(s.board)
  {
    var next := step(s.board);
    GameState(
      next,
      true,
      if s.hasRun then s.originalBoard else Some(s.board),
      s.iteration + 1,
      Some(IsBlank(next)),
      Some(Changed(s.board, next)))
  }

  /** The state after one `reset`; it needs a snapshot to restore. */
  function AfterReset(s: GameState): (t: GameState)
    requires s.originalBoard.Some?
    ensures !t.hasRun && Some(t.board) == s.originalBoard
    ensures t.originalBoard == s.originalBoard && t.iteration == s.iteration
  {
    s.(board := s.originalBoard.value, hasRun := false)
  }

  /** The state after n consecutive `update_board` calls. */
  function AfterUpdates(step: Grid -> Grid, s: GameState, n: nat): GameState
  {
    if n == 0 then s else AfterUpdate(step, AfterUpdates(step, s, n - 1))
  }

  /** n generations of a grid. */
  function Iterate(step: Grid -> Grid, g: Grid, n: nat): Grid
  {
    if n == 0 then g else step(Iterate(step, g, n - 1))
  }

  lemma {:induction false} IterateShift(step: Grid -> Grid, g: Grid, n: nat)
    ensures Iterate(step, step(g), n) == Iterate(step, g, n + 1)
  {
    if n > 0 {
      IterateShift(step, g, n - 1);
    }
  }

  /** n updates advance the board n generations and the counter by n, and
      leave the snapshot of a board that has already run alone. */
  lemma {:induction false} AfterUpdatesState(step: Grid -> Grid, s: GameState, n: nat)
    ensures AfterUpdates(step, s, n).board == Iterate(step, s.board, n)
    ensures AfterUpdates(step, s, n).iteration == s.iteration + n
    ensures s.hasRun ==> AfterUpdates(step, s, n).originalBoard == s.originalBoard
    ensures n > 0 ==> AfterUpdates(step, s, n).hasRun
  {
    if n > 0 {
      AfterUpdatesState(step, s, n - 1);
    }
  }

  lemma {:induction false} UpdatesAfterUpdate(step: Grid -> Grid, s: GameState, n: nat)
    ensures AfterUpdates(step, AfterUpdate(step, s), n) == AfterUpdates(step, s, n + 1)
  {
    if n > 0 {
      UpdatesAfterUpdate(step, s, n - 1);
    }
  }

  /** Reset after any number n >= 1 of updates from a board that had not run
      restores exactly the board before the first update and clears the run
      flag; the generation counter keeps counting. */
  lemma ResetAfterUpdates(step: Grid -> Grid, s: GameState, n: nat)
    requires !s.hasRun && n >= 1
    ensures AfterUpdates(step, s, n).originalBoard == Some(s.board)
    ensures AfterReset(AfterUpdates(step, s, n)).board == s.board
    ensures !AfterReset(AfterUpdates(step, s, n)).hasRun
    ensures AfterReset(AfterUpdates(step, s, n)).iteration == s.iteration + n
  {
    var first := AfterUpdate(step, s);
    AfterUpdatesState(step, first, n - 1);
    AfterUpdatesState(step, s, n);
    UpdatesAfterUpdate(step, s, n - 1);
  }

  /** A second reset changes nothing. */
  lemma ResetIdempotent(s: GameState)
    requires s.originalBoard.Some?
    ensures AfterReset(AfterReset(s)) == AfterReset(s)
  {
  }

  // ---------------------------------------------------------------------
  // Trials

  /** The step from g stops a trial: it blanks the board while blank boards
      fail, or changes nothing while unchanged boards fail. */
  predicate Fails(step: Grid -> Grid, g: Grid, failIsBlank: bool, failNoChange: bool)
  {
    (failIsBlank && IsBlank(step(g))) || (failNoChange && !Changed(g, step(g)))
  }

  /** Whether a trial of `rounds` updates from g passes. */
  predicate Passes(step: Grid -> Grid, g: Grid, rounds: nat, failIsBlank: bool, failNoChange: bool)
    decreases rounds
  {
    rounds == 0 ||
    (!Fails(step, g, failIsBlank, failNoChange) && Passes(step, step(g), rounds - 1, failIsBlank, failNoChange))
  }

  /** How many updates a trial of `rounds` updates from g performs. */
  function StepsTaken(step: Grid -> Grid, g: Grid, rounds: nat, failIsBlank: bool, failNoChange: bool): nat
    decreases rounds
  {
    if rounds == 0 then 0
    else if Fails(step, g, failIsBlank, failNoChange) then 1
    else 1 + StepsTaken(step, step(g), rounds - 1, failIsBlank, failNoChange)
  }

  /** None of the first n steps from g fails. */
  predicate NoFailureBefore(step: Grid -> Grid, g: Grid, n: nat, failIsBlank: bool, failNoChange: bool)
  {
    forall k :: 0 <= k < n ==> !Fails(step, Iterate(step, g, k), failIsBlank, failNoChange)
  }

  /** No failure at g and none in the first m steps from its successor: no
      failure in the first m + 1 steps from g. */
  lemma NoFailureShift(step: Grid -> Grid, g: Grid, m: nat, failIsBlank: bool, failNoChange: bool)
    requires !Fails(step, g, failIsBlank, failNoChange)
    requires NoFailureBefore(step, step(g), m, failIsBlank, failNoChange)
    ensures NoFailureBefore(step, g, m + 1, failIsBlank, failNoChange)
  {
    forall k | 0 <= k < m + 1
      ensures !Fails(step, Iterate(step, g, k), failIsBlank, failNoChange)
    {
      if k > 0 {
        IterateShift(step, g, k - 1);
        assert !Fails(step, Iterate(step, step(g), k - 1), failIsBlank, failNoChange);
      }
    }
  }

  /** No failure in the first m + 1 steps from g: no failure at g and none in
      the first m steps from its successor. */
  lemma NoFailureUnshift(step: Grid -> Grid, g: Grid, m: nat, failIsBlank: bool, failNoChange: bool)
    requires NoFailureBefore(step, g, m + 1, failIsBlank, failNoChange)
    ensures !Fails(step, g, failIsBlank, failNoChange)
    ensures NoFailureBefore(step, step(g), m, failIsBlank, failNoChange)
  {
    assert Iterate(step, g, 0) == g;
    forall k | 0 <= k < m
      ensures !Fails(step, Iterate(step, step(g), k), failIsBlank, failNoChange)
    {
      IterateShift(step, g, k);
      assert !Fails(step, Iterate(step, g, k + 1), failIsBlank, failNoChange);
    }
  }

  /** A trial passes iff none of its `rounds` steps fails. */
  lemma {:induction false} PassesIff(step: Grid -> Grid, g: Grid, rounds: nat, failIsBlank: bool, failNoChange: bool)
    ensures Passes(step, g, rounds, failIsBlank, failNoChange) <==> NoFailureBefore(step, g, rounds, failIsBlank, failNoChange)
    decreases rounds
  {
    if rounds > 0 {
      PassesIff(step, step(g), rounds - 1, failIsBlank, failNoChange);
      if NoFailureBefore(step, g, rounds, failIsBlank, failNoChange) {
        NoFailureUnshift(step, g, rounds - 1, failIsBlank, failNoChange);
      }
      if Passes(step, g, rounds, failIsBlank, failNoChange) {
        NoFailureShift(step, g, rounds - 1, failIsBlank, failNoChange);
      }
    }
  }

  /** A trial that passes performs all of its `rounds` updates. */
  lemma {:induction false} StepsTakenOfPass(step: Grid -> Grid, g: Grid, rounds: nat, failIsBlank: bool, failNoChange: bool)
    requires Passes(step, g, rounds, failIsBlank, failNoChange)
    ensures StepsTaken(step, g, rounds, failIsBlank, failNoChange) == rounds
    decreases rounds
  {
    if rounds > 0 {
      StepsTakenOfPass(step, step(g), rounds - 1, failIsBlank, failNoChange);
    }
  }

  /** A trial that fails stops right after its first failing step: the step
      it stopped after fails, and no earlier step does. */
  lemma {:induction false} StepsTakenFirstFailure(step: Grid -> Grid, g: Grid, rounds: nat, failIsBlank: bool, failNoChange: bool)
    requires !Passes(step, g, rounds, failIsBlank, failNoChange)
    ensures 1 <= StepsTaken(step, g, rounds, failIsBlank, failNoChange) <= rounds
    ensures Fails(step, Iterate(step, g, StepsTaken(step, g, rounds, failIsBlank, failNoChange) - 1), failIsBlank, failNoChange)
    ensures NoFailureBefore(step, g, StepsTaken(step, g, rounds, failIsBlank, failNoChange) - 1, failIsBlank, failNoChange)
    decreases rounds
  {
    if Fails(step, g, failIsBlank, failNoChange) {
      assert Iterate(step, g, 0) == g;
    } else {
      StepsTakenFirstFailure(step, step(g), rounds - 1, failIsBlank, failNoChange);
      var m := StepsTaken(step, step(g), rounds - 1, failIsBlank, failNoChange);
      IterateShift(step, g, m - 1);
      NoFailureShift(step, g, m - 1, failIsBlank, failNoChange);
    }
  }

  /** The outcome of a trial: whether it passed and the state it leaves. */
  datatype TrialResult = TrialResult(passed: bool, final: GameState)

  /** The flags an update records are what decides whether its step fails. */
  lemma FailsByFlags(step: Grid -> Grid, s: GameState, failIsBlank: bool, failNoChange: bool)
    ensures Fails(step, s.board, failIsBlank, failNoChange) <==>
              (failIsBlank && AfterUpdate(step, s).isBlank == Some(true)) ||
              (failNoChange && AfterUpdate(step, s).isChanged == Some(false))
  {
  }

  /** `test` as a transition: update, then stop with failure when the step
      failed, that is, when the flags of the update report a blank board (if
      `failIsBlank`) or an unchanged one (if `failNoChange`). */
  function Trial(step: Grid -> Grid, s: GameState, rounds: nat, failIsBlank: bool, failNoChange: bool): (r: TrialResult)
    ensures s.iteration <= r.final.iteration <= s.iteration + rounds
    ensures r.passed ==> r.final.iteration == s.iteration + rounds
    ensures !r.passed ==> r.final.iteration > s.iteration && r.final.hasRun
    decreases rounds
  {
    if rounds == 0 then TrialResult(true, s)
    else if Fails(step, s.board, failIsBlank, failNoChange) then TrialResult(false, AfterUpdate(step, s))
    else Trial(step, AfterUpdate(step, s), rounds - 1, failIsBlank, failNoChange)
  }

  /** A trial passes exactly when none of its steps fails. */
  lemma {:induction false} TrialPassed(step: Grid -> Grid, s: GameState, rounds: nat, failIsBlank: bool, failNoChange: bool)
    ensures Trial(step, s, rounds, failIsBlank, failNoChange).passed == Passes(step, s.board, rounds, failIsBlank, failNoChange)
    decreases rounds
  {
    if rounds > 0 {
      if !Fails(step, s.board, failIsBlank, failNoChange) {
        TrialPassed(step, AfterUpdate(step, s), rounds - 1, failIsBlank, failNoChange);
      }
    }
  }

  /** A trial leaves the state of exactly the updates it performed. */
  lemma {:induction false} TrialFinal(step: Grid -> Grid, s: GameState, rounds: nat, failIsBlank: bool, failNoChange: bool)
    ensures Trial(step, s, rounds, failIsBlank, failNoChange).final ==
              AfterUpdates(step, s, StepsTaken(step, s.board, rounds, failIsBlank, failNoChange))
    decreases rounds
  {
    if rounds > 0 && !Fails(step, s.board, failIsBlank, failNoChange) {
      TrialFinal(step, AfterUpdate(step, s), rounds - 1, failIsBlank, failNoChange);
      TrialContinues(step, s, rounds, failIsBlank, failNoChange);
    }
  }

  /** A round that does not fail leaves the rest of the trial to the updated
      state, one update further on. */
  lemma TrialContinues(step: Grid -> Grid, s: GameState, rounds: nat, failIsBlank: bool, failNoChange: bool)
    requires rounds > 0 && !Fails(step, s.board, failIsBlank, failNoChange)
    requires var t := AfterUpdate(step, s);
      Trial(step, t, rounds - 1, failIsBlank, failNoChange).final ==
        AfterUpdates(step, t, StepsTaken(step, t.board, rounds - 1, failIsBlank, failNoChange))
    ensures Trial(step, s, rounds, failIsBlank, failNoChange).final ==
              AfterUpdates(step, s, StepsTaken(step, s.board, rounds, failIsBlank, failNoChange))
  {
    var t := AfterUpdate(step, s);
    var m := StepsTaken(step, t.board, rounds - 1, failIsBlank, failNoChange);
    UpdatesAfterUpdate(step, s, m);
  }

  /** Under the Game of Life rule, a blank board fails any trial of at least
      one round that fails blank boards, right after its first update. */
  lemma BlankFails(g: Grid, rounds: nat, failNoChange: bool)
    requires IsBlank(g) && rounds >= 1
    ensures !Passes(Step, g, rounds, true, failNoChange)
    ensures StepsTaken(Step, g, rounds, true, failNoChange) == 1
  {
    StepOfBlank(g);
  }

  // ---------------------------------------------------------------------
  // Filling the next grid cell by cell, in row-major order

  /** Cell (r, c) comes before cell (row, column) in row-major order. */
  predicate Before(r: int, c: int, row: int, column: int)
  {
    r < row || (r == row && c < column)
  }

  /** The cells before (row, column) hold the next generation, the others 0. */
  ghost predicate FilledUpTo(nb: Grid, next: Grid, rows: nat, columns: nat, row: int, column: int)
    requires IsGrid(nb, rows, columns) && IsGrid(next, rows, columns)
  {
    forall r, c :: 0 <= r < rows && 0 <= c < columns ==>
      nb[r][c] == if Before(r, c, row, column) then next[r][c] else 0
  }

  /** Some cell before (row, column) differs between the two grids. */
  ghost predicate ChangedBefore(nb: Grid, g: Grid, rows: nat, columns: nat, row: int, column: int)
    requires IsGrid(nb, rows, columns) && IsGrid(g, rows, columns)
  {
    exists r, c :: 0 <= r < rows && 0 <= c < columns && Before(r, c, row, column) && nb[r][c] != g[r][c]
  }

  /** Writing the next value into cell (row, column) extends the filled
      prefix by one cell, and the two flags change only by that cell. */
  lemma FillCell(nb: Grid, next: Grid, g: Grid, rows: nat, columns: nat, row: nat, column: nat)
    requires IsGrid(nb, rows, columns) && IsGrid(next, rows, columns) && IsGrid(g, rows, columns)
    requires row < rows && column < columns
    requires FilledUpTo(nb, next, rows, columns, row, column)
    ensures var filled := nb[row := nb[row][column := next[row][column]]];
      IsGrid(filled, rows, columns) &&
      FilledUpTo(filled, next, rows, columns, row, column + 1) &&
      (IsBlank(filled) <==> IsBlank(nb) && next[row][column] != 1) &&
      (ChangedBefore(filled, g, rows, columns, row, column + 1) <==>
         ChangedBefore(nb, g, rows, columns, row, column) || next[row][column] != g[row][column])
  {
    var filled := nb[row := nb[row][column := next[row][column]]];
    assert forall r, c :: 0 <= r < rows && 0 <= c < columns ==>
      filled[r][c] == if r == row && c == column then next[row][column] else nb[r][c];
    if ChangedBefore(filled, g, rows, columns, row, column + 1) {
      var r, c :| 0 <= r < rows && 0 <= c < columns && Before(r, c, row, column + 1) && filled[r][c] != g[r][c];
      if !(r == row && c == column) {
        assert Before(r, c, row, column) && nb[r][c] != g[r][c];
      }
    }
    if ChangedBefore(nb, g, rows, columns, row, column) {
      var r, c :| 0 <= r < rows && 0 <= c < columns && Before(r, c, row, column) && nb[r][c] != g[r][c];
      assert filled[r][c] != g[r][c];
    }
    if next[row][column] != g[row][column] {
      assert filled[row][column] != g[row][column];
    }
    if !IsBlank(nb) {
      var r, c :| 0 <= r < rows && 0 <= c < columns && At(nb, r, c) == 1;
      assert At(filled, r, c) == 1;
    }
    if next[row][column] == 1 {
      assert At(filled, row, column) == 1;
    }
    if IsBlank(nb) && next[row][column] != 1 {
      forall r, c | 0 <= r < rows && 0 <= c < columns
        ensures At(filled, r, c) != 1
      {
        assert At(nb, r, c) != 1;
      }
    }
  }

  /** Finishing a row is starting the next one. */
  lemma FillRow(nb: Grid, next: Grid, g: Grid, rows: nat, columns: nat, row: nat)
    requires IsGrid(nb, rows, columns) && IsGrid(next, rows, columns) && IsGrid(g, rows, columns)
    ensures FilledUpTo(nb, next, rows, columns, row, columns) <==> FilledUpTo(nb, next, rows, columns, row + 1, 0)
    ensures ChangedBefore(nb, g, rows, columns, row, columns) <==> ChangedBefore(nb, g, rows, columns, row + 1, 0)
  {
    assert forall r, c :: 0 <= r < rows && 0 <= c < columns ==> (Before(r, c, row, columns) <==> Before(r, c, row + 1, 0));
  }

  /** Once every cell is filled, the grid is the next generation and the flags
      are the scans the state machine records. */
  lemma FillDone(nb: Grid, next: Grid, g: Grid, rows: nat, columns: nat)
    requires IsGrid(nb, rows, columns) && IsGrid(next, rows, columns) && IsGrid(g, rows, columns)
    requires FilledUpTo(nb, next, rows, columns, rows, 0)
    ensures nb == next
    ensures ChangedBefore(nb, g, rows, columns, rows, 0) <==> Changed(g, next)
  {
    GridExtensionality(nb, next);
    if Changed(g, next) {
      var r, c :| 0 <= r < |g| && 0 <= c < |g[r]| && At(g, r, c) != At(next, r, c);
      assert Before(r, c, rows, 0) && nb[r][c] != g[r][c];
    }
    if ChangedBefore(nb, g, rows, columns, rows, 0) {
      var r, c :| 0 <= r < rows && 0 <= c < columns && Before(r, c, rows, 0) && nb[r][c] != g[r][c];
      assert At(g, r, c) != At(next, r, c);
    }
  }

  // ---------------------------------------------------------------------
  // The board object

  /** A Game of Life board of `columns` x `rows` cells. */
  class GOL {
    const rows: nat
    const columns: nat
    var board: Grid
    var hasRun: bool
    var originalBoard: Option<Grid>
    var iteration: nat
    var isBlank: Option<bool>
    var isChanged: Option<bool>

    /** The board keeps its dimensions and holds only 0 and 1, and so does a
        recorded snapshot; a board that has run has a snapshot. */
    ghost predicate Valid()
      reads this
    {
      IsGrid(board, rows, columns) && IsBinaryGrid(board) &&
      (originalBoard.Some? ==> IsGrid(originalBoard.value, rows, columns) && IsBinaryGrid(originalBoard.value)) &&
      (hasRun ==> originalBoard.Some?)
    }

    /** The observable state as a value. */
    function State(): GameState
      reads this
    {
      GameState(board, hasRun, originalBoard, iteration, isBlank, isChanged)
    }

    /** `x` columns and `y` rows, all dead. */
    constructor (x: nat, y: nat)
      ensures Valid() && columns == x && rows == y
      ensures State() == Initial(x, y)
    {
      rows, columns := y, x;
      board := EmptyGrid(y, x);
      hasRun, originalBoard, iteration := false, None, 0;
      isBlank, isChanged := None, None;
    }

    /** Make cell (x, y) alive. */
    method SetSquare(x: nat, y: nat)
      requires Valid() && x < columns && y < rows
      modifies this`board
      ensures Valid()
      ensures board == old(board)[y := old(board)[y][x := 1]]
    {
      board := board[y := board[y][x := 1]];
    }

    /** Copy the structure onto the board at (xoffset, yoffset), row by row,
        overwriting what was there. */
    method AddStructure(s: seq<seq<int>>, xoffset: nat, yoffset: nat)
      requires Valid() && Fits(board, s, xoffset, yoffset)
      modifies this`board
      ensures Valid()
      ensures board == Stamp(old(board), s, xoffset, yoffset)
    {
      var y := 0;
      while y < |s|
        invariant 0 <= y <= |s|
        invariant IsGrid(board, rows, columns) && IsBinaryGrid(board)
        invariant forall i, j :: 0 <= i < rows && 0 <= j < columns ==>
                    board[i][j] == if InFootprint(s, xoffset, yoffset, i, j) && i < yoffset + y
                                   then (if s[i - yoffset][j - xoffset] == 1 then 1 else 0)
                                   else old(board)[i][j]
      {
        var x := 0;
        while x < |s[y]|
          invariant 0 <= x <= |s[y]|
          invariant IsGrid(board, rows, columns) && IsBinaryGrid(board)
          invariant forall i, j :: 0 <= i < rows && 0 <= j < columns ==>
                      board[i][j] == if InFootprint(s, xoffset, yoffset, i, j)
                                        && (i < yoffset + y || (i == yoffset + y && j < xoffset + x))
                                     then (if s[i - yoffset][j - xoffset] == 1 then 1 else 0)
                                     else old(board)[i][j]
        {
          if s[y][x] == 1 {
            board := board[y + yoffset := board[y + yoffset][x + xoffset := 1]];
          } else {
            board := board[y + yoffset := board[y + yoffset][x + xoffset := 0]];
          }
          x := x + 1;
        }
        y := y + 1;
      }
      GridExtensionality(board, Stamp(old(board), s, xoffset, yoffset));
    }

    /** Advance one generation: record the snapshot on the first update since
        construction or reset, build the next grid, then install it together
        with the two flags. */
    method UpdateBoard()
      requires Valid()
      modifies this
      ensures Valid()
      ensures State() == AfterUpdate(Step, old(State()))
    {
      if !hasRun {
        originalBoard := Some(board);
      }
      var newBoard, blank, changed := NextGeneration();
      board := newBoard;
      iteration := iteration + 1;
      isBlank := Some(blank);
      isChanged := Some(changed);
      hasRun := true;
    }

    /** The body of `update_board` that builds the next grid cell by cell from
        the current one, following the rules branch by branch, while tracking
        whether any new cell is alive and whether any cell flipped. */
    method NextGeneration() returns (newBoard: Grid, blank: bool, changed: bool)
      requires Valid()
      ensures newBoard == Step(board) && IsGrid(newBoard, rows, columns) && IsBinaryGrid(newBoard)
      ensures blank <==> IsBlank(newBoard)
      ensures changed <==> Changed(board, newBoard)
    {
      ghost var next := Step(board);
      StepBinary(board);
      StepShape(board);
      newBoard := EmptyGrid(rows, columns);
      blank, changed := true, false;
      var row := 0;
      while row < rows
        invariant 0 <= row <= rows
        invariant IsGrid(newBoard, rows, columns) && IsGrid(next, rows, columns)
        invariant FilledUpTo(newBoard, next, rows, columns, row, 0)
        invariant blank <==> IsBlank(newBoard)
        invariant changed <==> ChangedBefore(newBoard, board, rows, columns, row, 0)
      {
        var column := 0;
        while column < columns
          invariant 0 <= column <= columns
          invariant IsGrid(newBoard, rows, columns)
          invariant FilledUpTo(newBoard, next, rows, columns, row, column)
          invariant blank <==> IsBlank(newBoard)
          invariant changed <==> ChangedBefore(newBoard, board, rows, columns, row, column)
        {
          FillCell(newBoard, next, board, rows, columns, row, column);
          newBoard, blank, changed := UpdateCell(row, column, newBoard, blank, changed);
          column := column + 1;
        }
        FillRow(newBoard, next, board, rows, columns, row);
        row := row + 1;
      }
      FillDone(newBoard, next, board, rows, columns);
    }

    /** The body of the inner loop of `update_board`: cell (row, column) of
        the new grid, still 0, gets its next-generation value branch by branch
        as the rule's cases are written, and the two flags take that cell into
        account. */
    method UpdateCell(row: nat, column: nat, newBoard0: Grid, blank0: bool, changed0: bool)
      returns (newBoard: Grid, blank: bool, changed: bool)
      requires Valid() && row < rows && column < columns
      requires IsGrid(newBoard0, rows, columns) && newBoard0[row][column] == 0
      ensures |Step(board)[row]| == columns
      ensures newBoard == newBoard0[row := newBoard0[row][column := Step(board)[row][column]]]
      ensures blank <==> blank0 && Step(board)[row][column] != 1
      ensures changed <==> changed0 || Step(board)[row][column] != board[row][column]
    {
      newBoard, blank, changed := newBoard0, blank0, changed0;
      var currentState := board[row][column];
      var neighbours := Neighbours(board, column, row);
      StepCell(board, row, column);
      if currentState == 1 && neighbours < 2 {
        newBoard := newBoard[row := newBoard[row][column := 0]];
        changed := true;
      } else if currentState == 1 && neighbours > 1 && neighbours < 4 {
        newBoard := newBoard[row := newBoard[row][column := 1]];
        blank := false;
      } else if currentState == 1 && neighbours > 3 {
        newBoard := newBoard[row := newBoard[row][column := 0]];
        changed := true;
      } else if currentState == 0 && neighbours == 3 {
        newBoard := newBoard[row := newBoard[row][column := 1]];
        blank := false;
        changed := true;
      } else {
        // the cell stays 0, which the new grid already holds there
        assert newBoard[row][column := 0] == newBoard[row];
      }
    }

    /** Restore the snapshot and clear the run flag. */
    method Reset()
      requires Valid() && originalBoard.Some?
      modifies this
      ensures Valid()
      ensures State() == AfterReset(old(State()))
    {
      board := originalBoard.value;
      hasRun := false;
    }

    /** Run up to `rounds` updates, stopping with failure right after a step
        that blanks the board (when `failIsBlank`) or changes nothing (when
        `failNoChange`); the blank check comes first. */
    method Test(rounds: nat, failIsBlank: bool := true, failNoChange: bool := false) returns (passed: bool)
      requires Valid()
      modifies this
      ensures Valid()
      ensures passed == Trial(Step, old(State()), rounds, failIsBlank, failNoChange).passed
      ensures State() == Trial(Step, old(State()), rounds, failIsBlank, failNoChange).final
    {
      passed := true;
      var round := 0;
      while round < rounds
        invariant 0 <= round <= rounds
        invariant Valid()
        invariant Trial(Step, State(), rounds - round, failIsBlank, failNoChange) == Trial(Step, old(State()), rounds, failIsBlank, failNoChange)
      {
        UpdateBoard();
        if failIsBlank && isBlank == Some(true) {
          passed := false;
          return;
        }
        if failNoChange && isChanged == Some(false) {
          passed := false;
          return;
        }
        round := round + 1;
      }
    }
  }
}
