/** The brute-force pattern explorer: every non-empty n x n binary pattern in
    counting order, and the trials that keep the patterns whose board, seeded
    with the pattern at its centre, passes. */
module Explorer {
  import opened Binary
  import opened Life
  import opened Gol
  import opened Seqs

  type Structure = seq<seq<int>>

  // ---------------------------------------------------------------------
  // Reshaping a flat counter into a square, row by row

  lemma RowEnd(i: nat, n: nat)
    requires i < n
    ensures i * n + n <= n * n
  {
    assert i * n + n == (i + 1) * n;
    MultipleAtLeast(n, n - i);
    assert n * (n - i) == n * n - i * n;
  }

  /** Proof helper: flat index t of an n x n square lies in row t / n, column t % n. */
  lemma FlatIndex(t: nat, n: nat)
    requires t < n * n
    ensures n > 0 && t / n < n && t % n < n && (t / n) * n + t % n == t
  {
    assert n > 0;
  }

  /** Row i of the flat sequence cut into rows of n. */
  function Slice(flat: seq<int>, n: nat, i: nat): (row: seq<int>)
    requires |flat| == n * n && i < n
    ensures |row| == n
  {
    RowEnd(i, n);
    flat[i * n .. i * n + n]
  }

  /** The flat sequence cut into n rows of n, first digit at the top left. */
  function Reshape(flat: seq<int>, n: nat): (m: Structure)
    requires |flat| == n * n
    ensures IsGrid(m, n, n)
  {
    seq(n, i requires 0 <= i < n => Slice(flat, n, i))
  }

  /** Cell (r, c) of the square is entry r * n + c of the flat sequence. */
  lemma ReshapeCell(flat: seq<int>, n: nat, r: nat, c: nat)
    requires |flat| == n * n && r < n && c < n
    ensures r * n + c < n * n && Reshape(flat, n)[r][c] == flat[r * n + c]
  {
    RowEnd(r, n);
  }

  /** Reshaping loses nothing: different flat sequences give different squares. */
  lemma ReshapeInjective(a: seq<int>, b: seq<int>, n: nat)
    requires |a| == n * n && |b| == n * n
    ensures Reshape(a, n) == Reshape(b, n) <==> a == b
  {
    if Reshape(a, n) == Reshape(b, n) {
      forall t | 0 <= t < n * n
        ensures a[t] == b[t]
      {
        FlatIndex(t, n);
        ReshapeCell(a, n, t / n, t % n);
        ReshapeCell(b, n, t / n, t % n);
      }
    }
  }

  // ---------------------------------------------------------------------
  // The patterns `generate_binary_grid` lists

  /** The square holding the n * n least significant digits of k. */
  function Pattern(k: nat, n: nat): Structure
  {
    Reshape(Digits(k, n * n), n)
  }

  /** All patterns of side n, in the order the counter reaches them: entry k
      holds the digits of k + 1, so the all-zero pattern is not among them. */
  function AllPatterns(n: nat): seq<Structure>
  {
    seq(Pow2(n * n) - 1, k requires 0 <= k => Pattern(k + 1, n))
  }

  /** Cell (r, c) of entry k is bit r * n + c of k + 1. */
  lemma PatternCell(n: nat, k: nat, r: nat, c: nat)
    requires k < |AllPatterns(n)| && r < n && c < n
    ensures AllPatterns(n)[k][r][c] == ((k + 1) / Pow2(r * n + c)) % 2
  {
    ReshapeCell(Digits(k + 1, n * n), n, r, c);
    DigitAt(k + 1, n * n, r * n + c);
  }

  /** Every pattern is an n x n square of zeros and ones. */
  lemma PatternsShape(n: nat, k: nat)
    requires k < |AllPatterns(n)|
    ensures IsGrid(AllPatterns(n)[k], n, n) && IsBinaryGrid(AllPatterns(n)[k])
  {
    var p := AllPatterns(n)[k];
    forall r, c | 0 <= r < n && 0 <= c < n
      ensures p[r][c] == 0 || p[r][c] == 1
    {
      ReshapeCell(Digits(k + 1, n * n), n, r, c);
    }
  }

  /** No pattern is listed twice. */
  lemma PatternsDistinct(n: nat, i: nat, j: nat)
    requires i < |AllPatterns(n)| && j < |AllPatterns(n)|
    ensures AllPatterns(n)[i] == AllPatterns(n)[j] <==> i == j
  {
    ReshapeInjective(Digits(i + 1, n * n), Digits(j + 1, n * n), n);
    DigitsInjective(i + 1, j + 1, n * n);
  }

  /** Every pattern has a live cell. */
  lemma PatternsNotBlank(n: nat, k: nat)
    requires k < |AllPatterns(n)|
    ensures !IsBlank(AllPatterns(n)[k])
  {
    var flat := Digits(k + 1, n * n);
    DigitsHaveOne(k + 1, n * n);
    var t :| 0 <= t < n * n && flat[t] == 1;
    FlatIndex(t, n);
    ReshapeCell(flat, n, t / n, t % n);
    assert At(AllPatterns(n)[k], t / n, t % n) == 1;
  }

  /** Cutting n * n ones gives the all-ones square. */
  lemma ReshapeOnes(n: nat)
    ensures Reshape(seq(n * n, _ => 1), n) == seq(n, _ => seq(n, _ => 1))
  {
    var ones := seq(n * n, _ => 1);
    var m := Reshape(ones, n);
    forall r | 0 <= r < n
      ensures m[r] == seq(n, _ => 1)
    {
      forall c | 0 <= c < n
        ensures m[r][c] == 1
      {
        ReshapeCell(ones, n, r, c);
      }
    }
  }

  /** The last pattern is the all-ones square. */
  lemma LastPatternAllOnes(n: nat)
    requires n >= 1
    ensures |AllPatterns(n)| >= 1
    ensures AllPatterns(n)[|AllPatterns(n)| - 1] == seq(n, _ => seq(n, _ => 1))
  {
    MultipleAtLeast(n, n);
    Pow2Monotone(1, n * n);
    DigitsAllOnes(n * n);
    ReshapeOnes(n);
  }

  lemma PatternsGrow(n: nat, x: nat, results: seq<Structure>)
    requires x < |AllPatterns(n)| && results == AllPatterns(n)[..x]
    ensures results + [Pattern(x + 1, n)] == AllPatterns(n)[..x + 1]
  {
    PrefixGrows(AllPatterns(n), x);
  }

  /** `generate_binary_grid`: count from 0 in an array of n * n digits, and
      after each increment append the counter cut into n rows of n. */
  method GenerateBinaryGrid(gridSize: nat) returns (results: seq<Structure>)
    ensures results == AllPatterns(gridSize)
    ensures |results| == Pow2(gridSize * gridSize) - 1
  {
    results := [];
    var grid := new int[gridSize * gridSize](_ => 0);
    DigitsOfZero(gridSize * gridSize);
    var total := Pow2(gridSize * gridSize) - 1;
    var x := 0;
    while x < total
      invariant 0 <= x <= total
      invariant grid[..] == Digits(x, gridSize * gridSize)
      invariant results == AllPatterns(gridSize)[..x]
    {
      ValueOfDigits(x, gridSize * gridSize);
      Increment(grid);
      DigitsOfValue(grid[..]);
      var newGrid := Reshape(grid[..], gridSize);
      PatternsGrow(gridSize, x, results);
      results := results + [newGrid];
      x := x + 1;
    }
  }

  // ---------------------------------------------------------------------
  // Trials of structures on fresh boards

  /** The structure fits a `gridSize` x `gridSize` board when stamped at the
      centre offset (gridSize / 2, gridSize / 2). */
  predicate Centred(s: Structure, gridSize: nat)
  {
    Fits(EmptyGrid(gridSize, gridSize), s, gridSize / 2, gridSize / 2)
  }

  /** The fresh board a trial starts from. */
  function TrialBoard(s: Structure, gridSize: nat): Grid
    requires Centred(s, gridSize)
  {
    Stamp(EmptyGrid(gridSize, gridSize), s, gridSize / 2, gridSize / 2)
  }

  /** The structure fits and its trial passes. */
  predicate Survives(s: Structure, gridSize: nat, rounds: nat, failIsBlank: bool, failNoChange: bool)
  {
    Centred(s, gridSize) && Passes(Step, TrialBoard(s, gridSize), rounds, failIsBlank, failNoChange)
  }

  /** The structures of the list that survive, in list order. */
  function Survivors(list: seq<Structure>, gridSize: nat, rounds: nat, failIsBlank: bool, failNoChange: bool): (kept: seq<Structure>)
    ensures |kept| <= |list|
    ensures forall s :: s in kept ==> s in list && Survives(s, gridSize, rounds, failIsBlank, failNoChange)
  {
    if list == [] then []
    else
      var last := list[|list| - 1];
      Survivors(list[..|list| - 1], gridSize, rounds, failIsBlank, failNoChange) +
        (if Survives(last, gridSize, rounds, failIsBlank, failNoChange) then [last] else [])
  }

  /** Appending one structure appends it to the survivors exactly when it survives. */
  lemma SurvivorsSnoc(list: seq<Structure>, s: Structure, gridSize: nat, rounds: nat, failIsBlank: bool, failNoChange: bool)
    ensures Survivors(list + [s], gridSize, rounds, failIsBlank, failNoChange) ==
              Survivors(list, gridSize, rounds, failIsBlank, failNoChange) +
                (if Survives(s, gridSize, rounds, failIsBlank, failNoChange) then [s] else [])
  {
    assert (list + [s])[..|list|] == list;
  }

  /** Filtering a concatenation filters each part, in order. */
  lemma {:induction false} SurvivorsAppend(a: seq<Structure>, b: seq<Structure>, gridSize: nat, rounds: nat, failIsBlank: bool, failNoChange: bool)
    ensures Survivors(a + b, gridSize, rounds, failIsBlank, failNoChange) ==
              Survivors(a, gridSize, rounds, failIsBlank, failNoChange) + Survivors(b, gridSize, rounds, failIsBlank, failNoChange)
    decreases |b|
  {
    if b == [] {
      assert a + b == a;
    } else {
      var b', s := b[..|b| - 1], b[|b| - 1];
      var kept := if Survives(s, gridSize, rounds, failIsBlank, failNoChange) then [s] else [];
      var sa := Survivors(a, gridSize, rounds, failIsBlank, failNoChange);
      var sb' := Survivors(b', gridSize, rounds, failIsBlank, failNoChange);
      SurvivorsAppend(a, b', gridSize, rounds, failIsBlank, failNoChange);
      SplitLast(b);
      AppendAssoc(a, b', [s]);
      SurvivorsSnoc(a + b', s, gridSize, rounds, failIsBlank, failNoChange);
      SurvivorsSnoc(b', s, gridSize, rounds, failIsBlank, failNoChange);
      AppendAssoc(sa, sb', kept);
    }
  }

  /** Every structure of the list that survives is kept. */
  lemma {:induction false} SurvivorsComplete(list: seq<Structure>, i: nat, gridSize: nat, rounds: nat, failIsBlank: bool, failNoChange: bool)
    requires i < |list| && Survives(list[i], gridSize, rounds, failIsBlank, failNoChange)
    ensures list[i] in Survivors(list, gridSize, rounds, failIsBlank, failNoChange)
    decreases |list|
  {
    if i < |list| - 1 {
      SurvivorsComplete(list[..|list| - 1], i, gridSize, rounds, failIsBlank, failNoChange);
    }
  }

  /** A structure without a live cell never survives a trial of at least one
      round that fails blank boards. */
  lemma DeadStructureFails(s: Structure, gridSize: nat, rounds: nat, failNoChange: bool)
    requires Centred(s, gridSize) && rounds >= 1
    requires forall y, x :: 0 <= y < |s| && 0 <= x < |s[y]| ==> s[y][x] != 1
    ensures !Survives(s, gridSize, rounds, true, failNoChange)
  {
    StampOntoBlank(EmptyGrid(gridSize, gridSize), s, gridSize / 2, gridSize / 2);
    BlankFails(TrialBoard(s, gridSize), rounds, failNoChange);
  }

  /** Every pattern of side n fits at the centre of a board of side g when
      n rows and columns fit between the centre and the edge. */
  lemma PatternsCentred(n: nat, gridSize: nat)
    requires gridSize / 2 + n <= gridSize
    ensures forall k :: 0 <= k < |AllPatterns(n)| ==> Centred(AllPatterns(n)[k], gridSize)
  {
    forall k | 0 <= k < |AllPatterns(n)|
      ensures Centred(AllPatterns(n)[k], gridSize)
    {
      PatternsShape(n, k);
    }
  }

  /** One trial: a fresh square board, the structure stamped at its centre,
      then `test`. */
  method TrialStructure(structure: Structure, gridSize: nat, rounds: nat, failIsBlank: bool, failNoChange: bool) returns (passed: bool)
    requires Centred(structure, gridSize)
    ensures passed == Survives(structure, gridSize, rounds, failIsBlank, failNoChange)
  {
    var game := new GOL(gridSize, gridSize);
    game.AddStructure(structure, gridSize / 2, gridSize / 2);
    ghost var start := game.State();
    passed := game.Test(rounds, failIsBlank, failNoChange);
    TrialPassed(Step, start, rounds, failIsBlank, failNoChange);
  }

  /** `test_list`: trial each structure on its own fresh board and keep, in
      order, those that pass. */
  method TestList(structures: seq<Structure>, gridSize: nat, rounds: nat, failIsBlank: bool := true, failNoChange: bool := false)
    returns (results: seq<Structure>)
    requires forall k :: 0 <= k < |structures| ==> Centred(structures[k], gridSize)
    ensures results == Survivors(structures, gridSize, rounds, failIsBlank, failNoChange)
  {
    results := [];
    var i := 0;
    while i < |structures|
      invariant 0 <= i <= |structures|
      invariant results == Survivors(structures[..i], gridSize, rounds, failIsBlank, failNoChange)
    {
      var structure := structures[i];
      var result := TrialStructure(structure, gridSize, rounds, failIsBlank, failNoChange);
      if result {
        results := results + [structure];
      }
      assert structures[..i + 1][..i] == structures[..i];
      i := i + 1;
    }
    assert structures[..i] == structures;
  }

  /** `test_iterations`: the trials of `test_list` run over every pattern of
      side `structureSize`. */
  method TestIterations(structureSize: nat, gridSize: nat, rounds: nat, failIsBlank: bool := true, failNoChange: bool := false)
    returns (results: seq<Structure>)
    requires gridSize / 2 + structureSize <= gridSize
    ensures results == Survivors(AllPatterns(structureSize), gridSize, rounds, failIsBlank, failNoChange)
  {
    var testStructures := GenerateBinaryGrid(structureSize);
    PatternsCentred(structureSize, gridSize);
    results := TestList(testStructures, gridSize, rounds, failIsBlank, failNoChange);
  }
}
