/** The flat variant of the pattern counter. As written it appends the counter
    array itself after every increment, so all entries are one and the same
    array and end up holding the final count; the copying variant keeps each
    intermediate count. */
module GenTest {
  import opened Binary
  import opened Seqs

  /** The counts 1 .. 2^(n*n) - 1, each as n * n digits, least significant first. */
  function FlatPatterns(n: nat): seq<seq<int>>
  {
    seq(Pow2(n * n) - 1, k requires 0 <= k => Digits(k + 1, n * n))
  }

  /** `generate_binary_grid` of the flat variant, as written: the counter is
      incremented in place and the counter array itself is appended, so on
      return every entry is that same array, and it holds all ones. */
  method GenerateAliased(gridSize: nat) returns (results: seq<array<int>>)
    ensures |results| == Pow2(gridSize * gridSize) - 1
    ensures forall i, j :: 0 <= i < |results| && 0 <= j < |results| ==> results[i] == results[j]
    ensures forall i :: 0 <= i < |results| ==> results[i][..] == seq(gridSize * gridSize, _ => 1)
  {
    results := [];
    var grid := new int[gridSize * gridSize](_ => 0);
    DigitsOfZero(gridSize * gridSize);
    var total := Pow2(gridSize * gridSize) - 1;
    var x := 0;
    while x < total
      invariant 0 <= x <= total
      invariant grid[..] == Digits(x, gridSize * gridSize)
      invariant |results| == x
      invariant forall i :: 0 <= i < x ==> results[i] == grid
    {
      ValueOfDigits(x, gridSize * gridSize);
      Increment(grid);
      DigitsOfValue(grid[..]);
      var newGrid := grid;
      results := results + [newGrid];
      x := x + 1;
    }
    DigitsAllOnes(gridSize * gridSize);
  }

  /** The copying variant: the same counter, but each entry is a copy of the
      counter taken right after its increment. */
  method GenerateCopies(gridSize: nat) returns (results: seq<seq<int>>)
    ensures results == FlatPatterns(gridSize)
  {
    results := [];
    var grid := new int[gridSize * gridSize](_ => 0);
    DigitsOfZero(gridSize * gridSize);
    var total := Pow2(gridSize * gridSize) - 1;
    var x := 0;
    while x < total
      invariant 0 <= x <= total
      invariant grid[..] == Digits(x, gridSize * gridSize)
      invariant results == FlatPatterns(gridSize)[..x]
    {
      ValueOfDigits(x, gridSize * gridSize);
      Increment(grid);
      DigitsOfValue(grid[..]);
      PrefixGrows(FlatPatterns(gridSize), x);
      results := results + [grid[..]];
      x := x + 1;
    }
  }

  /** The copies are pairwise distinct and none is all zeros. */
  lemma FlatPatternsDistinct(n: nat, i: nat, j: nat)
    requires i < |FlatPatterns(n)| && j < |FlatPatterns(n)|
    ensures FlatPatterns(n)[i] == FlatPatterns(n)[j] <==> i == j
    ensures FlatPatterns(n)[i] != seq(n * n, _ => 0)
  {
    DigitsInjective(i + 1, j + 1, n * n);
    DigitsOfZero(n * n);
    DigitsInjective(i + 1, 0, n * n);
  }

  /** From side 2 on, the aliased result loses patterns: its first entry holds
      all ones where the count 1 belongs. */
  lemma AliasingLosesFirstPattern(n: nat)
    requires n >= 2
    ensures |FlatPatterns(n)| >= 2
    ensures FlatPatterns(n)[0] != seq(n * n, _ => 1)
  {
    MultipleAtLeast(n, n);
    Pow2Monotone(2, n * n);
    DigitsAllOnes(n * n);
    DigitsInjective(1, Pow2(n * n) - 1, n * n);
  }
}
