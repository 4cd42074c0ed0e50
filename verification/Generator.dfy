/** The board generator of initializePuzzle: a Fisher-Yates pass over the
    solved arrangement driven by explicit random choices, and the parity test
    that decides whether a shuffled board is kept. */
module Generator {
  import opened Tiles
  import opened InversionCounting
  import Arith

  /** getEmptyRowFromBottom: the 1-based row of a cell counted from the bottom. */
  function EmptyRowFromBottom(index: int, size: int): int
    requires size >= 1
  {
    size - index / size
  }

  /** The 15-puzzle solvability rule as initializePuzzle applies it: on an odd grid
      the inversion count must be even; on an even grid a blank on an even
      row from the bottom needs an odd count and one on an odd row an even
      count. */
  predicate SolvabilityRule(size: int, inversions: nat, emptyRowFromBottom: int) {
    if size % 2 != 0 then inversions % 2 == 0
    else if emptyRowFromBottom % 2 == 0 then inversions % 2 != 0
    else inversions % 2 == 0
  }

  /** The parity test applied to a board: inversions of the tiles with the
      blank removed, and the row of the first blank found by indexOf. */
  predicate Solvable(b: seq<int>, size: int)
    requires size >= 1
  {
    SolvabilityRule(size, Inversions(NonBlank(b)), EmptyRowFromBottom(IndexOf(b, 0), size))
  }

  /** The draws of one shuffle pass over `n` cells: js[i] stands for
      the random index drawn in iteration i, uniformly from 0 .. i. Entry 0 is
      never drawn and only pads the indexing. */
  predicate ValidChoices(js: seq<int>, n: int) {
    |js| == n - 1 && forall i :: 1 <= i < |js| ==> 0 <= js[i] <= i
  }

  /** The Fisher-Yates loop: for i from the start index down to 1, exchange
      cell i with cell js[i]. */
  function ShuffleDown(b: seq<int>, i: int, js: seq<int>): (r: seq<int>)
    requires -1 <= i < |b| && i < |js|
    requires forall k :: 1 <= k <= i ==> 0 <= js[k] <= k
    ensures |r| == |b| && multiset(r) == multiset(b)
    ensures forall k :: i < k < |b| ==> r[k] == b[k]
    decreases i
  {
    if i <= 0 then b else ShuffleDown(Swap(b, i, js[i]), i - 1, js)
  }

  /** One shuffle attempt of initializePuzzle: start from [1 .. n-1, 0] and
      run the loop from i = n - 2 down to 1. */
  function Shuffle(size: int, js: seq<int>): (r: seq<int>)
    requires size >= 1 && ValidChoices(js, size * size)
    ensures |r| == size * size && multiset(r) == multiset(Goal(size * size))
    ensures r[size * size - 1] == 0
  {
    ShuffleDown(Goal(size * size), size * size - 2, js)
  }

  /** The blank row lies in 1 .. size for every cell of the grid, and it is 1
      exactly on the bottom row. */
  lemma EmptyRowFromBottomRange(index: int, size: int)
    requires size >= 1 && 0 <= index < size * size
    ensures 1 <= EmptyRowFromBottom(index, size) <= size
    ensures EmptyRowFromBottom(index, size) == 1 <==> index >= (size - 1) * size
  {
    Arith.DivAtLeast(index, size, 0);
    Arith.DivAtLeast(index, size, size);
    Arith.DivAtLeast(index, size, size - 1);
  }

  /** Every shuffled board is a well-formed board whose blank is still in the
      last cell: the loop never touches index n - 1. */
  lemma ShuffleIsBoard(size: int, js: seq<int>)
    requires size >= 1 && ValidChoices(js, size * size)
    ensures IsBoard(Shuffle(size, js), size)
    ensures Shuffle(size, js)[size * size - 1] == 0
    ensures IndexOf(Shuffle(size, js), 0) == size * size - 1
  {
    GoalIsBoard(size);
    BlankLastIndex(Shuffle(size, js), size);
  }

  /** With the blank in the last cell the rule reduces, for both grid
      parities, to an even inversion count. */
  lemma BlankLastSolvable(b: seq<int>, size: int)
    requires IsBoard(b, size) && b[|b| - 1] == 0
    ensures Solvable(b, size) <==> Inversions(NonBlank(b)) % 2 == 0
  {
    var inversions := Inversions(NonBlank(b));
    assert IndexOf(b, 0) == size * size - 1 by {
      BlankLastIndex(b, size);
    }
    assert EmptyRowFromBottom(size * size - 1, size) == 1 by {
      LastCellOnBottomRow(size);
    }
    assert Solvable(b, size) <==> SolvabilityRule(size, inversions, 1);
  }

  /** The last cell of the grid lies on row 1 counted from the bottom. */
  lemma LastCellOnBottomRow(size: int)
    requires size >= 1
    ensures EmptyRowFromBottom(size * size - 1, size) == 1
  {
    var last := size * size - 1;
    assert last == (size - 1) * size + (size - 1) by {
      assert (size - 1) * size == size * size - size;
    }
    Arith.DivModUnique(last, size, size - 1, size - 1);
  }

  /** The solved board passes the parity test: it has no inversion. */
  lemma GoalSolvable(size: int)
    requires size >= 1
    ensures Solvable(Goal(size * size), size)
    ensures Inversions(NonBlank(Goal(size * size))) == 0
  {
    var n := size * size;
    GoalIsBoard(size);
    NonBlankDropsTrailingBlank(Range(1, n));
    NonBlankKeepsTiles(Range(1, n));
    InversionsZeroIffSorted(Range(1, n));
    BlankLastSolvable(Goal(n), size);
  }
}
