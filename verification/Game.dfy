/** The game session: the state record that puzzle-logic.js keeps in the global
    `window.gameState`, the move engine (movePiece), the win check
    (isSolved), scoring of a won game (calculateScore) and the start of a new
    game (initializePuzzle). */
module Game {
  import opened Tiles
  import opened InversionCounting
  import opened Generator
  import opened Scoring
  import Arith

  datatype Option<T> = None | Some(value: T)

  /** The signed-in player; `score` is the running total over all won games. */
  datatype Player = Player(username: string, id: string, score: int)

  /** One game session. `timer` counts elapsed seconds; `latestScore` is the
      score of the last won game. */
  datatype GameState = GameState(
    player: Player,
    puzzle: seq<int>,
    size: int,
    emptyIndex: int,
    moves: int,
    timer: int,
    latestScore: int)

  /** The invariant of a running game: a well-formed board, the cached blank
      position really holds the blank, and the counters are not negative. */
  predicate Valid(g: GameState) {
    && IsBoard(g.puzzle, g.size)
    && 0 <= g.emptyIndex < |g.puzzle| && g.puzzle[g.emptyIndex] == 0
    && g.moves >= 0 && g.timer >= 0
  }

  /** What movePiece needs to index the board at all. */
  predicate Indexable(g: GameState) {
    g.size >= 1 && |g.puzzle| == g.size * g.size && 0 <= g.emptyIndex < |g.puzzle|
  }

  /** Manhattan distance one between two cells of a grid with `n` columns,
      computed from row-major coordinates as movePiece does. */
  predicate Adjacent(a: int, b: int, n: int)
    requires n >= 1
  {
    Arith.Abs(a / n - b / n) + Arith.Abs(a % n - b % n) == 1
  }

  /** The neighbours of a cell described by index arithmetic alone: the next
      or previous index within the same row, or one full row below or above. */
  predicate Neighbours(a: int, b: int, n: int)
    requires n >= 1
  {
    || (b == a + 1 && a % n != n - 1)
    || (b == a - 1 && a % n != 0)
    || b == a + n
    || b == a - n
  }

  /** The solved board: tiles 1 .. n-1 in order and the blank last. */
  predicate Won(b: seq<int>) {
    |b| >= 1 && b == Goal(|b|)
  }

  /** The condition under which movePiece changes the game: the clicked cell
      is not the blank and lies next to the blank. */
  predicate Accepts(g: GameState, clickedIndex: int)
    requires Indexable(g) && 0 <= clickedIndex < |g.puzzle|
  {
    g.puzzle[clickedIndex] != 0 && Adjacent(clickedIndex, g.emptyIndex, g.size)
  }

  /** calculateScore: the score of the game just won is recorded and added to
      the player's running total. The leaderboard update is not modelled. */
  function CalculateScore(g: GameState): (r: GameState)
    ensures r.latestScore >= MinimumScore
    ensures r.latestScore == Score(g.size, g.timer, g.moves)
    ensures r.player.score == g.player.score + r.latestScore
    ensures r.player.username == g.player.username && r.player.id == g.player.id
    ensures r.puzzle == g.puzzle && r.size == g.size && r.emptyIndex == g.emptyIndex
    ensures r.moves == g.moves && r.timer == g.timer
  {
    var finalScore := Score(g.size, g.timer, g.moves);
    g.(latestScore := finalScore, player := g.player.(score := g.player.score + finalScore))
  }

  /** movePiece on an explicit state. movePiece does not check the bounds
      of `clickedIndex`, so a caller must pass a cell of the board. */
  function MovePiece(g: GameState, clickedIndex: int): (r: GameState)
    requires Indexable(g) && 0 <= clickedIndex < |g.puzzle|
    ensures !Accepts(g, clickedIndex) ==> r == g
    ensures Accepts(g, clickedIndex) ==>
      && |r.puzzle| == |g.puzzle| && r.size == g.size
      && r.puzzle[clickedIndex] == g.puzzle[g.emptyIndex]
      && r.puzzle[g.emptyIndex] == g.puzzle[clickedIndex]
      && (forall k :: 0 <= k < |g.puzzle| && k != clickedIndex && k != g.emptyIndex ==>
            r.puzzle[k] == g.puzzle[k])
      && multiset(r.puzzle) == multiset(g.puzzle)
      && r.emptyIndex == clickedIndex
      && r.moves == g.moves + 1
      && r.timer == g.timer
    ensures Accepts(g, clickedIndex) && Won(r.puzzle) ==>
      && r.latestScore == Score(g.size, g.timer, g.moves + 1)
      && r.player == g.player.(score := g.player.score + r.latestScore)
    ensures Accepts(g, clickedIndex) && !Won(r.puzzle) ==>
      r.latestScore == g.latestScore && r.player == g.player
    ensures Valid(g) ==> Valid(r)
  {
    if !Accepts(g, clickedIndex) then g
    else
      var moved := g.(puzzle := Swap(g.puzzle, clickedIndex, g.emptyIndex),
                      emptyIndex := clickedIndex,
                      moves := g.moves + 1);
      if Won(moved.puzzle) then CalculateScore(moved) else moved
  }

  /** isSolved: the loop over the first n - 1 cells followed by the test of
      the last cell. */
  method IsSolved(puzzle: seq<int>, size: int) returns (solved: bool)
    requires size >= 1 && |puzzle| == size * size
    ensures solved <==> Won(puzzle)
  {
    var numPieces := size * size;
    assert numPieces >= 1 by { Arith.MulMonotone(1, size, size); }
    var i := 0;
    while i < numPieces - 1
      invariant 0 <= i <= numPieces - 1
      invariant forall k :: 0 <= k < i ==> puzzle[k] == k + 1
    {
      if puzzle[i] != i + 1 {
        assert Goal(numPieces)[i] == i + 1;
        return false;
      }
      i := i + 1;
    }
    solved := puzzle[numPieces - 1] == 0;
    if solved {
      assert forall k :: 0 <= k < numPieces ==> puzzle[k] == Goal(numPieces)[k];
    }
  }

  /** One pass of the retry loop of initializePuzzle: shuffle with the
      draws `js`, locate the blank, count inversions and apply the rule. */
  method TryShuffle(size: int, js: seq<int>) returns (kept: bool, board: seq<int>, emptyIndex: int)
    requires size >= 1 && ValidChoices(js, size * size)
    ensures board == Shuffle(size, js)
    ensures kept <==> Solvable(board, size)
    ensures IsBoard(board, size) && emptyIndex == size * size - 1 && board[emptyIndex] == 0
    ensures kept <==> Inversions(NonBlank(board)) % 2 == 0
  {
    board := Shuffle(size, js);
    emptyIndex := IndexOf(board, 0);
    var inversions := CountInversions(board, size);
    var emptyRowFromBottom := EmptyRowFromBottom(emptyIndex, size);
    kept := SolvabilityRule(size, inversions, emptyRowFromBottom);
    ShuffleIsBoard(size, js);
    BlankLastSolvable(board, size);
  }

  /** The state initializePuzzle leaves behind for a kept board: counters
      reset, the blank found by indexOf, the player untouched. */
  function NewGame(g: GameState, size: int, board: seq<int>): (r: GameState)
    requires IsBoard(board, size) && board[size * size - 1] == 0
    ensures Valid(r) && r.size == size && r.puzzle == board
    ensures r.emptyIndex == size * size - 1
    ensures r.moves == 0 && r.timer == 0 && r.latestScore == 0 && r.player == g.player
  {
    BlankLastIndex(board, size);
    g.(puzzle := board, size := size, emptyIndex := IndexOf(board, 0),
       moves := 0, timer := 0, latestScore := 0)
  }

  /** The loop invariant of initializePuzzle: every attempt before `a` was
      rejected by the parity test. */
  predicate RejectedBefore(size: int, attempts: seq<seq<int>>, a: int)
    requires size >= 1 && 0 <= a <= |attempts|
    requires forall k :: 0 <= k < |attempts| ==> ValidChoices(attempts[k], size * size)
  {
    forall e :: 0 <= e < a ==> !Solvable(Shuffle(size, attempts[e]), size)
  }

  lemma RejectedPrefixGrows(size: int, attempts: seq<seq<int>>, a: int)
    requires size >= 1 && 0 <= a < |attempts|
    requires forall k :: 0 <= k < |attempts| ==> ValidChoices(attempts[k], size * size)
    requires RejectedBefore(size, attempts, a) && !Solvable(Shuffle(size, attempts[a]), size)
    ensures RejectedBefore(size, attempts, a + 1)
  {
    forall e | 0 <= e < a + 1
      ensures !Solvable(Shuffle(size, attempts[e]), size)
    {
    }
  }

  /** initializePuzzle with its randomness made explicit: `attempts` lists the
      draws of successive shuffle passes. initializePuzzle retries until a board
      passes the parity test; the model gives up with None when the supplied
      draws run out. */
  method InitializePuzzle(g: GameState, size: int, attempts: seq<seq<int>>)
    returns (r: Option<GameState>)
    requires size >= 1
    requires forall k :: 0 <= k < |attempts| ==> ValidChoices(attempts[k], size * size)
    ensures r.None? <==> RejectedBefore(size, attempts, |attempts|)
    ensures r.Some? ==>
      && Valid(r.value)
      && r.value.size == size
      && r.value.emptyIndex == size * size - 1
      && r.value.moves == 0 && r.value.timer == 0 && r.value.latestScore == 0
      && r.value.player == g.player
      && Solvable(r.value.puzzle, size)
      && Inversions(NonBlank(r.value.puzzle)) % 2 == 0
      && exists k :: 0 <= k < |attempts| && r.value.puzzle == Shuffle(size, attempts[k])
           && RejectedBefore(size, attempts, k)
  {
    var a := 0;
    while a < |attempts|
      invariant 0 <= a <= |attempts|
      invariant RejectedBefore(size, attempts, a)
    {
      var kept, newPuzzle, emptyIndex := TryShuffle(size, attempts[a]);
      if kept {
        return Some(NewGame(g, size, newPuzzle));
      }
      RejectedPrefixGrows(size, attempts, a);
      a := a + 1;
    }
    return None;
  }

  /** A sequence of clicks on board cells, each handled by movePiece in
      order: the game stays valid, the board keeps its size and the move
      counter never goes down. */
  function Play(g: GameState, clicks: seq<int>): (r: GameState)
    requires Indexable(g)
    requires forall k :: 0 <= k < |clicks| ==> 0 <= clicks[k] < |g.puzzle|
    ensures Indexable(r) && |r.puzzle| == |g.puzzle| && r.size == g.size
    ensures g.moves <= r.moves <= g.moves + |clicks|
    ensures Valid(g) ==> Valid(r)
    decreases |clicks|
  {
    if |clicks| == 0 then g else Play(MovePiece(g, clicks[0]), clicks[1..])
  }

  /** Row-major adjacency agrees with the index description of neighbours,
      in both directions. */
  lemma AdjacentIffNeighbours(a: int, b: int, n: int)
    requires n >= 1 && a >= 0 && b >= 0
    ensures Adjacent(a, b, n) <==> Neighbours(a, b, n)
  {
    if Adjacent(a, b, n) {
      AdjacentAreNeighbours(a, b, n);
    }
    if Neighbours(a, b, n) {
      NeighboursAreAdjacent(a, b, n);
    }
  }

  lemma AdjacentAreNeighbours(a: int, b: int, n: int)
    requires n >= 1 && Adjacent(a, b, n)
    ensures Neighbours(a, b, n)
  {
    var ra, ca, rb, cb := a / n, a % n, b / n, b % n;
    assert a == ra * n + ca && b == rb * n + cb;
    if ra == rb {
      assert b - a == cb - ca;
    } else if rb == ra + 1 {
      assert cb == ca;
      assert rb * n == ra * n + n;
    } else {
      assert ra == rb + 1 && cb == ca;
      assert ra * n == rb * n + n;
    }
  }

  lemma NeighboursAreAdjacent(a: int, b: int, n: int)
    requires n >= 1 && Neighbours(a, b, n)
    ensures Adjacent(a, b, n)
  {
    var ra, ca := a / n, a % n;
    assert a == ra * n + ca;
    if b == a + 1 && ca != n - 1 {
      Arith.DivModUnique(b, n, ra, ca + 1);
    } else if b == a - 1 && ca != 0 {
      Arith.DivModUnique(b, n, ra, ca - 1);
    } else if b == a + n {
      assert b == (ra + 1) * n + ca by {
        assert (ra + 1) * n == ra * n + n;
      }
      Arith.DivModUnique(b, n, ra + 1, ca);
    } else {
      assert b == a - n;
      assert b == (ra - 1) * n + ca by {
        assert (ra - 1) * n == ra * n - n;
      }
      Arith.DivModUnique(b, n, ra - 1, ca);
    }
  }

  /** The last cell of a row and the first cell of the next row are
      consecutive indices but never adjacent. */
  lemma RowBoundaryNotAdjacent(i: int, n: int)
    requires n >= 2 && i >= 0 && i % n == n - 1
    ensures !Adjacent(i, i + 1, n)
  {
  }

  /** On a valid state the moves movePiece accepts are exactly the (at most
      four) neighbours of the blank; the blank's own cell is rejected. */
  lemma AcceptedExactlyNeighbours(g: GameState, clickedIndex: int)
    requires Valid(g) && 0 <= clickedIndex < |g.puzzle|
    ensures Accepts(g, clickedIndex) <==> Neighbours(clickedIndex, g.emptyIndex, g.size)
    ensures !Accepts(g, g.emptyIndex)
  {
    AdjacentIffNeighbours(clickedIndex, g.emptyIndex, g.size);
    if Neighbours(clickedIndex, g.emptyIndex, g.size) && g.puzzle[clickedIndex] == 0 {
      BlankUnique(g.puzzle, g.size, clickedIndex, g.emptyIndex);
    }
  }

  /** A won game on a valid state has the blank cached in the last cell. */
  lemma WonBlankLast(g: GameState)
    requires Valid(g) && Won(g.puzzle)
    ensures g.emptyIndex == |g.puzzle| - 1
  {
    BlankUnique(g.puzzle, g.size, g.emptyIndex, |g.puzzle| - 1);
  }

  /** Exchanging any two tiles of the solved board leaves it unsolved. */
  lemma TranspositionNotWon(b: seq<int>, i: int, j: int)
    requires Won(b) && 0 <= i < j < |b| && b[i] != 0 && b[j] != 0
    ensures !Won(Swap(b, i, j))
  {
  }

  /** The solved 3x3 board is won, and so the move that completes it scores. */
  lemma WonExample()
    ensures Won([1, 2, 3, 4, 5, 6, 7, 8, 0])
    ensures !Won([2, 1, 3, 4, 5, 6, 7, 8, 0])
  {
    assert Goal(9) == [1, 2, 3, 4, 5, 6, 7, 8, 0];
  }

  /** The last move of a game: sliding tile 3 into the blank of [1, 2, 0, 3]
      solves a 2x2 board, moves becomes 21 and the score 2000 - 10 - 105 =
      1885 is added to the player's total. */
  lemma WinningMoveExample(p: Player)
    ensures var g := GameState(p, [1, 2, 0, 3], 2, 2, 20, 30, 0);
      var r := MovePiece(g, 3);
      && Won(r.puzzle) && r.moves == 21 && r.emptyIndex == 3
      && r.latestScore == 1885 && r.player.score == p.score + 1885
  {
    var g := GameState(p, [1, 2, 0, 3], 2, 2, 20, 30, 0);
    assert Adjacent(3, 2, 2);
    var solved := Swap(g.puzzle, 3, 2);
    assert solved == [1, 2, 3, 0];
    assert Goal(4) == solved;
    assert Score(2, 30, 21) == 1885;
  }
}
