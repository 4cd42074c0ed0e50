/** Boards of the sliding-tile puzzle: a row-major sequence of tile numbers of
    a `size` x `size` grid, where 0 is the blank cell. */
module Tiles {

  /** The consecutive integers lo, lo + 1, ..., hi - 1. */
  function Range(lo: int, hi: int): (r: seq<int>)
    requires lo <= hi
    ensures |r| == hi - lo
    ensures forall k :: 0 <= k < |r| ==> r[k] == lo + k
  {
    seq(hi - lo, k => lo + k)
  }

  /** The solved arrangement of `n` cells, 1, 2, ..., n - 1 followed by the
      blank; also the array initializePuzzle starts every shuffle from. */
  function Goal(n: nat): (r: seq<int>)
    requires n >= 1
    ensures |r| == n && r[n - 1] == 0
    ensures forall k :: 0 <= k < n - 1 ==> r[k] == k + 1
  {
    Range(1, n) + [0]
  }

  /** A well-formed board of a `size` x `size` grid: it holds every tile
      number 0 .. size*size - 1 exactly once. */
  predicate IsBoard(b: seq<int>, size: int) {
    size >= 1 && |b| == size * size && multiset(b) == multiset(Range(0, |b|))
  }

  /** Exchange of two cells, as the destructuring assignments of movePiece
      and initializePuzzle do it: cell i receives the old b[j], then cell j
      the old b[i]. */
  function Swap(b: seq<int>, i: int, j: int): (r: seq<int>)
    requires 0 <= i < |b| && 0 <= j < |b|
    ensures |r| == |b| && r[i] == b[j] && r[j] == b[i]
    ensures forall k :: 0 <= k < |b| && k != i && k != j ==> r[k] == b[k]
    ensures multiset(r) == multiset(b)
  {
    b[i := b[j]][j := b[i]]
  }

  /** JavaScript's `Array.prototype.indexOf`: the first position holding `x`,
      or -1 when there is none. */
  function IndexOf(b: seq<int>, x: int): (r: int)
    ensures -1 <= r < |b|
    ensures r == -1 <==> x !in b
    ensures r >= 0 ==> b[r] == x && x !in b[..r]
  {
    if |b| == 0 then -1
    else if b[0] == x then 0
    else
      var k := IndexOf(b[1..], x);
      if k == -1 then -1 else k + 1
  }

  /** The starting array of the generator is a well-formed board. */
  lemma GoalIsBoard(size: int)
    requires size >= 1
    ensures IsBoard(Goal(size * size), size)
  {
    var n := size * size;
    assert n >= 1 by { assert size * size >= size * 1; }
    assert Range(0, n) == [0] + Range(1, n);
    calc {
      multiset(Goal(n));
      multiset(Range(1, n)) + multiset{0};
      multiset([0] + Range(1, n));
      multiset(Range(0, n));
    }
  }

  /** Two cells holding the same value force that value to occur twice. */
  lemma TwiceInMultiset(b: seq<int>, i: int, j: int)
    requires 0 <= i < j < |b| && b[i] == b[j]
    ensures multiset(b)[b[i]] >= 2
  {
    assert b == b[..i] + [b[i]] + b[i + 1..j] + [b[j]] + b[j + 1..];
  }

  /** On a well-formed board the blank occupies exactly one cell. */
  lemma {:induction false} BlankUnique(b: seq<int>, size: int, i: int, j: int)
    requires IsBoard(b, size)
    requires 0 <= i < |b| && 0 <= j < |b| && b[i] == 0 && b[j] == 0
    ensures i == j
  {
    var n := |b|;
    assert Range(0, n) == [0] + Range(1, n);
    assert 0 !in Range(1, n);
    assert multiset(Range(0, n))[0] == 1;
    if i < j {
      TwiceInMultiset(b, i, j);
    } else if j < i {
      TwiceInMultiset(b, j, i);
    }
  }

  /** A well-formed board whose last cell is the blank reports the blank there. */
  lemma BlankLastIndex(b: seq<int>, size: int)
    requires IsBoard(b, size) && b[|b| - 1] == 0
    ensures IndexOf(b, 0) == |b| - 1
  {
    var k := IndexOf(b, 0);
    assert b[|b| - 1] in b;
    BlankUnique(b, size, k, |b| - 1);
  }
}
