/** The scoring rule of calculateScore. */
module Scoring {

  const MinimumScore := 100

  /** The base score of 1000 per grid size, less one point per three whole
      seconds and five points per move, but never below the floor. For the
      positive divisor 3, Dafny's `/` is the floor division calculateScore uses. */
  function Score(size: int, timer: int, moves: int): (r: int)
    ensures r >= MinimumScore
  {
    var raw := 1000 * size - timer / 3 - moves * 5;
    if raw > MinimumScore then raw else MinimumScore
  }

  /** More time or more moves never raise the score. */
  lemma ScoreMonotone(size: int, t1: int, t2: int, m1: int, m2: int)
    requires t1 <= t2 && m1 <= m2
    ensures Score(size, t2, m2) <= Score(size, t1, m1)
  {
  }

  /** Above the floor each extra move costs exactly five points and every
      three extra seconds cost one point. */
  lemma ScorePenalties(size: int, timer: int, moves: int)
    requires Score(size, timer + 3, moves + 1) > MinimumScore
    ensures Score(size, timer, moves + 1) == Score(size, timer, moves) - 5
    ensures Score(size, timer + 3, moves) == Score(size, timer, moves) - 1
  {
    assert (timer + 3) / 3 == timer / 3 + 1;
  }

  /** The worked examples: a 3x3 game solved in 30 seconds with 20 moves, and
      one so slow that the floor applies. */
  lemma ScoreExamples()
    ensures Score(3, 30, 20) == 2890
    ensures Score(3, 100000, 1000) == 100
  {
  }
}
