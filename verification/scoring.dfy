/**
 The score rule of the scored variant (`updateScore`): a correct verdict adds
 the clue's points whatever the player confirms; an incorrect verdict the
 player accepts subtracts them; an incorrect verdict the player declines
 leaves the score alone and re-arms the clue cell so it can be tried again.
 The confirmation dialog is replaced by its boolean answer.
 */
module Scoring {
  import opened Answers

  /** The new score, and whether the cell's click handler is attached again. */
  datatype ScoreUpdate = ScoreUpdate(score: int, rearm: bool)

  function UpdateScore(score: int, verdict: Verdict, confirmed: bool, points: int): (u: ScoreUpdate)
    ensures verdict == Correct ==> u == ScoreUpdate(score + points, false)
    ensures verdict == Incorrect && confirmed ==> u == ScoreUpdate(score - points, false)
    ensures verdict == Incorrect && !confirmed ==> u == ScoreUpdate(score, true)
  {
    if verdict == Correct || confirmed then
      ScoreUpdate(score + (if verdict == Correct then points else -points), false)
    else
      ScoreUpdate(score, true)
  }

  /** The score moves by exactly the clue's points, in the verdict's
      direction, or not at all; it stays put exactly when the cell is
      re-armed. */
  lemma ScoreDelta(score: int, verdict: Verdict, confirmed: bool, points: int)
    ensures var u := UpdateScore(score, verdict, confirmed, points);
      && (u.score - score == points || u.score - score == -points || u.score == score)
      && (u.rearm <==> verdict == Incorrect && !confirmed)
      && (u.rearm ==> u.score == score)
      && (points > 0 ==> (u.score > score <==> verdict == Correct))
  {
  }

  /** Winning and then conceding the same clue value cancel out. */
  lemma CorrectThenConcededCancel(score: int, points: int)
    ensures UpdateScore(UpdateScore(score, Correct, false, points).score, Incorrect, true, points).score == score
  {
  }

  /** The worked scenario: from 0, a correct $200 gives 200; conceding a wrong
      $400 then gives -200, while declining it keeps 200 and re-arms the cell. */
  lemma ScoreScenario()
    ensures UpdateScore(0, Correct, false, 200).score == 200
    ensures UpdateScore(200, Incorrect, true, 400).score == -200
    ensures UpdateScore(200, Incorrect, false, 400) == ScoreUpdate(200, true)
  {
  }
}
