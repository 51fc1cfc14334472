/** The evaluation functions: how desirable a board is for the agent. Each
    one settles a won or lost board first, then computes a value from move
    counts. Values are exact reals; the source's floats round. */
module Heuristics {
  import opened Scores
  import opened Board

  /** `my_moves - 1.5 * opp_moves`. */
  function ImprovedWeightedScore(p: Position): (r: Score)
    ensures p.loser ==> r == NegInf
    ensures !p.loser && p.winner ==> r == PosInf
    ensures !p.loser && !p.winner ==> r.Fin?
  {
    if p.loser then NegInf
    else if p.winner then PosInf
    else Fin(p.myMoves as real - 1.5 * (p.oppMoves as real))
  }

  /** `my_moves / (1.5 * opp_moves)`, or +inf when the opponent is stuck. */
  function RatioWeightedScore(p: Position): (r: Score)
    ensures p.loser ==> r == NegInf
    ensures !p.loser && p.winner ==> r == PosInf
    ensures !p.loser && p.oppMoves == 0 ==> r == PosInf
    ensures !p.loser && !p.winner && p.oppMoves > 0 ==> r.Fin? && r.v >= 0.0
  {
    if p.loser then NegInf
    else if p.winner then PosInf
    else if p.oppMoves == 0 then PosInf
    else Fin(p.myMoves as real / (1.5 * (p.oppMoves as real)))
  }

  /** `my_moves / 1.5 * opp_moves`, which Python reads as
      `(my_moves / 1.5) * opp_moves`, or +inf when the opponent is stuck. */
  function RatioWeighted(p: Position): (r: Score)
    ensures p.loser ==> r == NegInf
    ensures !p.loser && p.winner ==> r == PosInf
    ensures !p.loser && p.oppMoves == 0 ==> r == PosInf
    ensures !p.loser && !p.winner && p.oppMoves > 0 ==> r.Fin? && r.v >= 0.0
  {
    if p.loser then NegInf
    else if p.winner then PosInf
    else if p.oppMoves == 0 then PosInf
    else Fin((p.myMoves as real / 1.5) * (p.oppMoves as real))
  }

  /** `my_moves / opp_moves + my_moves / blank_spaces`, or +inf when the
      opponent is stuck. The opponent having a move means a blank cell
      exists, so neither division is by zero. */
  function RatioPlusMyMovesWeightScore(p: Position): (r: Score)
    ensures p.loser ==> r == NegInf
    ensures !p.loser && p.winner ==> r == PosInf
    ensures !p.loser && p.oppMoves == 0 ==> r == PosInf
    ensures !p.loser && !p.winner && p.oppMoves > 0 ==> r.Fin? && r.v >= 0.0
  {
    if p.loser then NegInf
    else if p.winner then PosInf
    else if p.oppMoves == 0 then PosInf
    else Fin(p.myMoves as real / (p.oppMoves as real) + p.myMoves as real / (p.blankSpaces as real))
  }

  /** The evaluation functions the agent can be configured with. */
  datatype ScoreFn =
    | ImprovedWeightedFn
    | RatioWeightedScoreFn
    | RatioWeightedFn
    | RatioPlusMyMovesWeightScoreFn
    | CustomScoreFn(evalFn: ScoreFn)

  /** The functions that answer +inf whenever the opponent has no move. */
  predicate IsRatio(f: ScoreFn) {
    match f
    case ImprovedWeightedFn => false
    case CustomScoreFn(g) => IsRatio(g)
    case _ => true
  }

  /** The default evaluation function of the agent. */
  const DefaultScoreFn: ScoreFn := CustomScoreFn(RatioPlusMyMovesWeightScoreFn)

  /** `custom_score`: the terminal checks, then the chosen `eval_fn`. */
  function CustomScore(evalFn: ScoreFn, p: Position): (r: Score)
    decreases evalFn, 1
    ensures p.loser ==> r == NegInf
    ensures !p.loser && p.winner ==> r == PosInf
    ensures !p.loser && !p.winner ==> r == Evaluate(evalFn, p)
  {
    if p.loser then NegInf
    else if p.winner then PosInf
    else Evaluate(evalFn, p)
  }

  /** `self.score(game, self)` for the configured function. */
  function Evaluate(f: ScoreFn, p: Position): (r: Score)
    decreases f, 0
    ensures p.loser ==> r == NegInf
    ensures !p.loser && p.winner ==> r == PosInf
    ensures IsRatio(f) && !p.loser && p.oppMoves == 0 ==> r == PosInf
    ensures !p.loser && !p.winner ==> r.Fin? || (IsRatio(f) && p.oppMoves == 0)
  {
    match f
    case ImprovedWeightedFn => ImprovedWeightedScore(p)
    case RatioWeightedScoreFn => RatioWeightedScore(p)
    case RatioWeightedFn => RatioWeighted(p)
    case RatioPlusMyMovesWeightScoreFn => RatioPlusMyMovesWeightScore(p)
    case CustomScoreFn(g) => CustomScore(g, p)
  }

  /** The configured function as the `score(game, player)` callable the
      search routines are handed. */
  function Scorer(f: ScoreFn): (r: Position -> Score)
    ensures forall p: Position :: p.loser ==> r(p) == NegInf
    ensures forall p: Position :: !p.loser && p.winner ==> r(p) == PosInf
    ensures forall p: Position :: !p.loser && !p.winner ==> r(p).Fin? || (IsRatio(f) && p.oppMoves == 0)
  {
    (p: Position) => Evaluate(f, p)
  }

  /** A board on which neither side has won or lost yet. */
  predicate InPlay(p: Position) {
    !p.loser && !p.winner
  }

  /** More own moves and fewer opponent moves never make a board worse. */
  lemma ImprovedWeightedMonotone(p: Position, q: Position)
    requires InPlay(p) && InPlay(q)
    requires p.myMoves <= q.myMoves && q.oppMoves <= p.oppMoves
    ensures Le(ImprovedWeightedScore(p), ImprovedWeightedScore(q))
    ensures p.myMoves < q.myMoves ==> Less(ImprovedWeightedScore(p), ImprovedWeightedScore(q))
  {
  }

  lemma DivMonotone(x: real, y: real, a: real, b: real)
    requires 0.0 <= x <= y && 0.0 < b <= a
    ensures x / a <= y / b
  {
    assert x / a <= y / a by {
      assert y / a - x / a == (y - x) / a;
    }
    assert y / a <= y / b by {
      assert y / b - y / a == y * (a - b) / (a * b);
      assert y * (a - b) >= 0.0;
    }
  }

  /** More own moves and fewer opponent moves never make a board worse. */
  lemma RatioWeightedScoreMonotone(p: Position, q: Position)
    requires InPlay(p) && InPlay(q)
    requires p.myMoves <= q.myMoves && q.oppMoves <= p.oppMoves
    ensures Le(RatioWeightedScore(p), RatioWeightedScore(q))
  {
    if q.oppMoves > 0 {
      DivMonotone(p.myMoves as real, q.myMoves as real, 1.5 * (p.oppMoves as real), 1.5 * (q.oppMoves as real));
    }
  }

  /** More own moves and fewer opponent moves never make a board worse,
      with the same number of blank cells. */
  lemma RatioPlusMyMovesWeightScoreMonotone(p: Position, q: Position)
    requires InPlay(p) && InPlay(q)
    requires p.myMoves <= q.myMoves && q.oppMoves <= p.oppMoves && p.blankSpaces == q.blankSpaces
    ensures Le(RatioPlusMyMovesWeightScore(p), RatioPlusMyMovesWeightScore(q))
  {
    if q.oppMoves > 0 {
      var b := p.blankSpaces as real;
      DivMonotone(p.myMoves as real, q.myMoves as real, p.oppMoves as real, q.oppMoves as real);
      DivMonotone(p.myMoves as real, q.myMoves as real, b, b);
    }
  }

  /** As written, `ratio_weighted` multiplies by the opponent's move count:
      with the agent's moves fixed, a board where the opponent has more
      moves scores at least as high. */
  lemma RatioWeightedGrowsWithOpponentMoves(p: Position, q: Position)
    requires InPlay(p) && InPlay(q)
    requires p.myMoves == q.myMoves && 0 < p.oppMoves <= q.oppMoves
    ensures Le(RatioWeighted(p), RatioWeighted(q))
    ensures p.myMoves > 0 && p.oppMoves < q.oppMoves ==> Less(RatioWeighted(p), RatioWeighted(q))
  {
    var m := p.myMoves as real / 1.5;
    assert m >= 0.0;
    assert m * (q.oppMoves as real) - m * (p.oppMoves as real) == m * ((q.oppMoves - p.oppMoves) as real);
  }
}
