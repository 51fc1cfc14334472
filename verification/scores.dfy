/** Scores, moves and (score, move) pairs, ordered the way the agent compares
    them: scores as floats that may be infinite, moves and pairs as tuples. */
module Scores {

  /** A position's desirability: a real number, or an infinity that stands
      for a proven win (PosInf) or loss (NegInf). */
  datatype Score = NegInf | Fin(v: real) | PosInf

  /** `a < b` on extended reals. */
  predicate Less(a: Score, b: Score) {
    match a
    case NegInf => !b.NegInf?
    case Fin(x) => b.PosInf? || (b.Fin? && x < b.v)
    case PosInf => false
  }

  predicate Le(a: Score, b: Score) {
    a == b || Less(a, b)
  }

  lemma LeTrans(a: Score, b: Score, c: Score)
    requires Le(a, b) && Le(b, c)
    ensures Le(a, c)
  {
  }

  /** The larger score; the first one on a tie. */
  function Max(a: Score, b: Score): (r: Score)
    ensures Le(a, r) && Le(b, r)
    ensures r == a || r == b
  {
    if Less(a, b) then b else a
  }

  /** The smaller score; the first one on a tie. */
  function Min(a: Score, b: Score): (r: Score)
    ensures Le(r, a) && Le(r, b)
    ensures r == a || r == b
  {
    if Less(b, a) then b else a
  }

  /** A board cell (row, column). */
  type Move = (int, int)

  /** The value returned when there is no legal move. */
  const NoMove: Move := (-1, -1)

  /** Lexicographic order on coordinate pairs. */
  predicate MoveLess(a: Move, b: Move) {
    a.0 < b.0 || (a.0 == b.0 && a.1 < b.1)
  }

  /** What every search routine returns: a score and the move that achieves it. */
  datatype SearchResult = SearchResult(score: Score, move: Move)

  /** Tuple order on (score, move): by score, then by move. */
  predicate ResultLess(a: SearchResult, b: SearchResult) {
    Less(a.score, b.score) || (a.score == b.score && MoveLess(a.move, b.move))
  }

  predicate ResultLe(a: SearchResult, b: SearchResult) {
    a == b || ResultLess(a, b)
  }

  /** `max(a, b)` on pairs: `b` only when it is strictly greater. */
  function TupleMax(a: SearchResult, b: SearchResult): (r: SearchResult)
    ensures ResultLe(a, r) && ResultLe(b, r)
    ensures r == a || r == b
    ensures r.score == Max(a.score, b.score)
  {
    if ResultLess(a, b) then b else a
  }

  /** `min(a, b)` on pairs: `b` only when it is strictly smaller. */
  function TupleMin(a: SearchResult, b: SearchResult): (r: SearchResult)
    ensures ResultLe(r, a) && ResultLe(r, b)
    ensures r == a || r == b
    ensures r.score == Min(a.score, b.score)
  {
    if ResultLess(b, a) then b else a
  }

  lemma ResultLeTrans(a: SearchResult, b: SearchResult, c: SearchResult)
    requires ResultLe(a, b) && ResultLe(b, c)
    ensures ResultLe(a, c)
  {
  }
}
