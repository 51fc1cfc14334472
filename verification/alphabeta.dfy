/** Depth-limited minimax with alpha-beta pruning (`CustomPlayer.alphabeta`,
    `max_value` and `min_value`). */
module AlphaBeta {
  import opened Scores
  import opened Board
  import opened Heuristics
  import opened Clock
  import Minimax

  /** What a completed `alphabeta(game, depth, alpha, beta, maximizing_player)`
      returns: `max_value` or `min_value` on the same window. */
  function AlphaBeta(node: Node, depth: nat, alpha: Score, beta: Score, maximizing: bool, eval: Position -> Score): (r: SearchResult)
    ensures depth == 0 ==> r == SearchResult(eval(node.pos), NoMove)
    ensures 0 < depth && |node.children| == 0 ==> r == SearchResult(if maximizing then NegInf else PosInf, NoMove)
  {
    if maximizing then MaxValue(node, depth, alpha, beta, eval) else MinValue(node, depth, alpha, beta, eval)
  }

  /** What a completed `max_value(game, depth, alpha, beta)` returns. */
  function MaxValue(node: Node, depth: nat, alpha: Score, beta: Score, eval: Position -> Score): (r: SearchResult)
    decreases node, 1
    ensures depth == 0 ==> r == SearchResult(eval(node.pos), NoMove)
    ensures 0 < depth && |node.children| == 0 ==> r == SearchResult(NegInf, NoMove)
  {
    if depth == 0 then SearchResult(eval(node.pos), NoMove)
    else MaxFrom(node, depth, alpha, beta, eval, 0, SearchResult(NegInf, NoMove))
  }

  /** The state the loop of `max_value` or `min_value` carries from one move
      to the next: the best pair so far and the bound it narrows (alpha for
      `max_value`, beta for `min_value`). */
  datatype Step = Step(best: SearchResult, bound: Score)

  /** One pass of the loop of `max_value` once the reply to `move` scored
      `t`: a strictly greater score replaces the best pair and raises alpha. */
  function MaxUpdate(t: Score, move: Move, alpha: Score, best: SearchResult): (r: Step)
    ensures Le(alpha, r.bound) && (r.bound == alpha || r.bound == t)
    ensures Le(best.score, r.best.score) && Le(t, r.best.score)
    ensures Less(best.score, t) ==> r.best == SearchResult(t, move)
    ensures !Less(best.score, t) ==> r.best == best
  {
    if Less(best.score, t) then Step(SearchResult(t, move), if Less(alpha, t) then t else alpha)
    else Step(best, alpha)
  }

  /** The loop of `max_value` from move number i on, with the current alpha
      and the best pair so far; the loop stops once the best score reaches
      beta. */
  function MaxFrom(node: Node, depth: nat, alpha: Score, beta: Score, eval: Position -> Score, i: nat, best: SearchResult): (r: SearchResult)
    requires 0 < depth && i <= |node.children|
    decreases node, 0, |node.children| - i
    ensures Le(best.score, r.score)
  {
    if i == |node.children| then best
    else
      var e := node.children[i];
      var s := MaxUpdate(MinValue(e.next, depth - 1, alpha, beta, eval).score, e.move, alpha, best);
      if Le(beta, s.best.score) then s.best
      else MaxFrom(node, depth, s.bound, beta, eval, i + 1, s.best)
  }

  /** What a completed `min_value(game, depth, alpha, beta)` returns. */
  function MinValue(node: Node, depth: nat, alpha: Score, beta: Score, eval: Position -> Score): (r: SearchResult)
    decreases node, 1
    ensures depth == 0 ==> r == SearchResult(eval(node.pos), NoMove)
    ensures 0 < depth && |node.children| == 0 ==> r == SearchResult(PosInf, NoMove)
  {
    if depth == 0 then SearchResult(eval(node.pos), NoMove)
    else MinFrom(node, depth, alpha, beta, eval, 0, SearchResult(PosInf, NoMove))
  }

  /** One pass of the loop of `min_value` once the reply to `move` scored
      `t`: a strictly smaller score replaces the best pair and lowers beta,
      then the best pair becomes the tuple-minimum of itself and (t, move). */
  function MinUpdate(t: Score, move: Move, beta: Score, best: SearchResult): (r: Step)
    ensures Le(r.bound, beta) && (r.bound == beta || r.bound == t)
    ensures r.best.score == Min(best.score, t)
    ensures Less(t, best.score) ==> r.best == SearchResult(t, move)
    ensures Less(best.score, t) ==> r.best == best
    ensures t == best.score ==> r.best == TupleMin(best, SearchResult(t, move))
  {
    var improved := Less(t, best.score);
    var best1 := if improved then SearchResult(t, move) else best;
    Step(TupleMin(best1, SearchResult(t, move)), if improved && Less(t, beta) then t else beta)
  }

  /** The loop of `min_value` from move number i on, with the current beta
      and the best pair so far; the loop stops once the best score reaches
      alpha. */
  function MinFrom(node: Node, depth: nat, alpha: Score, beta: Score, eval: Position -> Score, i: nat, best: SearchResult): (r: SearchResult)
    requires 0 < depth && i <= |node.children|
    decreases node, 0, |node.children| - i
    ensures Le(r.score, best.score)
  {
    if i == |node.children| then best
    else
      var e := node.children[i];
      var s := MinUpdate(MaxValue(e.next, depth - 1, alpha, beta, eval).score, e.move, beta, best);
      if Le(s.best.score, alpha) then s.best
      else MinFrom(node, depth, alpha, s.bound, eval, i + 1, s.best)
  }

  /** How many times a completed `alphabeta(game, depth, alpha, beta, ...)`
      reads the clock: twice, then as often as `max_value` or `min_value`. */
  function AlphaBetaCalls(node: Node, depth: nat, alpha: Score, beta: Score, maximizing: bool, eval: Position -> Score): nat {
    2 + if maximizing then MaxCalls(node, depth, alpha, beta, eval) else MinCalls(node, depth, alpha, beta, eval)
  }

  /** How many times a completed `max_value` reads the clock: once on
      entry, then as often as the searches of the moves its loop reaches
      before the cutoff. */
  function MaxCalls(node: Node, depth: nat, alpha: Score, beta: Score, eval: Position -> Score): nat
    decreases node, 1
  {
    if depth == 0 then 1 else 1 + MaxFromCalls(node, depth, alpha, beta, eval, 0, SearchResult(NegInf, NoMove))
  }

  /** The clock readings of the loop of `max_value` from move number i on,
      following `MaxFrom`. */
  function MaxFromCalls(node: Node, depth: nat, alpha: Score, beta: Score, eval: Position -> Score, i: nat, best: SearchResult): nat
    requires 0 < depth && i <= |node.children|
    decreases node, 0, |node.children| - i
  {
    if i == |node.children| then 0
    else
      var e := node.children[i];
      var s := MaxUpdate(MinValue(e.next, depth - 1, alpha, beta, eval).score, e.move, alpha, best);
      MinCalls(e.next, depth - 1, alpha, beta, eval)
        + if Le(beta, s.best.score) then 0 else MaxFromCalls(node, depth, s.bound, beta, eval, i + 1, s.best)
  }

  /** How many times a completed `min_value` reads the clock. */
  function MinCalls(node: Node, depth: nat, alpha: Score, beta: Score, eval: Position -> Score): nat
    decreases node, 1
  {
    if depth == 0 then 1 else 1 + MinFromCalls(node, depth, alpha, beta, eval, 0, SearchResult(PosInf, NoMove))
  }

  /** The clock readings of the loop of `min_value` from move number i on,
      following `MinFrom`. */
  function MinFromCalls(node: Node, depth: nat, alpha: Score, beta: Score, eval: Position -> Score, i: nat, best: SearchResult): nat
    requires 0 < depth && i <= |node.children|
    decreases node, 0, |node.children| - i
  {
    if i == |node.children| then 0
    else
      var e := node.children[i];
      var s := MinUpdate(MaxValue(e.next, depth - 1, alpha, beta, eval).score, e.move, beta, best);
      MaxCalls(e.next, depth - 1, alpha, beta, eval)
        + if Le(s.best.score, alpha) then 0 else MinFromCalls(node, depth, alpha, s.bound, eval, i + 1, s.best)
  }

  /** Pruning never reads the clock more often than minimax: `max_value`
      reads it at most as often as `minimax` at the same depth. */
  lemma {:induction false} MaxReadsNoMore(node: Node, depth: nat, alpha: Score, beta: Score, eval: Position -> Score)
    decreases node, 1
    ensures MaxCalls(node, depth, alpha, beta, eval) <= Minimax.Calls(node, depth)
  {
    if 0 < depth {
      MaxFromReadsNoMore(node, depth, alpha, beta, eval, 0, SearchResult(NegInf, NoMove));
    }
  }

  /** The loop of `max_value` reads the clock at most as often as the
      searches of all the remaining moves in `minimax`. */
  lemma {:induction false} MaxFromReadsNoMore(node: Node, depth: nat, alpha: Score, beta: Score, eval: Position -> Score, i: nat, best: SearchResult)
    requires 0 < depth && i <= |node.children|
    decreases node, 0, |node.children| - i
    ensures MaxFromCalls(node, depth, alpha, beta, eval, i, best) <= Minimax.CallsFrom(node, depth, i)
  {
    if i < |node.children| {
      var e := node.children[i];
      MinReadsNoMore(e.next, depth - 1, alpha, beta, eval);
      var s := MaxUpdate(MinValue(e.next, depth - 1, alpha, beta, eval).score, e.move, alpha, best);
      if !Le(beta, s.best.score) {
        MaxFromReadsNoMore(node, depth, s.bound, beta, eval, i + 1, s.best);
      }
    }
  }

  /** `min_value` reads the clock at most as often as `minimax`. */
  lemma {:induction false} MinReadsNoMore(node: Node, depth: nat, alpha: Score, beta: Score, eval: Position -> Score)
    decreases node, 1
    ensures MinCalls(node, depth, alpha, beta, eval) <= Minimax.Calls(node, depth)
  {
    if 0 < depth {
      MinFromReadsNoMore(node, depth, alpha, beta, eval, 0, SearchResult(PosInf, NoMove));
    }
  }

  /** The loop of `min_value` reads the clock at most as often as the
      searches of all the remaining moves in `minimax`. */
  lemma {:induction false} MinFromReadsNoMore(node: Node, depth: nat, alpha: Score, beta: Score, eval: Position -> Score, i: nat, best: SearchResult)
    requires 0 < depth && i <= |node.children|
    decreases node, 0, |node.children| - i
    ensures MinFromCalls(node, depth, alpha, beta, eval, i, best) <= Minimax.CallsFrom(node, depth, i)
  {
    if i < |node.children| {
      var e := node.children[i];
      MaxReadsNoMore(e.next, depth - 1, alpha, beta, eval);
      var s := MinUpdate(MaxValue(e.next, depth - 1, alpha, beta, eval).score, e.move, beta, best);
      if !Le(s.best.score, alpha) {
        MinFromReadsNoMore(node, depth, alpha, s.bound, eval, i + 1, s.best);
      }
    }
  }

  /** `alphabeta` reads the clock at most twice more than `minimax` at the
      same depth: its two extra readings on entry, then no more than
      minimax below. */
  lemma AlphaBetaReadsNoMore(node: Node, depth: nat, alpha: Score, beta: Score, maximizing: bool, eval: Position -> Score)
    ensures AlphaBetaCalls(node, depth, alpha, beta, maximizing, eval) <= 2 + Minimax.Calls(node, depth)
  {
    if maximizing {
      MaxReadsNoMore(node, depth, alpha, beta, eval);
    } else {
      MinReadsNoMore(node, depth, alpha, beta, eval);
    }
  }

  /** The fail-soft contract of a pruned search on the window (alpha, beta):
      a result at or below alpha bounds the true value from above, one at
      or above beta bounds it from below, and one strictly inside the
      window is the true value. */
  predicate FailSoft(r: Score, v: Score, alpha: Score, beta: Score) {
    && (Le(r, alpha) ==> Le(v, r))
    && (Le(beta, r) ==> Le(r, v))
    && (Less(alpha, r) && Less(r, beta) ==> r == v)
  }

  /** The invariant of the loop of `max_value` behind its fail-soft
      contract, for the original window (alpha0, beta): `m` is the best true
      value among the moves already searched, it is at most the best score,
      a best score above alpha0 is exactly `m`, and alpha is the larger of
      alpha0 and the best score. */
  predicate MaxLoopInvariant(alpha0: Score, beta: Score, alpha: Score, best: SearchResult, m: Score) {
    && Less(alpha0, beta)
    && alpha == Max(alpha0, best.score)
    && Less(best.score, beta)
    && Le(m, best.score)
    && (Less(alpha0, best.score) ==> m == best.score)
  }

  /** One pass of the loop keeps the invariant when the move's reply `t` is
      fail-soft against its true value `v` on (alpha, beta); if the pass
      reaches beta, the best true value so far is at least the best score. */
  lemma MaxUpdateKeepsInvariant(alpha0: Score, beta: Score, alpha: Score, best: SearchResult, m: Score,
                                t: Score, v: Score, move: Move)
    requires MaxLoopInvariant(alpha0, beta, alpha, best, m)
    requires FailSoft(t, v, alpha, beta)
    ensures var s := MaxUpdate(t, move, alpha, best);
      if Le(beta, s.best.score) then Le(s.best.score, Max(m, v))
      else MaxLoopInvariant(alpha0, beta, s.bound, s.best, Max(m, v))
  {
  }

  lemma {:induction false} MaxValueFailSoft(node: Node, depth: nat, alpha: Score, beta: Score, eval: Position -> Score)
    requires Less(alpha, beta)
    ensures FailSoft(MaxValue(node, depth, alpha, beta, eval).score, Minimax.Value(node, depth, true, eval), alpha, beta)
    decreases node, 1
  {
    if depth > 0 {
      MaxFromFailSoft(node, depth, alpha, beta, eval, 0, alpha, SearchResult(NegInf, NoMove), NegInf);
    }
  }

  lemma {:induction false} MaxFromFailSoft(node: Node, depth: nat, alpha0: Score, beta: Score, eval: Position -> Score,
                                            i: nat, alpha: Score, best: SearchResult, m: Score)
    requires 0 < depth && i <= |node.children|
    requires MaxLoopInvariant(alpha0, beta, alpha, best, m)
    ensures FailSoft(MaxFrom(node, depth, alpha, beta, eval, i, best).score,
                     Minimax.ValueFrom(node, depth, true, eval, i, m), alpha0, beta)
    decreases node, 0, |node.children| - i
  {
    if i < |node.children| {
      var e := node.children[i];
      var t := MinValue(e.next, depth - 1, alpha, beta, eval).score;
      var v := Minimax.Value(e.next, depth - 1, false, eval);
      MinValueFailSoft(e.next, depth - 1, alpha, beta, eval);
      var s := MaxUpdate(t, e.move, alpha, best);
      MaxUpdateKeepsInvariant(alpha0, beta, alpha, best, m, t, v, e.move);
      var m' := Max(m, v);
      assert Minimax.ValueFrom(node, depth, true, eval, i, m) == Minimax.ValueFrom(node, depth, true, eval, i + 1, m');
      if Le(beta, s.best.score) {
        Minimax.ValueFromBound(node, depth, true, eval, i + 1, m');
      } else {
        MaxFromFailSoft(node, depth, alpha0, beta, eval, i + 1, s.bound, s.best, m');
      }
    }
  }

  /** The invariant of the loop of `min_value`, the mirror image of
      `MaxLoopInvariant` for the original window (alpha, beta0). */
  predicate MinLoopInvariant(alpha: Score, beta0: Score, beta: Score, best: SearchResult, m: Score) {
    && Less(alpha, beta0)
    && beta == Min(beta0, best.score)
    && Less(alpha, best.score)
    && Le(best.score, m)
    && (Less(best.score, beta0) ==> m == best.score)
  }

  /** One pass of the loop of `min_value` keeps its invariant; if the pass
      reaches alpha, the best true value so far is at most the best score. */
  lemma MinUpdateKeepsInvariant(alpha: Score, beta0: Score, beta: Score, best: SearchResult, m: Score,
                                t: Score, v: Score, move: Move)
    requires MinLoopInvariant(alpha, beta0, beta, best, m)
    requires FailSoft(t, v, alpha, beta)
    ensures var s := MinUpdate(t, move, beta, best);
      if Le(s.best.score, alpha) then Le(Min(m, v), s.best.score)
      else MinLoopInvariant(alpha, beta0, s.bound, s.best, Min(m, v))
  {
  }

  lemma {:induction false} MinValueFailSoft(node: Node, depth: nat, alpha: Score, beta: Score, eval: Position -> Score)
    requires Less(alpha, beta)
    ensures FailSoft(MinValue(node, depth, alpha, beta, eval).score, Minimax.Value(node, depth, false, eval), alpha, beta)
    decreases node, 1
  {
    if depth > 0 {
      MinFromFailSoft(node, depth, alpha, beta, eval, 0, beta, SearchResult(PosInf, NoMove), PosInf);
    }
  }

  lemma {:induction false} MinFromFailSoft(node: Node, depth: nat, alpha: Score, beta0: Score, eval: Position -> Score,
                                            i: nat, beta: Score, best: SearchResult, m: Score)
    requires 0 < depth && i <= |node.children|
    requires MinLoopInvariant(alpha, beta0, beta, best, m)
    ensures FailSoft(MinFrom(node, depth, alpha, beta, eval, i, best).score,
                     Minimax.ValueFrom(node, depth, false, eval, i, m), alpha, beta0)
    decreases node, 0, |node.children| - i
  {
    if i < |node.children| {
      var e := node.children[i];
      var t := MaxValue(e.next, depth - 1, alpha, beta, eval).score;
      var v := Minimax.Value(e.next, depth - 1, true, eval);
      MaxValueFailSoft(e.next, depth - 1, alpha, beta, eval);
      var s := MinUpdate(t, e.move, beta, best);
      MinUpdateKeepsInvariant(alpha, beta0, beta, best, m, t, v, e.move);
      var m' := Min(m, v);
      assert Minimax.ValueFrom(node, depth, false, eval, i, m) == Minimax.ValueFrom(node, depth, false, eval, i + 1, m');
      if Le(s.best.score, alpha) {
        Minimax.ValueFromBound(node, depth, false, eval, i + 1, m');
      } else {
        MinFromFailSoft(node, depth, alpha, beta0, eval, i + 1, s.bound, s.best, m');
      }
    }
  }

  /** On any non-empty window, `alphabeta` meets the fail-soft contract
      against the score plain minimax returns at the same depth. */
  lemma AlphaBetaFailSoft(node: Node, depth: nat, alpha: Score, beta: Score, maximizing: bool, eval: Position -> Score)
    requires Less(alpha, beta)
    ensures FailSoft(AlphaBeta(node, depth, alpha, beta, maximizing, eval).score,
                     Minimax.Minimax(node, depth, maximizing, eval).score, alpha, beta)
  {
    Minimax.MinimaxScoreIsValue(node, depth, maximizing, eval);
    if maximizing {
      MaxValueFailSoft(node, depth, alpha, beta, eval);
    } else {
      MinValueFailSoft(node, depth, alpha, beta, eval);
    }
  }

  /** With the full window (-inf, +inf) that `get_move` uses, `alphabeta`
      returns the same score as `minimax` at the same depth. */
  lemma AlphaBetaFullWindowIsMinimax(node: Node, depth: nat, maximizing: bool, eval: Position -> Score)
    ensures AlphaBeta(node, depth, NegInf, PosInf, maximizing, eval).score == Minimax.Minimax(node, depth, maximizing, eval).score
  {
    AlphaBetaFailSoft(node, depth, NegInf, PosInf, maximizing, eval);
  }

  /** The two searches may return different moves for the same score:
      on a maximizing layer whose two moves score the same, `max_value`
      keeps the first move (strict `>`) and `minimax` the larger one
      (tuple `max`). */
  lemma MovesMayDiffer()
    ensures var leaf := Node(Features(false, false, 1, 1, 1), []);
      var root := Node(Features(false, false, 2, 2, 3), [Edge((0, 0), leaf), Edge((1, 1), leaf)]);
      && AlphaBeta(root, 1, NegInf, PosInf, true, ImprovedWeightedScore) == SearchResult(Fin(-0.5), (0, 0))
      && Minimax.Minimax(root, 1, true, ImprovedWeightedScore) == SearchResult(Fin(-0.5), (1, 1))
  {
    var leaf := Node(Features(false, false, 1, 1, 1), []);
    var root := Node(Features(false, false, 2, 2, 3), [Edge((0, 0), leaf), Edge((1, 1), leaf)]);
    assert MinValue(leaf, 0, NegInf, PosInf, ImprovedWeightedScore).score == Fin(-0.5);
    assert Minimax.Reply(root, 1, true, ImprovedWeightedScore, 0) == SearchResult(Fin(-0.5), (0, 0));
    assert Minimax.Reply(root, 1, true, ImprovedWeightedScore, 1) == SearchResult(Fin(-0.5), (1, 1));
  }

  /** `other` is the same board with the same first k + 1 moves, whatever
      moves follow them. */
  predicate SamePrefix(other: Node, node: Node, k: nat) {
    && other.pos == node.pos
    && k < |node.children| && k < |other.children|
    && other.children[..k + 1] == node.children[..k + 1]
  }

  /** The loop of `max_value` from move i on has stopped by move k: its
      result is the same on every board that agrees on the moves up to k. */
  ghost predicate MaxDecidedBy(node: Node, depth: nat, alpha: Score, beta: Score, eval: Position -> Score, i: nat, best: SearchResult, k: nat)
    requires 0 < depth && i <= |node.children|
  {
    && i <= k < |node.children|
    && forall other :: SamePrefix(other, node, k) ==>
         MaxFrom(other, depth, alpha, beta, eval, i, best) == MaxFrom(node, depth, alpha, beta, eval, i, best)
  }

  /** The loop of `min_value` from move i on has stopped by move k. */
  ghost predicate MinDecidedBy(node: Node, depth: nat, alpha: Score, beta: Score, eval: Position -> Score, i: nat, best: SearchResult, k: nat)
    requires 0 < depth && i <= |node.children|
  {
    && i <= k < |node.children|
    && forall other :: SamePrefix(other, node, k) ==>
         MinFrom(other, depth, alpha, beta, eval, i, best) == MinFrom(node, depth, alpha, beta, eval, i, best)
  }

  /** The loop of `max_value` takes the same pass over move i on two boards
      that have the same move i. */
  lemma MaxFromSameMove(other: Node, node: Node, depth: nat, alpha: Score, beta: Score, eval: Position -> Score,
                        i: nat, best: SearchResult)
    requires 0 < depth && i < |node.children| && i < |other.children| && other.children[i] == node.children[i]
    ensures var e := node.children[i];
      var s := MaxUpdate(MinValue(e.next, depth - 1, alpha, beta, eval).score, e.move, alpha, best);
      MaxFrom(other, depth, alpha, beta, eval, i, best)
        == if Le(beta, s.best.score) then s.best else MaxFrom(other, depth, s.bound, beta, eval, i + 1, s.best)
  {
  }

  /** The loop of `min_value` takes the same pass over move i on two boards
      that have the same move i. */
  lemma MinFromSameMove(other: Node, node: Node, depth: nat, alpha: Score, beta: Score, eval: Position -> Score,
                        i: nat, best: SearchResult)
    requires 0 < depth && i < |node.children| && i < |other.children| && other.children[i] == node.children[i]
    ensures var e := node.children[i];
      var s := MinUpdate(MaxValue(e.next, depth - 1, alpha, beta, eval).score, e.move, beta, best);
      MinFrom(other, depth, alpha, beta, eval, i, best)
        == if Le(s.best.score, alpha) then s.best else MinFrom(other, depth, alpha, s.bound, eval, i + 1, s.best)
  {
  }

  lemma {:induction false} MaxFromCutoff(node: Node, depth: nat, alpha: Score, beta: Score, eval: Position -> Score, i: nat, best: SearchResult)
    requires 0 < depth && i <= |node.children|
    requires i < |node.children| || Less(best.score, beta)
    requires Le(beta, MaxFrom(node, depth, alpha, beta, eval, i, best).score)
    ensures exists k :: MaxDecidedBy(node, depth, alpha, beta, eval, i, best, k)
    decreases |node.children| - i
  {
    if i < |node.children| {
      var e := node.children[i];
      var s := MaxUpdate(MinValue(e.next, depth - 1, alpha, beta, eval).score, e.move, alpha, best);
      var k := i;
      if !Le(beta, s.best.score) {
        MaxFromCutoff(node, depth, s.bound, beta, eval, i + 1, s.best);
        k :| MaxDecidedBy(node, depth, s.bound, beta, eval, i + 1, s.best, k);
      }
      forall other | SamePrefix(other, node, k)
        ensures MaxFrom(other, depth, alpha, beta, eval, i, best) == MaxFrom(node, depth, alpha, beta, eval, i, best)
      {
        assert other.children[..k + 1][i] == other.children[i];
        MaxFromSameMove(other, node, depth, alpha, beta, eval, i, best);
      }
      assert MaxDecidedBy(node, depth, alpha, beta, eval, i, best, k);
    }
  }

  lemma {:induction false} MinFromCutoff(node: Node, depth: nat, alpha: Score, beta: Score, eval: Position -> Score, i: nat, best: SearchResult)
    requires 0 < depth && i <= |node.children|
    requires i < |node.children| || Less(alpha, best.score)
    requires Le(MinFrom(node, depth, alpha, beta, eval, i, best).score, alpha)
    ensures exists k :: MinDecidedBy(node, depth, alpha, beta, eval, i, best, k)
    decreases |node.children| - i
  {
    if i < |node.children| {
      var e := node.children[i];
      var s := MinUpdate(MaxValue(e.next, depth - 1, alpha, beta, eval).score, e.move, beta, best);
      var k := i;
      if !Le(s.best.score, alpha) {
        MinFromCutoff(node, depth, alpha, s.bound, eval, i + 1, s.best);
        k :| MinDecidedBy(node, depth, alpha, s.bound, eval, i + 1, s.best, k);
      }
      forall other | SamePrefix(other, node, k)
        ensures MinFrom(other, depth, alpha, beta, eval, i, best) == MinFrom(node, depth, alpha, beta, eval, i, best)
      {
        assert other.children[..k + 1][i] == other.children[i];
        MinFromSameMove(other, node, depth, alpha, beta, eval, i, best);
      }
      assert MinDecidedBy(node, depth, alpha, beta, eval, i, best, k);
    }
  }

  /** `max_value` stopped at move k: every board that agrees on the moves
      up to k gets the same result. */
  ghost predicate MaxValuePrunedAfter(node: Node, depth: nat, alpha: Score, beta: Score, eval: Position -> Score, k: nat) {
    && k < |node.children|
    && forall other :: SamePrefix(other, node, k) ==>
         MaxValue(other, depth, alpha, beta, eval) == MaxValue(node, depth, alpha, beta, eval)
  }

  /** `min_value` stopped at move k. */
  ghost predicate MinValuePrunedAfter(node: Node, depth: nat, alpha: Score, beta: Score, eval: Position -> Score, k: nat) {
    && k < |node.children|
    && forall other :: SamePrefix(other, node, k) ==>
         MinValue(other, depth, alpha, beta, eval) == MinValue(node, depth, alpha, beta, eval)
  }

  /** Beta cutoff: when `max_value` returns a score at or above beta, it
      stopped at some move k and never looked at the moves after it. */
  lemma MaxValueBetaCutoff(node: Node, depth: nat, alpha: Score, beta: Score, eval: Position -> Score)
    requires 0 < depth && 0 < |node.children|
    requires Le(beta, MaxValue(node, depth, alpha, beta, eval).score)
    ensures exists k :: MaxValuePrunedAfter(node, depth, alpha, beta, eval, k)
  {
    var start := SearchResult(NegInf, NoMove);
    MaxFromCutoff(node, depth, alpha, beta, eval, 0, start);
    var k :| MaxDecidedBy(node, depth, alpha, beta, eval, 0, start, k);
    forall other | SamePrefix(other, node, k)
      ensures MaxValue(other, depth, alpha, beta, eval) == MaxValue(node, depth, alpha, beta, eval)
    {
      assert MaxValue(other, depth, alpha, beta, eval) == MaxFrom(other, depth, alpha, beta, eval, 0, start);
    }
    assert MaxValuePrunedAfter(node, depth, alpha, beta, eval, k);
  }

  /** Alpha cutoff: when `min_value` returns a score at or below alpha, it
      stopped at some move k and never looked at the moves after it. */
  lemma MinValueAlphaCutoff(node: Node, depth: nat, alpha: Score, beta: Score, eval: Position -> Score)
    requires 0 < depth && 0 < |node.children|
    requires Le(MinValue(node, depth, alpha, beta, eval).score, alpha)
    ensures exists k :: MinValuePrunedAfter(node, depth, alpha, beta, eval, k)
  {
    var start := SearchResult(PosInf, NoMove);
    MinFromCutoff(node, depth, alpha, beta, eval, 0, start);
    var k :| MinDecidedBy(node, depth, alpha, beta, eval, 0, start, k);
    forall other | SamePrefix(other, node, k)
      ensures MinValue(other, depth, alpha, beta, eval) == MinValue(node, depth, alpha, beta, eval)
    {
      assert MinValue(other, depth, alpha, beta, eval) == MinFrom(other, depth, alpha, beta, eval, 0, start);
    }
    assert MinValuePrunedAfter(node, depth, alpha, beta, eval, k);
  }

  /** The pair the loop of `max_value` returns is the pair it started from
      or carries the move of one of the moves it searched. */
  lemma {:induction false} MaxFromMove(node: Node, depth: nat, alpha: Score, beta: Score, eval: Position -> Score, i: nat, best: SearchResult)
    requires 0 < depth && i <= |node.children|
    ensures var r := MaxFrom(node, depth, alpha, beta, eval, i, best);
      r == best || exists j :: i <= j < |node.children| && r.move == node.children[j].move
    decreases |node.children| - i
  {
    if i < |node.children| {
      var e := node.children[i];
      var s := MaxUpdate(MinValue(e.next, depth - 1, alpha, beta, eval).score, e.move, alpha, best);
      if !Le(beta, s.best.score) {
        MaxFromMove(node, depth, s.bound, beta, eval, i + 1, s.best);
      }
    }
  }

  /** The pair the loop of `min_value` returns is the pair it started from
      or carries the move of one of the moves it searched. */
  lemma {:induction false} MinFromMove(node: Node, depth: nat, alpha: Score, beta: Score, eval: Position -> Score, i: nat, best: SearchResult)
    requires 0 < depth && i <= |node.children|
    ensures var r := MinFrom(node, depth, alpha, beta, eval, i, best);
      r == best || exists j :: i <= j < |node.children| && r.move == node.children[j].move
    decreases |node.children| - i
  {
    if i < |node.children| {
      var e := node.children[i];
      var s := MinUpdate(MaxValue(e.next, depth - 1, alpha, beta, eval).score, e.move, beta, best);
      if !Le(s.best.score, alpha) {
        MinFromMove(node, depth, alpha, s.bound, eval, i + 1, s.best);
      }
    }
  }

  /** Below depth 0, `max_value` returns (-inf, (-1, -1)) or a pair whose
      move is one of the node's moves, whatever the window. */
  lemma MaxValueMoveIsChild(node: Node, depth: nat, alpha: Score, beta: Score, eval: Position -> Score)
    requires 0 < depth
    ensures var r := MaxValue(node, depth, alpha, beta, eval);
      r == SearchResult(NegInf, NoMove) || exists j :: 0 <= j < |node.children| && r.move == node.children[j].move
  {
    MaxFromMove(node, depth, alpha, beta, eval, 0, SearchResult(NegInf, NoMove));
  }

  /** Below depth 0, `min_value` returns (+inf, (-1, -1)) or a pair whose
      move is one of the node's moves, whatever the window. */
  lemma MinValueMoveIsChild(node: Node, depth: nat, alpha: Score, beta: Score, eval: Position -> Score)
    requires 0 < depth
    ensures var r := MinValue(node, depth, alpha, beta, eval);
      r == SearchResult(PosInf, NoMove) || exists j :: 0 <= j < |node.children| && r.move == node.children[j].move
  {
    MinFromMove(node, depth, alpha, beta, eval, 0, SearchResult(PosInf, NoMove));
  }

  /** The true value of the reply to move number j, the minimizing player
      searching one level less. */
  ghost function ReplyValue(node: Node, depth: nat, eval: Position -> Score, j: nat): Score
    requires 0 < depth && j < |node.children|
  {
    Minimax.Value(node.children[j].next, depth - 1, false, eval)
  }

  /** `r` is the pair `best` or, among moves i.. of the node, the first move
      whose reply value is the largest one and beats `best`'s score. */
  ghost predicate FirstBestFrom(node: Node, depth: nat, eval: Position -> Score, i: nat, best: SearchResult, r: SearchResult)
    requires 0 < depth
  {
    || r == best
    || exists j :: i <= j < |node.children|
         && Less(best.score, ReplyValue(node, depth, eval, j))
         && r == SearchResult(ReplyValue(node, depth, eval, j), node.children[j].move)
         && forall k :: i <= k < j ==> Less(ReplyValue(node, depth, eval, k), ReplyValue(node, depth, eval, j))
  }

  /** One pass of the loop of `max_value` on the full window, where alpha is
      the best score so far: a fail-soft reply score `t` for a reply whose
      true value is `v` keeps the best pair (and then `v` is no better) or
      replaces it by (v, move) with `v` strictly better; alpha follows the
      best score. */
  lemma FullWindowStep(t: Score, v: Score, move: Move, best: SearchResult)
    requires Less(best.score, PosInf) && FailSoft(t, v, best.score, PosInf)
    ensures var s := MaxUpdate(t, move, best.score, best);
      && s.bound == s.best.score
      && Le(v, s.best.score)
      && ((s.best == best && Le(v, best.score)) || (Less(best.score, v) && s.best == SearchResult(v, move)))
  {
  }

  /** If the pass over move number i kept `best` with a reply value no
      better, or replaced it by that move with a strictly better value, then
      what the rest of the loop chose from the new pair is also the first
      best choice from `best` over moves i.. . */
  lemma FirstBestExtend(node: Node, depth: nat, eval: Position -> Score, i: nat, best: SearchResult, best1: SearchResult, r: SearchResult)
    requires 0 < depth && i < |node.children|
    requires var v := ReplyValue(node, depth, eval, i);
      (best1 == best && Le(v, best.score)) || (Less(best.score, v) && best1 == SearchResult(v, node.children[i].move))
    requires FirstBestFrom(node, depth, eval, i + 1, best1, r)
    ensures FirstBestFrom(node, depth, eval, i, best, r)
  {
    var v := ReplyValue(node, depth, eval, i);
    if r != best1 {
      var j :| i + 1 <= j < |node.children|
        && Less(best1.score, ReplyValue(node, depth, eval, j))
        && r == SearchResult(ReplyValue(node, depth, eval, j), node.children[j].move)
        && forall k :: i + 1 <= k < j ==> Less(ReplyValue(node, depth, eval, k), ReplyValue(node, depth, eval, j));
      assert Less(best.score, ReplyValue(node, depth, eval, j));
      assert Less(v, ReplyValue(node, depth, eval, j));
    } else if r != best {
      assert Less(best.score, v) && r == SearchResult(v, node.children[i].move);
    }
  }

  /** The loop of `max_value` on the full window, where alpha is always the
      best score so far: it ends with the largest of the best score and the
      true values of the remaining moves, and with the pair it started from
      or the first remaining move whose value is that largest one. */
  lemma {:induction false} MaxFromFullWindow(node: Node, depth: nat, eval: Position -> Score, i: nat, best: SearchResult)
    requires 0 < depth && i <= |node.children|
    requires Less(best.score, PosInf)
    ensures var r := MaxFrom(node, depth, best.score, PosInf, eval, i, best);
      && Le(best.score, r.score)
      && (forall j :: i <= j < |node.children| ==> Le(ReplyValue(node, depth, eval, j), r.score))
      && FirstBestFrom(node, depth, eval, i, best, r)
    decreases |node.children| - i
  {
    if i < |node.children| {
      var e := node.children[i];
      var t := MinValue(e.next, depth - 1, best.score, PosInf, eval).score;
      var v := ReplyValue(node, depth, eval, i);
      MinValueFailSoft(e.next, depth - 1, best.score, PosInf, eval);
      FullWindowStep(t, v, e.move, best);
      var s := MaxUpdate(t, e.move, best.score, best);
      var r := MaxFrom(node, depth, best.score, PosInf, eval, i, best);
      if Le(PosInf, s.best.score) {
        assert r == s.best == SearchResult(v, e.move);
      } else {
        MaxFromFullWindow(node, depth, eval, i + 1, s.best);
        assert r == MaxFrom(node, depth, s.best.score, PosInf, eval, i + 1, s.best);
        LeTrans(best.score, s.best.score, r.score);
        LeTrans(v, s.best.score, r.score);
        FirstBestExtend(node, depth, eval, i, best, s.best, r);
      }
    }
  }

  /** On the full window (-inf, +inf) that `get_move` uses, `max_value`
      returns the largest true value of the node's moves with the first move
      that reaches it (the strict `>` keeps the first of equal moves), or
      (-inf, (-1, -1)) when every move's value is -inf. */
  lemma MaxValueFullWindowMove(node: Node, depth: nat, eval: Position -> Score)
    requires 0 < depth
    ensures var r := MaxValue(node, depth, NegInf, PosInf, eval);
      && (forall j :: 0 <= j < |node.children| ==> Le(Minimax.Value(node.children[j].next, depth - 1, false, eval), r.score))
      && (r == SearchResult(NegInf, NoMove) ||
          exists j :: 0 <= j < |node.children|
            && Less(NegInf, Minimax.Value(node.children[j].next, depth - 1, false, eval))
            && r == SearchResult(Minimax.Value(node.children[j].next, depth - 1, false, eval), node.children[j].move)
            && forall k :: 0 <= k < j ==>
                 Less(Minimax.Value(node.children[k].next, depth - 1, false, eval), Minimax.Value(node.children[j].next, depth - 1, false, eval)))
  {
    MaxFromFullWindow(node, depth, eval, 0, SearchResult(NegInf, NoMove));
    assert forall j :: 0 <= j < |node.children| ==> ReplyValue(node, depth, eval, j) == Minimax.Value(node.children[j].next, depth - 1, false, eval);
  }

  /** One pass of the loop of `max_value` as the method writes it: with
      `t` the reply's score, the new best pair and alpha either end the
      loop (best score at or above beta) or continue it from move i + 1,
      and alpha never decreases. */
  lemma MaxLoopStep(node: Node, depth: nat, alpha: Score, beta: Score, eval: Position -> Score, i: nat, best: SearchResult,
                    t: Score, best1: SearchResult, alpha1: Score)
    requires 0 < depth && i < |node.children|
    requires t == MinValue(node.children[i].next, depth - 1, alpha, beta, eval).score
    requires best1 == if Less(best.score, t) then SearchResult(t, node.children[i].move) else best
    requires alpha1 == if Less(best.score, t) && Less(alpha, t) then t else alpha
    ensures Le(alpha, alpha1)
    ensures Le(beta, best1.score) ==> MaxFrom(node, depth, alpha, beta, eval, i, best) == best1
    ensures !Le(beta, best1.score) ==> MaxFrom(node, depth, alpha, beta, eval, i, best) == MaxFrom(node, depth, alpha1, beta, eval, i + 1, best1)
    ensures MaxFromCalls(node, depth, alpha, beta, eval, i, best)
      == MinCalls(node.children[i].next, depth - 1, alpha, beta, eval) + if Le(beta, best1.score) then 0 else MaxFromCalls(node, depth, alpha1, beta, eval, i + 1, best1)
  {
  }

  /** One pass of the loop of `min_value` as the method writes it: the
      strictly smaller score replaces the best pair and lowers beta, then
      the pair becomes the tuple-minimum with (t, move). */
  lemma MinLoopStep(node: Node, depth: nat, alpha: Score, beta: Score, eval: Position -> Score, i: nat, best: SearchResult,
                    t: Score, best1: SearchResult, beta1: Score)
    requires 0 < depth && i < |node.children|
    requires t == MaxValue(node.children[i].next, depth - 1, alpha, beta, eval).score
    requires best1 == TupleMin(if Less(t, best.score) then SearchResult(t, node.children[i].move) else best, SearchResult(t, node.children[i].move))
    requires beta1 == if Less(t, best.score) && Less(t, beta) then t else beta
    ensures Le(beta1, beta)
    ensures Le(best1.score, alpha) ==> MinFrom(node, depth, alpha, beta, eval, i, best) == best1
    ensures !Le(best1.score, alpha) ==> MinFrom(node, depth, alpha, beta, eval, i, best) == MinFrom(node, depth, alpha, beta1, eval, i + 1, best1)
    ensures MinFromCalls(node, depth, alpha, beta, eval, i, best)
      == MaxCalls(node.children[i].next, depth - 1, alpha, beta, eval) + if Le(best1.score, alpha) then 0 else MinFromCalls(node, depth, alpha, beta1, eval, i + 1, best1)
  {
  }

  /** `max_value`: read the clock first and give up if the time is up;
      otherwise evaluate at depth 0, or search the moves. It completes
      exactly when the `MaxCalls` readings from `at` are all in time. */
  method MaxValueSearch(node: Node, depth: nat, alpha: Score, beta: Score, eval: Position -> Score, threshold: real, clock: seq<real>, at: nat)
    returns (out: Outcome, next: nat)
    decreases node, 1
    ensures at < next
    ensures TimeUp(clock, at, threshold) ==> out == Cancelled && next == at + 1
    ensures depth == 0 && !TimeUp(clock, at, threshold) ==> out == Done(SearchResult(eval(node.pos), NoMove))
    ensures out.Done? ==> out.result == MaxValue(node, depth, alpha, beta, eval) && InTime(clock, at, next, threshold)
    ensures out.Cancelled? ==> InTime(clock, at, next - 1, threshold) && TimeUp(clock, next - 1, threshold)
    ensures out.Done? <==> InTime(clock, at, at + MaxCalls(node, depth, alpha, beta, eval), threshold)
    ensures out.Done? ==> next == at + MaxCalls(node, depth, alpha, beta, eval)
  {
    next := at + 1;
    if TimeUp(clock, at, threshold) {
      return Cancelled, next;
    }
    if depth == 0 {
      return Done(SearchResult(eval(node.pos), NoMove)), next;
    }
    out, next := MaxValueLoop(node, depth, alpha, beta, eval, threshold, clock, at, next);
  }

  /** The loop of `max_value`, entered with the readings at .. start-1 in
      time: one pass per move, in order, returning as soon as the best
      score reaches beta. */
  method MaxValueLoop(node: Node, depth: nat, alpha: Score, beta: Score, eval: Position -> Score, threshold: real, clock: seq<real>,
                      at: nat, start: nat)
    returns (out: Outcome, next: nat)
    requires 0 < depth && at < start && InTime(clock, at, start, threshold)
    decreases node, 0, 1
    ensures start <= next
    ensures out.Done? ==> out.result == MaxFrom(node, depth, alpha, beta, eval, 0, SearchResult(NegInf, NoMove)) && InTime(clock, at, next, threshold)
    ensures out.Done? ==> next == start + MaxFromCalls(node, depth, alpha, beta, eval, 0, SearchResult(NegInf, NoMove))
    ensures out.Cancelled? ==> InTime(clock, at, next - 1, threshold) && TimeUp(clock, next - 1, threshold)
    ensures out.Cancelled? ==> !InTime(clock, at, start + MaxFromCalls(node, depth, alpha, beta, eval, 0, SearchResult(NegInf, NoMove)), threshold)
  {
    next := start;
    var best := SearchResult(NegInf, NoMove);
    var a := alpha;
    var i := 0;
    while i < |node.children|
      invariant i <= |node.children|
      invariant start <= next && InTime(clock, at, next, threshold)
      invariant MaxFrom(node, depth, a, beta, eval, i, best) == MaxFrom(node, depth, alpha, beta, eval, 0, SearchResult(NegInf, NoMove))
      invariant MaxFromCalls(node, depth, alpha, beta, eval, 0, SearchResult(NegInf, NoMove)) == (next - start) + MaxFromCalls(node, depth, a, beta, eval, i, best)
    {
      var cancelled, k, best1, a1 := MaxValuePass(node, depth, a, beta, eval, threshold, clock, at, start, next, i, best,
                                                  MaxFrom(node, depth, alpha, beta, eval, 0, SearchResult(NegInf, NoMove)),
                                                  MaxFromCalls(node, depth, alpha, beta, eval, 0, SearchResult(NegInf, NoMove)));
      if cancelled {
        return Cancelled, k;
      }
      best, a := best1, a1;
      next := k;
      i := i + 1;
      if Le(beta, best.score) {
        return Done(best), next;
      }
    }
    return Done(best), next;
  }

  /** One pass of the loop of `max_value` for move number i, entered with
      the readings at .. start-1 in time, `target` the result of the whole
      loop and `total` its readings counted from `origin`: search the reply
      with `min_value`; a strictly greater score replaces the best pair (so
      ties keep the first move) and raises alpha. A completed pass either
      ends the loop with `target` after exactly `total` readings or leaves
      the same promise for move i + 1; a cancelled one leaves the loop's
      readings out of time. */
  method MaxValuePass(node: Node, depth: nat, alpha: Score, beta: Score, eval: Position -> Score, threshold: real, clock: seq<real>,
                      at: nat, origin: nat, start: nat, i: nat, best: SearchResult, ghost target: SearchResult, ghost total: nat)
    returns (cancelled: bool, next: nat, best1: SearchResult, alpha1: Score)
    requires 0 < depth && i < |node.children| && at < start && origin <= start && InTime(clock, at, start, threshold)
    requires MaxFrom(node, depth, alpha, beta, eval, i, best) == target
    requires total == (start - origin) + MaxFromCalls(node, depth, alpha, beta, eval, i, best)
    decreases node, 0, 0
    ensures start < next
    ensures !cancelled ==> InTime(clock, at, next, threshold) && Le(alpha, alpha1)
    ensures !cancelled && Le(beta, best1.score) ==> best1 == target && next == origin + total
    ensures !cancelled && !Le(beta, best1.score) ==>
      MaxFrom(node, depth, alpha1, beta, eval, i + 1, best1) == target && total == (next - origin) + MaxFromCalls(node, depth, alpha1, beta, eval, i + 1, best1)
    ensures cancelled ==> InTime(clock, at, next - 1, threshold) && TimeUp(clock, next - 1, threshold)
    ensures cancelled ==> !InTime(clock, at, origin + total, threshold)
  {
    var e := node.children[i];
    var sub, k := MinValueSearch(e.next, depth - 1, alpha, beta, eval, threshold, clock, start);
    next := k;
    if sub.Cancelled? {
      InTimeJoin(clock, at, start, k - 1, threshold);
      NotInTimeWiden(clock, at, origin + total, start, start + MinCalls(e.next, depth - 1, alpha, beta, eval), threshold);
      return true, next, best, alpha;
    }
    InTimeJoin(clock, at, start, k, threshold);
    var t := sub.result.score;
    best1, alpha1 := best, alpha;
    if Less(best1.score, t) {
      best1 := SearchResult(t, e.move);
      if Less(alpha1, best1.score) {
        alpha1 := best1.score;
      }
    }
    MaxLoopStep(node, depth, alpha, beta, eval, i, best, t, best1, alpha1);
    cancelled := false;
  }

  /** `min_value`: the mirror image of `max_value`. */
  method MinValueSearch(node: Node, depth: nat, alpha: Score, beta: Score, eval: Position -> Score, threshold: real, clock: seq<real>, at: nat)
    returns (out: Outcome, next: nat)
    decreases node, 1
    ensures at < next
    ensures TimeUp(clock, at, threshold) ==> out == Cancelled && next == at + 1
    ensures depth == 0 && !TimeUp(clock, at, threshold) ==> out == Done(SearchResult(eval(node.pos), NoMove))
    ensures out.Done? ==> out.result == MinValue(node, depth, alpha, beta, eval) && InTime(clock, at, next, threshold)
    ensures out.Cancelled? ==> InTime(clock, at, next - 1, threshold) && TimeUp(clock, next - 1, threshold)
    ensures out.Done? <==> InTime(clock, at, at + MinCalls(node, depth, alpha, beta, eval), threshold)
    ensures out.Done? ==> next == at + MinCalls(node, depth, alpha, beta, eval)
  {
    next := at + 1;
    if TimeUp(clock, at, threshold) {
      return Cancelled, next;
    }
    if depth == 0 {
      return Done(SearchResult(eval(node.pos), NoMove)), next;
    }
    out, next := MinValueLoop(node, depth, alpha, beta, eval, threshold, clock, at, next);
  }

  /** The loop of `min_value`: one pass per move, in order, returning as
      soon as the best score reaches alpha. */
  method MinValueLoop(node: Node, depth: nat, alpha: Score, beta: Score, eval: Position -> Score, threshold: real, clock: seq<real>,
                      at: nat, start: nat)
    returns (out: Outcome, next: nat)
    requires 0 < depth && at < start && InTime(clock, at, start, threshold)
    decreases node, 0, 1
    ensures start <= next
    ensures out.Done? ==> out.result == MinFrom(node, depth, alpha, beta, eval, 0, SearchResult(PosInf, NoMove)) && InTime(clock, at, next, threshold)
    ensures out.Done? ==> next == start + MinFromCalls(node, depth, alpha, beta, eval, 0, SearchResult(PosInf, NoMove))
    ensures out.Cancelled? ==> InTime(clock, at, next - 1, threshold) && TimeUp(clock, next - 1, threshold)
    ensures out.Cancelled? ==> !InTime(clock, at, start + MinFromCalls(node, depth, alpha, beta, eval, 0, SearchResult(PosInf, NoMove)), threshold)
  {
    next := start;
    var best := SearchResult(PosInf, NoMove);
    var b := beta;
    var i := 0;
    while i < |node.children|
      invariant i <= |node.children|
      invariant start <= next && InTime(clock, at, next, threshold)
      invariant MinFrom(node, depth, alpha, b, eval, i, best) == MinFrom(node, depth, alpha, beta, eval, 0, SearchResult(PosInf, NoMove))
      invariant MinFromCalls(node, depth, alpha, beta, eval, 0, SearchResult(PosInf, NoMove)) == (next - start) + MinFromCalls(node, depth, alpha, b, eval, i, best)
    {
      var cancelled, k, best1, b1 := MinValuePass(node, depth, alpha, b, eval, threshold, clock, at, start, next, i, best,
                                                  MinFrom(node, depth, alpha, beta, eval, 0, SearchResult(PosInf, NoMove)),
                                                  MinFromCalls(node, depth, alpha, beta, eval, 0, SearchResult(PosInf, NoMove)));
      if cancelled {
        return Cancelled, k;
      }
      best, b := best1, b1;
      next := k;
      i := i + 1;
      if Le(best.score, alpha) {
        return Done(best), next;
      }
    }
    return Done(best), next;
  }

  /** One pass of the loop of `min_value` for move number i, entered with
      the readings at .. start-1 in time, `target` the result of the whole
      loop and `total` its readings counted from `origin`: search the reply
      with `max_value`; a strictly smaller score replaces the best pair and
      lowers beta, then the pair becomes the tuple-minimum with (score,
      move). A completed pass either ends the loop with `target` after
      exactly `total` readings or leaves the same promise for move i + 1;
      a cancelled one leaves the loop's readings out of time. */
  method MinValuePass(node: Node, depth: nat, alpha: Score, beta: Score, eval: Position -> Score, threshold: real, clock: seq<real>,
                      at: nat, origin: nat, start: nat, i: nat, best: SearchResult, ghost target: SearchResult, ghost total: nat)
    returns (cancelled: bool, next: nat, best1: SearchResult, beta1: Score)
    requires 0 < depth && i < |node.children| && at < start && origin <= start && InTime(clock, at, start, threshold)
    requires MinFrom(node, depth, alpha, beta, eval, i, best) == target
    requires total == (start - origin) + MinFromCalls(node, depth, alpha, beta, eval, i, best)
    decreases node, 0, 0
    ensures start < next
    ensures !cancelled ==> InTime(clock, at, next, threshold) && Le(beta1, beta)
    ensures !cancelled && Le(best1.score, alpha) ==> best1 == target && next == origin + total
    ensures !cancelled && !Le(best1.score, alpha) ==>
      MinFrom(node, depth, alpha, beta1, eval, i + 1, best1) == target && total == (next - origin) + MinFromCalls(node, depth, alpha, beta1, eval, i + 1, best1)
    ensures cancelled ==> InTime(clock, at, next - 1, threshold) && TimeUp(clock, next - 1, threshold)
    ensures cancelled ==> !InTime(clock, at, origin + total, threshold)
  {
    var e := node.children[i];
    var sub, k := MaxValueSearch(e.next, depth - 1, alpha, beta, eval, threshold, clock, start);
    next := k;
    if sub.Cancelled? {
      InTimeJoin(clock, at, start, k - 1, threshold);
      NotInTimeWiden(clock, at, origin + total, start, start + MaxCalls(e.next, depth - 1, alpha, beta, eval), threshold);
      return true, next, best, beta;
    }
    InTimeJoin(clock, at, start, k, threshold);
    var t := sub.result.score;
    best1, beta1 := best, beta;
    if Less(t, best1.score) {
      best1 := SearchResult(t, e.move);
      if Less(best1.score, beta1) {
        beta1 := best1.score;
      }
    }
    best1 := TupleMin(best1, SearchResult(t, e.move));
    MinLoopStep(node, depth, alpha, beta, eval, i, best, t, best1, beta1);
    cancelled := false;
  }

  /** `alphabeta`: reads the clock twice, giving up if either reading is
      below the threshold, then runs `max_value` or `min_value`. It
      completes exactly when the `AlphaBetaCalls` readings from `at` are
      all in time, and then it has taken exactly those. */
  method AlphaBetaSearch(node: Node, depth: nat, alpha: Score, beta: Score, maximizing: bool, eval: Position -> Score,
                         threshold: real, clock: seq<real>, at: nat)
    returns (out: Outcome, next: nat)
    ensures at < next
    ensures TimeUp(clock, at, threshold) ==> out == Cancelled && next == at + 1
    ensures !TimeUp(clock, at, threshold) && TimeUp(clock, at + 1, threshold) ==> out == Cancelled && next == at + 2
    ensures out.Done? ==> out.result == AlphaBeta(node, depth, alpha, beta, maximizing, eval) && InTime(clock, at, next, threshold)
    ensures out.Cancelled? ==> InTime(clock, at, next - 1, threshold) && TimeUp(clock, next - 1, threshold)
    ensures out.Done? <==> InTime(clock, at, at + AlphaBetaCalls(node, depth, alpha, beta, maximizing, eval), threshold)
    ensures out.Done? ==> next == at + AlphaBetaCalls(node, depth, alpha, beta, maximizing, eval)
  {
    if TimeUp(clock, at, threshold) {
      return Cancelled, at + 1;
    }
    if TimeUp(clock, at + 1, threshold) {
      return Cancelled, at + 2;
    }
    if maximizing {
      out, next := MaxValueSearch(node, depth, alpha, beta, eval, threshold, clock, at + 2);
    } else {
      out, next := MinValueSearch(node, depth, alpha, beta, eval, threshold, clock, at + 2);
    }
    var n := AlphaBetaCalls(node, depth, alpha, beta, maximizing, eval);
    if out.Cancelled? {
      NotInTimeWiden(clock, at, at + n, at + 2, at + n, threshold);
    }
  }
}
