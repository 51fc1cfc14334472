/** Plain depth-limited minimax (`CustomPlayer.minimax`). */
module Minimax {
  import opened Scores
  import opened Board
  import opened Heuristics
  import opened Clock

  /** The game-theoretic value of `node` searched `depth` plies deep: the
      evaluation at depth 0, otherwise the best child value for the side
      to move, and -inf / +inf for a maximizing / minimizing layer with no
      move. This is the reference both searches are measured against. */
  function Value(node: Node, depth: nat, maximizing: bool, eval: Position -> Score): (r: Score)
    decreases node, 1
    ensures depth == 0 ==> r == eval(node.pos)
    ensures 0 < depth && |node.children| == 0 ==> r == (if maximizing then NegInf else PosInf)
  {
    if depth == 0 then eval(node.pos)
    else ValueFrom(node, depth, maximizing, eval, 0, if maximizing then NegInf else PosInf)
  }

  /** `acc` combined with the values of the children numbered i and up. */
  function ValueFrom(node: Node, depth: nat, maximizing: bool, eval: Position -> Score, i: nat, acc: Score): Score
    requires 0 < depth && i <= |node.children|
    decreases node, 0, |node.children| - i
  {
    if i == |node.children| then acc
    else
      var v := Value(node.children[i].next, depth - 1, !maximizing, eval);
      ValueFrom(node, depth, maximizing, eval, i + 1, if maximizing then Max(acc, v) else Min(acc, v))
  }

  /** What a completed `minimax(game, depth, maximizing_player)` returns. */
  function Minimax(node: Node, depth: nat, maximizing: bool, eval: Position -> Score): (r: SearchResult)
    decreases node, 1
    ensures depth == 0 ==> r == SearchResult(eval(node.pos), NoMove)
    ensures 0 < depth && |node.children| == 0 ==> r == SearchResult(if maximizing then NegInf else PosInf, NoMove)
  {
    if depth == 0 then SearchResult(eval(node.pos), NoMove)
    else MinimaxFrom(node, depth, maximizing, eval, 0, SearchResult(if maximizing then NegInf else PosInf, NoMove))
  }

  /** The loop over the moves from number i on, with `acc` the pair kept so
      far; each step is `max` or `min` of the kept pair and (child score,
      move). */
  function MinimaxFrom(node: Node, depth: nat, maximizing: bool, eval: Position -> Score, i: nat, acc: SearchResult): (r: SearchResult)
    requires 0 < depth && i <= |node.children|
    decreases node, 0, |node.children| - i
  {
    if i == |node.children| then acc
    else
      var reply := Reply(node, depth, maximizing, eval, i);
      MinimaxFrom(node, depth, maximizing, eval, i + 1, if maximizing then TupleMax(acc, reply) else TupleMin(acc, reply))
  }

  /** The pair the loop compares for move number i: the score minimax gives
      the child, with the move that leads to it. */
  function Reply(node: Node, depth: nat, maximizing: bool, eval: Position -> Score, i: nat): (r: SearchResult)
    requires 0 < depth && i < |node.children|
    decreases node, 0, 0
    ensures r.move == node.children[i].move
  {
    SearchResult(Minimax(node.children[i].next, depth - 1, !maximizing, eval).score, node.children[i].move)
  }

  /** How many times a completed `minimax(game, depth, ...)` reads the
      clock: once on entry, then as often as the searches of all the
      children together. */
  function Calls(node: Node, depth: nat): nat
    decreases node, 1
  {
    if depth == 0 then 1 else 1 + CallsFrom(node, depth, 0)
  }

  /** The clock readings of the searches of the children numbered i and up. */
  function CallsFrom(node: Node, depth: nat, i: nat): nat
    requires 0 < depth && i <= |node.children|
    decreases node, 0, |node.children| - i
  {
    if i == |node.children| then 0 else Calls(node.children[i].next, depth - 1) + CallsFrom(node, depth, i + 1)
  }

  /** Folding scores with Max / Min from `acc` never goes below / above `acc`. */
  lemma {:induction false} ValueFromBound(node: Node, depth: nat, maximizing: bool, eval: Position -> Score, i: nat, acc: Score)
    requires 0 < depth && i <= |node.children|
    ensures maximizing ==> Le(acc, ValueFrom(node, depth, maximizing, eval, i, acc))
    ensures !maximizing ==> Le(ValueFrom(node, depth, maximizing, eval, i, acc), acc)
    decreases |node.children| - i
  {
    if i < |node.children| {
      var v := Value(node.children[i].next, depth - 1, !maximizing, eval);
      ValueFromBound(node, depth, maximizing, eval, i + 1, if maximizing then Max(acc, v) else Min(acc, v));
    }
  }

  /** Folding the children's values from `acc` gives the best of `acc` and
      those values for the side to move, and that is one of them. */
  lemma {:induction false} ValueFromIsBest(node: Node, depth: nat, maximizing: bool, eval: Position -> Score, i: nat, acc: Score)
    requires 0 < depth && i <= |node.children|
    ensures var r := ValueFrom(node, depth, maximizing, eval, i, acc);
      && (maximizing ==> Le(acc, r))
      && (maximizing ==> forall j :: i <= j < |node.children| ==> Le(Value(node.children[j].next, depth - 1, false, eval), r))
      && (!maximizing ==> Le(r, acc))
      && (!maximizing ==> forall j :: i <= j < |node.children| ==> Le(r, Value(node.children[j].next, depth - 1, true, eval)))
      && (r == acc || exists j :: i <= j < |node.children| && r == Value(node.children[j].next, depth - 1, !maximizing, eval))
    decreases |node.children| - i
  {
    if i < |node.children| {
      var v := Value(node.children[i].next, depth - 1, !maximizing, eval);
      var acc' := if maximizing then Max(acc, v) else Min(acc, v);
      ValueFromIsBest(node, depth, maximizing, eval, i + 1, acc');
      var r := ValueFrom(node, depth, maximizing, eval, i, acc);
      assert r == ValueFrom(node, depth, maximizing, eval, i + 1, acc');
      if maximizing {
        LeTrans(acc, acc', r);
        LeTrans(v, acc', r);
      } else {
        LeTrans(r, acc', acc);
        LeTrans(r, acc', v);
      }
      if r != acc && r == acc' {
        assert r == v;
      }
    }
  }

  /** The reference value of a layer is the best child value for the side to
      move: at least / at most every child's value, and equal to one of them
      when there is a move. */
  lemma ValueIsBestChild(node: Node, depth: nat, maximizing: bool, eval: Position -> Score)
    requires 0 < depth
    ensures maximizing ==>
      forall j :: 0 <= j < |node.children| ==> Le(Value(node.children[j].next, depth - 1, false, eval), Value(node, depth, true, eval))
    ensures !maximizing ==>
      forall j :: 0 <= j < |node.children| ==> Le(Value(node, depth, false, eval), Value(node.children[j].next, depth - 1, true, eval))
    ensures 0 < |node.children| ==>
      exists j :: 0 <= j < |node.children| && Value(node, depth, maximizing, eval) == Value(node.children[j].next, depth - 1, !maximizing, eval)
  {
    var start := if maximizing then NegInf else PosInf;
    ValueFromIsBest(node, depth, maximizing, eval, 0, start);
    var r := Value(node, depth, maximizing, eval);
    if 0 < |node.children| && r == start {
      assert r == Value(node.children[0].next, depth - 1, !maximizing, eval);
    }
  }

  /** The score minimax returns is the game-theoretic value: the tuple
      comparisons decide only which move comes with it. */
  lemma {:induction false} MinimaxScoreIsValue(node: Node, depth: nat, maximizing: bool, eval: Position -> Score)
    ensures Minimax(node, depth, maximizing, eval).score == Value(node, depth, maximizing, eval)
    decreases node, 1
  {
    if depth > 0 {
      MinimaxFromScore(node, depth, maximizing, eval, 0, SearchResult(if maximizing then NegInf else PosInf, NoMove));
    }
  }

  lemma {:induction false} MinimaxFromScore(node: Node, depth: nat, maximizing: bool, eval: Position -> Score, i: nat, acc: SearchResult)
    requires 0 < depth && i <= |node.children|
    ensures MinimaxFrom(node, depth, maximizing, eval, i, acc).score == ValueFrom(node, depth, maximizing, eval, i, acc.score)
    decreases node, 0, |node.children| - i
  {
    if i < |node.children| {
      var reply := Reply(node, depth, maximizing, eval, i);
      MinimaxScoreIsValue(node.children[i].next, depth - 1, !maximizing, eval);
      MinimaxFromScore(node, depth, maximizing, eval, i + 1, if maximizing then TupleMax(acc, reply) else TupleMin(acc, reply));
    }
  }

  /** The pair the loop compares for move number i is the child's
      game-theoretic value for the other side, with that move. */
  lemma ReplyIsChildValue(node: Node, depth: nat, maximizing: bool, eval: Position -> Score, i: nat)
    requires 0 < depth && i < |node.children|
    ensures Reply(node, depth, maximizing, eval, i) == SearchResult(Value(node.children[i].next, depth - 1, !maximizing, eval), node.children[i].move)
  {
    MinimaxScoreIsValue(node.children[i].next, depth - 1, !maximizing, eval);
  }

  /** On a maximizing layer the loop ends with the tuple-maximum of the
      pair it started from and the replies of moves i and up. */
  lemma {:induction false} MinimaxFromIsTupleMax(node: Node, depth: nat, eval: Position -> Score, i: nat, acc: SearchResult)
    requires 0 < depth && i <= |node.children|
    ensures var r := MinimaxFrom(node, depth, true, eval, i, acc);
      && ResultLe(acc, r)
      && (forall j :: i <= j < |node.children| ==> ResultLe(Reply(node, depth, true, eval, j), r))
      && (r == acc || exists j :: i <= j < |node.children| && r == Reply(node, depth, true, eval, j))
    decreases |node.children| - i
  {
    if i < |node.children| {
      var next := TupleMax(acc, Reply(node, depth, true, eval, i));
      MinimaxFromIsTupleMax(node, depth, eval, i + 1, next);
      var r := MinimaxFrom(node, depth, true, eval, i, acc);
      assert r == MinimaxFrom(node, depth, true, eval, i + 1, next);
      if r != acc && r != next {
        var j :| i + 1 <= j < |node.children| && r == Reply(node, depth, true, eval, j);
      } else if r != acc {
        assert r == Reply(node, depth, true, eval, i);
        assert exists j :: i <= j < |node.children| && r == Reply(node, depth, true, eval, j);
      }
      ResultLeTrans(acc, next, r);
      ResultLeTrans(Reply(node, depth, true, eval, i), next, r);
    }
  }

  /** On a minimizing layer the loop ends with the tuple-minimum of the
      pair it started from and the replies of moves i and up. */
  lemma {:induction false} MinimaxFromIsTupleMin(node: Node, depth: nat, eval: Position -> Score, i: nat, acc: SearchResult)
    requires 0 < depth && i <= |node.children|
    ensures var r := MinimaxFrom(node, depth, false, eval, i, acc);
      && ResultLe(r, acc)
      && (forall j :: i <= j < |node.children| ==> ResultLe(r, Reply(node, depth, false, eval, j)))
      && (r == acc || exists j :: i <= j < |node.children| && r == Reply(node, depth, false, eval, j))
    decreases |node.children| - i
  {
    if i < |node.children| {
      var next := TupleMin(acc, Reply(node, depth, false, eval, i));
      MinimaxFromIsTupleMin(node, depth, eval, i + 1, next);
      var r := MinimaxFrom(node, depth, false, eval, i, acc);
      assert r == MinimaxFrom(node, depth, false, eval, i + 1, next);
      if r != acc && r != next {
        var j :| i + 1 <= j < |node.children| && r == Reply(node, depth, false, eval, j);
      } else if r != acc {
        assert r == Reply(node, depth, false, eval, i);
        assert exists j :: i <= j < |node.children| && r == Reply(node, depth, false, eval, j);
      }
      ResultLeTrans(r, next, acc);
      ResultLeTrans(r, next, Reply(node, depth, false, eval, i));
    }
  }

  /** A maximizing layer returns the tuple-maximum of (-inf, (-1, -1)) and
      every (child score, move): its score is at least every child's and
      equal to one of them, a tie goes to the larger move, and a layer
      without moves returns (-inf, (-1, -1)). */
  lemma MaxLayerIsTupleMax(node: Node, depth: nat, eval: Position -> Score)
    requires 0 < depth
    ensures var r := Minimax(node, depth, true, eval);
      && ResultLe(SearchResult(NegInf, NoMove), r)
      && (forall j :: 0 <= j < |node.children| ==> ResultLe(Reply(node, depth, true, eval, j), r))
      && (r == SearchResult(NegInf, NoMove) || exists j :: 0 <= j < |node.children| && r == Reply(node, depth, true, eval, j))
      && (|node.children| == 0 ==> r == SearchResult(NegInf, NoMove))
      && (|node.children| > 0 ==> exists j :: 0 <= j < |node.children| && r.score == Reply(node, depth, true, eval, j).score)
  {
    var r := Minimax(node, depth, true, eval);
    MinimaxFromIsTupleMax(node, depth, eval, 0, SearchResult(NegInf, NoMove));
    if |node.children| > 0 && r == SearchResult(NegInf, NoMove) {
      assert ResultLe(Reply(node, depth, true, eval, 0), r);
      assert r.score == Reply(node, depth, true, eval, 0).score;
    }
  }

  /** A minimizing layer returns the tuple-minimum of (+inf, (-1, -1)) and
      every (child score, move): its score is at most every child's and
      equal to one of them, a tie goes to the smaller move, and a layer
      without moves returns (+inf, (-1, -1)). */
  lemma MinLayerIsTupleMin(node: Node, depth: nat, eval: Position -> Score)
    requires 0 < depth
    ensures var r := Minimax(node, depth, false, eval);
      && ResultLe(r, SearchResult(PosInf, NoMove))
      && (forall j :: 0 <= j < |node.children| ==> ResultLe(r, Reply(node, depth, false, eval, j)))
      && (r == SearchResult(PosInf, NoMove) || exists j :: 0 <= j < |node.children| && r == Reply(node, depth, false, eval, j))
      && (|node.children| == 0 ==> r == SearchResult(PosInf, NoMove))
      && (|node.children| > 0 ==> exists j :: 0 <= j < |node.children| && r.score == Reply(node, depth, false, eval, j).score)
  {
    var r := Minimax(node, depth, false, eval);
    MinimaxFromIsTupleMin(node, depth, eval, 0, SearchResult(PosInf, NoMove));
    if |node.children| > 0 && r == SearchResult(PosInf, NoMove) {
      assert ResultLe(r, Reply(node, depth, false, eval, 0));
      assert r.score == Reply(node, depth, false, eval, 0).score;
    }
  }

  /** `minimax`: read the clock first and give up if the time is up;
      otherwise evaluate at depth 0, or loop over the moves keeping the
      `max` / `min` pair. Readings are consumed from index `at`; `next` is
      the index after the last one read. A completed search returns
      exactly `Minimax`; a cancelled one stopped at the first reading
      below the threshold. The search completes exactly when the
      `Calls(node, depth)` readings from `at` are all in time, and then it
      has taken exactly those. */
  method MinimaxSearch(node: Node, depth: nat, maximizing: bool, eval: Position -> Score, threshold: real, clock: seq<real>, at: nat)
    returns (out: Outcome, next: nat)
    decreases node, 1
    ensures at < next
    ensures TimeUp(clock, at, threshold) ==> out == Cancelled && next == at + 1
    ensures depth == 0 && !TimeUp(clock, at, threshold) ==> out == Done(SearchResult(eval(node.pos), NoMove))
    ensures out.Done? ==> out.result == Minimax(node, depth, maximizing, eval) && InTime(clock, at, next, threshold)
    ensures out.Cancelled? ==> InTime(clock, at, next - 1, threshold) && TimeUp(clock, next - 1, threshold)
    ensures out.Done? <==> InTime(clock, at, at + Calls(node, depth), threshold)
    ensures out.Done? ==> next == at + Calls(node, depth)
  {
    next := at + 1;
    if TimeUp(clock, at, threshold) {
      return Cancelled, next;
    }
    if depth == 0 {
      return Done(SearchResult(eval(node.pos), NoMove)), next;
    }
    out, next := MinimaxLoop(node, depth, maximizing, eval, threshold, clock, at, next);
  }

  /** The loop of `minimax` over the moves, entered with the readings
      at .. start-1 in time: each move's search in order, folding (child
      score, move) into the kept pair with `max` or `min`. It completes
      exactly when every reading the searches of the children take is in
      time. */
  method MinimaxLoop(node: Node, depth: nat, maximizing: bool, eval: Position -> Score, threshold: real, clock: seq<real>,
                     at: nat, start: nat)
    returns (out: Outcome, next: nat)
    requires 0 < depth && at < start && InTime(clock, at, start, threshold)
    decreases node, 0
    ensures start <= next
    ensures out.Done? ==> out.result == MinimaxFrom(node, depth, maximizing, eval, 0, SearchResult(if maximizing then NegInf else PosInf, NoMove))
    ensures out.Done? ==> InTime(clock, at, next, threshold) && next == start + CallsFrom(node, depth, 0)
    ensures out.Cancelled? ==> InTime(clock, at, next - 1, threshold) && TimeUp(clock, next - 1, threshold)
    ensures out.Cancelled? ==> !InTime(clock, at, start + CallsFrom(node, depth, 0), threshold)
  {
    next := start;
    var best := SearchResult(if maximizing then NegInf else PosInf, NoMove);
    var i := 0;
    while i < |node.children|
      invariant i <= |node.children|
      invariant start <= next && InTime(clock, at, next, threshold)
      invariant MinimaxFrom(node, depth, maximizing, eval, i, best)
        == MinimaxFrom(node, depth, maximizing, eval, 0, SearchResult(if maximizing then NegInf else PosInf, NoMove))
      invariant CallsFrom(node, depth, 0) == (next - start) + CallsFrom(node, depth, i)
    {
      var e := node.children[i];
      var sub, k := MinimaxSearch(e.next, depth - 1, !maximizing, eval, threshold, clock, next);
      if sub.Cancelled? {
        InTimeJoin(clock, at, next, k - 1, threshold);
        NotInTimeWiden(clock, at, start + CallsFrom(node, depth, 0), next, next + Calls(e.next, depth - 1), threshold);
        return Cancelled, k;
      }
      InTimeJoin(clock, at, next, k, threshold);
      var reply := SearchResult(sub.result.score, e.move);
      best := if maximizing then TupleMax(best, reply) else TupleMin(best, reply);
      next := k;
      i := i + 1;
    }
    return Done(best), next;
  }
}
