/** The game-playing agent (`CustomPlayer`) and its per-turn entry point. */
module Agent {
  import opened Scores
  import opened Board
  import opened Heuristics
  import opened Clock
  import Minimax
  import AlphaBeta

  /** What a completed `search_method(game, depth)` returns: the root is a
      maximizing layer and alpha-beta gets the full window. Any method name
      other than "alphabeta" selects minimax. */
  function Search(methodName: string, game: Node, depth: nat, f: ScoreFn): (r: SearchResult)
    ensures depth == 0 ==> r == SearchResult(Evaluate(f, game.pos), NoMove)
    ensures 0 < depth && |game.children| == 0 ==> r == SearchResult(NegInf, NoMove)
  {
    if methodName == "alphabeta" then AlphaBeta.AlphaBeta(game, depth, NegInf, PosInf, true, Scorer(f))
    else Minimax.Minimax(game, depth, true, Scorer(f))
  }

  /** Both search methods give the root the same score. */
  lemma SearchScoreIndependentOfMethod(methodName: string, game: Node, depth: nat, f: ScoreFn)
    ensures Search(methodName, game, depth, f).score == Search("minimax", game, depth, f).score
  {
    AlphaBeta.AlphaBetaFullWindowIsMinimax(game, depth, true, Scorer(f));
  }

  /** Below depth 0, either search returns (-inf, (-1, -1)) or a pair whose
      move is one of the root's moves. */
  lemma SearchMoveIsChild(methodName: string, game: Node, depth: nat, f: ScoreFn)
    requires 0 < depth
    ensures var r := Search(methodName, game, depth, f);
      r == SearchResult(NegInf, NoMove) || exists j :: 0 <= j < |game.children| && r.move == game.children[j].move
  {
    if methodName == "alphabeta" {
      AlphaBeta.MaxValueMoveIsChild(game, depth, NegInf, PosInf, Scorer(f));
    } else {
      Minimax.MaxLayerIsTupleMax(game, depth, Scorer(f));
      var r := Minimax.Minimax(game, depth, true, Scorer(f));
      if r != SearchResult(NegInf, NoMove) {
        var j :| 0 <= j < |game.children| && r == Minimax.Reply(game, depth, true, Scorer(f), j);
      }
    }
  }

  /** The clock readings a search at `depth` takes when it runs to
      completion: one per call of the search's recursive helper (minimax),
      plus the two of `alphabeta` itself (alpha-beta). */
  function SearchCalls(methodName: string, game: Node, depth: nat, f: ScoreFn): nat {
    if methodName == "alphabeta" then AlphaBeta.AlphaBetaCalls(game, depth, NegInf, PosInf, true, Scorer(f))
    else Minimax.Calls(game, depth)
  }

  /** The clock readings iterative deepening takes to complete the searches
      at depths 1 .. n, one after the other; every search reads the clock
      at least once. */
  function ReadingsThrough(methodName: string, game: Node, f: ScoreFn, n: nat): (r: nat)
    ensures n <= r
  {
    if n == 0 then 0 else ReadingsThrough(methodName, game, f, n - 1) + SearchCalls(methodName, game, n, f)
  }

  /** The pair `get_move` keeps after the searches in `completed` finished,
      starting from `fallback`: each completed result `r` turns the kept
      pair `k` into `max(r, k)`. */
  function Kept(fallback: SearchResult, completed: seq<SearchResult>): (r: SearchResult)
    decreases |completed|
    ensures ResultLe(fallback, r)
  {
    if completed == [] then fallback
    else
      var n := |completed| - 1;
      var k := Kept(fallback, completed[..n]);
      var r := if ResultLess(completed[n], k) then k else completed[n];
      ResultLeTrans(fallback, k, r);
      r
  }

  /** The kept pair is the tuple-maximum of the fallback and every completed
      result, and it is one of them. */
  lemma {:induction false} KeptIsTupleMax(fallback: SearchResult, completed: seq<SearchResult>)
    ensures ResultLe(fallback, Kept(fallback, completed))
    ensures forall i :: 0 <= i < |completed| ==> ResultLe(completed[i], Kept(fallback, completed))
    ensures Kept(fallback, completed) == fallback || exists i :: 0 <= i < |completed| && Kept(fallback, completed) == completed[i]
    decreases |completed|
  {
    if completed != [] {
      var n := |completed| - 1;
      var prefix := completed[..n];
      KeptIsTupleMax(fallback, prefix);
      var k := Kept(fallback, prefix);
      var r := Kept(fallback, completed);
      assert ResultLe(k, r);
      ResultLeTrans(fallback, k, r);
      forall i | 0 <= i < |completed|
        ensures ResultLe(completed[i], r)
      {
        if i < n {
          assert completed[i] == prefix[i];
          ResultLeTrans(completed[i], k, r);
        }
      }
      if r != fallback && r == k {
        var i :| 0 <= i < |prefix| && k == prefix[i];
        assert r == completed[i];
      }
    }
  }

  /** The kept pair never goes down as more searches complete; in particular
      its score never decreases. */
  lemma {:induction false} KeptNeverDecreases(fallback: SearchResult, completed: seq<SearchResult>, j: nat)
    requires j <= |completed|
    ensures ResultLe(Kept(fallback, completed[..j]), Kept(fallback, completed))
    ensures Le(Kept(fallback, completed[..j]).score, Kept(fallback, completed).score)
    decreases |completed| - j
  {
    if j < |completed| {
      var n := |completed| - 1;
      assert completed[..n] == completed[..n][..n];
      KeptNeverDecreases(fallback, completed[..n], if j <= n then j else n);
      assert completed[..j] == completed[..n][..j];
      var k := Kept(fallback, completed[..n]);
      ResultLeTrans(Kept(fallback, completed[..j]), k, Kept(fallback, completed));
    } else {
      assert completed[..j] == completed;
    }
  }

  /** What `get_move` can promise about moves: every move of the root is a
      legal move, and legal moves are board cells, with non-negative
      coordinates. */
  predicate MovesAreLegal(game: Node, legalMoves: seq<Move>) {
    && (forall j :: 0 <= j < |game.children| ==> game.children[j].move in legalMoves)
    && (forall m :: m in legalMoves ==> 0 <= m.0 && 0 <= m.1)
  }

  /** When every completed search returned (-inf, (-1, -1)) or a root
      move, the kept pair of a legal fallback carries a legal move: a
      (-inf, (-1, -1)) result never beats the fallback. */
  lemma KeptMoveIsLegal(game: Node, legalMoves: seq<Move>, fallback: SearchResult, completed: seq<SearchResult>)
    requires MovesAreLegal(game, legalMoves)
    requires fallback.score == NegInf && fallback.move in legalMoves
    requires forall i :: 0 <= i < |completed| ==>
      completed[i] == SearchResult(NegInf, NoMove) || exists j :: 0 <= j < |game.children| && completed[i].move == game.children[j].move
    ensures Kept(fallback, completed).move in legalMoves
  {
    KeptIsTupleMax(fallback, completed);
    var r := Kept(fallback, completed);
    if r != fallback {
      var i :| 0 <= i < |completed| && r == completed[i];
      if r != SearchResult(NegInf, NoMove) {
        var j :| 0 <= j < |game.children| && r.move == game.children[j].move;
      }
    }
  }

  const DefaultSearchDepth: nat := 3
  const DefaultTimeout: real := 10.0

  class CustomPlayer {
    /** Depth of a fixed-depth search; the depth being tried during
        iterative deepening. */
    var searchDepth: nat
    const iterative: bool
    /** The evaluation function (`self.score`). */
    const score: ScoreFn
    /** "alphabeta" selects alpha-beta; anything else selects minimax. */
    const methodName: string
    /** Time left at which a search gives up (`TIMER_THRESHOLD`). */
    const timerThreshold: real
    /** The readings of the current turn's clock (`self.time_left`). */
    var timeLeft: seq<real>

    constructor (searchDepth: nat := DefaultSearchDepth, score: ScoreFn := DefaultScoreFn, iterative: bool := true,
                 methodName: string := "minimax", timeout: real := DefaultTimeout)
      ensures this.searchDepth == searchDepth && this.score == score && this.iterative == iterative
      ensures this.methodName == methodName && this.timerThreshold == timeout && this.timeLeft == []
    {
      this.searchDepth := searchDepth;
      this.iterative := iterative;
      this.score := score;
      this.methodName := methodName;
      this.timeLeft := [];
      this.timerThreshold := timeout;
    }

    /** The configured search at `depth`, consuming readings from `at`. */
    method RunSearch(game: Node, depth: nat, at: nat) returns (out: Outcome, next: nat)
      ensures at < next
      ensures TimeUp(timeLeft, at, timerThreshold) ==> out == Cancelled
      ensures out.Done? ==> out.result == Search(methodName, game, depth, score) && InTime(timeLeft, at, next, timerThreshold)
      ensures out.Cancelled? ==> InTime(timeLeft, at, next - 1, timerThreshold) && TimeUp(timeLeft, next - 1, timerThreshold)
      ensures out.Done? <==> InTime(timeLeft, at, at + SearchCalls(methodName, game, depth, score), timerThreshold)
      ensures out.Done? ==> next == at + SearchCalls(methodName, game, depth, score)
    {
      if methodName == "alphabeta" {
        out, next := AlphaBeta.AlphaBetaSearch(game, depth, NegInf, PosInf, true, Scorer(score), timerThreshold, timeLeft, at);
      } else {
        out, next := Minimax.MinimaxSearch(game, depth, true, Scorer(score), timerThreshold, timeLeft, at);
      }
    }

    /** The iterative-deepening loop of `get_move`: searches at depths 1, 2,
        3, ... on the current clock until one is cancelled, folding each
        completed result into the kept pair with tuple `max`. */
    method Deepen(game: Node, fallback: SearchResult) returns (kept: SearchResult, ghost completed: seq<SearchResult>, ghost used: nat)
      modifies this
      ensures timeLeft == old(timeLeft)
      ensures kept == Kept(fallback, completed)
      ensures searchDepth == |completed| + 1
      ensures forall i :: 0 <= i < |completed| ==> completed[i] == Search(methodName, game, i + 1, score)
      ensures 0 < used && InTime(timeLeft, 0, used - 1, timerThreshold) && TimeUp(timeLeft, used - 1, timerThreshold)
      ensures TimeUp(timeLeft, 0, timerThreshold) ==> completed == []
      ensures InTime(timeLeft, 0, ReadingsThrough(methodName, game, score, |completed|), timerThreshold)
      ensures var r := ReadingsThrough(methodName, game, score, |completed|);
        && !InTime(timeLeft, r, r + SearchCalls(methodName, game, |completed| + 1, score), timerThreshold)
        && r < used <= r + SearchCalls(methodName, game, |completed| + 1, score)
    {
      kept, completed := fallback, [];
      searchDepth := 1;
      var at := 0;
      while true
        invariant timeLeft == old(timeLeft)
        invariant at <= |timeLeft| && InTime(timeLeft, 0, at, timerThreshold)
        invariant at == ReadingsThrough(methodName, game, score, |completed|)
        invariant (at == 0) == (completed == [])
        invariant searchDepth == |completed| + 1
        invariant forall i :: 0 <= i < |completed| ==> completed[i] == Search(methodName, game, i + 1, score)
        invariant kept == Kept(fallback, completed)
        decreases |timeLeft| - at
      {
        var out, next := RunSearch(game, searchDepth, at);
        if out.Cancelled? {
          used := next;
          return;
        }
        kept := if ResultLess(out.result, kept) then kept else out.result;
        assert completed + [out.result] == (completed + [out.result])[..|completed|] + [out.result];
        completed := completed + [out.result];
        searchDepth := searchDepth + 1;
        assert !TimeUp(timeLeft, next - 1, timerThreshold);
        at := next;
      }
    }

    /** `get_move`. With no legal move it returns (-1, -1) and searches
        nothing. Otherwise it starts from the fallback pair (-inf, the
        legal move numbered `pick`, which stands for the random draw) and
        folds in, with tuple `max`, the result of every search that
        completes: once at `searchDepth`, or at depths 1, 2, 3, ... with
        iterative deepening, which stops only when a search is cancelled.
        The move of the kept pair is returned. `completed` lists the
        results of the completed searches and `used` the number of clock
        readings taken. */
    method GetMove(game: Node, legalMoves: seq<Move>, time: seq<real>, pick: nat)
      returns (move: Move, ghost completed: seq<SearchResult>, ghost used: nat)
      requires legalMoves != [] ==> pick < |legalMoves|
      modifies this
      ensures timeLeft == time
      ensures legalMoves == [] ==> move == NoMove && completed == [] && used == 0 && searchDepth == old(searchDepth)
      ensures legalMoves != [] ==>
        && move == Kept(SearchResult(NegInf, legalMoves[pick]), completed).move
        && (move in legalMoves || exists i :: 0 <= i < |completed| && move == completed[i].move)
        && 0 < used && InTime(time, 0, used - 1, timerThreshold)
        && (TimeUp(time, 0, timerThreshold) ==> move == legalMoves[pick])
      ensures legalMoves != [] && iterative ==>
        && searchDepth == |completed| + 1
        && (forall i :: 0 <= i < |completed| ==> completed[i] == Search(methodName, game, i + 1, score))
        && TimeUp(time, used - 1, timerThreshold)
      ensures legalMoves != [] && iterative ==>
        var r := ReadingsThrough(methodName, game, score, |completed|);
        && InTime(time, 0, r, timerThreshold)
        && !InTime(time, r, r + SearchCalls(methodName, game, |completed| + 1, score), timerThreshold)
        && r < used <= r + SearchCalls(methodName, game, |completed| + 1, score)
      ensures legalMoves != [] && !iterative ==>
        && searchDepth == old(searchDepth)
        && (completed == [] || completed == [Search(methodName, game, searchDepth, score)])
        && (completed == [] <==> TimeUp(time, used - 1, timerThreshold))
        && (completed != [] <==> InTime(time, 0, SearchCalls(methodName, game, searchDepth, score), timerThreshold))
        && used <= SearchCalls(methodName, game, searchDepth, score)
        && (completed != [] ==> used == SearchCalls(methodName, game, searchDepth, score))
      ensures legalMoves != [] && InTime(time, 0, SearchCalls(methodName, game, if iterative then 1 else old(searchDepth), score), timerThreshold) ==>
        completed != []
      ensures legalMoves != [] && MovesAreLegal(game, legalMoves) && (iterative || 0 < old(searchDepth)) ==> move in legalMoves
      ensures legalMoves != [] && !iterative && searchDepth == 0 && completed != [] && Evaluate(score, game.pos) != NegInf ==>
        move == NoMove
    {
      timeLeft := time;
      completed, used := [], 0;
      if legalMoves == [] {
        return NoMove, completed, used;
      }
      var fallback := SearchResult(NegInf, legalMoves[pick]);
      var kept := fallback;
      if iterative {
        kept, completed, used := Deepen(game, fallback);
      } else {
        var out, next := RunSearch(game, searchDepth, 0);
        used := next;
        if out.Done? {
          kept := if ResultLess(out.result, kept) then kept else out.result;
          completed := [out.result];
        }
      }
      KeptIsTupleMax(fallback, completed);
      if MovesAreLegal(game, legalMoves) && (iterative || 0 < searchDepth) {
        forall i | 0 <= i < |completed|
          ensures completed[i] == SearchResult(NegInf, NoMove) ||
            exists j :: 0 <= j < |game.children| && completed[i].move == game.children[j].move
        {
          SearchMoveIsChild(methodName, game, if iterative then i + 1 else searchDepth, score);
        }
        KeptMoveIsLegal(game, legalMoves, fallback, completed);
      }
      move := kept.move;
      if move !in legalMoves {
        ghost var i :| 0 <= i < |completed| && kept == completed[i];
      }
    }
  }
}
