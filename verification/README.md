# Isolation game agent: decision engine

This project models the decision engine of the Isolation-playing agent in
`game_agent.py`: the evaluation functions that score a board, plain
depth-limited minimax, minimax with alpha-beta pruning (`alphabeta`,
`max_value`, `min_value`), and the per-turn driver `CustomPlayer.get_move`
with its fixed-depth and iterative-deepening modes and its cooperative
cancellation when the clock runs low.

Modules, one per file:

- `Scores` (`scores.dfy`): scores as extended reals (`NegInf | Fin(v) | PosInf`),
  moves as integer pairs with Python's lexicographic order, `(score, move)`
  pairs with Python's tuple order, and the tuple `max` / `min` the source calls.
- `Board` (`board.dfy`): what the engine reads of a board (lost, won, own and
  opponent move counts, blank cells) and the game tree below it. A node's
  children are the legal moves of the side to move, in the board's order, each
  with the board `forecast_move` gives.
- `Clock` (`clock.dfy`): the clock as the finite sequence of values successive
  `time_left()` calls return; a search that reads a value below the threshold,
  or runs past the last reading, is `Cancelled` (the `Timeout` exception).
- `Heuristics` (`heuristics.dfy`): `improved_weighted_score`,
  `ratio_weighted_score`, `ratio_weighted`, `ratio_plus_my_moves_weight_score`,
  `custom_score`, the choice among them, and monotonicity lemmas.
- `Minimax` (`minimax.dfy`): the game-theoretic value (`Value`), what a
  completed `minimax` returns (`Minimax`), the layer characterisations, and the
  timed search as a method with a loop.
- `AlphaBeta` (`alphabeta.dfy`): what completed `max_value` / `min_value`
  return, the fail-soft theorem against minimax, the cutoff lemmas, and the
  timed searches as mutually recursive methods with loops.
- `Agent` (`agent.dfy`): class `CustomPlayer` with its fields, `get_move` and
  its iterative-deepening loop.

Each timed search is a method that threads the index of the next clock
reading; a completed search is proved to return exactly the corresponding
untimed function, and a cancelled one to have stopped at the first reading
below the threshold. A completed search takes a number of readings fixed by
the tree (`Minimax.Calls`, `AlphaBeta.AlphaBetaCalls`, `Agent.SearchCalls`),
and each search is proved to complete exactly when all of those readings
are at or above the threshold. The search routines are handed the
evaluation function as a value (`Position -> Score`), as the source hands
them `self.score`.

In these places the code departs from its own comments and docstrings, or
from the textbook algorithms they name; the model follows the code:

- A layer with no legal move returns `(-inf, (-1, -1))` on a maximizing layer
  and `(+inf, (-1, -1))` on a minimizing one (`game_agent.py:353-365`,
  `443-453`, `483-494`). The docstrings promise (-1, -1) as the move for no
  legal moves (`game_agent.py:339`, `396`, `436`, `475`), which holds; textbook minimax
  would instead evaluate the board, and here the score is an infinity.
- Score ties in `minimax` are settled by tuple comparison on the move (the
  larger move on a maximizing layer, the smaller on a minimizing one), not by
  enumeration order as in the textbook algorithm the docstring refers to
  (`game_agent.py:317`); `max_value` keeps the first of equal moves (strict
  `>`) and `min_value` additionally takes the tuple-minimum
  (`game_agent.py:364`, `447`, `491`). `MovesMayDiffer` shows a board on which
  the two searches return the same score with different moves.
- The comment before the final return says the move comes from the last
  completed search iteration (`game_agent.py:312`). The code instead keeps
  the tuple-maximum of the random fallback and every completed result
  (`game_agent.py:300`), which can be an earlier depth's move.
- The loop condition `score is not float("inf")` (`game_agent.py:299`) reads
  as "until a won score", but it compares object identity with a freshly
  made float, so it always holds: iterative deepening stops only when a
  search is cancelled, even after a won score.
- The constructor docstring lists `'minimax'` and `'alphabeta'` as the
  method names (`game_agent.py:218-219`); the code selects minimax for any
  name other than `"alphabeta"` (`game_agent.py:290-295`).
- `improved_weighted_score` has no special case for an opponent without a
  move: once the terminal checks pass it returns the finite `my_moves - 1.5 *
  opp_moves` (`game_agent.py:51-54`), unlike the three ratio variants, which
  answer +inf for a stuck opponent (`game_agent.py:88`, `124`, `160`;
  `IsRatio`).
- The constructor docstring asks for a strictly positive `search_depth`
  (`game_agent.py:206`), but nothing enforces it. A fixed-depth search
  (`iterative` false) at `search_depth` 0 evaluates the root and returns
  `(score, (-1, -1))`; whenever that score beats the fallback's -inf,
  `get_move` returns the illegal move (-1, -1), against its docstring's
  promise of a legal move (`game_agent.py:268-269`, `303`, `350-351`,
  `440-442`).
- `ratio_weighted` computes `my_moves / 1.5 * opp_moves`, which Python reads as
  `(my_moves / 1.5) * opp_moves` (`game_agent.py:124`), not the ratio
  `my_moves / (1.5 * opp_moves)` its name and `ratio_weighted_score`
  (`game_agent.py:88`) suggest; the model keeps it.

## Model

| member | source | states |
|---|---|---|
| Scores.TupleMax | game_agent.py:353-364 | `max` on (score, move) pairs: the result is at least both arguments in tuple order, is one of them, and its score is the larger score |
| Scores.TupleMin | game_agent.py:353-364 | `min` on (score, move) pairs: the result is at most both arguments in tuple order, is one of them, and its score is the smaller score |
| Heuristics.ImprovedWeightedScore | game_agent.py:23-54 | -inf for a lost board, +inf for a won one, a finite value otherwise |
| Heuristics.RatioWeightedScore | game_agent.py:58-89 | -inf for a lost board, +inf for a won one or when the opponent has no move, otherwise a finite value that is at least 0 |
| Heuristics.RatioWeighted | game_agent.py:93-125 | -inf for a lost board, +inf for a won one or when the opponent has no move, otherwise a finite value that is at least 0 |
| Heuristics.RatioPlusMyMovesWeightScore | game_agent.py:129-161 | -inf for a lost board, +inf for a won one or when the opponent has no move, otherwise a finite value that is at least 0 |
| Heuristics.CustomScore | game_agent.py:165-194 | the terminal checks come first (-inf lost, +inf won), otherwise the chosen evaluation function's value |
| Heuristics.Evaluate | game_agent.py:227-234 | whatever function the agent is configured with settles lost and won boards first, the ratio variants give +inf when the opponent is stuck, and an in-play board otherwise gets a finite value |
| Heuristics.ImprovedWeightedMonotone | game_agent.py:51-54 | more own moves and fewer opponent moves never lower the score; strictly more own moves raise it |
| Heuristics.RatioWeightedScoreMonotone | game_agent.py:86-89 | more own moves and fewer opponent moves never lower the score |
| Heuristics.RatioPlusMyMovesWeightScoreMonotone | game_agent.py:157-161 | with the same blank cells, more own moves and fewer opponent moves never lower the score |
| Heuristics.RatioWeightedGrowsWithOpponentMoves | game_agent.py:121-125 | as written, with the agent's moves fixed, more opponent moves never lower the score and strictly raise it when the agent has a move |
| Minimax.Value | game_agent.py:350-365 | the reference value both searches are measured against: the evaluation at depth 0, -inf / +inf for a maximizing / minimizing layer with no move |
| Minimax.ValueFromIsBest | game_agent.py:360-364 | folding the children's values into a starting score gives a score at least (maximizing) or at most (minimizing) the start and every child value, and equal to the start or to one child value |
| Minimax.ValueIsBestChild | game_agent.py:353-365 | a maximizing layer's value is at least every child's value, a minimizing layer's at most, and with at least one move it equals some child's value |
| Minimax.Minimax | game_agent.py:350-365 | a completed `minimax` at depth 0 returns (evaluation, (-1, -1)) without looking at the moves, and a layer without moves returns (-inf, (-1, -1)) when maximizing and (+inf, (-1, -1)) when minimizing |
| Minimax.ReplyIsChildValue | game_agent.py:360-364 | the pair the loop compares for move number i is (the child's game-theoretic value for the other side at one less depth, that move): the score the recursive `minimax` call returns is the child's true value |
| Minimax.MinimaxScoreIsValue | game_agent.py:316-365 | the score minimax returns is the game-theoretic value of the tree at that depth; the tuple comparisons only choose the move |
| Minimax.MinimaxFromIsTupleMax | game_agent.py:360-364 | on a maximizing layer the loop ends with the tuple-maximum of its starting pair and every reply, and that result is one of them |
| Minimax.MinimaxFromIsTupleMin | game_agent.py:360-364 | on a minimizing layer the loop ends with the tuple-minimum of its starting pair and every reply, and that result is one of them |
| Minimax.MaxLayerIsTupleMax | game_agent.py:353-365 | a maximizing layer's score is at least every child's score and equal to one of them, ties go to the larger move, and a layer without moves gives (-inf, (-1, -1)) |
| Minimax.MinLayerIsTupleMin | game_agent.py:353-365 | a minimizing layer's score is at most every child's score and equal to one of them, ties go to the smaller move, and a layer without moves gives (+inf, (-1, -1)) |
| Minimax.MinimaxSearch | game_agent.py:316-365 | checks the clock before anything else and is cancelled when it is low; at depth 0 returns (evaluation, (-1, -1)); it completes exactly when the `Calls` readings it would take (one per call of `minimax`) are all at or above the threshold, and then it has taken exactly those and returns exactly `Minimax`; a cancelled search stopped at its first low reading |
| Minimax.MinimaxLoop | game_agent.py:353-365 | the loop of `minimax`, the moves searched in order: it completes exactly when the readings the children's searches take are all in time, having then taken exactly those and returned the `max` / `min` fold `MinimaxFrom`; a cancelled loop stopped at its first low reading |
| AlphaBeta.AlphaBeta | game_agent.py:410-413 | a completed `alphabeta` at depth 0 returns (evaluation, (-1, -1)); a layer without moves returns (-inf, (-1, -1)) when maximizing and (+inf, (-1, -1)) when minimizing |
| AlphaBeta.MaxValue | game_agent.py:440-453 | a completed `max_value` at depth 0 returns (evaluation, (-1, -1)) and on a layer without moves (-inf, (-1, -1)) |
| AlphaBeta.MaxFrom | game_agent.py:443-453 | the `max_value` loop never returns a score below the best score it started with |
| AlphaBeta.MinValue | game_agent.py:480-494 | a completed `min_value` at depth 0 returns (evaluation, (-1, -1)) and on a layer without moves (+inf, (-1, -1)) |
| AlphaBeta.MinFrom | game_agent.py:483-494 | the `min_value` loop never returns a score above the best score it started with |
| AlphaBeta.MaxUpdate | game_agent.py:446-450 | one pass of the `max_value` loop never lowers alpha or the best score; a strictly greater child score replaces the best pair by (child score, move), and any other score keeps the best pair unchanged, so the first of equal moves is kept |
| AlphaBeta.MinUpdate | game_agent.py:486-491 | one pass of the `min_value` loop never raises beta and makes the best score the smaller of the old best and the child score; a strictly smaller child score gives (child score, move), a strictly greater one keeps the best pair, and an equal one gives the tuple-minimum of the best pair and (child score, move) |
| AlphaBeta.MaxUpdateKeepsInvariant | game_agent.py:445-452 | one pass of the `max_value` loop preserves its fail-soft invariant, and a pass that reaches beta leaves the best score a lower bound of the true value so far |
| AlphaBeta.MinUpdateKeepsInvariant | game_agent.py:485-493 | one pass of the `min_value` loop preserves its fail-soft invariant, and a pass that reaches alpha leaves the best score an upper bound of the true value so far |
| AlphaBeta.MaxFromFailSoft | game_agent.py:443-453 | the `max_value` loop, started in its invariant, ends fail-soft against the minimax value of the moves it has left |
| AlphaBeta.MinFromFailSoft | game_agent.py:483-494 | the `min_value` loop, started in its invariant, ends fail-soft against the minimax value of the moves it has left |
| AlphaBeta.MaxValueFailSoft | game_agent.py:415-453 | on a non-empty window, a result at or below alpha bounds the minimax value from above, one at or above beta bounds it from below, one strictly inside equals it |
| AlphaBeta.MinValueFailSoft | game_agent.py:455-494 | the same fail-soft contract for `min_value` against the minimizing value |
| AlphaBeta.AlphaBetaFailSoft | game_agent.py:367-413 | `alphabeta` on any non-empty window is fail-soft against the score `minimax` returns at the same depth |
| AlphaBeta.AlphaBetaFullWindowIsMinimax | game_agent.py:198-201 | with the window (-inf, +inf), `alphabeta` returns the same score as `minimax` |
| AlphaBeta.MovesMayDiffer | game_agent.py:447-448 | on a two-move board with equal replies, `alphabeta` returns the first move and `minimax` the larger one, with the same score |
| AlphaBeta.MaxFromCutoff | game_agent.py:445-452 | when the `max_value` loop ends at or above beta, some move k decides it: every board that agrees on the moves up to k gets the same result |
| AlphaBeta.MinFromCutoff | game_agent.py:485-493 | when the `min_value` loop ends at or below alpha, some move k decides it: every board that agrees on the moves up to k gets the same result |
| AlphaBeta.MaxValueBetaCutoff | game_agent.py:451-452 | a `max_value` result at or above beta never depended on the moves after some move k |
| AlphaBeta.MinValueAlphaCutoff | game_agent.py:492-493 | a `min_value` result at or below alpha never depended on the moves after some move k |
| AlphaBeta.MaxFromMove | game_agent.py:443-453 | the `max_value` loop returns the pair it started from or a pair carrying one of the moves it searched |
| AlphaBeta.MinFromMove | game_agent.py:483-494 | the `min_value` loop returns the pair it started from or a pair carrying one of the moves it searched |
| AlphaBeta.MaxValueMoveIsChild | game_agent.py:440-453 | above depth 0, on any window, `max_value` returns (-inf, (-1, -1)) or a pair whose move is one of the node's moves |
| AlphaBeta.MinValueMoveIsChild | game_agent.py:480-494 | above depth 0, on any window, `min_value` returns (+inf, (-1, -1)) or a pair whose move is one of the node's moves |
| AlphaBeta.MaxFromFullWindow | game_agent.py:443-453 | the `max_value` loop with beta = +inf and alpha equal to the best score ends at least at the best score and every remaining move's true value, and returns the starting pair or the first remaining move whose true value is the largest and beats the starting score |
| AlphaBeta.MaxValueFullWindowMove | game_agent.py:198-201 | on the window (-inf, +inf) `get_move` uses, `max_value` returns the largest true value of the moves with the first move that reaches it, or (-inf, (-1, -1)) when no move's value beats -inf |
| AlphaBeta.MaxValueSearch | game_agent.py:415-442 | checks the clock first and is cancelled when it is low; at depth 0 returns (evaluation, (-1, -1)); it completes exactly when the `MaxCalls` readings it would take are all at or above the threshold, and then it has taken exactly those and returns exactly `MaxValue` |
| AlphaBeta.MaxValueLoop | game_agent.py:443-453 | the loop of `max_value`, the moves searched in order until the cutoff: it completes exactly when the `MaxFromCalls` readings are all in time, having then taken exactly those and returned `MaxFrom` from (-inf, (-1, -1)); a cancelled loop stopped at its first low reading |
| AlphaBeta.MaxValuePass | game_agent.py:446-452 | one pass of the `max_value` loop: a completed pass either reaches beta with the loop's whole result after exactly the loop's readings, or raises alpha (never lowers it) and leaves the rest of the loop the same result and readings; a cancelled pass leaves the loop's readings out of time |
| AlphaBeta.MaxLoopStep | game_agent.py:446-452 | with `t` the reply's score, the pass the method writes is the step `MaxFrom` and `MaxFromCalls` take: at or above beta the loop ends with the new best pair after the reply's readings, otherwise it continues from the next move with the new alpha, which is never lower |
| AlphaBeta.MinValueSearch | game_agent.py:455-482 | checks the clock first and is cancelled when it is low; at depth 0 returns (evaluation, (-1, -1)); it completes exactly when the `MinCalls` readings it would take are all at or above the threshold, and then it has taken exactly those and returns exactly `MinValue` |
| AlphaBeta.MinValueLoop | game_agent.py:483-494 | the loop of `min_value`: it completes exactly when the `MinFromCalls` readings are all in time, having then taken exactly those and returned `MinFrom` from (+inf, (-1, -1)); a cancelled loop stopped at its first low reading |
| AlphaBeta.MinValuePass | game_agent.py:486-493 | one pass of the `min_value` loop: a completed pass either reaches alpha with the loop's whole result after exactly the loop's readings, or lowers beta (never raises it) and leaves the rest of the loop the same result and readings; a cancelled pass leaves the loop's readings out of time |
| AlphaBeta.MinLoopStep | game_agent.py:486-493 | the pass the method writes, including the final tuple-minimum, is the step `MinFrom` and `MinFromCalls` take: at or below alpha the loop ends with the new best pair, otherwise it continues from the next move with the new beta, which is never higher |
| AlphaBeta.AlphaBetaSearch | game_agent.py:404-413 | reads the clock twice and is cancelled if either reading is low; it completes exactly when the `AlphaBetaCalls` readings are all at or above the threshold, and then it has taken exactly those and returns exactly `max_value` or `min_value` on the same window |
| AlphaBeta.MaxReadsNoMore | game_agent.py:443-453 | pruning never costs time: a completed `max_value` reads the clock at most as often as a completed `minimax` at the same depth, on any window |
| AlphaBeta.MaxFromReadsNoMore | game_agent.py:443-453 | the `max_value` loop from move i reads the clock at most as often as the searches of all of moves i and up in `minimax`, since a cutoff only skips moves |
| AlphaBeta.MinReadsNoMore | game_agent.py:483-494 | a completed `min_value` reads the clock at most as often as a completed `minimax` at the same depth |
| AlphaBeta.MinFromReadsNoMore | game_agent.py:483-494 | the `min_value` loop from move i reads the clock at most as often as the searches of all of moves i and up in `minimax` |
| AlphaBeta.AlphaBetaReadsNoMore | game_agent.py:404-413 | a completed `alphabeta` reads the clock at most twice more than a completed `minimax` at the same depth: its two readings on entry, then no more than minimax |
| Heuristics.Scorer | game_agent.py:351 | the `self.score(game, self)` the searches call: -inf on a lost board, +inf on a won one, and on a board in play a finite value unless a ratio variant sees a stuck opponent |
| Agent.Search | game_agent.py:290-295 | the configured search at depth 0 returns (evaluation, (-1, -1)) and above it on a root without moves (-inf, (-1, -1)) |
| Agent.SearchMoveIsChild | game_agent.py:290-295 | above depth 0, either search returns (-inf, (-1, -1)) or a pair whose move is one of the root's moves |
| Agent.SearchScoreIndependentOfMethod | game_agent.py:290-295 | the configured search method gives the root the same score whichever method is named |
| Agent.Kept | game_agent.py:299-303 | the kept pair never falls below the fallback in tuple order |
| Agent.KeptIsTupleMax | game_agent.py:297-304 | the kept pair is the tuple-maximum of the fallback and every completed result, and is one of them |
| Agent.KeptNeverDecreases | game_agent.py:297-301 | the kept pair, and so its score, never goes down as more searches complete |
| Agent.KeptMoveIsLegal | game_agent.py:280-303 | with a legal fallback scored -inf, and every completed result either (-inf, (-1, -1)) or carrying a root move, the kept pair's move is legal |
| Agent.CustomPlayer.constructor | game_agent.py:227-234 | the agent starts with the given depth, evaluation function, mode, method name and threshold, and no clock |
| Agent.CustomPlayer.RunSearch | game_agent.py:290-295 | the configured search: cancelled when the first reading is low; it completes exactly when the `SearchCalls` readings of that search are all in time, and then it has taken exactly those and returns `Search` of the configured method |
| Agent.CustomPlayer.Deepen | game_agent.py:297-301 | searches depths 1, 2, 3, ... in order until one is cancelled: all the readings of the completed depths were in time, the next depth's readings were not, and the cancelled search stopped inside them; the kept pair folds every completed result, and `search_depth` ends one past the last completed depth |
| Agent.ReadingsThrough | game_agent.py:297-301 | the readings iterative deepening takes to complete depths 1 .. n, one search after the other; every depth reads the clock at least once |
| Agent.CustomPlayer.GetMove | game_agent.py:236-314 | no legal move gives (-1, -1) with no search; otherwise the move of the tuple-maximum of the fallback and the completed searches, which is a legal move or a move some completed search returned. With iterative deepening the completed depths are exactly those whose readings fit in time before the first one that does not; a fixed search completes exactly when its readings are all in time; so the fallback is returned unsearched only when the first search could not complete. When the root's moves are legal moves and legal moves are board cells, the move is legal with iterative deepening or a fixed depth above 0, while a completed fixed search at depth 0 whose evaluation beats -inf returns (-1, -1) |

## Left out

- Logging (`logging.basicConfig` and every `logging.debug` call): side effects only.
- The real clock: `time_left` is the finite sequence of readings it returns; when the readings run out the time is treated as up, which is what makes iterative deepening terminate.
- The random draw of the fallback move: the index `pick` into the legal moves stands for it.
- Floating-point rounding: the heuristics compute with exact reals, and infinities are the `NegInf` / `PosInf` scores.
- Division by zero in `ratio_plus_my_moves_weight_score`: a board on which the opponent has a legal move has a blank cell, which the `Position` type states, so the division the source performs is always defined.
- The `isolation.Board` implementation (legal-move generation, `forecast_move`, winner and loser tests): the game is the tree `Node`, whose children are the side to move's legal moves. `minimax` asks for the active player's moves and `max_value` / `min_value` for the agent's and the opponent's; since `get_move` runs on the agent's turn these are the same moves on every layer.
- The `Timeout` exception: the `Cancelled` outcome stands for it, and every caller passes it on as the source's exception propagation does.
- Negative search depths: depths are natural numbers.
- Python 2 integer division: the heuristics use true division.
