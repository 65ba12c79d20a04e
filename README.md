# Chicken agents: Gregory and Gregorous search and evaluation

This project models the decision-making core of two agents for the
two-player grid game "chicken". In the game each player moves a chicken,
lays eggs on squares of its own colour, drops turds and avoids trapdoors.
Both agents choose a move by searching over forecast boards and scoring
the leaves with a heuristic evaluation.

- **Gregory** (`3600-agents/Gregory/agent.py`) runs an iterative-deepening
  search from depth 1 to 8 over a fail-soft alpha-beta minimax. Its levels
  alternate. The max level forecasts chicken_player's moves. The min level
  plays each enemy move on a reversed copy of the board. The leaves are
  scored by an integer evaluation: ten times the egg difference minus the
  distance to the nearest edge, with fixed scores for a won, lost or tied
  game and for a known trapdoor.
- **Gregorous** (`3600-agents/Gregorous/agent.py`) keeps the set of squares
  its chicken has stood on in the real game. For each valid root move it
  runs a depth-6 search. Every level of that search maximises over the
  forecasts with the perspective reversed. The leaves are scored by a real
  evaluation that adds:
  - the egg difference times 10;
  - a colour bonus of 5;
  - the turd difference;
  - 0.2 times the distance from the edges;
  - minus 1 on a square already visited.

The game engine is not modelled. `Game.Engine<B>` is a record of functions
over an arbitrary board type `B`: valid moves, forecast, apply, reverse
perspective and the observers. Every result holds for every engine. The
clock `time_left()` is a function from the number of readings taken so far
to seconds left. Each search threads that count through, so every poll of
the clock is a modelled event. Python's `float('inf')` becomes the extended
real `ExtReals.ExtReal`.

Each search is modelled in three layers:

1. a specification function that runs the search exactly as the code does,
   clock included (`AlphaBeta`, `RootLevel`, `Deepen`, `Search`, `RootLoop`);
2. an imperative method with the code's loops, proved equal to that
   function (`MinimaxRec`, `Play`, Gregorous's `Minimax`, `Agent.Play`);
3. lemmas that relate the specification to an unpruned reference when the
   clock never drops below 0.1 s. The references are plain minimax, the
   recursive maximum, and `Choice.FirstMax`, the "first strictly greatest"
   root rule.

### Behaviour of the code worth noting

The model follows the code, including where the code's own comments say
otherwise.

- On a low clock Gregory's search returns the evaluation of the board
  (Gregory line 60). The comments at lines 42 and 74 speak of an abort
  signal, but no path returns None, so those checks never fire.
- A depth iteration that the clock cuts short still counts. The comment at
  line 50 says the best move is updated "if this iteration completed". In
  fact the break of lines 31-32 leaves the move loop, and line 51 then
  replaces the held move with the partial pick
  (`GregoryPlay.PartialIterationIsKept`).
- Gregory scores a finished game as 1000, -1000 or 0, through the same
  evaluation as any other board (lines 108-115).
- Gregory scores a known trapdoor as -9999, below a lost game (line 120).
- Gregorous's search maximises at every level; it never minimises.
- beta is +inf on every Gregorous search call, and no search value is
  +inf. So the prune of lines 61-62 never fires, and alpha has no effect on
  the result.
- Gregorous's search has no game-over cutoff. It stops only on the clock,
  at depth 0 or when there are no valid moves, although the comment at
  line 49 calls this case "Terminal".
- Gregorous's visited penalty uses the set of squares visited in the real
  game (lines 9, 16 and 38).
- Gregorous's edge term grows with the distance from the edges
  (`GregorousEval.EdgeTermFavoursCentre`). The comments at lines 34 and 36
  say it should favour the edges.

## Model

| member | source | states |
|---|---|---|
| GregoryEval.EdgeDistance | 3600-agents/Gregory/agent.py:121-122 | the distance is at most each of x, size-x, y and size-y, and equals one of them |
| GregoryEval.Evaluate | 3600-agents/Gregory/agent.py:101-124 | a finished game scores 1000 / -1000 / 0 exactly when the winner is the player / the enemy / neither; a known trapdoor scores -9999, below a loss; otherwise, on the board, the score lies between 10 x egg difference minus half the last index and 10 x egg difference |
| GregoryEval.OutcomesBracketHeuristic | 3600-agents/Gregory/agent.py:101-124 | on the 8 x 8 map, with at most 32 eggs a side, an unfinished non-trapdoor board scores strictly between a loss and a win, and a trapdoor below both |
| GregoryEval.EggAdvantageDominates | 3600-agents/Gregory/agent.py:103-124 | on maps up to 20 wide, a larger egg difference always scores higher, whatever the location |
| GregorySearch.MaxPrefixGrows | 3600-agents/Gregory/agent.py:68-79 | the running maximum over the max level's children never decreases |
| GregorySearch.MinPrefixShrinks | 3600-agents/Gregory/agent.py:85-99 | the running minimum over the min level's children never increases |
| GregorySearch.AlphaBetaFailSoft | 3600-agents/Gregory/agent.py:58-99 | with an unhurried clock and alpha < beta, the search result is a fail-soft answer for plain minimax: at or below alpha it bounds minimax from above, at or above beta from below, and strictly inside the window it equals minimax |
| GregorySearch.MaxStep | 3600-agents/Gregory/agent.py:75-78 | one step of the max loop either prunes with a value that is a lower bound at or above beta, or keeps the loop invariant (max_val bounds the children seen and equals their maximum once above the caller's alpha) |
| GregorySearch.MinStep | 3600-agents/Gregory/agent.py:95-98 | the mirror image of MaxStep for the min loop |
| GregorySearch.MaxLevelFailSoft | 3600-agents/Gregory/agent.py:63-79 | from any point where the loop invariant holds, the max level's result is fail-soft for the maximum over all children |
| GregorySearch.MinLevelFailSoft | 3600-agents/Gregory/agent.py:80-99 | from any point where the loop invariant holds, the min level's result is fail-soft for the minimum over all enemy replies |
| GregorySearch.FullWindowIsMinimax | 3600-agents/Gregory/agent.py:58-99 | with the window (-inf, +inf) and an unhurried clock, pruning does not change the value: the search equals plain minimax |
| GregorySearch.MaxLevelNoForecast | 3600-agents/Gregory/agent.py:68-71 | when every remaining forecast_move gives None, the max level returns max_val unchanged without reading the clock |
| GregorySearch.MinLevelNoReply | 3600-agents/Gregory/agent.py:85-90 | when every remaining apply_move fails, the min level returns min_val unchanged without reading the clock |
| GregorySearch.NoSuccessorIsInfinite | 3600-agents/Gregory/agent.py:63-99 | a level with moves but no successor returns -inf (max) or +inf (min), whatever the window |
| GregorySearch.MinimaxRec | 3600-agents/Gregory/agent.py:58-99 | the imperative search computes AlphaBeta, including the clock readings taken; it evaluates the board on a finished game, at depth 0 (without reading the clock), on a low clock or with no moves; with an unhurried clock and alpha < beta it is fail-soft for plain minimax |
| GregorySearch.MaxLevelLoop | 3600-agents/Gregory/agent.py:63-79 | the max level's for-loop, with its skip and its prune, computes MaxLevel |
| GregorySearch.MinLevelLoop | 3600-agents/Gregory/agent.py:80-99 | the min level's for-loop, with its skip and its prune, computes MinLevel |
| GregoryPlay.RootLevelKeepsValidMove | 3600-agents/Gregory/agent.py:28-49 | whatever the clock, a depth iteration ends holding one of the valid moves |
| GregoryPlay.DeepenKeepsValidMove | 3600-agents/Gregory/agent.py:21-51 | whatever the clock, the deepening loop holds a valid move throughout and runs at most 8 iterations |
| GregoryPlay.PlayReturnsValidMove | 3600-agents/Gregory/agent.py:14-56 | play returns None exactly when there is no valid move, and otherwise one of the valid moves |
| GregoryPlay.PartialIterationIsKept | 3600-agents/Gregory/agent.py:22-51 | when the first move scores above -inf and the clock stays below 0.05 s after its search, the cut-short depth iteration still counts: the deepening ends on that first move, whatever move the earlier depths held |
| GregoryPlay.RootLevelFollowsFirstMax | 3600-agents/Gregory/agent.py:25-49 | with an unhurried clock, a depth iteration picks the first move whose minimax value is strictly greatest, and reports that value; moves rejected by is_valid_move or forecast_move are skipped |
| GregoryPlay.DeepenFollowsReference | 3600-agents/Gregory/agent.py:21-51 | with an unhurried clock, all 8 iterations complete and the move held at the end is the reference choice at depth 8 |
| GregoryPlay.PlayPicksFirstBestMove | 3600-agents/Gregory/agent.py:14-56 | with an unhurried clock, play returns the first valid move of strictly greatest depth-8 minimax value (the depth-7 choice if every value is -inf), and that pick satisfies IsFirstMax |
| GregoryPlay.SearchDepth | 3600-agents/Gregory/agent.py:25-49 | the root loop of one depth, with its per-move clock check, its validity and forecast skips and its alpha update, computes RootLevel |
| GregoryPlay.IterativeDeepening | 3600-agents/Gregory/agent.py:21-51 | the loop over depths 1 to 8, stopping when fewer than 0.1 s remain, computes Deepen from the first valid move |
| GregoryPlay.Play | 3600-agents/Gregory/agent.py:14-56 | play computes PlaySpec; it returns None exactly when there is no valid move, and otherwise a valid move |
| Choice.FirstMaxFrom | 3600-agents/Gregory/agent.py:44-46 | scanning on from a first strict maximum of a prefix gives the first strict maximum of all the moves |
| Choice.FirstMaxIsFirstStrictMaximum | 3600-agents/Gregorous/agent.py:74-76 | starting at -inf with a default move, FirstMax's value bounds every score; unless it is -inf it is the score of its move, and every earlier scored move is strictly lower; at -inf the default stands |
| Choice.FirstMaxChoosesAMove | 3600-agents/Gregorous/agent.py:74-76 | the pick is the default or one of the moves |
| Choice.FirstMaxKeepsTop | 3600-agents/Gregory/agent.py:44-46 | a pick at +inf is never replaced, because nothing is strictly greater |
| GregorousEval.ParityBonus | 3600-agents/Gregorous/agent.py:27-31 | the bonus is 0 or 5, and 5 exactly when (x+y) mod 2 matches the chicken's parity and the square holds neither an egg nor a turd of the player |
| GregorousEval.EdgeTerm | 3600-agents/Gregorous/agent.py:35-36 | on the 8 x 8 board the edge term lies in [0, 1.2] |
| GregorousEval.RevisitPenalty | 3600-agents/Gregorous/agent.py:38-39 | the penalty is 1 exactly when the square is in the visited set, and 0 exactly when it is not |
| GregorousEval.Evaluate | 3600-agents/Gregorous/agent.py:18-40 | on the board, the score minus 10 x egg difference minus the turd difference lies in [-1, 6.2] |
| GregorousEval.EdgeTermFavoursCentre | 3600-agents/Gregorous/agent.py:34-36 | each step from the left half of a row toward the middle adds 0.2; each of the four central squares earns 1.2 and a corner 0 |
| GregorousEval.RevisitCostsOne | 3600-agents/Gregorous/agent.py:38-39 | a visit to the current square costs exactly one point, and no other square of the visited set matters |
| GregorousEval.VisitedNeverRaisesScore | 3600-agents/Gregorous/agent.py:38-39 | as the visited set grows, the score of a board can only fall |
| GregorousEval.EggAdvantageDominates | 3600-agents/Gregorous/agent.py:25-36 | on the board, with equal turd differences, a larger egg difference always scores higher, whatever the other terms |
| GregorousSearch.MaxValueBelowTop | 3600-agents/Gregorous/agent.py:43-63 | the recursive maximum is never +inf |
| GregorousSearch.BestSuccessorBelowTop | 3600-agents/Gregorous/agent.py:51-63 | the best successor value is never +inf |
| GregorousSearch.SearchBelowTop | 3600-agents/Gregorous/agent.py:43-63 | whatever the clock and window, the search never returns +inf |
| GregorousSearch.SearchLevelBelowTop | 3600-agents/Gregorous/agent.py:51-63 | whatever the clock and window, the search loop never returns +inf |
| GregorousSearch.SearchIsMaxValue | 3600-agents/Gregorous/agent.py:43-63 | with an unhurried clock, beta = +inf and alpha below +inf, the search is the plain recursive maximum over reversed forecasts |
| GregorousSearch.SearchLevelIsBestSuccessor | 3600-agents/Gregorous/agent.py:51-63 | under the same conditions the loop ends on the maximum over all successors |
| GregorousSearch.SearchIgnoresAlpha | 3600-agents/Gregorous/agent.py:43-63 | whatever the clock, with beta = +inf (as on every call, lines 57 and 73) and alpha below +inf, the alpha passed in changes neither the value nor the clock readings taken: the prune of lines 61-62 never fires |
| GregorousSearch.SearchLevelIgnoresAlpha | 3600-agents/Gregorous/agent.py:51-63 | the same for the loop over the moves: whatever the clock, two alphas below +inf give the same Outcome |
| GregorousSearch.SearchLevelNoSuccessor | 3600-agents/Gregorous/agent.py:52-55 | when every remaining forecast_move gives None, the loop returns best unchanged |
| GregorousSearch.NoForecastIsNegInf | 3600-agents/Gregorous/agent.py:45-63 | a search with time, depth and moves, but no forecast, returns -inf |
| GregorousSearch.Minimax | 3600-agents/Gregorous/agent.py:43-63 | the imperative search computes Search and always reads the clock; it evaluates the board on a low clock, at depth 0 or with no moves; with an unhurried clock, beta = +inf and alpha below +inf, it returns the recursive maximum |
| GregorousSearch.MaximizeOver | 3600-agents/Gregorous/agent.py:51-63 | the for-loop over the reversed forecasts, with its skip and its prune, computes SearchLevel |
| GregorousAgent.RootLoopKeepsValidMove | 3600-agents/Gregorous/agent.py:68-76 | whatever the clock, the root loop's best_move is None or one of the valid moves |
| GregorousAgent.ChooseMoveReturnsValidMove | 3600-agents/Gregorous/agent.py:65-80 | the chosen move is None exactly when there is no valid move, and otherwise a valid move |
| GregorousAgent.RootLoopFollowsFirstMax | 3600-agents/Gregorous/agent.py:66-76 | with an unhurried clock, the root loop's best score is FirstMax's value over the depth-6 recursive maxima; best_move is None exactly while that score is -inf, and otherwise FirstMax's move |
| GregorousAgent.ChooseMovePicksFirstBest | 3600-agents/Gregorous/agent.py:65-80 | with an unhurried clock, play returns the first valid move of strictly greatest score, and the first valid move if every score is -inf; the pick satisfies IsFirstMax |
| GregorousAgent.Agent.constructor | 3600-agents/Gregorous/agent.py:6-11 | the visited set starts as the chicken's square, and the stored colour is the chicken's |
| GregorousAgent.Agent.Play | 3600-agents/Gregorous/agent.py:13-80 | play adds the current square to visited and changes nothing else; it returns ChooseMove under the updated set; the result is None exactly when there is no valid move, and otherwise a valid move |

## Left out

- The game engine is not part of this model: board rules, move generation, win detection and map loading. It is a record of arbitrary deterministic functions, so every property holds for any engine.
- Boards are values. `get_copy`, `reverse_perspective` and `apply_move` on Gregory's copy (lines 87-91) become one pure function, so aliasing and in-place mutation of a board are not modelled.
- `time_left()` is a deterministic function of the number of readings taken during the turn. Real elapsed time, and how it depends on the work done, are outside the model.
- Gregory reads the `time_left` stored at construction (line 7), not the one passed to `play`. The model gives both the same clock.
- Gregory's other constructor fields (lines 8-12) are constants, and no method updates them, so Gregory is modelled as functions and methods without a class.
- Floating point is not modelled. Gregorous's weights 10.0, 5.0, 0.2 and 1.0 are exact reals, so rounding in `0.2 * (dx + dy)` is not captured. Gregory's scores are integers, lifted exactly into the extended reals.
- Neither agent uses `sensor_data`, and neither keeps a memory of hazards, so nothing is modelled for them.
- Debug printing (Gregory lines 9, 52-55) is left out.
- Gregory's `val is None` checks (lines 41-43, 73-74, 93-94) have no counterpart. The search never returns None, because a low clock returns an evaluation.
- Gregorous's `even_color` field (line 11) is stored but never read. The model keeps it as a field and proves only that `play` does not change it.
- GregorySearch.MinimaxRec, GregoryPlay.Play, GregorousSearch.Minimax and GregorousAgent.Agent.Play: the agreement with plain minimax, the recursive maximum and the first-best-move rule is proved only for clocks that never drop below 0.1 s. For other clocks the contracts state the exact clock-dependent result (AlphaBeta, PlaySpec, Search, ChooseMove) and that a valid move is returned.
- GregoryEval.Evaluate: the bound on a heuristic score is stated only when the chicken stands on the board. Off the board the Python `min` can go negative, and only the exact value is modelled.
- The Jeffery and Bob agents are not part of this model.
