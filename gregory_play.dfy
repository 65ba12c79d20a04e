/**
 * Gregory's move choice (PlayerAgent.play): iterative deepening over depths
 * 1 to 8. Each depth iteration scores the valid moves in order with
 * MinimaxRec, using the best value so far as alpha, and keeps the first
 * move with the strictly greatest value. An iteration cut short by the
 * clock still replaces the move held before it (lines 31-32 then 51).
 */
module GregoryPlay {
  import opened ExtReals
  import opened Game
  import opened Choice
  import opened GregorySearch

  const MAX_DEPTH := 8
  /** no new depth iteration starts below this many seconds */
  const DEEPEN_RESERVE: real := 0.1
  /** no further root move is tried below this many seconds */
  const MOVE_RESERVE: real := 0.05

  datatype Iteration = Iteration(best: Move, bestVal: ExtReal, polls: nat)

  /** The loop of lines 30-49 at the given depth, from moves[i] on */
  function RootLevel<B>(eng: Engine<B>, clock: Clock, polls: nat, board: B, moves: seq<Move>, depth: nat,
                        i: nat, alpha: ExtReal, bestVal: ExtReal, current: Move): Iteration
    requires depth >= 1 && i <= |moves|
    decreases |moves| - i
  {
    if i == |moves| then Iteration(current, bestVal, polls)
    else if clock(polls) < MOVE_RESERVE then Iteration(current, bestVal, polls + 1)
    else if !eng.isValidMove(board, moves[i]) then
      RootLevel(eng, clock, polls + 1, board, moves, depth, i + 1, alpha, bestVal, current)
    else match eng.forecastMove(board, moves[i])
      case None => RootLevel(eng, clock, polls + 1, board, moves, depth, i + 1, alpha, bestVal, current)
      case Some(nb) =>
        var o := AlphaBeta(eng, clock, polls + 1, nb, depth - 1, alpha, PosInf, false);
        if Lt(bestVal, o.val) then
          var alpha' := Max(alpha, o.val);
          if Le(PosInf, alpha') then Iteration(moves[i], o.val, o.polls)
          else RootLevel(eng, clock, o.polls, board, moves, depth, i + 1, alpha', o.val, moves[i])
        else RootLevel(eng, clock, o.polls, board, moves, depth, i + 1, alpha, bestVal, current)
  }

  /** The move held after the deepening loop and the number of depth iterations begun */
  datatype Deepening = Deepening(best: Move, iterations: nat, polls: nat)

  /** The loop of lines 22-51 from the given depth on, holding best */
  function Deepen<B>(eng: Engine<B>, clock: Clock, polls: nat, board: B, moves: seq<Move>,
                     depth: nat, best: Move): Deepening
    requires 1 <= depth <= MAX_DEPTH + 1
    decreases MAX_DEPTH + 1 - depth
  {
    if depth > MAX_DEPTH then Deepening(best, depth - 1, polls)
    else if clock(polls) < DEEPEN_RESERVE then Deepening(best, depth - 1, polls + 1)
    else
      var it := RootLevel(eng, clock, polls + 1, board, moves, depth, 0, NegInf, NegInf, best);
      Deepen(eng, clock, it.polls, board, moves, depth + 1, it.best)
  }

  /** play(board, ...): None exactly when there is no valid move */
  function PlaySpec<B>(eng: Engine<B>, clock: Clock, board: B): Option<Move> {
    var moves := eng.validMoves(board);
    if |moves| == 0 then None
    else Some(Deepen(eng, clock, 0, board, moves, 1, moves[0]).best)
  }

  // ---------------------------------------------------------------------
  // Membership and the iteration bound, for every clock

  lemma {:induction false} RootLevelKeepsValidMove<B>(eng: Engine<B>, clock: Clock, polls: nat, board: B,
                                                      moves: seq<Move>, depth: nat, i: nat, alpha: ExtReal,
                                                      bestVal: ExtReal, current: Move)
    requires depth >= 1 && i <= |moves| && current in moves
    ensures RootLevel(eng, clock, polls, board, moves, depth, i, alpha, bestVal, current).best in moves
    decreases |moves| - i
  {
    if i < |moves| && clock(polls) >= MOVE_RESERVE {
      if !eng.isValidMove(board, moves[i]) {
        RootLevelKeepsValidMove(eng, clock, polls + 1, board, moves, depth, i + 1, alpha, bestVal, current);
      } else {
        match eng.forecastMove(board, moves[i])
        case None =>
          RootLevelKeepsValidMove(eng, clock, polls + 1, board, moves, depth, i + 1, alpha, bestVal, current);
        case Some(nb) =>
          var o := AlphaBeta(eng, clock, polls + 1, nb, depth - 1, alpha, PosInf, false);
          if Lt(bestVal, o.val) {
            RootLevelKeepsValidMove(eng, clock, o.polls, board, moves, depth, i + 1,
                                    Max(alpha, o.val), o.val, moves[i]);
          } else {
            RootLevelKeepsValidMove(eng, clock, o.polls, board, moves, depth, i + 1, alpha, bestVal, current);
          }
      }
    }
  }

  /** The held move stays a valid move, and at most MAX_DEPTH iterations run */
  lemma {:induction false} DeepenKeepsValidMove<B>(eng: Engine<B>, clock: Clock, polls: nat, board: B,
                                                  moves: seq<Move>, depth: nat, best: Move)
    requires 1 <= depth <= MAX_DEPTH + 1 && best in moves
    ensures var d := Deepen(eng, clock, polls, board, moves, depth, best);
      d.best in moves && depth - 1 <= d.iterations <= MAX_DEPTH
    decreases MAX_DEPTH + 1 - depth
  {
    if depth <= MAX_DEPTH && clock(polls) >= DEEPEN_RESERVE {
      var it := RootLevel(eng, clock, polls + 1, board, moves, depth, 0, NegInf, NegInf, best);
      RootLevelKeepsValidMove(eng, clock, polls + 1, board, moves, depth, 0, NegInf, NegInf, best);
      DeepenKeepsValidMove(eng, clock, it.polls, board, moves, depth + 1, it.best);
    }
  }

  /** play returns None exactly when there are no valid moves, and otherwise one of them */
  lemma PlayReturnsValidMove<B>(eng: Engine<B>, clock: Clock, board: B)
    ensures PlaySpec(eng, clock, board).None? <==> |eng.validMoves(board)| == 0
    ensures PlaySpec(eng, clock, board).Some? ==> PlaySpec(eng, clock, board).value in eng.validMoves(board)
  {
    var moves := eng.validMoves(board);
    if |moves| > 0 {
      DeepenKeepsValidMove(eng, clock, 0, board, moves, 1, moves[0]);
    }
  }

  /**
   * A depth iteration the clock cuts short still counts: the break of lines
   * 31-32 leaves the move loop, and line 51 then replaces the held move with
   * the partial pick. If the first move scores above -inf and the clock
   * stays below 0.05 s from the end of its search on, the deepening ends on
   * that first move, with this depth counted, whatever move `best` the
   * earlier depths chose.
   */
  lemma PartialIterationIsKept<B>(eng: Engine<B>, clock: Clock, polls: nat, board: B, moves: seq<Move>,
                                  depth: nat, best: Move)
    requires 1 <= depth <= MAX_DEPTH && |moves| > 0
    requires clock(polls) >= DEEPEN_RESERVE && clock(polls + 1) >= MOVE_RESERVE
    requires eng.isValidMove(board, moves[0]) && eng.forecastMove(board, moves[0]).Some?
    requires var o := AlphaBeta(eng, clock, polls + 2, eng.forecastMove(board, moves[0]).value,
                                depth - 1, NegInf, PosInf, false);
      o.val != NegInf && forall n: nat :: n >= o.polls ==> clock(n) < MOVE_RESERVE
    ensures var d := Deepen(eng, clock, polls, board, moves, depth, best);
      d.best == moves[0] && d.iterations == depth
  {
    var o := AlphaBeta(eng, clock, polls + 2, eng.forecastMove(board, moves[0]).value,
                       depth - 1, NegInf, PosInf, false);
    var it := RootLevel(eng, clock, polls + 1, board, moves, depth, 0, NegInf, NegInf, best);
    assert Lt(NegInf, o.val) && Max(NegInf, o.val) == o.val;
    assert o.val != PosInf ==>
      it == RootLevel(eng, clock, o.polls, board, moves, depth, 1, o.val, o.val, moves[0]);
    if o.val == PosInf {
      assert it == Iteration(moves[0], o.val, o.polls);
    } else if |moves| == 1 {
      assert it == Iteration(moves[0], o.val, o.polls);
    } else {
      assert clock(o.polls) < MOVE_RESERVE;
      assert it == Iteration(moves[0], o.val, o.polls + 1);
      assert clock(o.polls + 1) < MOVE_RESERVE;
    }
    DeepenStep(eng, clock, polls, board, moves, depth, best, it);
  }

  // ---------------------------------------------------------------------
  // With time to spare: the first move of greatest minimax value

  /**
   * The value the root gives a move at this depth when the clock never runs
   * low: None for a move is_valid_move rejects or forecast_move cannot
   * apply, otherwise plain minimax of the forecast with the enemy to move.
   */
  function RootScore<B>(eng: Engine<B>, board: B, depth: nat, m: Move): Option<ExtReal>
    requires depth >= 1
  {
    if !eng.isValidMove(board, m) then None
    else match eng.forecastMove(board, m)
      case None => None
      case Some(nb) => Some(PlainMinimax(eng, nb, depth - 1, false))
  }

  function RootScores<B>(eng: Engine<B>, board: B, moves: seq<Move>, depth: nat): (scores: seq<Option<ExtReal>>)
    requires depth >= 1
    ensures |scores| == |moves|
    ensures forall j :: 0 <= j < |moves| ==> scores[j] == RootScore(eng, board, depth, moves[j])
  {
    seq(|moves|, j requires 0 <= j < |moves| => RootScore(eng, board, depth, moves[j]))
  }

  /** The move held after k complete depth iterations, by the reference rule */
  function ChosenAfter<B>(eng: Engine<B>, board: B, moves: seq<Move>, k: nat): Move
    requires |moves| > 0
  {
    if k == 0 then moves[0]
    else FirstMax(moves, RootScores(eng, board, moves, k), 0, Pick(ChosenAfter(eng, board, moves, k - 1), NegInf)).choice
  }

  /**
   * With an unhurried clock, a depth iteration picks what FirstMax picks on
   * the plain minimax values: alpha is always the best value so far, so a
   * value that beats it is exact and one that does not is no better.
   */
  lemma {:induction false} RootLevelFollowsFirstMax<B>(eng: Engine<B>, clock: Clock, polls: nat, board: B,
                                                      moves: seq<Move>, depth: nat, i: nat, alpha: ExtReal,
                                                      bestVal: ExtReal, current: Move)
    requires Unhurried(clock) && depth >= 1 && i <= |moves|
    requires alpha == bestVal && bestVal != PosInf
    ensures var it := RootLevel(eng, clock, polls, board, moves, depth, i, alpha, bestVal, current);
      Pick(it.best, it.bestVal) == FirstMax(moves, RootScores(eng, board, moves, depth), i, Pick(current, bestVal))
    decreases |moves| - i
  {
    var scores := RootScores(eng, board, moves, depth);
    if i < |moves| {
      assert clock(polls) >= 0.1;
      if !eng.isValidMove(board, moves[i]) {
        RootLevelFollowsFirstMax(eng, clock, polls + 1, board, moves, depth, i + 1, alpha, bestVal, current);
      } else {
        match eng.forecastMove(board, moves[i])
        case None =>
          RootLevelFollowsFirstMax(eng, clock, polls + 1, board, moves, depth, i + 1, alpha, bestVal, current);
        case Some(nb) =>
          var o := AlphaBeta(eng, clock, polls + 1, nb, depth - 1, alpha, PosInf, false);
          AlphaBetaFailSoft(eng, clock, polls + 1, nb, depth - 1, alpha, PosInf, false);
          var v := PlainMinimax(eng, nb, depth - 1, false);
          assert scores[i] == Some(v);
          if Lt(bestVal, o.val) {
            assert o.val == v;
            if o.val == PosInf {
              FirstMaxKeepsTop(moves, scores, i + 1, Pick(moves[i], v));
            } else {
              RootLevelFollowsFirstMax(eng, clock, o.polls, board, moves, depth, i + 1, o.val, o.val, moves[i]);
            }
          } else {
            assert !Lt(bestVal, v);
            RootLevelFollowsFirstMax(eng, clock, o.polls, board, moves, depth, i + 1, alpha, bestVal, current);
          }
      }
    }
  }

  /** Holding the reference choice of the depths before, the deepening ends on the depth-8 choice */
  lemma {:induction false} DeepenFollowsReference<B>(eng: Engine<B>, clock: Clock, polls: nat, board: B,
                                                    moves: seq<Move>, depth: nat, held: Move)
    requires Unhurried(clock) && |moves| > 0 && 1 <= depth <= MAX_DEPTH + 1
    requires held == ChosenAfter(eng, board, moves, depth - 1)
    ensures var d := Deepen(eng, clock, polls, board, moves, depth, held);
      d.best == ChosenAfter(eng, board, moves, MAX_DEPTH) && d.iterations == MAX_DEPTH
    decreases MAX_DEPTH + 1 - depth
  {
    if depth <= MAX_DEPTH {
      assert clock(polls) >= 0.1;
      var it := RootLevel(eng, clock, polls + 1, board, moves, depth, 0, NegInf, NegInf, held);
      RootLevelFollowsFirstMax(eng, clock, polls + 1, board, moves, depth, 0, NegInf, NegInf, held);
      var r := FirstMax(moves, RootScores(eng, board, moves, depth), 0, Pick(held, NegInf));
      assert it.best == r.choice;
      assert ChosenAfter(eng, board, moves, depth) == r.choice;
      assert Deepen(eng, clock, polls, board, moves, depth, held)
             == Deepen(eng, clock, it.polls, board, moves, depth + 1, it.best);
      DeepenFollowsReference(eng, clock, it.polls, board, moves, depth + 1, it.best);
    }
  }

  /**
   * With an unhurried clock all eight iterations complete and play returns
   * the first valid move whose depth-8 minimax value is the strictly
   * greatest; only when no move scores above -inf does the depth-7 choice
   * stand.
   */
  lemma PlayPicksFirstBestMove<B>(eng: Engine<B>, clock: Clock, board: B)
    requires Unhurried(clock) && |eng.validMoves(board)| > 0
    ensures var moves := eng.validMoves(board);
      var scores := RootScores(eng, board, moves, MAX_DEPTH);
      var held := ChosenAfter(eng, board, moves, MAX_DEPTH - 1);
      var r := FirstMax(moves, scores, 0, Pick(held, NegInf));
      && PlaySpec(eng, clock, board) == Some(r.choice)
      && Deepen(eng, clock, 0, board, moves, 1, moves[0]).iterations == MAX_DEPTH
      && IsFirstMax(moves, scores, |moves|, held, r)
  {
    var moves := eng.validMoves(board);
    DeepenFollowsReference(eng, clock, 0, board, moves, 1, moves[0]);
    FirstMaxIsFirstStrictMaximum(moves, RootScores(eng, board, moves, MAX_DEPTH), ChosenAfter(eng, board, moves, MAX_DEPTH - 1));
  }

  // ---------------------------------------------------------------------
  // The imperative driver

  /** One depth iteration, lines 25-49: the move it holds at the end and its value */
  method SearchDepth<B>(eng: Engine<B>, clock: Clock, polls: nat, board: B, validMoves: seq<Move>,
                        depth: nat, bestMove: Move) returns (currentBest: Move, bestVal: ExtReal, polls': nat)
    requires depth >= 1
    ensures Iteration(currentBest, bestVal, polls')
            == RootLevel(eng, clock, polls, board, validMoves, depth, 0, NegInf, NegInf, bestMove)
  {
    var alpha := NegInf;
    var beta := PosInf;
    bestVal := NegInf;
    currentBest := bestMove;
    polls' := polls;
    for i := 0 to |validMoves|
      invariant beta == PosInf
      invariant RootLevel(eng, clock, polls', board, validMoves, depth, i, alpha, bestVal, currentBest)
                == RootLevel(eng, clock, polls, board, validMoves, depth, 0, NegInf, NegInf, bestMove)
    {
      var timeLeft := clock(polls');
      polls' := polls' + 1;
      if timeLeft < MOVE_RESERVE {
        break;
      }
      var move := validMoves[i];
      if !eng.isValidMove(board, move) {
        continue;
      }
      var newBoard := eng.forecastMove(board, move);
      if newBoard.None? {
        continue;
      }
      var val, p := MinimaxRec(eng, clock, polls', newBoard.value, depth - 1, alpha, beta, false);
      polls' := p;
      if Lt(bestVal, val) {
        bestVal := val;
        currentBest := move;
        alpha := Max(alpha, bestVal);
        if Le(beta, alpha) {
          break;
        }
      }
    }
  }

  /** One depth iteration that starts: Deepen goes on from where it ends */
  lemma DeepenStep<B>(eng: Engine<B>, clock: Clock, polls: nat, board: B, moves: seq<Move>, depth: nat,
                      best: Move, it: Iteration)
    requires 1 <= depth <= MAX_DEPTH && clock(polls) >= DEEPEN_RESERVE
    requires it == RootLevel(eng, clock, polls + 1, board, moves, depth, 0, NegInf, NegInf, best)
    ensures Deepen(eng, clock, polls, board, moves, depth, best)
            == Deepen(eng, clock, it.polls, board, moves, depth + 1, it.best)
  {
  }

  /** Lines 21-51: the deepening loop from depth 1, holding the first valid move to begin with */
  method IterativeDeepening<B>(eng: Engine<B>, clock: Clock, board: B, validMoves: seq<Move>)
    returns (bestMove: Move)
    requires |validMoves| > 0
    ensures bestMove == Deepen(eng, clock, 0, board, validMoves, 1, validMoves[0]).best
  {
    bestMove := validMoves[0];
    var polls := 0;
    for depth := 1 to MAX_DEPTH + 1
      invariant Deepen(eng, clock, polls, board, validMoves, depth, bestMove)
                == Deepen(eng, clock, 0, board, validMoves, 1, validMoves[0])
    {
      ghost var before := polls;
      var timeLeft := clock(polls);
      polls := polls + 1;
      if timeLeft < DEEPEN_RESERVE {
        break;
      }
      var currentBest, bestVal, p := SearchDepth(eng, clock, polls, board, validMoves, depth, bestMove);
      DeepenStep(eng, clock, before, board, validMoves, depth, bestMove, Iteration(currentBest, bestVal, p));
      polls := p;
      bestMove := currentBest;
    }
  }

  method Play<B>(eng: Engine<B>, clock: Clock, board: B) returns (move: Option<Move>)
    ensures move == PlaySpec(eng, clock, board)
    ensures move.None? <==> |eng.validMoves(board)| == 0
    ensures move.Some? ==> move.value in eng.validMoves(board)
  {
    var validMoves := eng.validMoves(board);
    if |validMoves| == 0 {
      return None;
    }
    var bestMove := IterativeDeepening(eng, clock, board, validMoves);
    move := Some(bestMove);
    PlayReturnsValidMove(eng, clock, board);
  }
}
