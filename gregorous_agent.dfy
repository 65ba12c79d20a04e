/**
 * Gregorous's agent (PlayerAgent): the set of squares its chicken has
 * stood on in the real game, and play's root loop. The root tries every
 * valid move, searches the reversed forecast to depth 6 with the best score
 * so far as alpha, keeps the first move with the strictly greatest score,
 * and falls back on the first valid move when none scores above -inf.
 */
module GregorousAgent {
  import opened ExtReals
  import opened Game
  import opened Choice
  import opened GregorousEval
  import opened GregorousSearch

  datatype RootState = RootState(bestScore: ExtReal, bestMove: Option<Move>, polls: nat)

  /** The loop of lines 68-76 from moves[i] on */
  function RootLoop<B>(eng: Engine<B>, visited: set<Loc>, clock: Clock, polls: nat, board: B, moves: seq<Move>,
                       i: nat, bestScore: ExtReal, bestMove: Option<Move>): RootState
    requires i <= |moves|
    decreases |moves| - i
  {
    if i == |moves| then RootState(bestScore, bestMove, polls)
    else match Successor(eng, board, moves[i])
      case None => RootLoop(eng, visited, clock, polls, board, moves, i + 1, bestScore, bestMove)
      case Some(nb) =>
        var o := Search(eng, visited, clock, polls, nb, ROOT_DEPTH, bestScore, PosInf);
        if Lt(bestScore, o.val) then RootLoop(eng, visited, clock, o.polls, board, moves, i + 1, o.val, Some(moves[i]))
        else RootLoop(eng, visited, clock, o.polls, board, moves, i + 1, bestScore, bestMove)
  }

  /** Lines 66-80, given the visited set as updated at line 16 */
  function ChooseMove<B>(eng: Engine<B>, visited: set<Loc>, clock: Clock, board: B): Option<Move> {
    var moves := eng.validMoves(board);
    var r := RootLoop(eng, visited, clock, 0, board, moves, 0, NegInf, None);
    if r.bestMove.None? && |moves| > 0 then Some(moves[0]) else r.bestMove
  }

  // ---------------------------------------------------------------------
  // Membership, for every clock

  lemma {:induction false} RootLoopKeepsValidMove<B>(eng: Engine<B>, visited: set<Loc>, clock: Clock, polls: nat,
                                                    board: B, moves: seq<Move>, i: nat, bestScore: ExtReal,
                                                    bestMove: Option<Move>)
    requires i <= |moves| && (bestMove.Some? ==> bestMove.value in moves)
    ensures var r := RootLoop(eng, visited, clock, polls, board, moves, i, bestScore, bestMove);
      r.bestMove.Some? ==> r.bestMove.value in moves
    decreases |moves| - i
  {
    if i < |moves| {
      match Successor(eng, board, moves[i])
      case None =>
        RootLoopKeepsValidMove(eng, visited, clock, polls, board, moves, i + 1, bestScore, bestMove);
      case Some(nb) =>
        var o := Search(eng, visited, clock, polls, nb, ROOT_DEPTH, bestScore, PosInf);
        if Lt(bestScore, o.val) {
          RootLoopKeepsValidMove(eng, visited, clock, o.polls, board, moves, i + 1, o.val, Some(moves[i]));
        } else {
          RootLoopKeepsValidMove(eng, visited, clock, o.polls, board, moves, i + 1, bestScore, bestMove);
        }
    }
  }

  /** play returns None exactly when there are no valid moves, and otherwise one of them */
  lemma ChooseMoveReturnsValidMove<B>(eng: Engine<B>, visited: set<Loc>, clock: Clock, board: B)
    ensures ChooseMove(eng, visited, clock, board).None? <==> |eng.validMoves(board)| == 0
    ensures ChooseMove(eng, visited, clock, board).Some? ==>
      ChooseMove(eng, visited, clock, board).value in eng.validMoves(board)
  {
    RootLoopKeepsValidMove(eng, visited, clock, 0, board, eng.validMoves(board), 0, NegInf, None);
  }

  // ---------------------------------------------------------------------
  // With time to spare: the first move of greatest recursive maximum

  /** A root move's score with an unhurried clock: None when forecast_move gives None */
  function RootScore<B>(eng: Engine<B>, visited: set<Loc>, board: B, m: Move): Option<ExtReal> {
    match Successor(eng, board, m)
    case None => None
    case Some(nb) => Some(MaxValue(eng, visited, nb, ROOT_DEPTH))
  }

  function RootScores<B>(eng: Engine<B>, visited: set<Loc>, board: B, moves: seq<Move>): (scores: seq<Option<ExtReal>>)
    ensures |scores| == |moves|
    ensures forall j :: 0 <= j < |moves| ==> scores[j] == RootScore(eng, visited, board, moves[j])
  {
    seq(|moves|, j requires 0 <= j < |moves| => RootScore(eng, visited, board, moves[j]))
  }

  /**
   * The root loop is FirstMax on the plain scores: best_move is None exactly
   * while best_score is -inf, and otherwise the pick's move.
   */
  lemma {:induction false} RootLoopFollowsFirstMax<B>(eng: Engine<B>, visited: set<Loc>, clock: Clock, polls: nat,
                                                     board: B, moves: seq<Move>, i: nat, bestScore: ExtReal,
                                                     bestMove: Option<Move>, held: Move)
    requires Unhurried(clock) && i <= |moves| && bestScore != PosInf
    requires bestMove == if bestScore == NegInf then None else Some(held)
    ensures var r := RootLoop(eng, visited, clock, polls, board, moves, i, bestScore, bestMove);
      var f := FirstMax(moves, RootScores(eng, visited, board, moves), i, Pick(held, bestScore));
      r.bestScore == f.val && r.bestMove == (if f.val == NegInf then None else Some(f.choice))
    decreases |moves| - i
  {
    var scores := RootScores(eng, visited, board, moves);
    if i < |moves| {
      match Successor(eng, board, moves[i])
      case None =>
        RootLoopFollowsFirstMax(eng, visited, clock, polls, board, moves, i + 1, bestScore, bestMove, held);
      case Some(nb) =>
        var o := Search(eng, visited, clock, polls, nb, ROOT_DEPTH, bestScore, PosInf);
        SearchIsMaxValue(eng, visited, clock, polls, nb, ROOT_DEPTH, bestScore);
        MaxValueBelowTop(eng, visited, nb, ROOT_DEPTH);
        assert scores[i] == Some(o.val);
        if Lt(bestScore, o.val) {
          RootLoopFollowsFirstMax(eng, visited, clock, o.polls, board, moves, i + 1, o.val, Some(moves[i]), moves[i]);
        } else {
          RootLoopFollowsFirstMax(eng, visited, clock, o.polls, board, moves, i + 1, bestScore, bestMove, held);
        }
    }
  }

  /**
   * With an unhurried clock play returns the first valid move whose reversed
   * forecast has the strictly greatest depth-6 recursive maximum, and the
   * first valid move when none scores above -inf: the fallback coincides
   * with FirstMax's default.
   */
  lemma ChooseMovePicksFirstBest<B>(eng: Engine<B>, visited: set<Loc>, clock: Clock, board: B)
    requires Unhurried(clock) && |eng.validMoves(board)| > 0
    ensures var moves := eng.validMoves(board);
      var scores := RootScores(eng, visited, board, moves);
      var f := FirstMax(moves, scores, 0, Pick(moves[0], NegInf));
      ChooseMove(eng, visited, clock, board) == Some(f.choice) && IsFirstMax(moves, scores, |moves|, moves[0], f)
  {
    var moves := eng.validMoves(board);
    RootLoopFollowsFirstMax(eng, visited, clock, 0, board, moves, 0, NegInf, None, moves[0]);
    FirstMaxIsFirstStrictMaximum(moves, RootScores(eng, visited, board, moves), moves[0]);
  }

  // ---------------------------------------------------------------------
  // The agent

  class Agent {
    /** squares this chicken has stood on in the real game; it only grows */
    var visited: set<Loc>
    /** the chicken's colour, stored at construction and never read again */
    var evenColor: bool

    constructor<B>(eng: Engine<B>, board: B)
      ensures visited == {eng.player(board).loc}
      ensures evenColor == eng.player(board).evenChicken
    {
      visited := {eng.player(board).loc};
      evenColor := eng.player(board).evenChicken;
    }

    method Play<B>(eng: Engine<B>, board: B, clock: Clock) returns (move: Option<Move>)
      modifies this
      ensures visited == old(visited) + {eng.player(board).loc}
      ensures evenColor == old(evenColor)
      ensures move == ChooseMove(eng, visited, clock, board)
      ensures move.None? <==> |eng.validMoves(board)| == 0
      ensures move.Some? ==> move.value in eng.validMoves(board)
    {
      visited := visited + {eng.player(board).loc};
      var polls := 0;
      var bestScore := NegInf;
      var bestMove: Option<Move> := None;
      var moves := eng.validMoves(board);
      for i := 0 to |moves|
        invariant visited == old(visited) + {eng.player(board).loc} && evenColor == old(evenColor)
        invariant RootLoop(eng, visited, clock, polls, board, moves, i, bestScore, bestMove)
                  == RootLoop(eng, visited, clock, 0, board, moves, 0, NegInf, None)
      {
        var newBoard := eng.forecastMove(board, moves[i]);
        if newBoard.None? {
          continue;
        }
        var next := eng.reversePerspective(newBoard.value);
        assert Successor(eng, board, moves[i]) == Some(next);
        var score, p := Minimax(eng, visited, clock, polls, next, ROOT_DEPTH, bestScore, PosInf);
        polls := p;
        if Lt(bestScore, score) {
          bestScore := score;
          bestMove := Some(moves[i]);
        }
      }
      if bestMove.None? && |eng.validMoves(board)| > 0 {
        bestMove := Some(eng.validMoves(board)[0]);
      }
      move := bestMove;
      ChooseMoveReturnsValidMove(eng, visited, clock, board);
    }
  }
}
