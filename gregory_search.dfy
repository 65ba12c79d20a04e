/**
 * Gregory's depth-bounded search (PlayerAgent.minimax_rec): fail-soft
 * alpha-beta with alternating max and min levels. The max level forecasts
 * chicken_player's moves; the min level simulates each enemy move on a copy
 * of the board with the perspective reversed around apply_move.
 *
 * PlainMinimax is the unpruned reference; AlphaBeta is the search exactly as the
 * source runs it, clock readings included; MinimaxRec is the imperative
 * search, proved equal to AlphaBeta. The main theorem is fail-soft
 * correctness: with a clock that never runs low, a result strictly inside
 * (alpha, beta) is the minimax value and one outside bounds it, so a full
 * window gives exactly the minimax value.
 */
module GregorySearch {
  import opened ExtReals
  import opened Game
  import opened GregoryEval

  /** minimax_rec gives up below this many seconds left */
  const LOW_TIME: real := 0.01

  /** evaluate(board) as a search value */
  function Leaf<B>(eng: Engine<B>, b: B): ExtReal {
    Fin(Evaluate(eng, b) as real)
  }

  /**
   * The enemy reply of lines 87-91: copy the board, reverse perspective,
   * apply the move, reverse back; None when apply_move fails. The copy is a
   * value, so b itself is never changed.
   */
  function EnemyReply<B>(eng: Engine<B>, b: B, m: Move): Option<B> {
    match eng.applyMove(eng.reversePerspective(b), m)
    case None => None
    case Some(t) => Some(eng.reversePerspective(t))
  }

  // ---------------------------------------------------------------------
  // The unpruned reference

  /** Plain minimax to the given depth, skipping failed successors */
  function PlainMinimax<B>(eng: Engine<B>, b: B, depth: nat, maximizing: bool): ExtReal
    decreases depth, 1, 0
  {
    if eng.isGameOver(b) || depth == 0 then Leaf(eng, b)
    else if maximizing then
      var moves := eng.validMoves(b);
      if |moves| == 0 then Leaf(eng, b) else MaxPrefix(eng, b, moves, |moves|, depth)
    else
      var moves := eng.enemyMoves(b);
      if |moves| == 0 then Leaf(eng, b) else MinPrefix(eng, b, moves, |moves|, depth)
  }

  /** The largest minimax value among the forecasts of moves[..n] (-inf if none) */
  function MaxPrefix<B>(eng: Engine<B>, b: B, moves: seq<Move>, n: nat, depth: nat): ExtReal
    requires n <= |moves| && depth > 0
    decreases depth, 0, n
  {
    if n == 0 then NegInf
    else match eng.forecastMove(b, moves[n - 1])
      case None => MaxPrefix(eng, b, moves, n - 1, depth)
      case Some(nb) => Max(MaxPrefix(eng, b, moves, n - 1, depth), PlainMinimax(eng, nb, depth - 1, false))
  }

  /** The smallest minimax value among the enemy replies moves[..n] (+inf if none) */
  function MinPrefix<B>(eng: Engine<B>, b: B, moves: seq<Move>, n: nat, depth: nat): ExtReal
    requires n <= |moves| && depth > 0
    decreases depth, 0, n
  {
    if n == 0 then PosInf
    else match EnemyReply(eng, b, moves[n - 1])
      case None => MinPrefix(eng, b, moves, n - 1, depth)
      case Some(nb) => Min(MinPrefix(eng, b, moves, n - 1, depth), PlainMinimax(eng, nb, depth - 1, true))
  }

  // ---------------------------------------------------------------------
  // The search as the source runs it

  /**
   * minimax_rec(b, depth, alpha, beta, maximizing) with the clock read
   * first at reading number `polls`. The clock is only read when the game
   * is not over and depth > 0, as Python's `or` short-circuits.
   */
  function AlphaBeta<B>(eng: Engine<B>, clock: Clock, polls: nat, b: B, depth: nat,
                        alpha: ExtReal, beta: ExtReal, maximizing: bool): Outcome
    decreases depth, 1, 0
  {
    if eng.isGameOver(b) || depth == 0 then Outcome(Leaf(eng, b), polls)
    else if clock(polls) < LOW_TIME then Outcome(Leaf(eng, b), polls + 1)
    else if maximizing then
      var moves := eng.validMoves(b);
      if |moves| == 0 then Outcome(Leaf(eng, b), polls + 1)
      else MaxLevel(eng, clock, polls + 1, b, moves, 0, depth, alpha, beta, NegInf)
    else
      var moves := eng.enemyMoves(b);
      if |moves| == 0 then Outcome(Leaf(eng, b), polls + 1)
      else MinLevel(eng, clock, polls + 1, b, moves, 0, depth, alpha, beta, PosInf)
  }

  /** The loop of lines 68-79 from moves[i] on */
  function MaxLevel<B>(eng: Engine<B>, clock: Clock, polls: nat, b: B, moves: seq<Move>, i: nat,
                       depth: nat, alpha: ExtReal, beta: ExtReal, maxVal: ExtReal): Outcome
    requires i <= |moves| && depth > 0
    decreases depth, 0, |moves| - i
  {
    if i == |moves| then Outcome(maxVal, polls)
    else match eng.forecastMove(b, moves[i])
      case None => MaxLevel(eng, clock, polls, b, moves, i + 1, depth, alpha, beta, maxVal)
      case Some(nb) =>
        var child := AlphaBeta(eng, clock, polls, nb, depth - 1, alpha, beta, false);
        var maxVal' := Max(maxVal, child.val);
        var alpha' := Max(alpha, child.val);
        if Le(beta, alpha') then Outcome(maxVal', child.polls)
        else MaxLevel(eng, clock, child.polls, b, moves, i + 1, depth, alpha', beta, maxVal')
  }

  /** The loop of lines 85-99 from moves[i] on */
  function MinLevel<B>(eng: Engine<B>, clock: Clock, polls: nat, b: B, moves: seq<Move>, i: nat,
                       depth: nat, alpha: ExtReal, beta: ExtReal, minVal: ExtReal): Outcome
    requires i <= |moves| && depth > 0
    decreases depth, 0, |moves| - i
  {
    if i == |moves| then Outcome(minVal, polls)
    else match EnemyReply(eng, b, moves[i])
      case None => MinLevel(eng, clock, polls, b, moves, i + 1, depth, alpha, beta, minVal)
      case Some(nb) =>
        var child := AlphaBeta(eng, clock, polls, nb, depth - 1, alpha, beta, true);
        var minVal' := Min(minVal, child.val);
        var beta' := Min(beta, child.val);
        if Le(beta', alpha) then Outcome(minVal', child.polls)
        else MinLevel(eng, clock, child.polls, b, moves, i + 1, depth, alpha, beta', minVal')
  }

  // ---------------------------------------------------------------------
  // Fail-soft correctness

  /**
   * r is a fail-soft alpha-beta answer for the true value v in the window
   * (alpha, beta): a fail-low r bounds v from above, a fail-high r bounds it
   * from below, and an r inside the window is v.
   */
  predicate FailSoft(r: ExtReal, v: ExtReal, alpha: ExtReal, beta: ExtReal) {
    && (Le(r, alpha) ==> Le(v, r))
    && (Le(beta, r) ==> Le(r, v))
    && (Lt(alpha, r) && Lt(r, beta) ==> v == r)
  }

  lemma {:induction false} MaxPrefixGrows<B>(eng: Engine<B>, b: B, moves: seq<Move>, k: nat, n: nat, depth: nat)
    requires k <= n <= |moves| && depth > 0
    ensures Le(MaxPrefix(eng, b, moves, k, depth), MaxPrefix(eng, b, moves, n, depth))
    decreases n - k
  {
    if k < n {
      MaxPrefixGrows(eng, b, moves, k, n - 1, depth);
    }
  }

  lemma {:induction false} MinPrefixShrinks<B>(eng: Engine<B>, b: B, moves: seq<Move>, k: nat, n: nat, depth: nat)
    requires k <= n <= |moves| && depth > 0
    ensures Le(MinPrefix(eng, b, moves, n, depth), MinPrefix(eng, b, moves, k, depth))
    decreases n - k
  {
    if k < n {
      MinPrefixShrinks(eng, b, moves, k, n - 1, depth);
    }
  }

  /** With an unhurried clock and alpha < beta, AlphaBeta is a fail-soft answer for PlainMinimax */
  lemma {:induction false} AlphaBetaFailSoft<B>(eng: Engine<B>, clock: Clock, polls: nat, b: B, depth: nat,
                                                alpha: ExtReal, beta: ExtReal, maximizing: bool)
    requires Unhurried(clock) && Lt(alpha, beta)
    ensures FailSoft(AlphaBeta(eng, clock, polls, b, depth, alpha, beta, maximizing).val,
                     PlainMinimax(eng, b, depth, maximizing), alpha, beta)
    decreases depth, 1, 0
  {
    if !eng.isGameOver(b) && depth != 0 {
      assert clock(polls) >= 0.1;
      if maximizing {
        var moves := eng.validMoves(b);
        if |moves| > 0 {
          MaxLevelFailSoft(eng, clock, polls + 1, b, moves, 0, depth, alpha, alpha, beta, NegInf);
        }
      } else {
        var moves := eng.enemyMoves(b);
        if |moves| > 0 {
          MinLevelFailSoft(eng, clock, polls + 1, b, moves, 0, depth, beta, alpha, beta, PosInf);
        }
      }
    }
  }

  /**
   * One step of the max loop, on values alone: r is the child's fail-soft
   * answer and v its minimax value. Either the loop prunes, and then r is a
   * lower bound of v at or above beta, or the invariant carries over to
   * the prefix extended by v.
   */
  lemma MaxStep(alpha0: ExtReal, alpha: ExtReal, beta: ExtReal, maxVal: ExtReal, prefix: ExtReal,
                r: ExtReal, v: ExtReal)
    requires alpha == Max(alpha0, maxVal) && Lt(alpha, beta)
    requires Le(prefix, maxVal) && (Lt(alpha0, maxVal) ==> prefix == maxVal)
    requires FailSoft(r, v, alpha, beta)
    ensures Le(beta, Max(alpha, r)) ==> Le(beta, Max(maxVal, r)) && Le(Max(maxVal, r), v)
    ensures !Le(beta, Max(alpha, r)) ==>
      && Max(alpha, r) == Max(alpha0, Max(maxVal, r))
      && Le(Max(prefix, v), Max(maxVal, r))
      && (Lt(alpha0, Max(maxVal, r)) ==> Max(prefix, v) == Max(maxVal, r))
  {
  }

  /** One step of the min loop, the mirror image of MaxStep */
  lemma MinStep(beta0: ExtReal, alpha: ExtReal, beta: ExtReal, minVal: ExtReal, prefix: ExtReal,
                r: ExtReal, v: ExtReal)
    requires beta == Min(beta0, minVal) && Lt(alpha, beta)
    requires Le(minVal, prefix) && (Lt(minVal, beta0) ==> prefix == minVal)
    requires FailSoft(r, v, alpha, beta)
    ensures Le(Min(beta, r), alpha) ==> Le(Min(minVal, r), alpha) && Le(v, Min(minVal, r))
    ensures !Le(Min(beta, r), alpha) ==>
      && Min(beta, r) == Min(beta0, Min(minVal, r))
      && Le(Min(minVal, r), Min(prefix, v))
      && (Lt(Min(minVal, r), beta0) ==> Min(prefix, v) == Min(minVal, r))
  {
  }

  /**
   * The max loop's invariant: maxVal bounds the minimax values seen so far,
   * and equals their maximum once it is above the caller's alpha0.
   */
  lemma {:induction false} MaxLevelFailSoft<B>(eng: Engine<B>, clock: Clock, polls: nat, b: B, moves: seq<Move>,
                                               i: nat, depth: nat, alpha0: ExtReal, alpha: ExtReal, beta: ExtReal,
                                               maxVal: ExtReal)
    requires Unhurried(clock) && i <= |moves| && depth > 0
    requires alpha == Max(alpha0, maxVal) && Lt(alpha, beta)
    requires Le(MaxPrefix(eng, b, moves, i, depth), maxVal)
    requires Lt(alpha0, maxVal) ==> MaxPrefix(eng, b, moves, i, depth) == maxVal
    ensures FailSoft(MaxLevel(eng, clock, polls, b, moves, i, depth, alpha, beta, maxVal).val,
                     MaxPrefix(eng, b, moves, |moves|, depth), alpha0, beta)
    decreases depth, 0, |moves| - i
  {
    if i < |moves| {
      match eng.forecastMove(b, moves[i])
      case None =>
        MaxLevelFailSoft(eng, clock, polls, b, moves, i + 1, depth, alpha0, alpha, beta, maxVal);
      case Some(nb) =>
        var child := AlphaBeta(eng, clock, polls, nb, depth - 1, alpha, beta, false);
        AlphaBetaFailSoft(eng, clock, polls, nb, depth - 1, alpha, beta, false);
        var v := PlainMinimax(eng, nb, depth - 1, false);
        assert MaxPrefix(eng, b, moves, i + 1, depth) == Max(MaxPrefix(eng, b, moves, i, depth), v);
        MaxStep(alpha0, alpha, beta, maxVal, MaxPrefix(eng, b, moves, i, depth), child.val, v);
        var maxVal' := Max(maxVal, child.val);
        var alpha' := Max(alpha, child.val);
        if Le(beta, alpha') {
          MaxPrefixGrows(eng, b, moves, i + 1, |moves|, depth);
        } else {
          MaxLevelFailSoft(eng, clock, child.polls, b, moves, i + 1, depth, alpha0, alpha', beta, maxVal');
        }
    }
  }

  /** The min loop's invariant, the mirror image of the max loop's */
  lemma {:induction false} MinLevelFailSoft<B>(eng: Engine<B>, clock: Clock, polls: nat, b: B, moves: seq<Move>,
                                               i: nat, depth: nat, beta0: ExtReal, alpha: ExtReal, beta: ExtReal,
                                               minVal: ExtReal)
    requires Unhurried(clock) && i <= |moves| && depth > 0
    requires beta == Min(beta0, minVal) && Lt(alpha, beta)
    requires Le(minVal, MinPrefix(eng, b, moves, i, depth))
    requires Lt(minVal, beta0) ==> MinPrefix(eng, b, moves, i, depth) == minVal
    ensures FailSoft(MinLevel(eng, clock, polls, b, moves, i, depth, alpha, beta, minVal).val,
                     MinPrefix(eng, b, moves, |moves|, depth), alpha, beta0)
    decreases depth, 0, |moves| - i
  {
    if i < |moves| {
      match EnemyReply(eng, b, moves[i])
      case None =>
        MinLevelFailSoft(eng, clock, polls, b, moves, i + 1, depth, beta0, alpha, beta, minVal);
      case Some(nb) =>
        var child := AlphaBeta(eng, clock, polls, nb, depth - 1, alpha, beta, true);
        AlphaBetaFailSoft(eng, clock, polls, nb, depth - 1, alpha, beta, true);
        var v := PlainMinimax(eng, nb, depth - 1, true);
        assert MinPrefix(eng, b, moves, i + 1, depth) == Min(MinPrefix(eng, b, moves, i, depth), v);
        MinStep(beta0, alpha, beta, minVal, MinPrefix(eng, b, moves, i, depth), child.val, v);
        var minVal' := Min(minVal, child.val);
        var beta' := Min(beta, child.val);
        if Le(beta', alpha) {
          MinPrefixShrinks(eng, b, moves, i + 1, |moves|, depth);
        } else {
          MinLevelFailSoft(eng, clock, child.polls, b, moves, i + 1, depth, beta0, alpha, beta', minVal');
        }
    }
  }

  /** With the full window (-inf, +inf) the pruned search is exactly plain minimax */
  lemma FullWindowIsMinimax<B>(eng: Engine<B>, clock: Clock, polls: nat, b: B, depth: nat, maximizing: bool)
    requires Unhurried(clock)
    ensures AlphaBeta(eng, clock, polls, b, depth, NegInf, PosInf, maximizing).val == PlainMinimax(eng, b, depth, maximizing)
  {
    AlphaBetaFailSoft(eng, clock, polls, b, depth, NegInf, PosInf, maximizing);
  }

  // ---------------------------------------------------------------------
  // Levels where no successor exists

  lemma {:induction false} MaxLevelNoForecast<B>(eng: Engine<B>, clock: Clock, polls: nat, b: B, moves: seq<Move>,
                                                 i: nat, depth: nat, alpha: ExtReal, beta: ExtReal, maxVal: ExtReal)
    requires i <= |moves| && depth > 0
    requires forall j :: i <= j < |moves| ==> eng.forecastMove(b, moves[j]).None?
    ensures MaxLevel(eng, clock, polls, b, moves, i, depth, alpha, beta, maxVal) == Outcome(maxVal, polls)
    decreases |moves| - i
  {
    if i < |moves| {
      MaxLevelNoForecast(eng, clock, polls, b, moves, i + 1, depth, alpha, beta, maxVal);
    }
  }

  lemma {:induction false} MinLevelNoReply<B>(eng: Engine<B>, clock: Clock, polls: nat, b: B, moves: seq<Move>,
                                              i: nat, depth: nat, alpha: ExtReal, beta: ExtReal, minVal: ExtReal)
    requires i <= |moves| && depth > 0
    requires forall j :: i <= j < |moves| ==> EnemyReply(eng, b, moves[j]).None?
    ensures MinLevel(eng, clock, polls, b, moves, i, depth, alpha, beta, minVal) == Outcome(minVal, polls)
    decreases |moves| - i
  {
    if i < |moves| {
      MinLevelNoReply(eng, clock, polls, b, moves, i + 1, depth, alpha, beta, minVal);
    }
  }

  /**
   * A max level that has moves but whose every forecast_move gives None
   * returns -inf, and a min level whose every apply_move fails returns +inf,
   * whatever the window.
   */
  lemma NoSuccessorIsInfinite<B>(eng: Engine<B>, clock: Clock, polls: nat, b: B, depth: nat,
                                 alpha: ExtReal, beta: ExtReal, maximizing: bool)
    requires !eng.isGameOver(b) && depth > 0 && clock(polls) >= LOW_TIME
    requires maximizing ==>
      (|eng.validMoves(b)| > 0 && forall m :: m in eng.validMoves(b) ==> eng.forecastMove(b, m).None?)
    requires !maximizing ==>
      (|eng.enemyMoves(b)| > 0 && forall m :: m in eng.enemyMoves(b) ==> EnemyReply(eng, b, m).None?)
    ensures AlphaBeta(eng, clock, polls, b, depth, alpha, beta, maximizing).val
            == if maximizing then NegInf else PosInf
  {
    if maximizing {
      MaxLevelNoForecast(eng, clock, polls + 1, b, eng.validMoves(b), 0, depth, alpha, beta, NegInf);
    } else {
      MinLevelNoReply(eng, clock, polls + 1, b, eng.enemyMoves(b), 0, depth, alpha, beta, PosInf);
    }
  }

  // ---------------------------------------------------------------------
  // The imperative search

  /**
   * minimax_rec: the clock is read through `polls` and the number of
   * readings afterwards is returned. The result is never None: the timeout
   * path returns an evaluation, so the `val is None` checks of lines 73-74
   * and 93-94 have no counterpart here. The two levels' loops are the
   * methods MaxLevelLoop and MinLevelLoop.
   */
  method MinimaxRec<B>(eng: Engine<B>, clock: Clock, polls: nat, b: B, depth: nat,
                       alpha: ExtReal, beta: ExtReal, maximizing: bool) returns (val: ExtReal, polls': nat)
    ensures Outcome(val, polls') == AlphaBeta(eng, clock, polls, b, depth, alpha, beta, maximizing)
    ensures polls' >= polls
    // evaluate(board) on a finished game, at depth 0, on a low clock, or with no moves to try
    ensures eng.isGameOver(b) || depth == 0 ==> val == Leaf(eng, b) && polls' == polls
    ensures !eng.isGameOver(b) && depth > 0 ==>
      (clock(polls) < LOW_TIME ||
       (maximizing && |eng.validMoves(b)| == 0) || (!maximizing && |eng.enemyMoves(b)| == 0)) ==>
        val == Leaf(eng, b)
    // with time to spare, a fail-soft answer for plain minimax
    ensures Unhurried(clock) && Lt(alpha, beta) ==> FailSoft(val, PlainMinimax(eng, b, depth, maximizing), alpha, beta)
    decreases depth, 1
  {
    if eng.isGameOver(b) || depth == 0 {
      return Leaf(eng, b), polls;
    }
    var timeLeft := clock(polls);
    polls' := polls + 1;
    if timeLeft < LOW_TIME {
      return Leaf(eng, b), polls';
    }
    if maximizing {
      var moves := eng.validMoves(b);
      if |moves| == 0 {
        return Leaf(eng, b), polls';
      }
      val, polls' := MaxLevelLoop(eng, clock, polls', b, moves, depth, alpha, beta);
    } else {
      var moves := eng.enemyMoves(b);
      if |moves| == 0 {
        return Leaf(eng, b), polls';
      }
      val, polls' := MinLevelLoop(eng, clock, polls', b, moves, depth, alpha, beta);
    }
    if Unhurried(clock) && Lt(alpha, beta) {
      AlphaBetaFailSoft(eng, clock, polls, b, depth, alpha, beta, maximizing);
    }
  }

  /** Lines 64 and 68-79: the max level's loop over chicken_player's forecasts */
  method MaxLevelLoop<B>(eng: Engine<B>, clock: Clock, polls: nat, b: B, moves: seq<Move>, depth: nat,
                         alpha: ExtReal, beta: ExtReal) returns (maxVal: ExtReal, polls': nat)
    requires depth > 0
    ensures Outcome(maxVal, polls') == MaxLevel(eng, clock, polls, b, moves, 0, depth, alpha, beta, NegInf)
    ensures polls' >= polls
    decreases depth, 0
  {
    maxVal := NegInf;
    polls' := polls;
    var a := alpha;
    for i := 0 to |moves|
      invariant polls' >= polls
      invariant MaxLevel(eng, clock, polls', b, moves, i, depth, a, beta, maxVal)
                == MaxLevel(eng, clock, polls, b, moves, 0, depth, alpha, beta, NegInf)
    {
      var next := eng.forecastMove(b, moves[i]);
      if next.None? {
        continue;
      }
      var v, p := MinimaxRec(eng, clock, polls', next.value, depth - 1, a, beta, false);
      assert MaxLevel(eng, clock, polls', b, moves, i, depth, a, beta, maxVal)
             == if Le(beta, Max(a, v)) then Outcome(Max(maxVal, v), p)
                else MaxLevel(eng, clock, p, b, moves, i + 1, depth, Max(a, v), beta, Max(maxVal, v));
      polls' := p;
      maxVal := Max(maxVal, v);
      a := Max(a, v);
      if Le(beta, a) {
        break;
      }
    }
  }

  /** Lines 81 and 85-99: the min level's loop over the enemy's replies */
  method MinLevelLoop<B>(eng: Engine<B>, clock: Clock, polls: nat, b: B, moves: seq<Move>, depth: nat,
                         alpha: ExtReal, beta: ExtReal) returns (minVal: ExtReal, polls': nat)
    requires depth > 0
    ensures Outcome(minVal, polls') == MinLevel(eng, clock, polls, b, moves, 0, depth, alpha, beta, PosInf)
    ensures polls' >= polls
    decreases depth, 0
  {
    minVal := PosInf;
    polls' := polls;
    var bt := beta;
    for i := 0 to |moves|
      invariant polls' >= polls
      invariant MinLevel(eng, clock, polls', b, moves, i, depth, alpha, bt, minVal)
                == MinLevel(eng, clock, polls, b, moves, 0, depth, alpha, beta, PosInf)
    {
      var next := EnemyReply(eng, b, moves[i]);
      if next.None? {
        continue;
      }
      var v, p := MinimaxRec(eng, clock, polls', next.value, depth - 1, alpha, bt, true);
      assert MinLevel(eng, clock, polls', b, moves, i, depth, alpha, bt, minVal)
             == if Le(Min(bt, v), alpha) then Outcome(Min(minVal, v), p)
                else MinLevel(eng, clock, p, b, moves, i + 1, depth, alpha, Min(bt, v), Min(minVal, v));
      polls' := p;
      minVal := Min(minVal, v);
      bt := Min(bt, v);
      if Le(bt, alpha) {
        break;
      }
    }
  }
}
