/**
 * Gregorous's search (the inner `minimax` of play) and its root loop. The
 * search never minimises: every level forecasts chicken_player's moves,
 * reverses the perspective of each forecast and takes the maximum. beta is
 * +inf on every call and no value is +inf, so the prune never fires and
 * alpha has no effect: the search is a plain recursive maximum.
 */
module GregorousSearch {
  import opened ExtReals
  import opened Game
  import opened Choice
  import opened GregorousEval

  /** the search gives up below this many seconds left */
  const SEARCH_RESERVE: real := 0.1
  /** the depth each root move's successor is searched to */
  const ROOT_DEPTH := 6

  function Leaf<B>(eng: Engine<B>, visited: set<Loc>, b: B): ExtReal {
    Fin(Evaluate(eng, visited, b))
  }

  /** forecast_move followed by reverse_perspective on the fresh board */
  function Successor<B>(eng: Engine<B>, b: B, m: Move): Option<B> {
    match eng.forecastMove(b, m)
    case None => None
    case Some(nb) => Some(eng.reversePerspective(nb))
  }

  // ---------------------------------------------------------------------
  // The unpruned reference

  /** The recursive maximum: every level maximises over reversed successors */
  function MaxValue<B>(eng: Engine<B>, visited: set<Loc>, b: B, depth: nat): ExtReal
    decreases depth, 1, 0
  {
    var moves := eng.validMoves(b);
    if depth == 0 || |moves| == 0 then Leaf(eng, visited, b)
    else BestSuccessor(eng, visited, b, moves, |moves|, depth)
  }

  /** The largest MaxValue among the successors of moves[..n] (-inf if none) */
  function BestSuccessor<B>(eng: Engine<B>, visited: set<Loc>, b: B, moves: seq<Move>, n: nat, depth: nat): ExtReal
    requires n <= |moves| && depth > 0
    decreases depth, 0, n
  {
    if n == 0 then NegInf
    else match Successor(eng, b, moves[n - 1])
      case None => BestSuccessor(eng, visited, b, moves, n - 1, depth)
      case Some(nb) => Max(BestSuccessor(eng, visited, b, moves, n - 1, depth), MaxValue(eng, visited, nb, depth - 1))
  }

  // ---------------------------------------------------------------------
  // The search as the source runs it

  /** minimax(bd, depth, alpha, beta), reading the clock first, on every call */
  function Search<B>(eng: Engine<B>, visited: set<Loc>, clock: Clock, polls: nat, b: B, depth: nat,
                     alpha: ExtReal, beta: ExtReal): Outcome
    decreases depth, 1, 0
  {
    if clock(polls) < SEARCH_RESERVE then Outcome(Leaf(eng, visited, b), polls + 1)
    else
      var moves := eng.validMoves(b);
      if depth == 0 || |moves| == 0 then Outcome(Leaf(eng, visited, b), polls + 1)
      else SearchLevel(eng, visited, clock, polls + 1, b, moves, 0, depth, alpha, beta, NegInf)
  }

  /** The loop of lines 52-62 from moves[i] on */
  function SearchLevel<B>(eng: Engine<B>, visited: set<Loc>, clock: Clock, polls: nat, b: B, moves: seq<Move>,
                          i: nat, depth: nat, alpha: ExtReal, beta: ExtReal, best: ExtReal): Outcome
    requires i <= |moves| && depth > 0
    decreases depth, 0, |moves| - i
  {
    if i == |moves| then Outcome(best, polls)
    else match Successor(eng, b, moves[i])
      case None => SearchLevel(eng, visited, clock, polls, b, moves, i + 1, depth, alpha, beta, best)
      case Some(nb) =>
        var o := Search(eng, visited, clock, polls, nb, depth - 1, alpha, beta);
        var best' := if Lt(best, o.val) then o.val else best;
        var alpha' := Max(alpha, o.val);
        if Le(beta, alpha') then Outcome(best', o.polls)
        else SearchLevel(eng, visited, clock, o.polls, b, moves, i + 1, depth, alpha', beta, best')
  }

  // ---------------------------------------------------------------------
  // Properties of the search

  lemma {:induction false} MaxValueBelowTop<B>(eng: Engine<B>, visited: set<Loc>, b: B, depth: nat)
    ensures MaxValue(eng, visited, b, depth) != PosInf
    decreases depth, 1, 0
  {
    var moves := eng.validMoves(b);
    if depth > 0 && |moves| > 0 {
      BestSuccessorBelowTop(eng, visited, b, moves, |moves|, depth);
    }
  }

  lemma {:induction false} BestSuccessorBelowTop<B>(eng: Engine<B>, visited: set<Loc>, b: B, moves: seq<Move>,
                                                    n: nat, depth: nat)
    requires n <= |moves| && depth > 0
    ensures BestSuccessor(eng, visited, b, moves, n, depth) != PosInf
    decreases depth, 0, n
  {
    if n > 0 {
      BestSuccessorBelowTop(eng, visited, b, moves, n - 1, depth);
      match Successor(eng, b, moves[n - 1])
      case None =>
      case Some(nb) => MaxValueBelowTop(eng, visited, nb, depth - 1);
    }
  }

  /** Whatever the clock, no search value is +inf */
  lemma {:induction false} SearchBelowTop<B>(eng: Engine<B>, visited: set<Loc>, clock: Clock, polls: nat, b: B,
                                             depth: nat, alpha: ExtReal, beta: ExtReal)
    ensures Search(eng, visited, clock, polls, b, depth, alpha, beta).val != PosInf
    decreases depth, 1, 0
  {
    var moves := eng.validMoves(b);
    if clock(polls) >= SEARCH_RESERVE && depth > 0 && |moves| > 0 {
      SearchLevelBelowTop(eng, visited, clock, polls + 1, b, moves, 0, depth, alpha, beta, NegInf);
    }
  }

  lemma {:induction false} SearchLevelBelowTop<B>(eng: Engine<B>, visited: set<Loc>, clock: Clock, polls: nat, b: B,
                                                  moves: seq<Move>, i: nat, depth: nat, alpha: ExtReal,
                                                  beta: ExtReal, best: ExtReal)
    requires i <= |moves| && depth > 0 && best != PosInf
    ensures SearchLevel(eng, visited, clock, polls, b, moves, i, depth, alpha, beta, best).val != PosInf
    decreases depth, 0, |moves| - i
  {
    if i < |moves| {
      match Successor(eng, b, moves[i])
      case None =>
        SearchLevelBelowTop(eng, visited, clock, polls, b, moves, i + 1, depth, alpha, beta, best);
      case Some(nb) =>
        var o := Search(eng, visited, clock, polls, nb, depth - 1, alpha, beta);
        SearchBelowTop(eng, visited, clock, polls, nb, depth - 1, alpha, beta);
        var best' := if Lt(best, o.val) then o.val else best;
        if !Le(beta, Max(alpha, o.val)) {
          SearchLevelBelowTop(eng, visited, clock, o.polls, b, moves, i + 1, depth, Max(alpha, o.val), beta, best');
        }
    }
  }

  /**
   * With an unhurried clock, beta = +inf and alpha below +inf (as every
   * call from the root has them), the search is the plain recursive maximum.
   */
  lemma {:induction false} SearchIsMaxValue<B>(eng: Engine<B>, visited: set<Loc>, clock: Clock, polls: nat, b: B,
                                               depth: nat, alpha: ExtReal)
    requires Unhurried(clock) && alpha != PosInf
    ensures Search(eng, visited, clock, polls, b, depth, alpha, PosInf).val == MaxValue(eng, visited, b, depth)
    decreases depth, 1, 0
  {
    assert clock(polls) >= 0.1;
    var moves := eng.validMoves(b);
    if depth > 0 && |moves| > 0 {
      SearchLevelIsBestSuccessor(eng, visited, clock, polls + 1, b, moves, 0, depth, alpha, NegInf);
    }
  }

  lemma {:induction false} SearchLevelIsBestSuccessor<B>(eng: Engine<B>, visited: set<Loc>, clock: Clock, polls: nat,
                                                         b: B, moves: seq<Move>, i: nat, depth: nat,
                                                         alpha: ExtReal, best: ExtReal)
    requires Unhurried(clock) && i <= |moves| && depth > 0 && alpha != PosInf
    requires best == BestSuccessor(eng, visited, b, moves, i, depth)
    ensures SearchLevel(eng, visited, clock, polls, b, moves, i, depth, alpha, PosInf, best).val
            == BestSuccessor(eng, visited, b, moves, |moves|, depth)
    decreases depth, 0, |moves| - i
  {
    if i < |moves| {
      match Successor(eng, b, moves[i])
      case None =>
        SearchLevelIsBestSuccessor(eng, visited, clock, polls, b, moves, i + 1, depth, alpha, best);
      case Some(nb) =>
        var o := Search(eng, visited, clock, polls, nb, depth - 1, alpha, PosInf);
        SearchIsMaxValue(eng, visited, clock, polls, nb, depth - 1, alpha);
        MaxValueBelowTop(eng, visited, nb, depth - 1);
        var best' := if Lt(best, o.val) then o.val else best;
        assert best' == BestSuccessor(eng, visited, b, moves, i + 1, depth);
        SearchLevelIsBestSuccessor(eng, visited, clock, o.polls, b, moves, i + 1, depth, Max(alpha, o.val), best');
    }
  }

  /**
   * Whatever the clock, the alpha passed in changes neither the value nor
   * the clock readings: beta is +inf and no search value is +inf, so the
   * prune of lines 61-62 never fires.
   */
  lemma {:induction false} SearchIgnoresAlpha<B>(eng: Engine<B>, visited: set<Loc>, clock: Clock, polls: nat, b: B,
                                                 depth: nat, alpha1: ExtReal, alpha2: ExtReal)
    requires alpha1 != PosInf && alpha2 != PosInf
    ensures Search(eng, visited, clock, polls, b, depth, alpha1, PosInf)
            == Search(eng, visited, clock, polls, b, depth, alpha2, PosInf)
    decreases depth, 1, 0
  {
    var moves := eng.validMoves(b);
    if clock(polls) >= SEARCH_RESERVE && depth > 0 && |moves| > 0 {
      SearchLevelIgnoresAlpha(eng, visited, clock, polls + 1, b, moves, 0, depth, alpha1, alpha2, NegInf);
    }
  }

  lemma {:induction false} SearchLevelIgnoresAlpha<B>(eng: Engine<B>, visited: set<Loc>, clock: Clock, polls: nat,
                                                      b: B, moves: seq<Move>, i: nat, depth: nat,
                                                      alpha1: ExtReal, alpha2: ExtReal, best: ExtReal)
    requires i <= |moves| && depth > 0 && alpha1 != PosInf && alpha2 != PosInf
    ensures SearchLevel(eng, visited, clock, polls, b, moves, i, depth, alpha1, PosInf, best)
            == SearchLevel(eng, visited, clock, polls, b, moves, i, depth, alpha2, PosInf, best)
    decreases depth, 0, |moves| - i
  {
    if i < |moves| {
      match Successor(eng, b, moves[i])
      case None =>
        SearchLevelIgnoresAlpha(eng, visited, clock, polls, b, moves, i + 1, depth, alpha1, alpha2, best);
      case Some(nb) =>
        var o := Search(eng, visited, clock, polls, nb, depth - 1, alpha1, PosInf);
        SearchIgnoresAlpha(eng, visited, clock, polls, nb, depth - 1, alpha1, alpha2);
        SearchBelowTop(eng, visited, clock, polls, nb, depth - 1, alpha1, PosInf);
        var best' := if Lt(best, o.val) then o.val else best;
        SearchLevelIgnoresAlpha(eng, visited, clock, o.polls, b, moves, i + 1, depth,
                                Max(alpha1, o.val), Max(alpha2, o.val), best');
    }
  }

  lemma {:induction false} SearchLevelNoSuccessor<B>(eng: Engine<B>, visited: set<Loc>, clock: Clock, polls: nat,
                                                     b: B, moves: seq<Move>, i: nat, depth: nat,
                                                     alpha: ExtReal, beta: ExtReal, best: ExtReal)
    requires i <= |moves| && depth > 0
    requires forall j :: i <= j < |moves| ==> eng.forecastMove(b, moves[j]).None?
    ensures SearchLevel(eng, visited, clock, polls, b, moves, i, depth, alpha, beta, best) == Outcome(best, polls)
    decreases |moves| - i
  {
    if i < |moves| {
      SearchLevelNoSuccessor(eng, visited, clock, polls, b, moves, i + 1, depth, alpha, beta, best);
    }
  }

  /** A level that has moves but whose every forecast_move gives None returns -inf */
  lemma NoForecastIsNegInf<B>(eng: Engine<B>, visited: set<Loc>, clock: Clock, polls: nat, b: B, depth: nat,
                              alpha: ExtReal, beta: ExtReal)
    requires clock(polls) >= SEARCH_RESERVE && depth > 0 && |eng.validMoves(b)| > 0
    requires forall m :: m in eng.validMoves(b) ==> eng.forecastMove(b, m).None?
    ensures Search(eng, visited, clock, polls, b, depth, alpha, beta).val == NegInf
  {
    SearchLevelNoSuccessor(eng, visited, clock, polls + 1, b, eng.validMoves(b), 0, depth, alpha, beta, NegInf);
  }

  // ---------------------------------------------------------------------
  // The imperative search

  /**
   * minimax: the clock is read through `polls`; the readings taken are
   * returned. The loop over the moves is the method MaximizeOver.
   */
  method Minimax<B>(eng: Engine<B>, visited: set<Loc>, clock: Clock, polls: nat, bd: B, depth: nat,
                    alpha: ExtReal, beta: ExtReal) returns (best: ExtReal, polls': nat)
    ensures Outcome(best, polls') == Search(eng, visited, clock, polls, bd, depth, alpha, beta)
    ensures polls' > polls
    // evaluate(bd) on a low clock, at depth 0 or with no valid moves
    ensures clock(polls) < SEARCH_RESERVE || depth == 0 || |eng.validMoves(bd)| == 0 ==>
      best == Leaf(eng, visited, bd)
    // with time to spare and beta = +inf, the plain recursive maximum
    ensures Unhurried(clock) && beta == PosInf && alpha != PosInf ==> best == MaxValue(eng, visited, bd, depth)
    decreases depth, 1
  {
    var timeLeft := clock(polls);
    polls' := polls + 1;
    if timeLeft < SEARCH_RESERVE {
      return Leaf(eng, visited, bd), polls';
    }
    var moves := eng.validMoves(bd);
    if depth == 0 || |moves| == 0 {
      return Leaf(eng, visited, bd), polls';
    }
    best, polls' := MaximizeOver(eng, visited, clock, polls', bd, moves, depth, alpha, beta);
    if Unhurried(clock) && beta == PosInf && alpha != PosInf {
      SearchIsMaxValue(eng, visited, clock, polls, bd, depth, alpha);
    }
  }

  /** Lines 51-63: the loop over the reversed forecasts of bd's valid moves */
  method MaximizeOver<B>(eng: Engine<B>, visited: set<Loc>, clock: Clock, polls: nat, bd: B, moves: seq<Move>,
                         depth: nat, alpha: ExtReal, beta: ExtReal) returns (best: ExtReal, polls': nat)
    requires depth > 0
    ensures Outcome(best, polls') == SearchLevel(eng, visited, clock, polls, bd, moves, 0, depth, alpha, beta, NegInf)
    ensures polls' >= polls
    decreases depth, 0
  {
    best := NegInf;
    polls' := polls;
    var a := alpha;
    for i := 0 to |moves|
      invariant polls' >= polls
      invariant SearchLevel(eng, visited, clock, polls', bd, moves, i, depth, a, beta, best)
                == SearchLevel(eng, visited, clock, polls, bd, moves, 0, depth, alpha, beta, NegInf)
    {
      var newBd := eng.forecastMove(bd, moves[i]);
      if newBd.None? {
        continue;
      }
      var next := eng.reversePerspective(newBd.value);
      assert Successor(eng, bd, moves[i]) == Some(next);
      var score, p := Minimax(eng, visited, clock, polls', next, depth - 1, a, beta);
      assert SearchLevel(eng, visited, clock, polls', bd, moves, i, depth, a, beta, best)
             == if Le(beta, Max(a, score)) then Outcome(if Lt(best, score) then score else best, p)
                else SearchLevel(eng, visited, clock, p, bd, moves, i + 1, depth, Max(a, score), beta,
                                 if Lt(best, score) then score else best);
      polls' := p;
      if Lt(best, score) {
        best := score;
      }
      a := Max(a, score);
      if Le(beta, a) {
        break;
      }
    }
  }
}
