/**
 * Gregory's evaluation function (PlayerAgent.evaluate): an integer score of
 * a board from chicken_player's point of view.
 */
module GregoryEval {
  import opened Game

  const EGG_WEIGHT := 10
  const EDGE_WEIGHT := 1
  const WIN_SCORE := 1000
  const LOSS_SCORE := -1000
  const TIE_SCORE := 0
  const TRAPDOOR_SCORE := -9999

  function EggDiff<B>(eng: Engine<B>, b: B): int {
    eng.player(b).eggsLaid - eng.enemy(b).eggsLaid
  }

  /** Python's min(x, size - x, y, size - y): the distance to the nearest edge */
  function EdgeDistance(loc: Loc, size: int): (dist: int)
    ensures dist <= loc.0 && dist <= size - loc.0 && dist <= loc.1 && dist <= size - loc.1
    ensures dist == loc.0 || dist == size - loc.0 || dist == loc.1 || dist == size - loc.1
  {
    var a := if loc.0 <= size - loc.0 then loc.0 else size - loc.0;
    var b := if loc.1 <= size - loc.1 then loc.1 else size - loc.1;
    if a <= b then a else b
  }

  /** (x, y) lies on a board whose last index is size */
  predicate InBounds(loc: Loc, size: int) {
    0 <= loc.0 <= size && 0 <= loc.1 <= size
  }

  function Evaluate<B>(eng: Engine<B>, b: B): (score: int)
    // a finished game scores its outcome, whatever the eggs and the location
    ensures eng.isGameOver(b) ==>
      && (score == WIN_SCORE <==> eng.winner(b) == PlayerWon)
      && (score == LOSS_SCORE <==> eng.winner(b) == EnemyWon)
      && (score == TIE_SCORE <==> eng.winner(b) == Tie)
    // standing on a known trapdoor scores below a lost game
    ensures !eng.isGameOver(b) && eng.player(b).loc in eng.foundTrapdoors(b) ==>
      score == TRAPDOOR_SCORE && score < LOSS_SCORE
    // otherwise: ten per egg of advantage, less at most half the board for the distance to the edge
    ensures !eng.isGameOver(b) && eng.player(b).loc !in eng.foundTrapdoors(b) &&
            InBounds(eng.player(b).loc, eng.mapSize(b) - 1) ==>
      EGG_WEIGHT * EggDiff(eng, b) - (eng.mapSize(b) - 1) / 2 <= score <= EGG_WEIGHT * EggDiff(eng, b)
  {
    var eggDiff := EggDiff(eng, b);
    if eng.isGameOver(b) then
      match eng.winner(b)
      case PlayerWon => WIN_SCORE
      case EnemyWon => LOSS_SCORE
      case Tie => TIE_SCORE
    else if eng.player(b).loc in eng.foundTrapdoors(b) then TRAPDOOR_SCORE
    else
      var size := eng.mapSize(b) - 1;
      eggDiff * EGG_WEIGHT - EdgeDistance(eng.player(b).loc, size) * EDGE_WEIGHT
  }

  /**
   * On the 8 x 8 map, with at most 32 eggs a side, every board that is
   * neither finished nor on a known trapdoor scores strictly between a loss
   * and a win, and a known trapdoor scores below all of them.
   */
  lemma OutcomesBracketHeuristic<B>(eng: Engine<B>, b: B)
    requires eng.mapSize(b) == 8 && InBounds(eng.player(b).loc, 7)
    requires 0 <= eng.player(b).eggsLaid <= 32 && 0 <= eng.enemy(b).eggsLaid <= 32
    requires !eng.isGameOver(b) && eng.player(b).loc !in eng.foundTrapdoors(b)
    ensures TRAPDOOR_SCORE < LOSS_SCORE < Evaluate(eng, b) < WIN_SCORE
  {
  }

  /**
   * With the edge distance worth less than one egg (boards up to 20
   * squares wide), one more egg of advantage always scores higher.
   */
  lemma EggAdvantageDominates<B>(eng: Engine<B>, b1: B, b2: B)
    requires eng.mapSize(b1) == eng.mapSize(b2) <= 20
    requires InBounds(eng.player(b1).loc, eng.mapSize(b1) - 1) && InBounds(eng.player(b2).loc, eng.mapSize(b2) - 1)
    requires !eng.isGameOver(b1) && eng.player(b1).loc !in eng.foundTrapdoors(b1)
    requires !eng.isGameOver(b2) && eng.player(b2).loc !in eng.foundTrapdoors(b2)
    requires EggDiff(eng, b1) > EggDiff(eng, b2)
    ensures Evaluate(eng, b1) > Evaluate(eng, b2)
  {
  }
}
