/**
 * Gregorous's evaluation closure (the inner `evaluate` of play): a real
 * score of a board from chicken_player's point of view. It also reads the
 * agent's set of squares visited in the real game, passed in here as
 * `visited`. The weights are exact reals.
 */
module GregorousEval {
  import opened Game

  const EGG_WEIGHT: real := 10.0
  const PARITY_BONUS: real := 5.0
  const EDGE_WEIGHT: real := 0.2
  const REVISIT_PENALTY: real := 1.0
  /** the 8 x 8 map's last index, written into the code as 7 */
  const LAST_INDEX := 7

  predicate OnBoard(loc: Loc) {
    0 <= loc.0 <= LAST_INDEX && 0 <= loc.1 <= LAST_INDEX
  }

  function EggDiff<B>(eng: Engine<B>, b: B): int {
    eng.player(b).eggsLaid - eng.enemy(b).eggsLaid
  }

  function TurdDiff<B>(eng: Engine<B>, b: B): int {
    eng.player(b).turdsLeft - eng.enemy(b).turdsLeft
  }

  /** 0 for an even chicken, 1 for an odd one */
  function Parity(evenChicken: bool): int {
    if evenChicken then 0 else 1
  }

  /** Lines 27-31: the bonus for standing on a square of our colour that holds no egg or turd of ours */
  function ParityBonus<B>(eng: Engine<B>, b: B): (bonus: real)
    ensures bonus == 0.0 || bonus == PARITY_BONUS
    ensures bonus == PARITY_BONUS <==>
      var loc := eng.player(b).loc;
      && (loc.0 + loc.1) % 2 == Parity(eng.player(b).evenChicken)
      && loc !in eng.eggsPlayer(b) && loc !in eng.turdsPlayer(b)
  {
    var (x, y) := eng.player(b).loc;
    if (x + y) % 2 == Parity(eng.player(b).evenChicken) then
      if (x, y) !in eng.eggsPlayer(b) && (x, y) !in eng.turdsPlayer(b) then PARITY_BONUS else 0.0
    else 0.0
  }

  /** Lines 35-36: 0.2 times the sum of the distances to the nearest vertical and horizontal edge */
  function EdgeTerm(loc: Loc): (term: real)
    ensures OnBoard(loc) ==> 0.0 <= term <= 1.2
  {
    var dx := if loc.0 <= LAST_INDEX - loc.0 then loc.0 else LAST_INDEX - loc.0;
    var dy := if loc.1 <= LAST_INDEX - loc.1 then loc.1 else LAST_INDEX - loc.1;
    EDGE_WEIGHT * (dx + dy) as real
  }

  /** Lines 38-39: one point off for a square already visited in the real game */
  function RevisitPenalty(visited: set<Loc>, loc: Loc): (penalty: real)
    ensures penalty == REVISIT_PENALTY <==> loc in visited
    ensures penalty == 0.0 <==> loc !in visited
  {
    if loc in visited then REVISIT_PENALTY else 0.0
  }

  function Evaluate<B>(eng: Engine<B>, visited: set<Loc>, b: B): (score: real)
    // apart from eggs and turds, the terms add up to between -1 and 6.2 on the board
    ensures OnBoard(eng.player(b).loc) ==>
      -1.0 <= score - EGG_WEIGHT * EggDiff(eng, b) as real - TurdDiff(eng, b) as real <= 6.2
  {
    EggDiff(eng, b) as real * EGG_WEIGHT
    + ParityBonus(eng, b)
    + TurdDiff(eng, b) as real
    + EdgeTerm(eng.player(b).loc)
    - RevisitPenalty(visited, eng.player(b).loc)
  }

  /**
   * The edge term grows toward the centre: one step from the left half of a
   * row toward the middle adds 0.2, so each of the four central squares
   * (3..4, 3..4) earns 1.2 and a corner nothing. This rewards distance from the edge, although the
   * comments at lines 34 and 36 say the aim is to stay near the edges.
   */
  lemma EdgeTermFavoursCentre(x: int, y: int)
    requires 0 <= x < 3 && 0 <= y <= LAST_INDEX
    ensures EdgeTerm((x + 1, y)) == EdgeTerm((x, y)) + EDGE_WEIGHT
    ensures EdgeTerm((3, 3)) == EdgeTerm((3, 4)) == EdgeTerm((4, 3)) == EdgeTerm((4, 4)) == 1.2
    ensures EdgeTerm((0, 0)) == 0.0
  {
  }

  /** Only whether the current square was visited matters, and a visit costs exactly one point */
  lemma RevisitCostsOne<B>(eng: Engine<B>, visited: set<Loc>, b: B)
    ensures Evaluate(eng, visited + {eng.player(b).loc}, b) == Evaluate(eng, visited - {eng.player(b).loc}, b) - REVISIT_PENALTY
    ensures forall other: set<Loc> :: (eng.player(b).loc in other <==> eng.player(b).loc in visited) ==>
      Evaluate(eng, other, b) == Evaluate(eng, visited, b)
  {
  }

  /** As the real-game visited set grows, the score of a board can only fall */
  lemma VisitedNeverRaisesScore<B>(eng: Engine<B>, visited: set<Loc>, more: set<Loc>, b: B)
    requires visited <= more
    ensures Evaluate(eng, more, b) <= Evaluate(eng, visited, b)
  {
  }

  /** On the board, with equal turd stocks, one more egg of advantage outweighs every other term */
  lemma EggAdvantageDominates<B>(eng: Engine<B>, visited1: set<Loc>, b1: B, visited2: set<Loc>, b2: B)
    requires OnBoard(eng.player(b1).loc) && OnBoard(eng.player(b2).loc)
    requires TurdDiff(eng, b1) == TurdDiff(eng, b2) && EggDiff(eng, b1) > EggDiff(eng, b2)
    ensures Evaluate(eng, visited1, b1) > Evaluate(eng, visited2, b2)
  {
  }
}
