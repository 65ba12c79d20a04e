/**
 * What the agents consume from the game engine. The engine itself (board
 * rules, move generation, win detection, map loading) is not part of this
 * model: an Engine<B> is any collection of functions over a board type B, and
 * every result below holds for all of them.
 */
module Game {
  import opened ExtReals

  datatype Option<T> = None | Some(value: T)

  datatype Direction = Up | Right | Down | Left
  datatype MoveType = Plain | Egg | Turd

  /** A move is a (Direction, MoveType) pair */
  datatype Move = Move(dir: Direction, kind: MoveType)

  /** A square (x, y) */
  type Loc = (int, int)

  /** What get_winner reports once the game is over */
  datatype GameResult = PlayerWon | EnemyWon | Tie

  /** The parts of a chicken the agents read */
  datatype Chicken = Chicken(loc: Loc, eggsLaid: int, turdsLeft: int, evenChicken: bool)

  /**
   * The board operations the agents call, as deterministic functions.
   * forecastMove returns a fresh board or None; applyMove is apply_move on a
   * copy, None where the engine reports failure; reversePerspective swaps
   * the roles of chicken_player and chicken_enemy.
   */
  datatype Engine<!B> = Engine(
    player: B -> Chicken,
    enemy: B -> Chicken,
    isGameOver: B -> bool,
    winner: B -> GameResult,
    foundTrapdoors: B -> set<Loc>,
    mapSize: B -> int,
    eggsPlayer: B -> set<Loc>,
    turdsPlayer: B -> set<Loc>,
    validMoves: B -> seq<Move>,
    enemyMoves: B -> seq<Move>,
    isValidMove: (B, Move) -> bool,
    forecastMove: (B, Move) -> Option<B>,
    applyMove: (B, Move) -> Option<B>,
    reversePerspective: B -> B)

  /**
   * time_left(): the n-th reading taken during one turn is clock(n), in
   * seconds. The searches count their readings so that every poll of the
   * clock is a distinct, modelled event.
   */
  type Clock = nat -> real

  /** A clock that never drops below the largest reserve any agent checks (0.1 s) */
  ghost predicate Unhurried(clock: Clock) {
    forall n: nat :: clock(n) >= 0.1
  }

  /** A search result together with the number of clock readings taken so far */
  datatype Outcome = Outcome(val: ExtReal, polls: nat)
}
