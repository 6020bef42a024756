/**
 * The value types of the board (src/board/mod.rs, lines 7-119): the content of a
 * cell, the two players, moves, placement errors and the memoised game result.
 */
module Cells {
  import opened Wrappers

  /** The content of one grid cell. */
  datatype BoardValue = X | O | Empty

  /** The two sides; X moves first. */
  datatype Player = X | O

  /** A zero-based (column, row) pair. */
  datatype Move = Move(x: nat, y: nat)

  datatype PlacingError = OutOfBounds | Occupied | FullBoard

  /** The tri-state memo of the game outcome. */
  datatype GameResult = XWins | OWins | Draws | NotTerminated | NotCalculated

  const FIRST: Player := Player.X

  /** The stone of the other side; an empty cell has none. */
  function Opposite(v: BoardValue): (r: Option<BoardValue>)
    ensures r.None? <==> v == Empty
    ensures r.Some? ==> r.value != Empty && r.value != v
  {
    match v
    case X => Some(BoardValue.O)
    case O => Some(BoardValue.X)
    case Empty => None
  }

  /** The owner of a stone; an empty cell has none. */
  function PlayerOf(v: BoardValue): (r: Option<Player>)
    ensures r.None? <==> v == Empty
    ensures r.Some? ==> Stone(r.value) == v
  {
    match v
    case X => Some(Player.X)
    case O => Some(Player.O)
    case Empty => None
  }

  /** The stone a player puts on the board. */
  function Stone(p: Player): (v: BoardValue)
    ensures v != Empty
  {
    match p
    case X => BoardValue.X
    case O => BoardValue.O
  }

  /** The side that moves after `p`. */
  function Next(p: Player): (q: Player)
    ensures q != p
  {
    match p
    case X => Player.O
    case O => Player.X
  }

  /** True for the three results that end the game. */
  predicate IsTerminate(g: GameResult) {
    g == XWins || g == OWins || g == Draws
  }

  function Win(p: Player): (g: GameResult)
    ensures IsTerminate(g) && g != Draws
  {
    match p
    case X => XWins
    case O => OWins
  }

  /**
   * The payoff of a result for `p`: 1 for a win, 0 for a loss, one half for a draw,
   * nothing while the game is running or the result is not yet computed.
   */
  function Utility(g: GameResult, p: Player): (r: Option<real>)
    ensures r.Some? <==> IsTerminate(g)
    ensures r.Some? ==> r.value == 0.0 || r.value == 0.5 || r.value == 1.0
    ensures g == Win(p) ==> r == Some(1.0)
    ensures g == Win(Next(p)) ==> r == Some(0.0)
    ensures g == Draws ==> r == Some(0.5)
  {
    match g
    case XWins => (match p case X => Some(1.0) case O => Some(0.0))
    case OWins => (match p case X => Some(0.0) case O => Some(1.0))
    case Draws => Some(0.5)
    case NotTerminated => None
    case NotCalculated => None
  }

  /** The two players' payoffs of a finished game add up to one. */
  lemma UtilityZeroSum(g: GameResult)
    requires IsTerminate(g)
    ensures Utility(g, Player.X).value + Utility(g, Player.O).value == 1.0
  {
  }

  /** Stone and PlayerOf are inverse to each other. */
  lemma StoneOwner(p: Player)
    ensures PlayerOf(Stone(p)) == Some(p)
  {
  }

  /** Opposite swaps the two stones and is its own inverse on them. */
  lemma OppositeInvolution(v: BoardValue)
    requires v != Empty
    ensures Opposite(Opposite(v).value) == Some(v)
    ensures Opposite(v).value == Stone(Next(PlayerOf(v).value))
  {
  }
}
