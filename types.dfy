/** The value types of the game: players, cell contents, coordinates and the two
    game modes. */
module Types {

  /** The two players. */
  datatype Player = X | O

  /** The other player. */
  function Opponent(p: Player): (q: Player)
    ensures q != p
  {
    if p == X then O else X
  }

  /** What a cell holds: nothing, or one player's piece. */
  datatype Cell = Empty | Filled(player: Player)

  /** A lattice point; components are unbounded so that walks may step off the board. */
  datatype Coord = Coord(x: int, y: int, z: int)

  /** Standard play, or Gravity play where a piece must rest on the floor or on a piece. */
  datatype Mode = Standard | Gravity

  datatype Option<T> = None | Some(value: T)
}
