/**
 * The value types shared by both versions of the 2048 board: the turn state,
 * the four move directions, board coordinates and the tile record.
 */
module GameTypes {

  /** The board is `Size` by `Size` cells. */
  const Size: int := 4

  /** The value whose creation by a merge wins the game. */
  const WinningValue: int := 2048

  datatype GameState = NotYetStarted | MyTurn | OtherTurn | Lost | Won

  datatype MoveDirection = Up | Down | Left | Right

  /** A cell coordinate; `x` indexes the outer array of the board, `y` the inner one. */
  datatype Point = Point(x: int, y: int)

  /** The last free cell reached by a slide, and the first cell that stopped it. */
  datatype FurthestPosition = FurthestPosition(pos: Point, next: Point)

  predicate InBounds(p: Point) {
    0 <= p.x < Size && 0 <= p.y < Size
  }

  function Add(p: Point, d: Point): Point {
    Point(p.x + d.x, p.y + d.y)
  }

  /** A tile: its value and its position are both updated in place by the board. */
  class Tile {
    var value: int
    var pos: Point

    constructor (value: int, pos: Point)
      ensures this.value == value && this.pos == pos
    {
      this.value := value;
      this.pos := pos;
    }
  }
}
