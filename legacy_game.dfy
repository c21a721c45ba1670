/**
 * The older board of GameState.kt: the same grid, tile list and store primitives
 * as GameBoard.kt, with three differences kept as written. `tileAt` checks only
 * the upper bounds, so `cellAvailable` holds for cells beyond the right and
 * bottom edges; `startWithTile` places its tile without clearing the board and
 * gives the first turn to this player; and the guard of `tryMove` holds in every
 * state, so a move never happens.
 */
module LegacyGame {
  import opened GameTypes
  import opened GameModel
  import Game

  class GameBoard {
    var turn: GameState
    const board: array2<Tile?>
    var tiles: seq<Tile>
    /** The occupied cells and their values. */
    ghost var cells: Cells

    /**
     * Every tracked tile sits on the board at its own position, no two share a
     * cell, and every occupied cell holds a tracked tile whose value `cells` records.
     */
    ghost predicate Valid()
      reads this, board, tiles
    {
      board.Length0 == Size && board.Length1 == Size &&
      WellFormed(cells) &&
      (forall i :: 0 <= i < |tiles| ==>
         InBounds(tiles[i].pos) && board[tiles[i].pos.x, tiles[i].pos.y] == tiles[i]) &&
      (forall i, j :: 0 <= i < j < |tiles| ==> tiles[i].pos != tiles[j].pos) &&
      (forall x, y {:trigger board[x, y]} :: 0 <= x < Size && 0 <= y < Size ==>
         (Point(x, y) in cells <==> board[x, y] != null)) &&
      (forall x, y {:trigger board[x, y]} :: 0 <= x < Size && 0 <= y < Size && board[x, y] != null ==>
         board[x, y] in tiles && board[x, y].pos == Point(x, y) &&
         cells[Point(x, y)] == board[x, y].value)
    }

    constructor ()
      ensures Valid()
      ensures turn == NotYetStarted && tiles == [] && cells == map[]
    {
      turn := NotYetStarted;
      board := new Tile?[Size, Size]((x, y) => null);
      tiles := [];
      cells := map[];
    }

    /**
     * tileAt: only `x >= size` and `y >= size` are caught; a negative coordinate
     * indexes the array and fails in the source, hence the precondition.
     */
    function TileAt(pos: Point): (r: Tile?)
      requires Valid() && pos.x >= 0 && pos.y >= 0
      reads this, board, tiles
      ensures r == null <==> pos !in cells
      ensures r != null ==> r in tiles && r.pos == pos && r.value == cells[pos]
    {
      if pos.x < Size && pos.y < Size then board[pos.x, pos.y] else null
    }

    /** cellAvailable: no tile on the cell, which includes every cell past the far edges. */
    function CellAvailable(pos: Point): (r: bool)
      requires Valid() && pos.x >= 0 && pos.y >= 0
      reads this, board, tiles
      ensures r <==> pos !in cells
    {
      TileAt(pos) == null
    }

    /** A cell one step past the right edge counts as available. */
    lemma OffBoardCellAvailable()
      requires Valid()
      ensures !InBounds(Point(Size, 0)) && CellAvailable(Point(Size, 0))
    {
      assert Point(Size, 0) !in cells;
    }

    /** The tile list, read as cells and values, is exactly the ghost map. */
    lemma CellsAreTiles()
      requires Valid()
      ensures cells == Game.CellsOf(tiles)
    {
      Game.CellsOfSpec(tiles);
      forall p | p in cells
        ensures p in Game.CellsOf(tiles)
      {
        var t := board[p.x, p.y];
        var i :| 0 <= i < |tiles| && tiles[i] == t;
        assert tiles[i].pos == p;
      }
      forall i | 0 <= i < |tiles|
        ensures tiles[i].pos in cells && cells[tiles[i].pos] == tiles[i].value
      {
        var p := tiles[i].pos;
        assert board[p.x, p.y] == tiles[i];
      }
    }

    /** score: the sum of the tiles' values, which is the total of the board's cells. */
    method Score() returns (score: int)
      requires Valid()
      ensures score == Game.SumValues(tiles)
      ensures score == Total(cells)
    {
      CellsAreTiles();
      Game.SumValuesIsTotal(tiles);
      score := 0;
      var i := 0;
      while i < |tiles|
        invariant 0 <= i <= |tiles|
        invariant score == Game.SumValues(tiles[..i])
      {
        assert tiles[..i + 1][..i] == tiles[..i];
        score := score + tiles[i].value;
        i := i + 1;
      }
      assert tiles[..i] == tiles;
    }

    /** availableCells: the cells without a tile, x outer and y inner. */
    method AvailableCells() returns (r: seq<Point>)
      requires Valid()
      ensures r == FreeCells(cells)
    {
      r := [];
      var x := 0;
      while x < Size
        invariant 0 <= x <= Size
        invariant r == FreeIn(cells, AllCells()[..4 * x])
      {
        var y := 0;
        while y < Size
          invariant 0 <= y <= Size
          invariant r == FreeIn(cells, AllCells()[..4 * x + y])
        {
          var k := 4 * x + y;
          AllCellsIndex(Point(x, y));
          assert AllCells()[..k + 1][..k] == AllCells()[..k];
          if board[x, y] == null {
            r := r + [Point(x, y)];
          }
          y := y + 1;
        }
        x := x + 1;
      }
      assert AllCells()[..16] == AllCells();
    }

    /** addTile (private in the source); its assertion becomes the precondition. */
    method AddTile(value: int, pos: Point) returns (t: Tile)
      requires Valid() && Available(cells, pos)
      modifies this`tiles, this`cells, board
      ensures Valid() && fresh(t)
      ensures t.value == value && t.pos == pos
      ensures tiles == old(tiles) + [t]
      ensures cells == old(cells)[pos := value]
    {
      t := new Tile(value, pos);
      board[pos.x, pos.y] := t;
      tiles := tiles + [t];
      cells := cells[pos := value];
    }

    /** removeTile (private in the source): `t` leaves the grid and the list. */
    method RemoveTile(t: Tile)
      requires Valid() && t in tiles
      modifies this`tiles, this`cells, board
      ensures Valid()
      ensures exists i :: 0 <= i < |old(tiles)| && old(tiles)[i] == t &&
                          tiles == old(tiles)[..i] + old(tiles)[i + 1..]
      ensures cells == old(cells) - {t.pos}
    {
      var i :| 0 <= i < |tiles| && tiles[i] == t;
      var rest := tiles[..i] + tiles[i + 1..];
      forall x, y | 0 <= x < Size && 0 <= y < Size && board[x, y] != null && Point(x, y) != t.pos
        ensures board[x, y] in rest
      {
        Game.StaysAfterRemoval(tiles, i, board[x, y]);
      }
      board[t.pos.x, t.pos.y] := null;
      tiles := rest;
      cells := cells - {t.pos};
    }

    /** moveTile (private in the source); the destination must be a free cell. */
    method MoveTile(t: Tile, pos: Point)
      requires Valid() && t in tiles && Available(cells, pos)
      modifies this`cells, board, t`pos
      ensures Valid()
      ensures t.pos == pos
      ensures cells == (old(cells) - {old(t.pos)})[pos := t.value]
    {
      board[t.pos.x, t.pos.y] := null;
      cells := (cells - {t.pos})[pos := t.value];
      t.pos := pos;
      board[pos.x, pos.y] := t;
    }

    /**
     * tryAddNewTile: place a tile of `value` on a free cell chosen at random;
     * with no free cell the game is lost.
     */
    method TryAddNewTile(value: int) returns (t: Tile?)
      requires Valid()
      modifies this, board
      ensures Valid()
      ensures FreeCells(old(cells)) == [] ==>
                t == null && turn == Lost && cells == old(cells) && tiles == old(tiles)
      ensures FreeCells(old(cells)) != [] ==>
                t != null && fresh(t) && t.value == value && Available(old(cells), t.pos) &&
                cells == old(cells)[t.pos := value] && tiles == old(tiles) + [t] &&
                turn == old(turn)
    {
      var free := AvailableCells();
      if |free| == 0 {
        turn := Lost;
        return null;
      }
      FreeCellsSpec(cells);
      var i :| 0 <= i < |free|;
      t := AddTile(value, free[i]);
    }

    /** tryAddRandomTile: the new tile is a 2 or a 4. */
    method TryAddRandomTile() returns (t: Tile?)
      requires Valid()
      modifies this, board
      ensures Valid()
      ensures FreeCells(old(cells)) == [] ==>
                t == null && turn == Lost && cells == old(cells) && tiles == old(tiles)
      ensures FreeCells(old(cells)) != [] ==>
                t != null && fresh(t) && (t.value == 2 || t.value == 4) &&
                Available(old(cells), t.pos) && cells == old(cells)[t.pos := t.value] &&
                tiles == old(tiles) + [t] && turn == old(turn)
    {
      var value :| value in {2, 4};
      t := TryAddNewTile(value);
    }

    /**
     * start: refused (the source throws) unless the game has not started; then a
     * random tile is placed if a cell is free, and it is this player's turn.
     */
    method Start() returns (started: bool)
      requires Valid()
      modifies this, board
      ensures Valid()
      ensures started <==> old(turn) == NotYetStarted
      ensures !started ==> turn == old(turn) && cells == old(cells) && tiles == old(tiles)
      ensures started ==> turn == MyTurn
      ensures started && FreeCells(old(cells)) == [] ==> cells == old(cells) && tiles == old(tiles)
      ensures started && FreeCells(old(cells)) != [] ==>
                |tiles| == |old(tiles)| + 1 && tiles[..|old(tiles)|] == old(tiles) &&
                var t := tiles[|old(tiles)|];
                (t.value == 2 || t.value == 4) && Available(old(cells), t.pos) &&
                cells == old(cells)[t.pos := t.value]
    {
      if turn != NotYetStarted {
        return false;
      }
      var t := TryAddRandomTile();
      turn := MyTurn;
      started := true;
      if t != null {
        assert tiles[..|old(tiles)|] == old(tiles);
      }
    }

    /**
     * startWithTile: refused (the source throws) unless the game has not started;
     * then a copy of `tile` joins whatever is on the board, and it is this
     * player's turn. The cell must be free, as addTile asserts.
     */
    method StartWithTile(tile: Tile) returns (started: bool)
      requires Valid()
      requires turn == NotYetStarted ==> Available(cells, tile.pos)
      modifies this, board
      ensures Valid()
      ensures started <==> old(turn) == NotYetStarted
      ensures !started ==> turn == old(turn) && cells == old(cells) && tiles == old(tiles)
      ensures started ==>
                turn == MyTurn && cells == old(cells)[tile.pos := tile.value] &&
                |tiles| == |old(tiles)| + 1 && tiles[..|old(tiles)|] == old(tiles) &&
                fresh(tiles[|old(tiles)|]) && tiles[|old(tiles)|].value == tile.value &&
                tiles[|old(tiles)|].pos == tile.pos
    {
      if turn != NotYetStarted {
        return false;
      }
      var t := AddTile(tile.value, tile.pos);
      turn := MyTurn;
      started := true;
      assert tiles[..|old(tiles)|] == old(tiles);
    }

    /**
     * tryMove: the guard `turn != MyTurn || turn != OtherTurn` holds in every
     * state, so the call always returns null and changes nothing; the sweep after
     * the guard cannot be reached.
     */
    method TryMove(direction: MoveDirection) returns (r: Tile?)
      ensures r == null
    {
      if turn != MyTurn || turn != OtherTurn {
        return null;
      }
      assert false;
    }
  }
}
