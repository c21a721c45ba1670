/**
 * The board object of GameBoard.kt: a 4x4 grid of tile references, the list of
 * tiles in insertion order and the turn state, updated in place by every
 * operation. The ghost field `cells` is the value-level view of the grid that the
 * model in game_model.dfy describes; `Valid` ties it to the grid and the list.
 */
module Game {
  import opened GameTypes
  import opened GameModel

  lemma StaysAfterRemoval<T>(s: seq<T>, i: int, x: T)
    requires 0 <= i < |s| && x in s && x != s[i]
    ensures x in s[..i] + s[i + 1..]
  {
    var j :| 0 <= j < |s| && s[j] == x;
    if j < i {
      assert (s[..i] + s[i + 1..])[j] == x;
    } else {
      assert (s[..i] + s[i + 1..])[j - 1] == x;
    }
  }

  /** The sum of the values of the tiles `ts`. */
  function SumValues(ts: seq<Tile>): int
    reads ts`value
    decreases |ts|
  {
    if ts == [] then 0 else SumValues(ts[..|ts| - 1]) + ts[|ts| - 1].value
  }

  /** The cells the tiles `ts` occupy, with their values (a later tile wins a shared cell). */
  function CellsOf(ts: seq<Tile>): Cells
    reads ts`pos, ts`value
    decreases |ts|
  {
    if ts == [] then map[] else CellsOf(ts[..|ts| - 1])[ts[|ts| - 1].pos := ts[|ts| - 1].value]
  }

  /** The cells of distinct-position tiles are exactly their positions, each with its tile's value. */
  lemma {:induction false} CellsOfSpec(ts: seq<Tile>)
    requires forall i, j :: 0 <= i < j < |ts| ==> ts[i].pos != ts[j].pos
    ensures forall p :: p in CellsOf(ts) <==> exists i :: 0 <= i < |ts| && ts[i].pos == p
    ensures forall i :: 0 <= i < |ts| ==> CellsOf(ts)[ts[i].pos] == ts[i].value
    decreases |ts|
  {
    if ts != [] {
      var n := |ts| - 1;
      CellsOfSpec(ts[..n]);
      forall p | p in CellsOf(ts)
        ensures exists i :: 0 <= i < |ts| && ts[i].pos == p
      {
        if p != ts[n].pos {
          var i :| 0 <= i < n && ts[..n][i].pos == p;
          assert ts[i].pos == p;
        }
      }
      forall i | 0 <= i < |ts|
        ensures ts[i].pos in CellsOf(ts) && CellsOf(ts)[ts[i].pos] == ts[i].value
      {
        if i < n {
          assert ts[..n][i] == ts[i];
        }
      }
    }
  }

  /** The tiles' values add up to the total of the cells they occupy. */
  lemma {:induction false} SumValuesIsTotal(ts: seq<Tile>)
    requires forall i :: 0 <= i < |ts| ==> InBounds(ts[i].pos)
    requires forall i, j :: 0 <= i < j < |ts| ==> ts[i].pos != ts[j].pos
    ensures SumValues(ts) == Total(CellsOf(ts))
    decreases |ts|
  {
    if ts == [] {
      ValueSumEmpty(AllCells());
    } else {
      var n := |ts| - 1;
      var init := ts[..n];
      SumValuesIsTotal(init);
      CellsOfSpec(init);
      assert forall i :: 0 <= i < n ==> init[i].pos != ts[n].pos;
      assert ts[n].pos !in CellsOf(init);
      assert CellsOf(ts) == CellsOf(init)[ts[n].pos := ts[n].value];
      TotalChange(CellsOf(init), CellsOf(ts), ts[n].pos);
      assert SumValues(ts) == SumValues(init) + ts[n].value;
    }
  }

  class GameBoard {
    var state: GameState
    const board: array2<Tile?>
    var tiles: seq<Tile>
    /** The occupied cells and their values. */
    ghost var cells: Cells

    /**
     * Every tracked tile sits on the board at its own position, no two share a
     * cell, and every occupied cell holds a tracked tile whose value `cells` records.
     */
    ghost predicate Valid()
      reads this, board, tiles
    {
      board.Length0 == Size && board.Length1 == Size &&
      WellFormed(cells) &&
      (forall i :: 0 <= i < |tiles| ==>
         InBounds(tiles[i].pos) && board[tiles[i].pos.x, tiles[i].pos.y] == tiles[i]) &&
      (forall i, j :: 0 <= i < j < |tiles| ==> tiles[i].pos != tiles[j].pos) &&
      (forall x, y {:trigger board[x, y]} :: 0 <= x < Size && 0 <= y < Size ==>
         (Point(x, y) in cells <==> board[x, y] != null)) &&
      (forall x, y {:trigger board[x, y]} :: 0 <= x < Size && 0 <= y < Size && board[x, y] != null ==>
         board[x, y] in tiles && board[x, y].pos == Point(x, y) &&
         cells[Point(x, y)] == board[x, y].value)
    }

    /** An empty board that has not started. */
    constructor ()
      ensures Valid()
      ensures state == NotYetStarted && tiles == [] && cells == map[]
    {
      state := NotYetStarted;
      board := new Tile?[Size, Size]((x, y) => null);
      tiles := [];
      cells := map[];
    }

    /** tileAt: the tile on a cell, or null for an empty or off-board cell. */
    function TileAt(pos: Point): (r: Tile?)
      requires Valid()
      reads this, board, tiles
      ensures r == null <==> pos !in cells
      ensures r != null ==> r in tiles && r.pos == pos && r.value == cells[pos]
    {
      if InBounds(pos) then board[pos.x, pos.y] else null
    }

    /** cellAvailable */
    function CellAvailable(pos: Point): (r: bool)
      requires Valid()
      reads this, board, tiles
      ensures r <==> Available(cells, pos)
    {
      InBounds(pos) && TileAt(pos) == null
    }

    /** The grid and the list describe the same cells. */
    lemma CellsAreTiles()
      requires Valid()
      ensures cells == CellsOf(tiles)
    {
      CellsOfSpec(tiles);
      forall p | p in cells
        ensures p in CellsOf(tiles)
      {
        var t := board[p.x, p.y];
        var i :| 0 <= i < |tiles| && tiles[i] == t;
        assert tiles[i].pos == p;
      }
      forall i | 0 <= i < |tiles|
        ensures tiles[i].pos in cells && cells[tiles[i].pos] == tiles[i].value
      {
        var p := tiles[i].pos;
        assert board[p.x, p.y] == tiles[i];
      }
    }

    /** score: the sum of the tiles' values, which is the total of the board's cells. */
    method Score() returns (score: int)
      requires Valid()
      ensures score == SumValues(tiles)
      ensures score == Total(cells)
    {
      CellsAreTiles();
      SumValuesIsTotal(tiles);
      score := 0;
      var i := 0;
      while i < |tiles|
        invariant 0 <= i <= |tiles|
        invariant score == SumValues(tiles[..i])
      {
        assert tiles[..i + 1][..i] == tiles[..i];
        score := score + tiles[i].value;
        i := i + 1;
      }
      assert tiles[..i] == tiles;
    }

    /** availableCells: the free cells, x outer and y inner. */
    method AvailableCells() returns (r: seq<Point>)
      requires Valid()
      ensures r == FreeCells(cells)
    {
      r := [];
      var x := 0;
      while x < Size
        invariant 0 <= x <= Size
        invariant r == FreeIn(cells, AllCells()[..4 * x])
      {
        var y := 0;
        while y < Size
          invariant 0 <= y <= Size
          invariant r == FreeIn(cells, AllCells()[..4 * x + y])
        {
          var k := 4 * x + y;
          AllCellsIndex(Point(x, y));
          assert AllCells()[..k + 1][..k] == AllCells()[..k];
          if board[x, y] == null {
            r := r + [Point(x, y)];
          }
          y := y + 1;
        }
        x := x + 1;
      }
      assert AllCells()[..16] == AllCells();
    }

    /** cellValues: each cell's tile value, 0 for an empty cell, x outer and y inner. */
    method CellValues() returns (r: seq<int>)
      requires Valid()
      ensures r == FlatValues(cells)
    {
      r := [];
      var x := 0;
      while x < Size
        invariant 0 <= x <= Size
        invariant |r| == 4 * x
        invariant forall k :: 0 <= k < |r| ==> r[k] == ValueAt(cells, AllCells()[k])
      {
        var y := 0;
        while y < Size
          invariant 0 <= y <= Size
          invariant |r| == 4 * x + y
          invariant forall k :: 0 <= k < |r| ==> r[k] == ValueAt(cells, AllCells()[k])
        {
          AllCellsIndex(Point(x, y));
          var tile := TileAt(Point(x, y));
          r := r + [if tile == null then 0 else tile.value];
          y := y + 1;
        }
        x := x + 1;
      }
    }

    /**
     * findFurthestPosition: the do-while loop of the source, unrolled once.
     * The direction must not be the zero vector, for which the source loops forever
     * from a free cell.
     */
    method FindFurthestPosition(cell: Point, direction: Point) returns (r: FurthestPosition)
      requires Valid()
      requires direction != Point(0, 0)
      ensures r == Furthest(cells, cell, direction)
    {
      var previous := cell;
      var c := Add(previous, direction);
      while CellAvailable(c)
        invariant c == Add(previous, direction)
        invariant Furthest(cells, cell, direction) == Furthest(cells, previous, direction)
        decreases Reach(direction, previous)
      {
        previous := c;
        c := Add(previous, direction);
      }
      r := FurthestPosition(previous, c);
    }

    /** addTile (private in the source); its assertion becomes the precondition. */
    method AddTile(value: int, pos: Point) returns (t: Tile)
      requires Valid() && Available(cells, pos)
      modifies this`tiles, this`cells, board
      ensures Valid() && fresh(t)
      ensures t.value == value && t.pos == pos
      ensures tiles == old(tiles) + [t]
      ensures cells == old(cells)[pos := value]
    {
      t := new Tile(value, pos);
      board[pos.x, pos.y] := t;
      tiles := tiles + [t];
      cells := cells[pos := value];
    }

    /**
     * removeTile (private in the source). The source removes the first list entry
     * equal to `t`; no other tracked tile shares its position, so that is `t`,
     * at index `at`.
     */
    method RemoveTile(t: Tile) returns (ghost at: nat)
      requires Valid() && t in tiles
      modifies this`tiles, this`cells, board
      ensures Valid()
      ensures at < |old(tiles)| && old(tiles)[at] == t
      ensures tiles == old(tiles)[..at] + old(tiles)[at + 1..]
      ensures cells == old(cells) - {t.pos}
    {
      var i :| 0 <= i < |tiles| && tiles[i] == t;
      at := i;
      var rest := tiles[..i] + tiles[i + 1..];
      forall x, y | 0 <= x < Size && 0 <= y < Size && board[x, y] != null && Point(x, y) != t.pos
        ensures board[x, y] in rest
      {
        StaysAfterRemoval(tiles, i, board[x, y]);
      }
      board[t.pos.x, t.pos.y] := null;
      tiles := rest;
      cells := cells - {t.pos};
    }

    /** moveTile (private in the source). */
    method MoveTile(t: Tile, pos: Point)
      requires Valid() && t in tiles && Available(cells, pos)
      modifies this`cells, board, t`pos
      ensures Valid()
      ensures t.pos == pos
      ensures cells == (old(cells) - {old(t.pos)})[pos := t.value]
    {
      board[t.pos.x, t.pos.y] := null;
      cells := (cells - {t.pos})[pos := t.value];
      t.pos := pos;
      board[pos.x, pos.y] := t;
    }

    /**
     * tryAddNewTile: place a tile of `value` on a free cell chosen at random
     * (any free cell may be chosen); with no free cell the game is lost.
     */
    method TryAddNewTile(value: int) returns (t: Tile?)
      requires Valid()
      modifies this, board
      ensures Valid()
      ensures FreeCells(old(cells)) == [] ==>
                t == null && state == Lost && cells == old(cells) && tiles == old(tiles)
      ensures FreeCells(old(cells)) != [] ==>
                t != null && fresh(t) && t.value == value && Available(old(cells), t.pos) &&
                cells == old(cells)[t.pos := value] && tiles == old(tiles) + [t] &&
                state == old(state)
    {
      var free := AvailableCells();
      if |free| == 0 {
        state := Lost;
        return null;
      }
      FreeCellsSpec(cells);
      var i :| 0 <= i < |free|;
      t := AddTile(value, free[i]);
    }

    /** tryAddRandomTile: the new tile is a 2 or a 4 (the source draws a 2 nine times in ten). */
    method TryAddRandomTile() returns (t: Tile?)
      requires Valid()
      modifies this, board
      ensures Valid()
      ensures FreeCells(old(cells)) == [] ==>
                t == null && state == Lost && cells == old(cells) && tiles == old(tiles)
      ensures FreeCells(old(cells)) != [] ==>
                t != null && fresh(t) && (t.value == 2 || t.value == 4) &&
                Available(old(cells), t.pos) && cells == old(cells)[t.pos := t.value] &&
                tiles == old(tiles) + [t] && state == old(state)
    {
      var value :| value in {2, 4};
      t := TryAddNewTile(value);
    }

    /**
     * start: refused (the source throws) unless the game has not started; then
     * one random tile is placed and it is this player's turn.
     */
    method Start() returns (started: bool)
      requires Valid()
      modifies this, board
      ensures Valid()
      ensures started <==> old(state) == NotYetStarted
      ensures !started ==> state == old(state) && cells == old(cells) && tiles == old(tiles)
      ensures started ==> state == MyTurn
      ensures started && FreeCells(old(cells)) == [] ==> cells == old(cells) && tiles == old(tiles)
      ensures started && FreeCells(old(cells)) != [] ==>
                |tiles| == |old(tiles)| + 1 && tiles[..|old(tiles)|] == old(tiles) &&
                var t := tiles[|old(tiles)|];
                (t.value == 2 || t.value == 4) && Available(old(cells), t.pos) &&
                cells == old(cells)[t.pos := t.value]
      ensures started && old(cells) == map[] ==> |cells| == 1 && |tiles| == 1
    {
      if state != NotYetStarted {
        return false;
      }
      assert |tiles| > 0 ==> tiles[0].pos in cells;
      if old(cells) == map[] {
        FreeCellsSpec(cells);
        assert Available(cells, Point(0, 0));
      }
      var t := TryAddRandomTile();
      state := MyTurn;
      started := true;
      if t != null {
        assert tiles[..|old(tiles)|] == old(tiles);
      }
    }

    /** reset: remove every tile, one by one, and return to the state before the start. */
    method Reset()
      requires Valid()
      modifies this, board
      ensures Valid()
      ensures tiles == [] && cells == map[] && state == NotYetStarted
    {
      var snapshot := tiles;
      var i := 0;
      while i < |snapshot|
        invariant 0 <= i <= |snapshot|
        invariant Valid()
        invariant tiles == snapshot[i..]
      {
        assert tiles[0] == snapshot[i];
        ghost var at: nat;
        at := RemoveTile(snapshot[i]);
        assert at == 0;
        assert tiles == snapshot[i + 1..];
        i := i + 1;
      }
      assert forall p :: p in cells ==> board[p.x, p.y] in tiles;
      assert cells == map[];
      state := NotYetStarted;
    }

    /**
     * startWithTile: reset, then place a copy of `tile` (whose position must be on
     * the board; the source fails with an index error otherwise); the other player
     * moves next.
     */
    method StartWithTile(tile: Tile)
      requires Valid() && InBounds(tile.pos)
      modifies this, board
      ensures Valid()
      ensures state == OtherTurn
      ensures cells == map[tile.pos := tile.value]
      ensures |tiles| == 1 && fresh(tiles[0])
      ensures tiles[0].value == tile.value && tiles[0].pos == tile.pos
    {
      Reset();
      var t := AddTile(tile.value, tile.pos);
      state := OtherTurn;
    }

    /**
     * The merging branch of tryMove's loop body: `next` doubles and `tile`
     * leaves the board.
     */
    method MergeTile(tile: Tile, next: Tile)
      requires Valid() && tile in tiles && next in tiles && tile != next
      modifies this`tiles, this`cells, board, next`value
      ensures Valid()
      ensures next.value == 2 * old(next.value)
      ensures cells == old(cells)[next.pos := 2 * old(next.value)] - {tile.pos}
      ensures |tiles| == |old(tiles)| - 1
      ensures forall t :: t in tiles ==> t in old(tiles)
    {
      next.value := next.value * 2;
      cells := cells[next.pos := next.value];
      ghost var at: nat;
      at := RemoveTile(tile);
    }

    /**
     * The merging branch of tryMove's loop body for the cell `pos`: its tile joins
     * the equal tile `next` in which its slide ends, and a 2048 wins the game.
     */
    method MergeStep(pos: Point, vector: Point, tile: Tile, next: Tile, merged: set<Point>, ghost s: SweepState)
      returns (merged': set<Point>, ghost s': SweepState)
      requires Valid() && vector != Point(0, 0)
      requires cells == s.cells && forall q :: q in merged <==> q in s.merges
      requires s.won ==> state == Won
      requires tile in tiles && tile.pos == pos
      requires next in tiles && next.pos == Furthest(cells, pos, vector).next
      requires next.value == tile.value && next.pos !in merged
      modifies this, board, tiles
      ensures Valid()
      ensures s' == Step(s, pos, vector)
      ensures cells == s'.cells && s'.moved
      ensures forall q :: q in merged' <==> q in s'.merges
      ensures state == StateDuringSweep(old(state), s'.won)
      ensures forall t :: t in tiles ==> t in old(tiles)
      ensures |tiles| == |old(tiles)| - (|s'.merges| - |s.merges|)
    {
      s' := Step(s, pos, vector);
      merged' := merged + {next.pos};
      MergeTile(tile, next);
      if next.value == WinningValue {
        state := Won;
      }
    }

    /**
     * One pass of tryMove's loop body for the cell `pos`: a tile there merges into
     * the equal tile that stopped its slide, unless that cell was merged into
     * already, and otherwise slides as far as it can. `s` is the sweep so far in
     * the value-level model; the pass performs the model's `Step`.
     */
    method SweepCell(pos: Point, vector: Point, merged: set<Point>, moved: bool, ghost s: SweepState)
      returns (merged': set<Point>, moved': bool, ghost s': SweepState)
      requires Valid() && InBounds(pos) && vector != Point(0, 0)
      requires cells == s.cells && moved == s.moved
      requires forall q :: q in merged <==> q in s.merges
      requires s.won ==> state == Won
      modifies this, board, tiles
      ensures Valid()
      ensures s' == Step(s, pos, vector)
      ensures cells == s'.cells && moved' == s'.moved
      ensures forall q :: q in merged' <==> q in s'.merges
      ensures state == StateDuringSweep(old(state), s'.won)
      ensures forall t :: t in tiles ==> t in old(tiles)
      ensures |tiles| == |old(tiles)| - (|s'.merges| - |s.merges|)
      ensures !moved' ==> !moved && tiles == old(tiles)
    {
      s' := Step(s, pos, vector);
      merged' := merged;
      moved' := moved;
      var tile := TileAt(pos);
      if tile == null {
        return;
      }
      var furthest := FindFurthestPosition(pos, vector);
      var next := TileAt(furthest.next);
      if next != null && next.value == tile.value && furthest.next !in merged {
        merged', s' := MergeStep(pos, vector, tile, next, merged, s);
        moved' := true;
      } else if pos != furthest.pos {
        MoveTile(tile, furthest.pos);
        moved' := true;
      }
    }

    /**
     * What tryMove's loops keep true after the first `k` cells of the traversal,
     * for a sweep traced by `tr` that started from the tiles `tiles0` and the
     * state `state0`: the board is the traced state, `merged` and `moved`
     * are its bookkeeping, and the only tiles gone are the merged ones.
     */
    ghost predicate Sweeping(tr: seq<SweepState>, k: nat, s: SweepState,
                             merged: set<Point>, moved: bool, tiles0: seq<Tile>, state0: GameState)
      reads this, board, tiles
    {
      && k < |tr|
      && Valid()
      && s == tr[k]
      && cells == s.cells && moved == s.moved
      && (forall q :: q in merged <==> q in s.merges)
      && state == StateDuringSweep(state0, s.won)
      && (forall t :: t in tiles ==> t in tiles0)
      && |tiles| == |tiles0| - |s.merges|
      && (!moved ==> tiles == tiles0)
    }

    /** One iteration of tryMove's inner loop, at the cell `(xs[i], ys[j])` of the traversal. */
    method SweepStep(direction: MoveDirection, i: int, j: int, merged: set<Point>, moved: bool,
                     ghost tr: seq<SweepState>, ghost s: SweepState, ghost tiles0: seq<Tile>,
                     ghost state0: GameState)
      returns (merged': set<Point>, moved': bool, ghost s': SweepState)
      requires 0 <= i < Size && 0 <= j < Size && IsTrace(tr, direction)
      requires Sweeping(tr, 4 * i + j, s, merged, moved, tiles0, state0)
      modifies this, board, tiles
      ensures Sweeping(tr, 4 * i + j + 1, s', merged', moved', tiles0, state0)
      ensures forall t :: t in tiles ==> t in old(tiles)
    {
      var pos := Point(Xs(direction)[i], Ys(direction)[j]);
      TraceAt(tr, direction, i, j);
      StepKeepsWon(s, pos, Vector(direction));
      merged', moved', s' := SweepCell(pos, Vector(direction), merged, moved, s);
    }

    /** tryMove's inner loop: the cells of column `xs[i]` of the traversal, in order. */
    method SweepLine(direction: MoveDirection, i: int, merged: set<Point>, moved: bool,
                     ghost tr: seq<SweepState>, ghost s: SweepState, ghost tiles0: seq<Tile>,
                     ghost state0: GameState)
      returns (merged': set<Point>, moved': bool, ghost s': SweepState)
      requires 0 <= i < Size && IsTrace(tr, direction)
      requires Sweeping(tr, 4 * i, s, merged, moved, tiles0, state0)
      modifies this, board, tiles
      ensures Sweeping(tr, 4 * i + 4, s', merged', moved', tiles0, state0)
      ensures forall t :: t in tiles ==> t in old(tiles)
    {
      merged', moved', s' := merged, moved, s;
      var j := 0;
      while j < Size
        invariant 0 <= j <= Size
        invariant Sweeping(tr, 4 * i + j, s', merged', moved', tiles0, state0)
        invariant forall t :: t in tiles ==> t in old(tiles)
      {
        merged', moved', s' := SweepStep(direction, i, j, merged', moved', tr, s', tiles0, state0);
        j := j + 1;
      }
    }

    /**
     * The two nested loops of tryMove: every cell is visited in the order the
     * direction calls for, and the board ends up as the model's `Sweep` says.
     */
    method SweepBoard(direction: MoveDirection) returns (moved: bool)
      requires Valid()
      modifies this, board, tiles
      ensures Valid()
      ensures var sw := Sweep(old(cells), direction);
              cells == sw.cells && moved == sw.moved &&
              state == StateDuringSweep(old(state), sw.won) &&
              |tiles| == |old(tiles)| - |sw.merges|
      ensures forall t :: t in tiles ==> t in old(tiles)
      ensures !moved ==> tiles == old(tiles) && cells == old(cells) && state == old(state)
      ensures Total(cells) == Total(old(cells))
    {
      var merged: set<Point> := {};
      moved := false;
      ghost var tr := SweepTrace(cells, direction);
      ghost var s := tr[0];
      var i := 0;
      while i < Size
        invariant 0 <= i <= Size
        invariant Sweeping(tr, 4 * i, s, merged, moved, old(tiles), old(state))
      {
        merged, moved, s := SweepLine(direction, i, merged, moved, tr, s, old(tiles), old(state));
        i := i + 1;
      }
      SweepIdle(old(cells), direction, |Order(direction)|);
      SweepKeepsTotal(old(cells), direction, |Order(direction)|);
    }

    /**
     * The end of tryMove once a tile moved: place `tileToCreate` (the replay of the
     * other player's random tile) or a random tile, then hand over the turn, or
     * lose when no tile could be placed.
     */
    method PlaceAndPassTurn(tileToCreate: Tile?) returns (r: Tile?)
      requires Valid()
      requires tileToCreate != null ==> Available(cells, tileToCreate.pos)
      modifies this, board
      ensures Valid()
      ensures tileToCreate != null ==>
                r != null && r.value == tileToCreate.value && r.pos == tileToCreate.pos
      ensures tileToCreate == null ==>
                (r == null <==> FreeCells(old(cells)) == []) &&
                (r != null ==> (r.value == 2 || r.value == 4) && Available(old(cells), r.pos))
      ensures r != null ==> fresh(r) && cells == old(cells)[r.pos := r.value] && tiles == old(tiles) + [r]
      ensures r == null ==> cells == old(cells) && tiles == old(tiles)
      ensures state == TurnAfterMove(old(state), r != null)
      ensures Total(cells) == Total(old(cells)) + (if r == null then 0 else r.value)
    {
      if tileToCreate != null {
        r := AddTile(tileToCreate.value, tileToCreate.pos);
      } else {
        r := TryAddRandomTile();
      }
      if r != null {
        TotalChange(old(cells), cells, r.pos);
      }
      state := if r == null then Lost else if state == MyTurn then OtherTurn else MyTurn;
    }

    /**
     * tryMove: outside the two playing states nothing happens. Otherwise every
     * tile is swept towards `direction` (the model's `Sweep`); when nothing moved
     * the board is left as it was. Otherwise the tile `tileToCreate` is placed
     * (the replay of the other player's random tile; its cell must be free once the
     * sweep is done) or a random one, and the turn passes.
     */
    method TryMove(direction: MoveDirection, tileToCreate: Tile?) returns (r: Tile?)
      requires Valid()
      requires tileToCreate != null ==> tileToCreate !in tiles
      requires tileToCreate != null && (state == MyTurn || state == OtherTurn) &&
               Sweep(cells, direction).moved ==>
                 Available(Sweep(cells, direction).cells, tileToCreate.pos)
      modifies this, board, tiles
      ensures Valid()
      ensures old(state) != MyTurn && old(state) != OtherTurn ==>
                r == null && state == old(state) && cells == old(cells) && tiles == old(tiles)
      ensures (old(state) == MyTurn || old(state) == OtherTurn) &&
              !Sweep(old(cells), direction).moved ==>
                r == null && state == old(state) && cells == old(cells) && tiles == old(tiles)
      ensures (old(state) == MyTurn || old(state) == OtherTurn) &&
              Sweep(old(cells), direction).moved ==>
                var sw := Sweep(old(cells), direction);
                (tileToCreate != null ==>
                   r != null && r.value == tileToCreate.value && r.pos == tileToCreate.pos) &&
                (tileToCreate == null ==>
                   (r == null <==> FreeCells(sw.cells) == []) &&
                   (r != null ==> (r.value == 2 || r.value == 4) && Available(sw.cells, r.pos))) &&
                (r != null ==> fresh(r) && cells == sw.cells[r.pos := r.value] &&
                               |tiles| > 0 && tiles[|tiles| - 1] == r) &&
                (r == null ==> cells == sw.cells) &&
                |tiles| == |old(tiles)| - |sw.merges| + (if r == null then 0 else 1) &&
                state == TurnAfterMove(StateDuringSweep(old(state), sw.won), r != null)
      ensures Total(cells) == Total(old(cells)) + (if r == null then 0 else r.value)
    {
      if state != MyTurn && state != OtherTurn {
        return null;
      }
      var moved := SweepBoard(direction);
      if !moved {
        return null;
      }
      r := PlaceAndPassTurn(tileToCreate);
    }
  }
}
