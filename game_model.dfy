/**
 * A value-level model of the board of GameBoard.kt: which cells hold a tile and
 * the tile's value, the slide of one tile (findFurthestPosition), one sweep of a
 * move (tryMove's two nested loops), the list of free cells, the flattened cell
 * values and the turn that follows a move. The class in game_board.dfy is proved
 * to compute exactly these functions.
 */
module GameModel {
  import opened GameTypes

  /** The occupied cells of a board, each with the value of its tile. */
  type Cells = map<Point, int>

  /** Every occupied cell lies on the board. */
  predicate WellFormed(g: Cells) {
    forall p :: p in g ==> InBounds(p)
  }

  /** cellAvailable: the cell is on the board and holds no tile. */
  predicate Available(g: Cells, p: Point) {
    InBounds(p) && p !in g
  }

  /** The unit vector tryMove slides tiles along for each direction. */
  function Vector(d: MoveDirection): (v: Point)
    ensures v != Point(0, 0)
    ensures (v.x == 0) != (v.y == 0) && -1 <= v.x <= 1 && -1 <= v.y <= 1
  {
    match d
    case Up => Point(0, -1)
    case Down => Point(0, 1)
    case Left => Point(-1, 0)
    case Right => Point(1, 0)
  }

  /** How many more steps along `d` can stay on the board; it bounds every slide. */
  function Reach(d: Point, p: Point): nat {
    if d.x > 0 then (if Size - p.x > 0 then Size - p.x else 0)
    else if d.x < 0 then (if p.x + 1 > 0 then p.x + 1 else 0)
    else if d.y > 0 then (if Size - p.y > 0 then Size - p.y else 0)
    else (if p.y + 1 > 0 then p.y + 1 else 0)
  }

  /** How far `p` lies along `d`; every step along `d` increases it. */
  function Along(d: Point, p: Point): int {
    if d.x > 0 then p.x else if d.x < 0 then -p.x else if d.y > 0 then p.y else -p.y
  }

  /** The cell reached from `c` after `k` steps along `d`. */
  function Offset(c: Point, d: Point, k: nat): Point {
    if k == 0 then c else Add(Offset(c, d, k - 1), d)
  }

  /**
   * findFurthestPosition: step from `c` along `d` while the next cell is free.
   * The result's `pos` is the last cell reached (possibly `c` itself) and its
   * `next` the cell that stopped the slide: off the board or occupied.
   */
  function Furthest(g: Cells, c: Point, d: Point): (r: FurthestPosition)
    requires d != Point(0, 0)
    ensures r.next == Add(r.pos, d)
    ensures !Available(g, r.next)
    ensures r.pos == c || Available(g, r.pos)
    ensures Along(d, c) <= Along(d, r.pos) < Along(d, r.next)
    decreases Reach(d, c)
  {
    var n := Add(c, d);
    if Available(g, n) then Furthest(g, n, d) else FurthestPosition(c, n)
  }

  lemma {:induction false} OffsetShift(c: Point, d: Point, i: nat)
    ensures Offset(Add(c, d), d, i) == Offset(c, d, i + 1)
  {
    if i > 0 {
      OffsetShift(c, d, i - 1);
    }
  }

  /**
   * The slide is the maximal run of free cells: if the first `k` cells after `c`
   * are free and the one after them is not, the slide stops after exactly `k` steps.
   */
  lemma {:induction false} FurthestIsMaximalFreeRun(g: Cells, c: Point, d: Point, k: nat)
    requires d != Point(0, 0)
    requires forall i :: 1 <= i <= k ==> Available(g, Offset(c, d, i))
    requires !Available(g, Offset(c, d, k + 1))
    ensures Furthest(g, c, d) == FurthestPosition(Offset(c, d, k), Offset(c, d, k + 1))
    decreases k
  {
    OffsetShift(c, d, 0);
    if k > 0 {
      var c' := Add(c, d);
      assert Available(g, Offset(c, d, 1));
      forall i | 1 <= i <= k - 1
        ensures Available(g, Offset(c', d, i))
      {
        OffsetShift(c, d, i);
      }
      OffsetShift(c, d, k - 1);
      OffsetShift(c, d, k);
      FurthestIsMaximalFreeRun(g, c', d, k - 1);
    }
  }

  // ---------------------------------------------------------------------------
  // The sweep of one move
  // ---------------------------------------------------------------------------

  /** The outer loop's x values and the inner loop's y values for each direction. */
  function Xs(d: MoveDirection): seq<int> {
    if d == Right then [3, 2, 1, 0] else [0, 1, 2, 3]
  }

  function Ys(d: MoveDirection): seq<int> {
    if d == Down then [3, 2, 1, 0] else [0, 1, 2, 3]
  }

  /** The sixteen cells in the order tryMove visits them. */
  function Order(d: MoveDirection): (ps: seq<Point>)
    ensures |ps| == 16
  {
    seq(16, k requires 0 <= k < 16 => Point(Xs(d)[k / 4], Ys(d)[k % 4]))
  }

  /**
   * The state the sweep carries from cell to cell: the board, the cells merged
   * into so far (in order; the source keeps them in the set `merged`), whether
   * any tile moved, and whether a merge produced the winning value.
   */
  datatype SweepState = SweepState(cells: Cells, merges: seq<Point>, moved: bool, won: bool)

  /**
   * One iteration of tryMove's loop body for the cell `p`: a tile there merges
   * into an equal tile that stopped its slide unless that cell was already merged
   * into during this sweep; otherwise it slides to the furthest free cell.
   */
  function Step(s: SweepState, p: Point, v: Point): SweepState
    requires v != Point(0, 0)
  {
    if p !in s.cells then s
    else
      var f := Furthest(s.cells, p, v);
      var value := s.cells[p];
      if f.next in s.cells && s.cells[f.next] == value && f.next !in s.merges then
        SweepState(s.cells[f.next := 2 * value] - {p}, s.merges + [f.next], true,
                   s.won || 2 * value == WinningValue)
      else if p != f.pos then
        SweepState((s.cells - {p})[f.pos := value], s.merges, true, s.won)
      else s
  }

  function Initial(g: Cells): SweepState {
    SweepState(g, [], false, false)
  }

  /** The sweep after its first `k` cells. */
  function SweepPrefix(g: Cells, d: MoveDirection, k: nat): SweepState
    requires k <= 16
  {
    if k == 0 then Initial(g)
    else Step(SweepPrefix(g, d, k - 1), Order(d)[k - 1], Vector(d))
  }

  /** The whole sweep of a move in direction `d`. */
  function Sweep(g: Cells, d: MoveDirection): SweepState {
    SweepPrefix(g, d, |Order(d)|)
  }

  /**
   * `tr` lists the sweep state before each cell of the traversal and after the
   * last one: every entry is the `Step` of the one before it.
   */
  ghost predicate IsTrace(tr: seq<SweepState>, d: MoveDirection) {
    |tr| == 17 && forall k :: 0 <= k < 16 ==> tr[k + 1] == Step(tr[k], Order(d)[k], Vector(d))
  }

  /** The entry of a trace after the cell `(Xs(d)[i], Ys(d)[j])` of the traversal. */
  lemma TraceAt(tr: seq<SweepState>, d: MoveDirection, i: int, j: int)
    requires IsTrace(tr, d) && 0 <= i < Size && 0 <= j < Size
    ensures 4 * i + j + 1 < |tr|
    ensures tr[4 * i + j + 1] == Step(tr[4 * i + j], Point(Xs(d)[i], Ys(d)[j]), Vector(d))
  {
    OrderAtLoop(d, i, j);
  }

  /** A step never takes back a win. */
  lemma StepKeepsWon(s: SweepState, p: Point, v: Point)
    requires v != Point(0, 0)
    ensures s.won ==> Step(s, p, v).won
  {
  }

  /** The sweep of `g` step by step: it starts from `Initial(g)` and ends in `Sweep(g, d)`. */
  lemma SweepTrace(g: Cells, d: MoveDirection) returns (tr: seq<SweepState>)
    ensures IsTrace(tr, d) && tr[0] == Initial(g) && tr[16] == Sweep(g, d)
  {
    tr := seq(17, k requires 0 <= k <= 16 => SweepPrefix(g, d, k));
  }

  /** The state the board takes once a move has been made (tile placed or not). */
  function TurnAfterMove(s: GameState, placed: bool): (r: GameState)
    ensures r != Won && r != NotYetStarted
    ensures !placed <==> r == Lost
    ensures placed && s == MyTurn ==> r == OtherTurn
    ensures placed && s != MyTurn ==> r == MyTurn
  {
    if !placed then Lost else if s == MyTurn then OtherTurn else MyTurn
  }

  /** The state a move in progress has reached after merges that may have won. */
  function StateDuringSweep(s: GameState, won: bool): GameState {
    if won then Won else s
  }

  // ---------------------------------------------------------------------------
  // Free cells and flattened values
  // ---------------------------------------------------------------------------

  /** The sixteen cells, x outer and y inner, both ascending. */
  function AllCells(): (ps: seq<Point>)
    ensures |ps| == 16
  {
    seq(16, k requires 0 <= k < 16 => Point(k / 4, k % 4))
  }

  function CellIndex(p: Point): int {
    4 * p.x + p.y
  }

  /** The free cells among `ps`, in the order of `ps`. */
  function FreeIn(g: Cells, ps: seq<Point>): seq<Point> {
    if ps == [] then []
    else
      FreeIn(g, ps[..|ps| - 1]) + (if Available(g, ps[|ps| - 1]) then [ps[|ps| - 1]] else [])
  }

  /** availableCells: the free cells in row order. */
  function FreeCells(g: Cells): seq<Point> {
    FreeIn(g, AllCells())
  }

  /** The value shown for a cell: its tile's value, or 0 when it is empty. */
  function ValueAt(g: Cells, p: Point): int {
    if p in g then g[p] else 0
  }

  /** cellValues: the sixteen cell values, x outer and y inner. */
  function FlatValues(g: Cells): seq<int> {
    seq(16, k requires 0 <= k < 16 => ValueAt(g, AllCells()[k]))
  }

  /** Reads a board back from its flattened values, taking 0 for an empty cell. */
  function FromCellValues(vs: seq<int>): Cells
    requires |vs| == 16
  {
    map k | 0 <= k < 16 && vs[k] != 0 :: AllCells()[k] := vs[k]
  }

  // ---------------------------------------------------------------------------
  // Properties of the traversal
  // ---------------------------------------------------------------------------

  /** The number of steps from `p` to the edge the move pushes tiles against. */
  function EdgeDistance(d: MoveDirection, p: Point): int {
    match d
    case Up => p.y
    case Down => Size - 1 - p.y
    case Left => p.x
    case Right => Size - 1 - p.x
  }

  /** `p` and `q` lie on one line along which a move in direction `d` slides tiles. */
  predicate SameLine(d: MoveDirection, p: Point, q: Point) {
    if d == Up || d == Down then p.x == q.x else p.y == q.y
  }

  lemma OrderAt(d: MoveDirection, k: int)
    requires 0 <= k < 16
    ensures 0 <= k / 4 < 4 && 0 <= k % 4 < 4 && k == 4 * (k / 4) + k % 4
    ensures Order(d)[k] == Point(Xs(d)[k / 4], Ys(d)[k % 4])
  {
  }

  /** The cell visited by the inner loop's `j`-th pass of the outer loop's `i`-th pass. */
  lemma OrderAtLoop(d: MoveDirection, i: int, j: int)
    requires 0 <= i < Size && 0 <= j < Size
    ensures Order(d)[4 * i + j] == Point(Xs(d)[i], Ys(d)[j])
  {
    OrderAt(d, 4 * i + j);
  }

  /** Each move visits every cell of the board exactly once. */
  lemma OrderReachesEveryCell(d: MoveDirection, p: Point)
    requires InBounds(p)
    ensures p in Order(d)
  {
    var i := if d == Right then 3 - p.x else p.x;
    var j := if d == Down then 3 - p.y else p.y;
    OrderAtLoop(d, i, j);
  }

  lemma OrderDistinct(d: MoveDirection, a: int, b: int)
    requires 0 <= a < b < 16
    ensures InBounds(Order(d)[a]) && Order(d)[a] != Order(d)[b]
  {
    OrderAt(d, a);
    OrderAt(d, b);
  }

  /** A move visits every cell of the board exactly once. */
  lemma OrderCoversBoard(d: MoveDirection)
    ensures forall p :: InBounds(p) <==> p in Order(d)
    ensures forall a, b :: 0 <= a < b < 16 ==> Order(d)[a] != Order(d)[b]
  {
    forall p | InBounds(p)
      ensures p in Order(d)
    {
      OrderReachesEveryCell(d, p);
    }
    forall k | 0 <= k < 16
      ensures InBounds(Order(d)[k])
    {
      if k < 15 {
        OrderDistinct(d, k, 15);
      } else {
        OrderAt(d, k);
      }
    }
    forall a, b | 0 <= a < b < 16
      ensures Order(d)[a] != Order(d)[b]
    {
      OrderDistinct(d, a, b);
    }
  }

  /**
   * Within one line, a move visits the cells nearest the edge it pushes against
   * first, so a tile only ever slides into cells already visited.
   */
  lemma OrderNearestFirst(d: MoveDirection, a: int, b: int)
    requires 0 <= a < b < 16
    requires SameLine(d, Order(d)[a], Order(d)[b])
    ensures EdgeDistance(d, Order(d)[a]) < EdgeDistance(d, Order(d)[b])
  {
    OrderAt(d, a);
    OrderAt(d, b);
  }

  // ---------------------------------------------------------------------------
  // Properties of the sweep
  // ---------------------------------------------------------------------------

  /** The sweep keeps every tile on the board. */
  lemma {:induction false} SweepWellFormed(g: Cells, d: MoveDirection, k: nat)
    requires k <= 16 && WellFormed(g)
    ensures WellFormed(SweepPrefix(g, d, k).cells)
  {
    if k > 0 {
      SweepWellFormed(g, d, k - 1);
    }
  }

  /** A merge removes one tile and records one merge; a slide or a stay does neither. */
  lemma StepTileCount(s: SweepState, p: Point, v: Point)
    requires v != Point(0, 0)
    ensures var s' := Step(s, p, v);
            |s'.merges| >= |s.merges| && |s'.cells| == |s.cells| - (|s'.merges| - |s.merges|)
  {
    if p in s.cells {
      var f := Furthest(s.cells, p, v);
      var value := s.cells[p];
      if f.next in s.cells && s.cells[f.next] == value && f.next !in s.merges {
        var c := s.cells[f.next := 2 * value];
        assert c.Keys == s.cells.Keys;
        assert (c - {p}).Keys == s.cells.Keys - {p};
      } else if p != f.pos {
        var c := s.cells - {p};
        assert c.Keys == s.cells.Keys - {p};
        assert c[f.pos := value].Keys == c.Keys + {f.pos};
      }
    }
  }

  /** Each merge removes one tile and a slide none: the sweep lowers the tile count by its merges. */
  lemma {:induction false} SweepTileCount(g: Cells, d: MoveDirection, k: nat)
    requires k <= 16
    ensures |SweepPrefix(g, d, k).cells| == |g| - |SweepPrefix(g, d, k).merges|
  {
    if k > 0 {
      SweepTileCount(g, d, k - 1);
      StepTileCount(SweepPrefix(g, d, k - 1), Order(d)[k - 1], Vector(d));
    }
  }

  /** No cell is merged into twice during one sweep. */
  lemma {:induction false} SweepMergesDistinct(g: Cells, d: MoveDirection, k: nat)
    requires k <= 16
    ensures forall i, j :: 0 <= i < j < |SweepPrefix(g, d, k).merges| ==>
              SweepPrefix(g, d, k).merges[i] != SweepPrefix(g, d, k).merges[j]
  {
    if k > 0 {
      SweepMergesDistinct(g, d, k - 1);
    }
  }

  /** A sweep in which no tile moved left the board as it was and merged nothing. */
  lemma {:induction false} SweepIdle(g: Cells, d: MoveDirection, k: nat)
    requires k <= 16
    ensures var s := SweepPrefix(g, d, k);
            !s.moved ==> s.cells == g && s.merges == [] && !s.won
  {
    if k > 0 {
      SweepIdle(g, d, k - 1);
    }
  }

  // ---------------------------------------------------------------------------
  // Properties of the free cells and of the flattened values
  // ---------------------------------------------------------------------------

  lemma AllCellsIndex(p: Point)
    requires InBounds(p)
    ensures 0 <= CellIndex(p) < 16 && AllCells()[CellIndex(p)] == p
  {
  }

  lemma {:induction false} FreeInSpec(g: Cells, ps: seq<Point>)
    ensures forall p :: p in FreeIn(g, ps) <==> p in ps && Available(g, p)
    ensures |FreeIn(g, ps)| <= |ps|
    decreases |ps|
  {
    if ps != [] {
      FreeInSpec(g, ps[..|ps| - 1]);
      assert ps == ps[..|ps| - 1] + [ps[|ps| - 1]];
    }
  }

  lemma {:induction false} FreeInDistinct(g: Cells, ps: seq<Point>)
    requires forall a, b :: 0 <= a < b < |ps| ==> ps[a] != ps[b]
    ensures var r := FreeIn(g, ps);
            forall a, b :: 0 <= a < b < |r| ==> r[a] != r[b]
    decreases |ps|
  {
    if ps != [] {
      var init := ps[..|ps| - 1];
      FreeInDistinct(g, init);
      FreeInSpec(g, init);
      assert ps[|ps| - 1] !in init;
    }
  }

  /** availableCells lists exactly the free cells of the board, each once. */
  lemma FreeCellsSpec(g: Cells)
    ensures forall p :: p in FreeCells(g) <==> Available(g, p)
    ensures var r := FreeCells(g);
            forall a, b :: 0 <= a < b < |r| ==> r[a] != r[b]
  {
    FreeInSpec(g, AllCells());
    forall p | Available(g, p)
      ensures p in AllCells()
    {
      AllCellsIndex(p);
    }
    FreeInDistinct(g, AllCells());
  }

  /**
   * cellValues loses nothing when no tile holds 0: the board can be read back
   * from its sixteen values.
   */
  lemma CellValuesRoundTrip(g: Cells)
    requires WellFormed(g)
    requires forall p :: p in g ==> g[p] != 0
    ensures FromCellValues(FlatValues(g)) == g
  {
    var r := FromCellValues(FlatValues(g));
    forall p | p in g
      ensures p in r && r[p] == g[p]
    {
      AllCellsIndex(p);
    }
    forall p | p in r
      ensures p in g
    {
    }
  }

  // ---------------------------------------------------------------------------
  // The total of the tile values (the score)
  // ---------------------------------------------------------------------------

  /** The sum of the values shown in the cells `ps`. */
  function ValueSum(g: Cells, ps: seq<Point>): int {
    if ps == [] then 0 else ValueSum(g, ps[..|ps| - 1]) + ValueAt(g, ps[|ps| - 1])
  }

  /** The sum of the values of all tiles on the board: the score. */
  function Total(g: Cells): int {
    ValueSum(g, AllCells())
  }

  /** An empty board has total 0. */
  lemma {:induction false} ValueSumEmpty(ps: seq<Point>)
    ensures ValueSum(map[], ps) == 0
    decreases |ps|
  {
    if ps != [] {
      ValueSumEmpty(ps[..|ps| - 1]);
    }
  }

  /** Changing the value shown at one cell `q` moves the sum over distinct cells by the difference. */
  lemma {:induction false} ValueSumChange(g: Cells, g': Cells, ps: seq<Point>, q: Point)
    requires forall a, b :: 0 <= a < b < |ps| ==> ps[a] != ps[b]
    requires forall p :: p != q ==> ValueAt(g', p) == ValueAt(g, p)
    ensures ValueSum(g', ps) ==
              ValueSum(g, ps) + (if q in ps then ValueAt(g', q) - ValueAt(g, q) else 0)
    decreases |ps|
  {
    if ps != [] {
      var init := ps[..|ps| - 1];
      ValueSumChange(g, g', init, q);
      assert ps == init + [ps[|ps| - 1]];
      assert q in ps <==> q in init || q == ps[|ps| - 1];
      assert q == ps[|ps| - 1] ==> q !in init;
    }
  }

  lemma AllCellsDistinct()
    ensures forall a, b :: 0 <= a < b < 16 ==> AllCells()[a] != AllCells()[b]
  {
  }

  /** Changing the value at one cell `q` of the board moves the total by the difference. */
  lemma TotalChange(g: Cells, g': Cells, q: Point)
    requires InBounds(q)
    requires forall p :: p != q ==> ValueAt(g', p) == ValueAt(g, p)
    ensures Total(g') == Total(g) + ValueAt(g', q) - ValueAt(g, q)
  {
    AllCellsDistinct();
    AllCellsIndex(q);
    ValueSumChange(g, g', AllCells(), q);
  }

  /** A merge adds the source's value to the target and a slide carries it along: one step keeps the total. */
  lemma StepKeepsTotal(s: SweepState, p: Point, v: Point)
    requires v != Point(0, 0) && WellFormed(s.cells)
    ensures Total(Step(s, p, v).cells) == Total(s.cells)
  {
    if p in s.cells {
      var g := s.cells;
      var f := Furthest(g, p, v);
      var value := g[p];
      if f.next in g && g[f.next] == value && f.next !in s.merges {
        var g1 := g[f.next := 2 * value];
        TotalChange(g, g1, f.next);
        TotalChange(g1, g1 - {p}, p);
      } else if p != f.pos {
        var g1 := g - {p};
        TotalChange(g, g1, p);
        TotalChange(g1, g1[f.pos := value], f.pos);
      }
    }
  }

  /** The sweep conserves the total of the tile values. */
  lemma {:induction false} SweepKeepsTotal(g: Cells, d: MoveDirection, k: nat)
    requires k <= 16 && WellFormed(g)
    ensures Total(SweepPrefix(g, d, k).cells) == Total(g)
  {
    if k > 0 {
      SweepKeepsTotal(g, d, k - 1);
      SweepWellFormed(g, d, k - 1);
      StepKeepsTotal(SweepPrefix(g, d, k - 1), Order(d)[k - 1], Vector(d));
    }
  }
}
