/**
 * The `Board` of src/board/mod.rs as an object whose methods update its fields in
 * place.  The grid is a two-dimensional array of `height` rows and `width` columns,
 * read as grid[y, x].  `Snapshot()` reads the fields as a `BoardSpec.BoardState`,
 * and every method is proved to do to that value what the function of the same
 * name in BoardSpec does.
 */
module BoardEngine {
  import opened Wrappers
  import opened Cells
  import opened Patterns
  import opened BoardSpec

  class Board {
    const grid: array2<BoardValue>
    /** The rows of `grid`, top to bottom, as a value. */
    ghost var cells: seq<seq<BoardValue>>
    var player: Player
    var lastPlacement: Option<Move>
    var minX: nat
    var minY: nat
    var maxX: nat
    var maxY: nat
    var defaultBound: bool
    var gameResult: GameResult
    var xForced: Option<seq<Move>>
    var oForced: Option<seq<Move>>
    const width: nat
    const height: nat

    /** The array has the board's dimensions and holds exactly `cells`. */
    ghost predicate Mirrors()
      reads this, grid
    {
      && grid.Length0 == height && grid.Length1 == width && width >= 1 && height >= 1
      && |cells| == height
      && (forall y :: 0 <= y < height ==> |cells[y]| == width)
      && forall y, x :: 0 <= y < height && 0 <= x < width ==> cells[y][x] == grid[y, x]
    }

    /** The fields read as a board value. */
    ghost function Snapshot(): BoardState
      reads this
    {
      BoardState(cells, player, lastPlacement, minX, minY, maxX, maxY, defaultBound, gameResult,
                 xForced, oForced, width, height)
    }

    ghost predicate Valid()
      reads this, grid
    {
      Mirrors() && Wf(Snapshot())
    }

    /** Board::new. */
    constructor (w: nat, h: nat)
      requires w >= 1 && h >= 1
      ensures Valid() && fresh(grid)
      ensures Snapshot() == NewBoard(w, h)
    {
      grid := new BoardValue[h, w]((_, _) => Empty);
      cells := EmptyGrid(w, h);
      player := FIRST;
      lastPlacement := None;
      minX, minY, maxX, maxY := 0, 0, w - 1, h - 1;
      defaultBound := true;
      gameResult := NotTerminated;
      xForced, oForced := Some([]), Some([]);
      width, height := w, h;
      new;
      assert Snapshot() == NewBoard(w, h);
    }

    /** Board::place. */
    method Place(m: Move) returns (r: Result<(), PlacingError>)
      requires Valid()
      modifies this, grid
      ensures Valid()
      ensures r.Ok? <==> TryPlace(old(Snapshot()), m).Ok?
      ensures r.Err? ==> TryPlace(old(Snapshot()), m) == Err(r.error) && Snapshot() == old(Snapshot())
      ensures r.Ok? ==> Snapshot() == TryPlace(old(Snapshot()), m).value
    {
      if m.x >= width || m.y >= height {
        return Err(OutOfBounds);
      }
      if grid[m.y, m.x] != Empty {
        return Err(Occupied);
      }
      PlaceStone(m);
      r := Ok(());
    }

    /** The success path of place: write the stone, update the caches, the turn and the
        last move, then the bounds and the result. */
    method PlaceStone(m: Move)
      requires Valid() && OnBoard(Snapshot(), m.x, m.y) && At(Snapshot(), m.x, m.y) == Empty
      modifies this, grid
      ensures Valid()
      ensures TryPlace(old(Snapshot()), m) == Ok(Snapshot())
    {
      ghost var s := Snapshot();
      WriteStone(m);
      UpdateBounds();
      ghost var bounded := Snapshot();
      if !IsTerminate(gameResult) {
        gameResult := NotCalculated;
      }
      assert Snapshot() == bounded.(gameResult := if IsTerminate(s.gameResult) then s.gameResult else NotCalculated);
      PlaceSteps(s, m);
      PlacePreservesWf(s, m);
    }

    /** The first steps of place: the stone, the forced-move cache rule, the turn and
        the last move. */
    method WriteStone(m: Move)
      requires Mirrors() && m.x < width && m.y < height
      modifies this`cells, grid, this`xForced, this`oForced, this`player, this`lastPlacement
      ensures Mirrors() && Snapshot() == Stepped(old(Snapshot()), m)
    {
      WriteCell(m.x, m.y, Stone(player));
      match (player, xForced, oForced) {
        case (X, Some(fa), _) =>
          if fa == [] || m in fa {
            xForced, oForced := None, None;
          }
        case (O, _, Some(fa)) =>
          if fa == [] || m in fa {
            xForced, oForced := None, None;
          }
        case _ =>
      }
      player := Next(player);
      lastPlacement := Some(m);
    }

    /** Writes `v` into the array and its mirror. */
    method WriteCell(x: nat, y: nat, v: BoardValue)
      requires Mirrors() && x < width && y < height
      modifies this`cells, grid
      ensures Mirrors() && cells == old(cells[y := cells[y][x := v]])
    {
      grid[y, x] := v;
      cells := cells[y := cells[y][x := v]];
    }

    /** update_bounds: collapse or widen the box around the last move, or recompute it
        from the whole grid when there is none. */
    method UpdateBounds()
      requires Mirrors()
      modifies this`minX, this`minY, this`maxX, this`maxY, this`defaultBound
      ensures Mirrors()
      ensures old(lastPlacement).Some? ==> Snapshot() == BoundsAfter(old(Snapshot()), old(lastPlacement).value)
      ensures old(lastPlacement).None? ==> Snapshot() == RescanBounds(old(Snapshot()))
    {
      if lastPlacement.Some? {
        var m := lastPlacement.value;
        if defaultBound {
          minX, minY, maxX, maxY := m.x, m.y, m.x, m.y;
          defaultBound := false;
          return;
        }
        minX, minY, maxX, maxY := Min(minX, m.x), Min(minY, m.y), Max(maxX, m.x), Max(maxY, m.y);
        return;
      }
      RecomputeBounds();
    }

    /** The branch of update_bounds without a last move: rescan the grid, and fall
        back to the full board when it is empty. */
    method RecomputeBounds()
      requires Mirrors()
      modifies this`minX, this`minY, this`maxX, this`maxY, this`defaultBound
      ensures Snapshot() == RescanBounds(old(Snapshot()))
    {
      var b := RescanGrid();
      if b.allEmpty {
        minX, minY, maxX, maxY := 0, 0, width - 1, height - 1;
      } else {
        minX, minY, maxX, maxY := b.minX, b.minY, b.maxX, b.maxY;
        defaultBound := false;
      }
    }

    /** The full rescan of update_bounds: every cell, column by column, widening the
        box at each stone. */
    method RescanGrid() returns (b: Bounds)
      requires Mirrors()
      ensures b == Rescan(Snapshot(), width)
    {
      ghost var s := Snapshot();
      b := RESCAN_START;
      for x := 0 to width
        invariant b == Rescan(s, x)
      {
        for y := 0 to height
          invariant b == RescanColumn(s, x, y, Rescan(s, x))
        {
          if ValueAt(x, y) == Empty {
            continue;
          }
          b := Widen(b, x, y);
        }
      }
    }

    /** is_board_full: every cell, row by row, until an empty one. */
    method IsBoardFull() returns (full: bool)
      requires Mirrors()
      ensures full == IsFull(Snapshot())
    {
      for y := 0 to height
        invariant forall x: nat, y': nat :: x < width && y' < y ==> At(Snapshot(), x, y') != Empty
      {
        for x := 0 to width
          invariant forall x': nat :: x' < x ==> At(Snapshot(), x', y) != Empty
          invariant forall x': nat, y': nat :: x' < width && y' < y ==> At(Snapshot(), x', y') != Empty
        {
          if ValueAt(x, y) == Empty {
            return false;
          }
        }
      }
      return true;
    }

    /** count_ray: the steps 1..5 from (x, y) along (dx, dy) that hold `v`, and whether
        the ray ended at the edge or at a `blocking` stone. */
    method CountRay(x: nat, y: nat, dx: int, dy: int, v: BoardValue, blocking: BoardValue)
      returns (counter: nat, blocked: bool)
      requires Mirrors()
      ensures (counter, blocked) == Ray(Snapshot(), x, y, dx, dy, v, blocking)
    {
      ghost var s := Snapshot();
      counter, blocked := 0, false;
      for k := 1 to 6
        invariant counter == k - 1 && !blocked
        invariant Ray(s, x, y, dx, dy, v, blocking).0 == counter + RayFrom(s, x, y, dx, dy, v, blocking, k).0
        invariant Ray(s, x, y, dx, dy, v, blocking).1 == RayFrom(s, x, y, dx, dy, v, blocking, k).1
      {
        var cell := ProbeCell(x + k * dx, y + k * dy);
        RayStep(s, x, y, dx, dy, v, blocking, k, counter);
        if cell.None? {
          return counter, true;
        }
        if cell.value != v {
          return counter, cell.value == blocking;
        }
        counter := counter + 1;
      }
    }

    /** The stone at (x, y). */
    function ValueAt(x: nat, y: nat): (v: BoardValue)
      reads this, grid
      requires Mirrors() && x < width && y < height
      ensures v == At(Snapshot(), x, y)
    {
      grid[y, x]
    }

    /** The cell at (x, y), or None when add_with_limit finds it off the board. */
    function ProbeCell(x: int, y: int): (cell: Option<BoardValue>)
      reads this, grid
      requires Mirrors()
      ensures cell == Probe(Snapshot(), x, y)
    {
      if 0 <= x < width && 0 <= y < height then Some(ValueAt(x, y)) else None
    }

    /** check_dir: the two rays along (dx, dy) and (-dx, -dy). */
    method CheckDirection(x: nat, y: nat, dx: int, dy: int, v: BoardValue, blocking: BoardValue)
      returns (wins: bool)
      requires Mirrors()
      ensures wins == CheckDir(Snapshot(), x, y, dx, dy, v, blocking)
    {
      var firstCount, firstBlocked := CountRay(x, y, dx, dy, v, blocking);
      var secondCount, secondBlocked := CountRay(x, y, -dx, -dy, v, blocking);
      var count := firstCount + secondCount + 1;
      var blocked := firstBlocked && secondBlocked;
      wins := (count == 5 && !blocked) || count > 5;
      assert wins == RaysWin((firstCount, firstBlocked), (secondCount, secondBlocked));
    }

    /** check_all_dir: row, column and the two diagonals through the stone at (x, y). */
    method CheckAllDirections(x: nat, y: nat) returns (wins: bool)
      requires Mirrors() && x < width && y < height && At(Snapshot(), x, y) != Empty
      ensures wins == CheckAllDir(Snapshot(), x, y)
    {
      CheckAllDirCases(Snapshot(), x, y);
      var v := ValueAt(x, y);
      var blocking := Opposite(v).value;
      wins := CheckDirection(x, y, 1, 0, v, blocking);
      if wins {
        return;
      }
      wins := CheckDirection(x, y, 0, 1, v, blocking);
      if wins {
        return;
      }
      wins := CheckDirection(x, y, 1, 1, v, blocking);
      if wins {
        return;
      }
      wins := CheckDirection(x, y, 1, -1, v, blocking);
    }

    /** The scan of calculate_game_result without a last move: column by column, the
        owner of the first stone that completes a winning run. */
    method ScanForWin() returns (winner: Option<Player>)
      requires Mirrors()
      ensures winner == ScanFrom(Snapshot(), 0)
    {
      for x := 0 to width
        invariant ScanFrom(Snapshot(), 0) == ScanFrom(Snapshot(), x)
      {
        for y := 0 to height
          invariant ScanColumn(Snapshot(), x, 0) == ScanColumn(Snapshot(), x, y)
        {
          if ValueAt(x, y) == Empty {
            continue;
          }
          var wins := CheckAllDirections(x, y);
          if wins {
            return PlayerOf(ValueAt(x, y));
          }
        }
      }
      return None;
    }

    /** calculate_game_result: the memoised result, or the result computed now and
        memoised. */
    method CalculateGameResult() returns (g: GameResult)
      requires Valid()
      modifies this`gameResult
      ensures Valid()
      ensures (g, Snapshot()) == BoardSpec.CalculateGameResult(old(Snapshot()))
    {
      if gameResult != NotCalculated {
        return gameResult;
      }
      var full := IsBoardFull();
      if full {
        g := Draws;
      } else if lastPlacement.Some? {
        var m := lastPlacement.value;
        var wins := CheckAllDirections(m.x, m.y);
        g := if wins then Win(PlayerOf(grid[m.y, m.x]).value) else NotTerminated;
      } else {
        var winner := ScanForWin();
        g := if winner.Some? then Win(winner.value) else NotTerminated;
      }
      gameResult := g;
      MemoChangeKeepsWf(old(Snapshot()), Snapshot());
    }

    /** Board::utility: the payoff of the memoised result for `p`. */
    method Utility(p: Player) returns (u: Option<real>)
      requires Valid()
      modifies this`gameResult
      ensures Valid()
      ensures (u, Snapshot()) == UtilityFor(old(Snapshot()), p)
    {
      var g := CalculateGameResult();
      u := Cells.Utility(g, p);
    }

    /** The on-board cells (x + t, y + slope * t) for t = -5 .. 5, in that order: the
        two diagonal loops of get_areas_from_point. */
    method DiagonalCells(x: nat, y: nat, slope: int) returns (area: seq<AreaCell>)
      requires Mirrors()
      ensures area == DiagonalArea(Snapshot(), x, y, slope)
    {
      area := [];
      for t := -5 to 6
        invariant area == DiagonalUpTo(Snapshot(), x, y, slope, t)
      {
        var rx, ry := x + t, y + slope * t;
        if 0 <= rx < width && 0 <= ry < height {
          area := area + [AreaCell(ValueAt(rx, ry), rx, ry)];
        }
      }
    }

    /** The row of get_areas_from_point: columns x-6 .. x+6 clipped to the board. */
    method RowCellsAround(x: nat, y: nat) returns (area: seq<AreaCell>)
      requires Mirrors() && x < width && y < height
      ensures area == RowArea(Snapshot(), x, y)
    {
      var lo, hi := SatSub(x, 6), Min(x + 7, width);
      area := [];
      for x' := lo to hi
        invariant |area| == x' - lo
        invariant forall k :: 0 <= k < |area| ==> area[k] == CellAt(Snapshot(), lo + k, y)
      {
        area := area + [AreaCell(ValueAt(x', y), x', y)];
      }
      RowAreaFromCells(Snapshot(), x, y, area);
    }

    /** The column of get_areas_from_point: rows y-6 .. y+6 clipped to the board. */
    method ColumnCellsAround(x: nat, y: nat) returns (area: seq<AreaCell>)
      requires Mirrors() && x < width && y < height
      ensures area == ColumnArea(Snapshot(), x, y)
    {
      var lo, hi := SatSub(y, 6), Min(y + 7, height);
      area := [];
      for y' := lo to hi
        invariant |area| == y' - lo
        invariant forall k :: 0 <= k < |area| ==> area[k] == CellAt(Snapshot(), x, lo + k)
      {
        area := area + [AreaCell(ValueAt(x, y'), x, y')];
      }
      ColumnAreaFromCells(Snapshot(), x, y, area);
    }

    /** get_areas_from_point: the row, the column and the two diagonals through (x, y). */
    method GetAreasFromPoint(x: nat, y: nat) returns (areas: seq<seq<AreaCell>>)
      requires Mirrors() && x < width && y < height
      ensures areas == Areas(Snapshot(), x, y)
    {
      var horz := RowCellsAround(x, y);
      var vert := ColumnCellsAround(x, y);
      var diag1 := DiagonalCells(x, y, 1);
      var diag2 := DiagonalCells(x, y, -1);
      areas := [horz, vert, diag1, diag2];
    }

    /** extend: append the elements of `u` that `v` does not hold yet, in order. */
    static method ExtendWith(v: seq<Move>, u: seq<Move>) returns (r: seq<Move>)
      ensures r == Extend(v, u)
    {
      r := v;
      for i := 0 to |u|
        invariant Extend(r, u[i..]) == Extend(v, u)
      {
        assert u[i..][1..] == u[i + 1..];
        if u[i] !in r {
          r := r + [u[i]];
        }
      }
      assert u[|u|..] == [];
    }

    /** calculate_forced: the mover's cached list, or both lists computed around the
        last placement, cached, and the mover's returned. */
    method CalculateForced(coin: (nat, nat) -> bool) returns (forced: seq<Move>)
      requires Valid()
      modifies this`xForced, this`oForced
      ensures Valid()
      ensures (forced, Snapshot()) == Forced(old(Snapshot()), coin)
    {
      forced := ComputeForced(coin);
      ForcedPreservesWf(old(Snapshot()), coin);
    }

    /** The body of calculate_forced. */
    method ComputeForced(coin: (nat, nat) -> bool) returns (forced: seq<Move>)
      requires Mirrors() && LastPlacementValid(Snapshot())
      modifies this`xForced, this`oForced
      ensures Mirrors()
      ensures (forced, Snapshot()) == Forced(old(Snapshot()), coin)
    {
      match (player, xForced, oForced) {
        case (X, Some(fa), _) => return fa;
        case (O, _, Some(fa)) => return fa;
        case _ =>
      }
      var xs, os := [], [];
      if lastPlacement.Some? {
        xs, os := ForcedLists(lastPlacement.value, coin);
      }
      xForced, oForced := Some(xs), Some(os);
      forced := if player == Player.X then xs else os;
    }

    /** The loops of calculate_forced around the last placement: get_forced for target
        X over the four areas, then for target O, merging the lists with extend. */
    method ForcedLists(m: Move, coin: (nat, nat) -> bool) returns (xs: seq<Move>, os: seq<Move>)
      requires Mirrors() && m.x < width && m.y < height
      ensures (xs, os) == FreshForced(Snapshot(), m, coin)
    {
      ghost var s := Snapshot();
      xs, os := [], [];
      for target := 0 to 2
        invariant FreshForced(s, m, coin) == ForcedScan(s, m, coin, 4 * target, xs, os)
      {
        var areas := GetAreasFromPoint(m.x, m.y);
        xs, os := ForcedRound(s, m, coin, target, areas, xs, os);
      }
    }

    /** One target colour of calculate_forced: get_forced over the four areas. */
    static method ForcedRound(ghost s: BoardState, m: Move, coin: (nat, nat) -> bool, target: nat,
                              areas: seq<seq<AreaCell>>, xs: seq<Move>, os: seq<Move>)
      returns (xs': seq<Move>, os': seq<Move>)
      requires Shaped(s) && OnBoard(s, m.x, m.y) && target < 2
      requires areas == Areas(s, m.x, m.y)
      ensures ForcedScan(s, m, coin, 4 * target, xs, os) == ForcedScan(s, m, coin, 4 * target + 4, xs', os')
    {
      xs', os' := xs, os;
      for a := 0 to 4
        invariant ForcedScan(s, m, coin, 4 * target, xs, os) == ForcedScan(s, m, coin, 4 * target + a, xs', os')
      {
        xs', os' := ForcedStep(s, m, coin, target, a, areas[a], xs', os');
      }
    }

    /** One get_forced call of calculate_forced and the merge of its two lists. */
    static method ForcedStep(ghost s: BoardState, m: Move, coin: (nat, nat) -> bool, target: nat, a: nat,
                             area: seq<AreaCell>, xs: seq<Move>, os: seq<Move>)
      returns (xs': seq<Move>, os': seq<Move>)
      requires Shaped(s) && OnBoard(s, m.x, m.y) && target < 2 && a < 4
      requires area == Areas(s, m.x, m.y)[a]
      ensures ForcedScan(s, m, coin, 4 * target + a, xs, os) == ForcedScan(s, m, coin, 4 * target + a + 1, xs', os')
    {
      ForcedScanStep(s, m, coin, target, a, xs, os);
      var af, df := GetForced(area, if target == 0 then BoardValue.X else BoardValue.O,
                              CallCoin(coin, 4 * target + a));
      if target == 0 {
        xs' := ExtendWith(xs, af);
        os' := ExtendWith(os, df);
      } else {
        xs' := ExtendWith(xs, df);
        os' := ExtendWith(os, af);
      }
    }

    /** are_there_threats: after calculate_forced, both sides have forced moves. */
    method AreThereThreats(coin: (nat, nat) -> bool) returns (threats: bool)
      requires Valid()
      modifies this`xForced, this`oForced
      ensures Valid()
      ensures (threats, Snapshot()) == BoardSpec.AreThereThreats(old(Snapshot()), coin)
    {
      var _ := CalculateForced(coin);
      threats := xForced.value != [] && oForced.value != [];
    }

    /** The fall-back of actions: the empty cells of the box grown by one cell on each
        side and clipped to the board, row by row. */
    method BoxScan() returns (res: seq<Move>)
      requires Mirrors()
      ensures res == BoxActions(Snapshot())
    {
      var left, up := SatSub(minX, 1), SatSub(minY, 1);
      var right, down := Min(maxX + 2, width), Min(maxY + 2, height);
      res := [];
      if up < down {
        for y := up to down
          invariant res == BoxCells(Snapshot(), left, right, up, y)
        {
          var row := RowScan(y, left, right);
          res := res + row;
        }
      }
    }

    /** The empty cells of row `y` from column `left` up to, not including, `right`. */
    method RowScan(y: nat, left: nat, right: nat) returns (row: seq<Move>)
      requires Mirrors() && y < height && right <= width
      ensures row == RowCells(Snapshot(), y, left, right)
    {
      row := [];
      if left < right {
        for x := left to right
          invariant row == RowCells(Snapshot(), y, left, x)
        {
          if ValueAt(x, y) == Empty {
            row := row + [Move(x, y)];
          }
        }
      }
    }

    /** actions: the mover's non-empty forced list, or else the empty cells near the
        stones. */
    method Actions(coin: (nat, nat) -> bool) returns (acts: seq<Move>)
      requires Valid()
      modifies this`xForced, this`oForced
      ensures Valid()
      ensures (acts, Snapshot()) == BoardSpec.Actions(old(Snapshot()), coin)
    {
      acts := CalculateForced(coin);
      if acts != [] {
        return;
      }
      acts := BoxScan();
    }

    // -------------------------------------------------------------------------
    // heuristic

    /** heuristic: the player's share of the two run totals; None where the source
        divides zero by zero. */
    method Heuristic(p: Player) returns (h: Option<real>)
      requires Mirrors()
      ensures h.Some? <==> Totals(Snapshot()).0 + Totals(Snapshot()).1 > 0
      ensures h.Some? ==> h.value == HeuristicValue(Snapshot(), p)
    {
      var xh, oh := HeuristicTotals();
      if xh + oh == 0 {
        return None;
      }
      h := Some(if p == Player.X then Share(xh, oh) else Share(oh, xh));
    }

    /** The four passes of heuristic, each closed by one empty cell. */
    method HeuristicTotals() returns (xh: nat, oh: nat)
      requires Mirrors()
      ensures (xh, oh) == Totals(Snapshot())
    {
      var rows := RowsPass(START);
      var columns := ColumnsPass(Step(rows, Empty));
      var diag1 := DiagonalPass(Step(columns, Empty), false);
      var diag2 := DiagonalPass(Step(diag1, Empty), true);
      var t := Step(diag2, Empty);
      xh, oh := t.xTotal, t.oTotal;
    }

    /** The horizontal pass: every row, left to right. */
    method RowsPass(t: Tally) returns (t': Tally)
      requires Mirrors()
      ensures t' == Fold(t, RowsVisit(Snapshot(), height))
    {
      t' := t;
      for y := 0 to height
        invariant t' == Fold(t, RowsVisit(Snapshot(), y))
      {
        t' := RowPass(t', y);
        FoldAppend(t, RowsVisit(Snapshot(), y), cells[y]);
      }
    }

    method RowPass(t: Tally, y: nat) returns (t': Tally)
      requires Mirrors() && y < height
      ensures t' == Fold(t, cells[y])
    {
      t' := t;
      for x := 0 to width
        invariant t' == Fold(t, cells[y][..x])
      {
        FoldSnoc(t, cells[y][..x], cells[y][x]);
        assert cells[y][..x + 1] == cells[y][..x] + [cells[y][x]];
        t' := Step(t', ValueAt(x, y));
      }
      assert cells[y][..width] == cells[y];
    }

    /** The vertical pass: every column, top to bottom. */
    method ColumnsPass(t: Tally) returns (t': Tally)
      requires Mirrors()
      ensures t' == Fold(t, ColumnsVisit(Snapshot(), width))
    {
      t' := t;
      for x := 0 to width
        invariant t' == Fold(t, ColumnsVisit(Snapshot(), x))
      {
        t' := ColumnPass(t', x);
        FoldAppend(t, ColumnsVisit(Snapshot(), x), Column(Snapshot(), x));
      }
    }

    method ColumnPass(t: Tally, x: nat) returns (t': Tally)
      requires Mirrors() && x < width
      ensures t' == Fold(t, Column(Snapshot(), x))
    {
      ghost var col := Column(Snapshot(), x);
      t' := t;
      for y := 0 to height
        invariant t' == Fold(t, col[..y])
      {
        FoldSnoc(t, col[..y], col[y]);
        assert col[..y + 1] == col[..y] + [col[y]];
        t' := Step(t', ValueAt(x, y));
      }
      assert col[..height] == col;
    }

    /** A diagonal pass: lines k = 0 .. width + height - 2, the first kind with x
        ascending and y = k - x, the second with x descending and
        y = k - (width - 1 - x). */
    method DiagonalPass(t: Tally, second: bool) returns (t': Tally)
      requires Mirrors()
      ensures t' == Fold(t, DiagVisit(Snapshot(), second, Lines(Snapshot())))
    {
      ghost var s := Snapshot();
      t' := t;
      var lines := if width + height >= 1 then width + height - 1 else 0;
      assert lines == Lines(s);
      for k := 0 to lines
        invariant t' == Fold(t, DiagVisit(s, second, k))
      {
        t' := DiagLinePass(t', second, k);
        FoldAppend(t, DiagVisit(s, second, k), DiagLine(s, second, k));
      }
    }

    method DiagLinePass(t: Tally, second: bool, k: nat) returns (t': Tally)
      requires Mirrors()
      ensures t' == Fold(t, DiagLine(Snapshot(), second, k))
    {
      if second {
        t' := Diag2Pass(t, k);
      } else {
        t' := Diag1Pass(t, k);
      }
    }

    method Diag1Pass(t: Tally, k: nat) returns (t': Tally)
      requires Mirrors()
      ensures t' == Fold(t, Diag1Line(Snapshot(), k, width))
    {
      t' := t;
      for x := 0 to width
        invariant t' == Fold(t, Diag1Line(Snapshot(), k, x))
      {
        Diag1LineStep(Snapshot(), k, x);
        if k >= x && k - x < height {
          FoldSnoc(t, Diag1Line(Snapshot(), k, x), At(Snapshot(), x, k - x));
          t' := Step(t', ValueAt(x, k - x));
        }
      }
    }

    method Diag2Pass(t: Tally, k: nat) returns (t': Tally)
      requires Mirrors()
      ensures t' == Fold(t, Diag2Line(Snapshot(), k, width))
    {
      t' := t;
      for i := 0 to width
        invariant t' == Fold(t, Diag2Line(Snapshot(), k, i))
      {
        var x := width - 1 - i;
        Diag2LineStep(Snapshot(), k, i);
        if k >= width - x - 1 && k - (width - x - 1) < height {
          FoldSnoc(t, Diag2Line(Snapshot(), k, i), At(Snapshot(), x, k - i));
          t' := Step(t', ValueAt(x, k - (width - x - 1)));
        }
      }
    }

    // -------------------------------------------------------------------------
    // place_random

    /** The empty on-board neighbours of (x, y), counted in place_random's order. */
    method CountEmptyNeighbours(x: nat, y: nat) returns (count: nat)
      requires Mirrors()
      ensures count == EmptyNeighbours(Snapshot(), x, y)
    {
      count := 0;
      for i := 0 to 8
        invariant count == EmptyNeighboursUpTo(Snapshot(), x, y, i)
      {
        var (dx, dy) := NEIGHBOURS[i];
        if ProbeCell(x + dx, y + dy) == Some(Empty) {
          count := count + 1;
        }
      }
    }

    /**
     * place_random: draw an action until the draw is kept, then place it.  The
     * i-th draw picks index pick(i) mod the number of actions, and is thrown away
     * when the cell has eight empty neighbours and reject[i] holds; draws past the
     * end of `reject` are kept.
     */
    method PlaceRandom(coin: (nat, nat) -> bool, pick: nat -> nat, reject: seq<bool>)
      returns (r: Result<Move, PlacingError>)
      requires Valid()
      modifies this, grid
      ensures Valid()
      ensures (r, Snapshot()) == BoardSpec.PlaceRandom(old(Snapshot()), coin, pick, reject)
    {
      var t := 0;
      while true
        invariant Valid()
        invariant PlaceRandomFrom(Snapshot(), coin, pick, reject, t) == BoardSpec.PlaceRandom(old(Snapshot()), coin, pick, reject)
        decreases |reject| - t
      {
        var acts := Actions(coin);
        if acts == [] {
          return Err(FullBoard);
        }
        var m := acts[pick(t) % |acts|];
        var count := CountEmptyNeighbours(m.x, m.y);
        if t < |reject| && reject[t] && count == 8 {
          t := t + 1;
          continue;
        }
        var placed := Place(m);
        if placed.Err? {
          return Err(placed.error);
        }
        return Ok(m);
      }
    }
  }

  /** A row area is determined by its cells, in order. */
  lemma RowAreaFromCells(s: BoardState, x: nat, y: nat, area: seq<AreaCell>)
    requires Shaped(s) && x < s.width && y < s.height
    requires |area| == Min(x + 7, s.width) - SatSub(x, 6)
    requires forall k :: 0 <= k < |area| ==> area[k] == CellAt(s, SatSub(x, 6) + k, y)
    ensures area == RowArea(s, x, y)
  {
  }

  /** A column area is determined by its cells, in order. */
  lemma ColumnAreaFromCells(s: BoardState, x: nat, y: nat, area: seq<AreaCell>)
    requires Shaped(s) && x < s.width && y < s.height
    requires |area| == Min(y + 7, s.height) - SatSub(y, 6)
    requires forall k :: 0 <= k < |area| ==> area[k] == CellAt(s, x, SatSub(y, 6) + k)
    ensures area == ColumnArea(s, x, y)
  {
  }

  /** One call of get_forced in calculate_forced: call 4 * target + a looks at area a,
      for colour X in the first round and O in the second. */
  lemma ForcedScanStep(s: BoardState, m: Move, coin: (nat, nat) -> bool, target: nat, a: nat,
                       xs: seq<Move>, os: seq<Move>)
    requires Shaped(s) && OnBoard(s, m.x, m.y) && target < 2 && a < 4
    ensures var c := 4 * target + a;
            var (af, df) := GetForcedSpec(Areas(s, m.x, m.y)[a], if target == 0 then BoardValue.X else BoardValue.O,
                                          CallCoin(coin, c));
            ForcedScan(s, m, coin, c, xs, os)
            == if target == 0 then ForcedScan(s, m, coin, c + 1, Extend(xs, af), Extend(os, df))
               else ForcedScan(s, m, coin, c + 1, Extend(xs, df), Extend(os, af))
  {
    var c := 4 * target + a;
    assert AreaIndex(c) == a && (c < 4 <==> target == 0);
  }

  /** One step of count_ray: the cell at step k stops the ray or adds one to the
      count. */
  lemma RayStep(s: BoardState, x: int, y: int, dx: int, dy: int, v: BoardValue, blocking: BoardValue,
                k: nat, counter: nat)
    requires Shaped(s) && 1 <= k <= 5
    requires Ray(s, x, y, dx, dy, v, blocking).0 == counter + RayFrom(s, x, y, dx, dy, v, blocking, k).0
    requires Ray(s, x, y, dx, dy, v, blocking).1 == RayFrom(s, x, y, dx, dy, v, blocking, k).1
    ensures var c := RayCell(s, x, y, dx, dy, k);
            && (c.None? ==> Ray(s, x, y, dx, dy, v, blocking) == (counter, true))
            && (c.Some? && c.value != v ==> Ray(s, x, y, dx, dy, v, blocking) == (counter, c.value == blocking))
            && (c == Some(v) ==>
                  && Ray(s, x, y, dx, dy, v, blocking).0 == counter + 1 + RayFrom(s, x, y, dx, dy, v, blocking, k + 1).0
                  && Ray(s, x, y, dx, dy, v, blocking).1 == RayFrom(s, x, y, dx, dy, v, blocking, k + 1).1)
  {
  }

  /** place up to the bounds update: the stone, the cache rule, the turn and the
      last move. */
  function Stepped(s: BoardState, m: Move): BoardState
    requires Shaped(s) && OnBoard(s, m.x, m.y)
  {
    var (xf, of) := ForcedAfter(s, m);
    s.(grid := s.grid[m.y := s.grid[m.y][m.x := Stone(s.player)]], xForced := xf, oForced := of,
       player := Next(s.player), lastPlacement := Some(m))
  }

  lemma PlaceSteps(s: BoardState, m: Move)
    requires Shaped(s) && OnBoard(s, m.x, m.y) && At(s, m.x, m.y) == Empty
    ensures TryPlace(s, m) == Ok(BoundsAfter(Stepped(s, m), m).(gameResult :=
              if IsTerminate(s.gameResult) then s.gameResult else NotCalculated))
  {
  }
}
