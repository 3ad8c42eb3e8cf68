/** `Preprocessor::TunnelIdentifying` and its corridor walk `helper`.

    The scan visits interior cells in row-major order.  A walkable, not yet visited
    cell with walls above and below is a horizontal tunnel entry candidate: the walk
    moves right while the cell it stands on is walled on both sides and the next cell
    is not a wall, and it succeeds when it leaves the corridor after at least two
    cells, returning the last corridor cell.  Vertical tunnels are the same with
    walls left and right, walking down.  Recorded tunnels are `[farEnd, entry]`
    pairs in a set.  The `tunnel_map` grid only feeds the debug printout and is
    left out. */
module Tunnels {
  import opened Seqs
  import opened Boards
  import Deadlock

  datatype Axis = Horizontal | Vertical

  /** The cell `k` steps from `c` in the walking direction (right or down). */
  function Forward(axis: Axis, c: Cell, k: int): Cell
  {
    match axis
    case Horizontal => Cell(c.row, c.col + k)
    case Vertical => Cell(c.row + k, c.col)
  }

  /** Both cells beside `c`, across the walking direction, are walls. */
  predicate Flanked(b: Board, axis: Axis, c: Cell)
  {
    match axis
    case Horizontal => b.IsWall(c.row - 1, c.col) && b.IsWall(c.row + 1, c.col)
    case Vertical => b.IsWall(c.row, c.col + 1) && b.IsWall(c.row, c.col - 1)
  }

  predicate IsWallAt(b: Board, c: Cell)
  {
    b.IsWall(c.row, c.col)
  }

  /** What one call of `helper` leaves behind: the cells it marked visited, in
      order, and the last corridor cell when it succeeds. */
  datatype WalkResult = WalkResult(touched: seq<Cell>, far: Option<Cell>)

  /** `helper(row, col, index, type)` from cell `c`, written once for both axes:
      the source's three-walls test is "next cell is a wall and `c` is flanked",
      its open-side test is "`c` is not flanked".  Cells outside the grid are not
      walls, so the walk stops at the latest one step past the grid edge. */
  function Walk(b: Board, c: Cell, index: int, axis: Axis): (w: WalkResult)
    requires b.WallsInGrid()
    ensures |w.touched| >= 1
    ensures forall k :: 0 <= k < |w.touched| ==> w.touched[k] == Forward(axis, c, k)
    decreases if axis == Horizontal then b.cols - c.col else b.rows - c.row
  {
    if IsWallAt(b, Forward(axis, c, 1)) && Flanked(b, axis, c) then
      WalkResult([c], None)
    else if !Flanked(b, axis, c) then
      WalkResult([c], if index >= 2 then Some(Forward(axis, c, -1)) else None)
    else
      assert b.InGrid(if axis == Horizontal then Cell(c.row - 1, c.col) else Cell(c.row, c.col + 1));
      var rest := Walk(b, Forward(axis, c, 1), index + 1, axis);
      WalkResult([c] + rest.touched, rest.far)
  }

  /** The cells `helper` passes through: it walks on only from a cell walled on both
      sides into a non-wall cell. */
  predicate WalksCorridor(b: Board, start: Cell, axis: Axis, w: WalkResult)
  {
    forall k :: 0 <= k < |w.touched| - 1 ==>
      Flanked(b, axis, w.touched[k]) && !IsWallAt(b, Forward(axis, start, k + 1))
  }

  /** How `helper` ends on its last cell: it succeeds exactly when that cell is open
      to a side after at least two cells (counting `index`), returning the cell
      before; a flanked last cell is a dead end, the next cell being a wall. */
  predicate Ends(b: Board, start: Cell, index: int, axis: Axis, w: WalkResult)
    requires |w.touched| >= 1
  {
    var n := |w.touched| - 1;
    && (w.far.Some? <==> !Flanked(b, axis, w.touched[n]) && n + index >= 2)
    && (w.far.Some? ==> w.far.value == Forward(axis, start, n - 1))
    && (Flanked(b, axis, w.touched[n]) ==> IsWallAt(b, Forward(axis, start, n + 1)))
  }

  /** When `helper` walks on from `c`, `c` lies inside the grid along the walking
      direction, and the walk is `c` followed by the walk from the next cell. */
  lemma WalkOn(b: Board, c: Cell, index: int, axis: Axis)
    requires b.WallsInGrid()
    requires Flanked(b, axis, c) && !IsWallAt(b, Forward(axis, c, 1))
    ensures if axis == Horizontal then c.col < b.cols else c.row < b.rows
    ensures var rest := Walk(b, Forward(axis, c, 1), index + 1, axis);
      Walk(b, c, index, axis) == WalkResult([c] + rest.touched, rest.far)
  {
    assert b.InGrid(if axis == Horizontal then Cell(c.row - 1, c.col) else Cell(c.row, c.col + 1));
  }

  lemma {:induction false} WalkPath(b: Board, c: Cell, index: int, axis: Axis)
    requires b.WallsInGrid()
    ensures WalksCorridor(b, c, axis, Walk(b, c, index, axis))
    decreases if axis == Horizontal then b.cols - c.col else b.rows - c.row
  {
    if !(IsWallAt(b, Forward(axis, c, 1)) && Flanked(b, axis, c)) && Flanked(b, axis, c) {
      var next := Forward(axis, c, 1);
      WalkOn(b, c, index, axis);
      WalkPath(b, next, index + 1, axis);
      var rest := Walk(b, next, index + 1, axis);
      CorridorStep(b, c, axis, rest.touched, rest.far);
    }
  }

  /** One step of `WalkPath`: a corridor walk from the next cell, preceded by a
      flanked `c`, is a corridor walk from `c`. */
  lemma CorridorStep(b: Board, c: Cell, axis: Axis, rest: seq<Cell>, far: Option<Cell>)
    requires Flanked(b, axis, c) && !IsWallAt(b, Forward(axis, c, 1))
    requires WalksCorridor(b, Forward(axis, c, 1), axis, WalkResult(rest, None))
    ensures WalksCorridor(b, c, axis, WalkResult([c] + rest, far))
  {
    var next := Forward(axis, c, 1);
    var t := [c] + rest;
    forall k | 0 <= k < |t| - 1
      ensures Flanked(b, axis, t[k]) && !IsWallAt(b, Forward(axis, c, k + 1))
    {
      if k > 0 {
        assert t[k] == rest[k - 1];
        assert Forward(axis, c, k + 1) == Forward(axis, next, k);
      }
    }
  }

  lemma {:induction false} WalkEnds(b: Board, c: Cell, index: int, axis: Axis)
    requires b.WallsInGrid()
    ensures Ends(b, c, index, axis, Walk(b, c, index, axis))
    decreases if axis == Horizontal then b.cols - c.col else b.rows - c.row
  {
    var w := Walk(b, c, index, axis);
    if !(IsWallAt(b, Forward(axis, c, 1)) && Flanked(b, axis, c)) && Flanked(b, axis, c) {
      var next := Forward(axis, c, 1);
      WalkOn(b, c, index, axis);
      WalkEnds(b, next, index + 1, axis);
      var rest := Walk(b, next, index + 1, axis);
      EndsStep(b, c, index, axis, rest);
    }
  }

  /** One step of `WalkEnds`: how the walk from the next cell ends is how the walk
      from `c` ends, one cell later. */
  lemma EndsStep(b: Board, c: Cell, index: int, axis: Axis, rest: WalkResult)
    requires |rest.touched| >= 1
    requires Ends(b, Forward(axis, c, 1), index + 1, axis, rest)
    ensures Ends(b, c, index, axis, WalkResult([c] + rest.touched, rest.far))
  {
    var next := Forward(axis, c, 1);
    var t := [c] + rest.touched;
    var n := |t| - 1;
    assert t[n] == rest.touched[n - 1];
    assert Forward(axis, c, n + 1) == Forward(axis, next, n);
    assert Forward(axis, c, n - 1) == Forward(axis, next, n - 2);
  }

  /** Reference meaning of a recorded corridor of `len + 1` cells starting at `entry`:
      the cell before the entry and the first two corridor cells are walkable, every
      corridor cell is walled on both sides, the walk only stepped onto non-walls,
      and the cell past the far end opens to a side. */
  predicate Corridor(b: Board, axis: Axis, entry: Cell, len: int)
  {
    && len >= 1
    && 1 <= entry.row < b.rows - 1 && 1 <= entry.col < b.cols - 1
    && b.IsWalkable(Forward(axis, entry, -1).row, Forward(axis, entry, -1).col)
    && b.IsWalkable(entry.row, entry.col)
    && b.IsWalkable(Forward(axis, entry, 1).row, Forward(axis, entry, 1).col)
    && (forall k :: 0 <= k <= len ==> Flanked(b, axis, Forward(axis, entry, k)))
    && (forall k :: 1 <= k <= len + 1 ==> !IsWallAt(b, Forward(axis, entry, k)))
    && !Flanked(b, axis, Forward(axis, entry, len + 1))
  }

  /** A recorded tunnel `[farEnd, entry]`: `[(row, entry + k), (row, entry)]` with
      `k >= 1`, or the same on one column. */
  predicate IsTunnel(b: Board, t: seq<Cell>)
  {
    |t| == 2 &&
    ((t[0].row == t[1].row && Corridor(b, Horizontal, t[1], t[0].col - t[1].col)) ||
     (t[0].col == t[1].col && Corridor(b, Vertical, t[1], t[0].row - t[1].row)))
  }

  /** The scan's state: the `visited` grid and the `tunnels` set. */
  datatype TunnelState = TunnelState(visited: set<Cell>, tunnels: set<seq<Cell>>)

  /** Invariant of the scan: every recorded tunnel is a corridor, and only grid
      cells are marked visited. */
  predicate Good(b: Board, st: TunnelState)
  {
    && (forall t :: t in st.tunnels ==> IsTunnel(b, t))
    && st.visited <= Deadlock.GridSet(b)
  }

  /** The cells of a walk that lie in the grid: the only ones `visited` can hold. */
  function Mark(b: Board, cells: seq<Cell>): (m: set<Cell>)
    ensures m <= Deadlock.GridSet(b)
  {
    set c | c in cells && b.InGrid(c)
  }

  /** The horizontal test for an interior cell `c`. */
  function CheckHorizontal(b: Board, st: TunnelState, c: Cell): (st': TunnelState)
    requires b.WellFormed() && Good(b, st)
    requires 1 <= c.row < b.rows - 1 && 1 <= c.col < b.cols - 1 && b.IsWalkable(c.row, c.col)
    ensures Good(b, st')
    ensures st.tunnels <= st'.tunnels
  {
    var row, col := c.row, c.col;
    if b.IsWall(row - 1, col) && b.IsWall(row + 1, col) then
      var leftDeadEnd := !b.IsWalkable(row, col - 1);
      if col > 0 && col < b.cols && b.IsWalkable(row, col + 1) then
        WallsInGridOf(b);
        var w := Walk(b, Cell(row, col + 1), 1, Horizontal);
        var visited := st.visited + Mark(b, w.touched);
        if w.far.Some? && !leftDeadEnd then
          assert Cell(row, col + 1) in b.info.Get(Walkable);
          CorridorFromWalk(b, Horizontal, c, w);
          TunnelState(visited, st.tunnels + {[w.far.value, c]})
        else TunnelState(visited, st.tunnels)
      else st
    else st
  }

  /** The vertical test for an interior cell `c`. */
  function CheckVertical(b: Board, st: TunnelState, c: Cell): (st': TunnelState)
    requires b.WellFormed() && Good(b, st)
    requires 1 <= c.row < b.rows - 1 && 1 <= c.col < b.cols - 1 && b.IsWalkable(c.row, c.col)
    ensures Good(b, st')
    ensures st.tunnels <= st'.tunnels
  {
    var row, col := c.row, c.col;
    if b.IsWall(row, col - 1) && b.IsWall(row, col + 1) then
      var topDeadEnd := !b.IsWalkable(row - 1, col);
      if row > 0 && b.IsWalkable(row - 1, col) && row < b.rows && b.IsWalkable(row + 1, col) then
        WallsInGridOf(b);
        var w := Walk(b, Cell(row + 1, col), 1, Vertical);
        var visited := st.visited + Mark(b, w.touched);
        if w.far.Some? && !topDeadEnd then
          assert Cell(row + 1, col) in b.info.Get(Walkable);
          CorridorFromWalk(b, Vertical, c, w);
          TunnelState(visited, st.tunnels + {[w.far.value, c]})
        else TunnelState(visited, st.tunnels)
      else st
    else st
  }

  /** A successful walk started one step past a walled-in entry whose back and
      forward neighbours are walkable records a corridor. */
  lemma CorridorFromWalk(b: Board, axis: Axis, c: Cell, w: WalkResult)
    requires b.WallsInGrid()
    requires 1 <= c.row < b.rows - 1 && 1 <= c.col < b.cols - 1 && b.IsWalkable(c.row, c.col)
    requires Flanked(b, axis, c)
    requires b.IsWalkable(Forward(axis, c, -1).row, Forward(axis, c, -1).col)
    requires b.IsWalkable(Forward(axis, c, 1).row, Forward(axis, c, 1).col)
    requires !IsWallAt(b, Forward(axis, c, 1))
    requires w == Walk(b, Forward(axis, c, 1), 1, axis)
    requires w.far.Some?
    ensures IsTunnel(b, [w.far.value, c])
  {
    var start := Forward(axis, c, 1);
    WalkPath(b, start, 1, axis);
    WalkEnds(b, start, 1, axis);
    var n := |w.touched| - 1;
    assert w.far.value == Forward(axis, c, n);
    FlankedAlong(b, axis, c, w);
    OpenAlong(b, axis, c, w);
    assert w.touched[n] == Forward(axis, c, n + 1);
    assert Corridor(b, axis, c, n);
  }

  /** Every cell of a corridor walk from the cell after a flanked `c`, save the last,
      is flanked, and so is `c`. */
  lemma FlankedAlong(b: Board, axis: Axis, c: Cell, w: WalkResult)
    requires Flanked(b, axis, c)
    requires forall k :: 0 <= k < |w.touched| ==> w.touched[k] == Forward(axis, Forward(axis, c, 1), k)
    requires WalksCorridor(b, Forward(axis, c, 1), axis, w)
    ensures forall k :: 0 <= k < |w.touched| ==> Flanked(b, axis, Forward(axis, c, k))
  {
    forall k | 0 <= k < |w.touched|
      ensures Flanked(b, axis, Forward(axis, c, k))
    {
      if k > 0 {
        assert w.touched[k - 1] == Forward(axis, c, k);
      }
    }
  }

  /** A corridor walk from the non-wall cell after `c` steps only onto non-walls. */
  lemma OpenAlong(b: Board, axis: Axis, c: Cell, w: WalkResult)
    requires !IsWallAt(b, Forward(axis, c, 1))
    requires WalksCorridor(b, Forward(axis, c, 1), axis, w)
    ensures forall k :: 1 <= k <= |w.touched| ==> !IsWallAt(b, Forward(axis, c, k))
  {
    var start := Forward(axis, c, 1);
    forall k | 1 <= k <= |w.touched|
      ensures !IsWallAt(b, Forward(axis, c, k))
    {
      if k > 1 {
        var j := k - 2;
        assert Flanked(b, axis, w.touched[j]) && !IsWallAt(b, Forward(axis, start, j + 1));
        assert Forward(axis, start, k - 1) == Forward(axis, c, k);
      }
    }
  }

  /** `helper` started on a corridor cell after the entry `c` walks to the far end
      and returns it. */
  lemma {:induction false} CorridorWalk(b: Board, axis: Axis, c: Cell, len: int, j: int)
    requires b.WallsInGrid() && Corridor(b, axis, c, len) && 0 <= j <= len
    ensures Walk(b, Forward(axis, c, 1 + j), 1 + j, axis).far == Some(Forward(axis, c, len))
    decreases len - j
  {
    var d := Forward(axis, c, 1 + j);
    if j < len {
      assert Flanked(b, axis, d);
      assert Forward(axis, d, 1) == Forward(axis, c, 2 + j);
      assert !IsWallAt(b, Forward(axis, c, 2 + j));
      CorridorWalk(b, axis, c, len, j + 1);
    } else {
      assert !Flanked(b, axis, d);
      assert Forward(axis, d, -1) == Forward(axis, c, len);
    }
  }

  /** The horizontal test records a horizontal corridor entered at `c`. */
  lemma CheckHorizontalFinds(b: Board, st: TunnelState, c: Cell, len: int)
    requires b.WellFormed() && Good(b, st) && Corridor(b, Horizontal, c, len)
    ensures [Forward(Horizontal, c, len), c] in CheckHorizontal(b, st, c).tunnels
  {
    assert Forward(Horizontal, c, 0) == c && Forward(Horizontal, c, 1) == Cell(c.row, c.col + 1);
    assert Forward(Horizontal, c, -1) == Cell(c.row, c.col - 1);
    WallsInGridOf(b);
    CorridorWalk(b, Horizontal, c, len, 0);
  }

  /** The vertical test records a vertical corridor entered at `c`. */
  lemma CheckVerticalFinds(b: Board, st: TunnelState, c: Cell, len: int)
    requires b.WellFormed() && Good(b, st) && Corridor(b, Vertical, c, len)
    ensures [Forward(Vertical, c, len), c] in CheckVertical(b, st, c).tunnels
  {
    assert Forward(Vertical, c, 0) == c && Forward(Vertical, c, 1) == Cell(c.row + 1, c.col);
    assert Forward(Vertical, c, -1) == Cell(c.row - 1, c.col);
    WallsInGridOf(b);
    CorridorWalk(b, Vertical, c, len, 0);
  }

  /** A tunnel whose entry is `c`. */
  predicate EntryTunnel(b: Board, c: Cell, t: seq<Cell>)
  {
    |t| == 2 && t[1] == c && IsTunnel(b, t)
  }

  /** The horizontal test adds at most tunnels entered at `c`. */
  lemma CheckHorizontalAdds(b: Board, st: TunnelState, c: Cell, t: seq<Cell>)
    requires b.WellFormed() && Good(b, st)
    requires 1 <= c.row < b.rows - 1 && 1 <= c.col < b.cols - 1 && b.IsWalkable(c.row, c.col)
    requires t in CheckHorizontal(b, st, c).tunnels && t !in st.tunnels
    ensures EntryTunnel(b, c, t)
  {
  }

  /** The vertical test adds at most tunnels entered at `c`. */
  lemma CheckVerticalAdds(b: Board, st: TunnelState, c: Cell, t: seq<Cell>)
    requires b.WellFormed() && Good(b, st)
    requires 1 <= c.row < b.rows - 1 && 1 <= c.col < b.cols - 1 && b.IsWalkable(c.row, c.col)
    requires t in CheckVertical(b, st, c).tunnels && t !in st.tunnels
    ensures EntryTunnel(b, c, t)
  {
  }

  /** One iteration of the scan at interior cell `c`. */
  function ScanCell(b: Board, st: TunnelState, c: Cell): (st': TunnelState)
    requires b.WellFormed() && Good(b, st)
    requires 1 <= c.row < b.rows - 1 && 1 <= c.col < b.cols - 1
    ensures Good(b, st')
  {
    if !b.IsWalkable(c.row, c.col) || c in st.visited then st
    else
      var st1 := st.(visited := st.visited + {c});
      CheckVertical(b, CheckHorizontal(b, st1, c), c)
  }

  /** One scan step records exactly the tunnels entered at the scanned cell, and only
      when that cell was not visited yet; it keeps every tunnel recorded before. */
  lemma ScanCellTunnels(b: Board, st: TunnelState, c: Cell, t: seq<Cell>)
    requires b.WellFormed() && Good(b, st)
    requires 1 <= c.row < b.rows - 1 && 1 <= c.col < b.cols - 1
    ensures t in ScanCell(b, st, c).tunnels <==> t in st.tunnels || (c !in st.visited && EntryTunnel(b, c, t))
  {
    if b.IsWalkable(c.row, c.col) && c !in st.visited {
      var st1 := st.(visited := st.visited + {c});
      var h := CheckHorizontal(b, st1, c);
      if t in ScanCell(b, st, c).tunnels && t !in st.tunnels {
        if t in h.tunnels {
          CheckHorizontalAdds(b, st1, c, t);
        } else {
          CheckVerticalAdds(b, h, c, t);
        }
      }
      if t !in st.tunnels && EntryTunnel(b, c, t) {
        if t[0].row == c.row && Corridor(b, Horizontal, c, t[0].col - c.col) {
          assert t == [Forward(Horizontal, c, t[0].col - c.col), c];
          CheckHorizontalFinds(b, st1, c, t[0].col - c.col);
        } else {
          assert t == [Forward(Vertical, c, t[0].row - c.row), c];
          CheckVerticalFinds(b, h, c, t[0].row - c.row);
        }
      }
    }
  }

  /** Interior cells, rows `1 .. rows-2` by columns `1 .. cols-2`, row-major. */
  function InteriorCells(b: Board): (cells: seq<Cell>)
    ensures forall c :: c in cells ==> 1 <= c.row < b.rows - 1 && 1 <= c.col < b.cols - 1
  {
    var ss := seq(Count(1, b.rows - 1), i => seq(Count(1, b.cols - 1), j => Cell(i + 1, j + 1)));
    FlattenAll(ss, (c: Cell) => 1 <= c.row < b.rows - 1 && 1 <= c.col < b.cols - 1);
    Flatten(ss)
  }

  /** The scan over `cells`, threading the visited marks and the tunnel set. */
  function Scan(b: Board, cells: seq<Cell>, st: TunnelState): (st': TunnelState)
    requires b.WellFormed() && Good(b, st)
    requires forall c :: c in cells ==> 1 <= c.row < b.rows - 1 && 1 <= c.col < b.cols - 1
    ensures Good(b, st')
    ensures st.tunnels <= st'.tunnels
    decreases |cells|
  {
    if |cells| == 0 then st
    else Scan(b, cells[1..], ScanCell(b, st, cells[0]))
  }

  /** The `visited` grid when the scan reaches `cells[i]`. */
  function VisitedAt(b: Board, cells: seq<Cell>, st: TunnelState, i: int): set<Cell>
    requires b.WellFormed() && Good(b, st) && 0 <= i <= |cells|
    requires forall c :: c in cells ==> 1 <= c.row < b.rows - 1 && 1 <= c.col < b.cols - 1
  {
    Scan(b, cells[..i], st).visited
  }

  /** `cells[i]` enters the tunnel `t` and was not visited when the scan reached it. */
  predicate FreshEntry(b: Board, cells: seq<Cell>, st: TunnelState, i: int, t: seq<Cell>)
    requires b.WellFormed() && Good(b, st)
    requires forall c :: c in cells ==> 1 <= c.row < b.rows - 1 && 1 <= c.col < b.cols - 1
  {
    0 <= i < |cells| && cells[i] !in VisitedAt(b, cells, st, i) && EntryTunnel(b, cells[i], t)
  }

  /** After the first step, the visited marks at `cells[i]` are those of the rest of
      the scan at `cells[i - 1]`. */
  lemma VisitedShift(b: Board, cells: seq<Cell>, st: TunnelState, i: int)
    requires b.WellFormed() && Good(b, st) && 1 <= i <= |cells|
    requires forall c :: c in cells ==> 1 <= c.row < b.rows - 1 && 1 <= c.col < b.cols - 1
    ensures VisitedAt(b, cells, st, i) == VisitedAt(b, cells[1..], ScanCell(b, st, cells[0]), i - 1)
  {
    assert cells[..i][1..] == cells[1..][..i - 1];
  }

  /** The scan records exactly the tunnels entered at a scanned cell that was not
      visited when the scan reached it, besides those recorded before. */
  lemma {:induction false} ScanTunnels(b: Board, cells: seq<Cell>, st: TunnelState, t: seq<Cell>)
    requires b.WellFormed() && Good(b, st)
    requires forall c :: c in cells ==> 1 <= c.row < b.rows - 1 && 1 <= c.col < b.cols - 1
    ensures t in Scan(b, cells, st).tunnels <==> t in st.tunnels || exists i :: FreshEntry(b, cells, st, i, t)
    decreases |cells|
  {
    if |cells| > 0 {
      var c, rest := cells[0], cells[1..];
      var st1 := ScanCell(b, st, c);
      ScanCellTunnels(b, st, c, t);
      ScanTunnels(b, rest, st1, t);
      assert VisitedAt(b, cells, st, 0) == st.visited;
      if t in Scan(b, cells, st).tunnels && t !in st.tunnels {
        if t in st1.tunnels {
          assert FreshEntry(b, cells, st, 0, t);
        } else {
          var j :| FreshEntry(b, rest, st1, j, t);
          VisitedShift(b, cells, st, j + 1);
          assert FreshEntry(b, cells, st, j + 1, t);
        }
      }
      if exists i :: FreshEntry(b, cells, st, i, t) {
        var i :| FreshEntry(b, cells, st, i, t);
        if i > 0 {
          VisitedShift(b, cells, st, i);
          assert FreshEntry(b, rest, st1, i - 1, t);
        }
      }
    }
  }

  /** `TunnelIdentifying`: every recorded tunnel is a corridor in the sense of
      `IsTunnel`, and the recorded tunnels are exactly the corridors whose entry the
      row-major scan of the interior reached while it was not yet visited; a set, so a
      corridor is recorded at most once per endpoint pair. */
  function TunnelIdentifying(b: Board): (tunnels: set<seq<Cell>>)
    requires b.WellFormed()
    ensures forall t :: t in tunnels ==> IsTunnel(b, t)
    ensures forall t :: t in tunnels <==> exists i :: FreshEntry(b, InteriorCells(b), TunnelState({}, {}), i, t)
  {
    var cells := InteriorCells(b);
    var st := TunnelState({}, {});
    forall t
      ensures t in Scan(b, cells, st).tunnels <==> exists i :: FreshEntry(b, cells, st, i, t)
    {
      ScanTunnels(b, cells, st, t);
    }
    Scan(b, cells, st).tunnels
  }

  /** `helper` walks one step past the last row (column) when the cell it stands on
      in the last row (column) is flanked: the cell beyond is outside the grid, so
      not a wall, and the source then sets `visited` at that out-of-range index. */
  lemma WalkRunsOffGrid(b: Board, c: Cell, index: int, axis: Axis)
    requires b.WallsInGrid()
    requires (if axis == Horizontal then c.col == b.cols - 1 else c.row == b.rows - 1)
    requires Flanked(b, axis, c)
    ensures Forward(axis, c, 1) in Walk(b, c, index, axis).touched
    ensures !b.InGrid(Forward(axis, c, 1))
  {
    assert !IsWallAt(b, Forward(axis, c, 1));
    assert Walk(b, c, index, axis).touched[1] == Forward(axis, c, 1);
  }

  /** The map `# #` / `# #` / `#@#` of the off-grid example below. */
  const OffGridLines := ["# #", "# #", "#@#"]

  lemma OffGridWalls()
    ensures var b := LoadMap(OffGridLines);
      b.IsWall(1, 0) && b.IsWall(1, 2) && b.IsWall(2, 0) && b.IsWall(2, 2)
  {
    var b := LoadMap(OffGridLines);
    assert OffGridLines[1][0] == '#' && OffGridLines[1][2] == '#';
    assert OffGridLines[2][0] == '#' && OffGridLines[2][2] == '#';
    assert Cell(1, 0) in b.info.Get(Walls) && Cell(1, 2) in b.info.Get(Walls);
    assert Cell(2, 0) in b.info.Get(Walls) && Cell(2, 2) in b.info.Get(Walls);
  }

  lemma OffGridWalkable()
    ensures var b := LoadMap(OffGridLines);
      b.IsWalkable(0, 1) && b.IsWalkable(1, 1) && b.IsWalkable(2, 1)
  {
    var b := LoadMap(OffGridLines);
    assert OffGridLines[0][1] == ' ' && OffGridLines[1][1] == ' ' && OffGridLines[2][1] == '@';
    assert Cell(0, 1) in b.info.Get(Walkable) && Cell(1, 1) in b.info.Get(Walkable);
    assert Cell(2, 1) in b.info.Get(Walkable);
  }

  /** A map on which the scan reaches that case: the vertical test at the interior
      cell (1, 1) finds walls left and right and walkable cells above and below, and
      starts the walk at (2, 1), which is flanked in the last row; the walk then
      marks (3, 1), outside the three-row grid. */
  lemma RunsOffGridExample()
    ensures var b := LoadMap(OffGridLines);
      && b.WallsInGrid()
      && b.rows == 3 && b.cols == 3
      && b.IsWalkable(1, 1) && b.IsWall(1, 0) && b.IsWall(1, 2)
      && b.IsWalkable(0, 1) && b.IsWalkable(2, 1)
      && Cell(3, 1) in Walk(b, Cell(2, 1), 1, Vertical).touched
      && !b.InGrid(Cell(3, 1))
  {
    var b := LoadMap(OffGridLines);
    WallsInGridOf(b);
    OffGridWalls();
    OffGridWalkable();
    assert |OffGridLines[0]| == 3;
    WalkRunsOffGrid(b, Cell(2, 1), 1, Vertical);
  }
}
