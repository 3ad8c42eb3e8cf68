/** `Preprocessor::findDeadlockPos` and its recursive `bfs`.

    `bfs` is a flood fill under push-lookahead adjacency: it moves from a cell to an
    orthogonal neighbour only when the neighbour is not a wall and the cell on the
    OPPOSITE side of the current cell is not a wall either (a push into the neighbour
    needs somewhere for the player to stand).  The relation is directed, so the model
    takes the flood of a start cell as the closure of that step relation and proves it
    equal to path reachability.  The outer scan then marks every still-blank cell of a
    target-free flood group as a deadlock box position. */
module Deadlock {
  import opened Seqs
  import opened Boards

  /** All coordinates of the `mapSize.first x mapSize.second` grid. */
  function GridSet(b: Board): (g: set<Cell>)
    ensures forall c :: c in g <==> b.InGrid(c)
  {
    var g := set r, c | 0 <= r < b.rows && 0 <= c < b.cols :: Cell(r, c);
    assert forall c :: b.InGrid(c) ==> c in g by {
      forall c | b.InGrid(c)
        ensures c in g
      {
        assert c == Cell(c.row, c.col);
      }
    }
    g
  }

  /** Orthogonal neighbours. */
  predicate Adjacent(a: Cell, n: Cell)
  {
    (a.row == n.row && (a.col == n.col + 1 || a.col + 1 == n.col)) ||
    (a.col == n.col && (a.row == n.row + 1 || a.row + 1 == n.row))
  }

  /** The cell on the far side of `a` from its neighbour `n`. */
  function Opposite(a: Cell, n: Cell): Cell
  {
    Cell(2 * a.row - n.row, 2 * a.col - n.col)
  }

  /** The moves `bfs` tries from `a`, in its order up, down, left, right (the
      `visited` test is the traversal's bookkeeping and belongs to the closure below). */
  function Steps(b: Board, a: Cell): seq<Cell>
  {
    var i, j := a.row, a.col;
    (if i > 0 && !b.IsWall(i - 1, j) && !b.IsWall(i + 1, j) then [Cell(i - 1, j)] else [])
    + (if i < b.rows - 1 && !b.IsWall(i + 1, j) && !b.IsWall(i - 1, j) then [Cell(i + 1, j)] else [])
    + (if j > 0 && !b.IsWall(i, j - 1) && !b.IsWall(i, j + 1) then [Cell(i, j - 1)] else [])
    + (if j < b.cols - 1 && !b.IsWall(i, j + 1) && !b.IsWall(i, j - 1) then [Cell(i, j + 1)] else [])
  }

  /** From a grid cell, `bfs` moves exactly to the grid neighbours that are not walls
      and whose opposite cell across the current one is not a wall. */
  lemma StepsRule(b: Board, a: Cell, n: Cell)
    requires b.InGrid(a)
    ensures n in Steps(b, a) <==>
      Adjacent(a, n) && b.InGrid(n) && b.NotWall(n.row, n.col) && b.NotWall(Opposite(a, n).row, Opposite(a, n).col)
  {
  }

  lemma StepsInGrid(b: Board, a: Cell)
    requires b.InGrid(a)
    ensures forall n :: n in Steps(b, a) ==> b.InGrid(n)
  {
  }

  lemma ExpandInGrid(b: Board, r: set<Cell>)
    requires r <= GridSet(b)
    ensures r <= Expand(b, r) <= GridSet(b)
  {
    forall n | n in Expand(b, r)
      ensures n in GridSet(b)
    {
      if n !in r {
        var a :| a in r && n in Steps(b, a);
        StepsInGrid(b, a);
      }
    }
  }

  lemma Shrinks(g: set<Cell>, r: set<Cell>, r': set<Cell>)
    requires r <= r' <= g && r' != r
    ensures |g - r'| < |g - r|
  {
    var x :| x in r' && x !in r;
    assert g - r == (g - r') + (r' - r);
    assert (g - r') * (r' - r) == {};
    assert x in r' - r;
  }

  /** One round of the fill: everything already reached plus every allowed move from it. */
  function Expand(b: Board, r: set<Cell>): set<Cell>
  {
    r + set a, n | a in r && n in Steps(b, a) :: n
  }

  /** No allowed move leaves `f`. */
  ghost predicate Closed(b: Board, f: set<Cell>)
  {
    forall a, n :: a in f && n in Steps(b, a) ==> n in f
  }

  /** Repeats `Expand` until nothing new is reached; the grid bounds the growth. */
  function FloodFrom(b: Board, r: set<Cell>): (f: set<Cell>)
    requires r <= GridSet(b)
    ensures r <= f <= GridSet(b)
    ensures Closed(b, f)
    decreases |GridSet(b) - r|
  {
    var r' := Expand(b, r);
    ExpandInGrid(b, r);
    if r' == r then r
    else
      Shrinks(GridSet(b), r, r');
      FloodFrom(b, r')
  }

  /** The group `bfs` collects from start cell `s`. */
  function Flood(b: Board, s: Cell): set<Cell>
    requires b.InGrid(s)
  {
    FloodFrom(b, {s})
  }

  /** The fill reaches nothing outside any closed set containing its start. */
  lemma {:induction false} FloodFromLeast(b: Board, r: set<Cell>, s: set<Cell>)
    requires r <= GridSet(b)
    requires r <= s && Closed(b, s)
    ensures FloodFrom(b, r) <= s
    decreases |GridSet(b) - r|
  {
    var r' := Expand(b, r);
    ExpandInGrid(b, r);
    assert r' <= s;
    if r' != r {
      Shrinks(GridSet(b), r, r');
      FloodFromLeast(b, r', s);
    }
  }

  /** A walk along allowed moves. */
  ghost predicate IsPath(b: Board, p: seq<Cell>)
  {
    |p| >= 1 && forall i :: 0 <= i < |p| - 1 ==> p[i + 1] in Steps(b, p[i])
  }

  /** `c` can be reached from `s` along allowed moves. */
  ghost predicate Reaches(b: Board, s: Cell, c: Cell)
  {
    exists p :: IsPath(b, p) && p[0] == s && p[|p| - 1] == c
  }

  lemma ReachesStep(b: Board, s: Cell, a: Cell, n: Cell)
    requires Reaches(b, s, a) && n in Steps(b, a)
    ensures Reaches(b, s, n)
  {
    var p :| IsPath(b, p) && p[0] == s && p[|p| - 1] == a;
    var q := p + [n];
    assert forall i :: 0 <= i < |p| ==> q[i] == p[i];
    assert IsPath(b, q);
  }

  /** Everything the fill collects is reachable from the start. */
  lemma {:induction false} FloodFromSound(b: Board, s: Cell, r: set<Cell>)
    requires r <= GridSet(b)
    requires forall c :: c in r ==> Reaches(b, s, c)
    ensures forall c :: c in FloodFrom(b, r) ==> Reaches(b, s, c)
    decreases |GridSet(b) - r|
  {
    var r' := Expand(b, r);
    ExpandInGrid(b, r);
    if r' != r {
      forall c | c in r'
        ensures Reaches(b, s, c)
      {
        if c !in r {
          var a, n :| a in r && n in Steps(b, a) && n == c;
          ReachesStep(b, s, a, n);
        }
      }
      Shrinks(GridSet(b), r, r');
      FloodFromSound(b, s, r');
    }
  }

  /** A closed set holding the start of a path holds its end. */
  lemma {:induction false} ClosedHoldsPath(b: Board, f: set<Cell>, p: seq<Cell>)
    requires Closed(b, f) && IsPath(b, p) && p[0] in f
    ensures p[|p| - 1] in f
    decreases |p|
  {
    if |p| > 1 {
      var q := p[..|p| - 1];
      assert IsPath(b, q) by {
        assert forall i :: 0 <= i < |q| ==> q[i] == p[i];
      }
      ClosedHoldsPath(b, f, q);
      assert p[|p| - 1] in Steps(b, p[|p| - 2]);
    }
  }

  /** The flood group of `s` is exactly the set of cells reachable from `s`. */
  lemma FloodIsReach(b: Board, s: Cell, c: Cell)
    requires b.InGrid(s)
    ensures c in Flood(b, s) <==> Reaches(b, s, c)
  {
    assert IsPath(b, [s]);
    FloodFromSound(b, s, {s});
    if Reaches(b, s, c) {
      var p :| IsPath(b, p) && p[0] == s && p[|p| - 1] == c;
      ClosedHoldsPath(b, Flood(b, s), p);
    }
  }

  /** Flood groups nest: the group of a member is inside the group. */
  lemma FloodNested(b: Board, s: Cell, d: Cell)
    requires b.InGrid(s) && d in Flood(b, s)
    ensures Flood(b, d) <= Flood(b, s)
  {
    FloodFromLeast(b, {d}, Flood(b, s));
  }

  /** A cell the scan starts a flood from: tagged ' ' (neither 'W' nor 'T'). */
  predicate Blank(b: Board, c: Cell)
  {
    !b.IsWall(c.row, c.col) && !b.IsTarget(c.row, c.col)
  }

  /** The group of `c` holds a target. */
  predicate HasTarget(b: Board, g: set<Cell>)
  {
    exists d :: d in g && b.IsTarget(d.row, d.col)
  }

  /** Reference meaning of a deadlock box position: a blank grid cell whose flood
      group reaches no target. */
  predicate IsDeadlock(b: Board, c: Cell)
  {
    b.InGrid(c) && Blank(b, c) && !HasTarget(b, Flood(b, c))
  }

  /** The grid in row-major order, the order of the scan's two nested loops. */
  function GridCells(b: Board): (cells: seq<Cell>)
    ensures forall c :: c in cells <==> b.InGrid(c)
  {
    var cells := Flatten(seq(b.rows, i => seq(b.cols, j => Cell(i, j))));
    forall c
      ensures c in cells <==> b.InGrid(c)
    {
      FlattenMember(seq(b.rows, i => seq(b.cols, j => Cell(i, j))), c);
      if b.InGrid(c) {
        assert c == seq(b.rows, i => seq(b.cols, j => Cell(i, j)))[c.row][c.col];
      }
    }
    cells
  }

  /** One iteration of the scan at `c`: skip non-blank or already relabelled cells;
      otherwise flood from `c` and, when the group has no target, add every blank
      member of the group. */
  function ScanCell(b: Board, dead: set<Cell>, c: Cell): set<Cell>
    requires b.InGrid(c)
  {
    if !Blank(b, c) || c in dead then dead
    else
      var group := Flood(b, c);
      if HasTarget(b, group) then dead
      else dead + set d | d in group && Blank(b, d)
  }

  /** The scan over `cells`, in order. */
  function Scan(b: Board, cells: seq<Cell>, dead: set<Cell>): set<Cell>
    requires forall c :: c in cells ==> b.InGrid(c)
    decreases |cells|
  {
    if |cells| == 0 then dead
    else Scan(b, cells[1..], ScanCell(b, dead, cells[0]))
  }

  lemma {:induction false} ScanCharacterised(b: Board, cells: seq<Cell>, dead: set<Cell>)
    requires forall c :: c in cells ==> b.InGrid(c)
    requires forall c :: c in dead ==> IsDeadlock(b, c)
    ensures dead <= Scan(b, cells, dead)
    ensures forall c :: c in Scan(b, cells, dead) ==> IsDeadlock(b, c)
    ensures forall c :: c in cells && IsDeadlock(b, c) ==> c in Scan(b, cells, dead)
    decreases |cells|
  {
    if |cells| > 0 {
      var c := cells[0];
      var dead' := ScanCell(b, dead, c);
      if Blank(b, c) && c !in dead && !HasTarget(b, Flood(b, c)) {
        forall d | d in Flood(b, c) && Blank(b, d)
          ensures IsDeadlock(b, d)
        {
          FloodNested(b, c, d);
        }
        assert c in Flood(b, c);
      }
      ScanCharacterised(b, cells[1..], dead');
    }
  }

  /** `findDeadlockPos`: the set of deadlock box positions.  The `deadlockPositions`
      list is not modelled: neither its order nor its repeats (a cell of dead group
      240 is labelled `char(288)`, which is `' '`, so it stays blank and a later group
      can push it again). */
  function FindDeadlockPos(b: Board): (dead: set<Cell>)
    ensures forall c :: c in dead <==> IsDeadlock(b, c)
  {
    ScanCharacterised(b, GridCells(b), {});
    Scan(b, GridCells(b), {})
  }

  /** No wall and no target is ever a deadlock position; a cell whose flood group
      holds a target is not one either. */
  lemma DeadlockNeverWallOrTarget(b: Board, c: Cell)
    requires c in FindDeadlockPos(b)
    ensures b.InGrid(c) && !b.IsWall(c.row, c.col) && !b.IsTarget(c.row, c.col)
    ensures forall d :: d in Flood(b, c) ==> !b.IsTarget(d.row, d.col)
  {
  }

  /** Deadlock soundness: from a deadlock position no target is reachable under the
      push-lookahead moves, and a blank grid cell from which no target is reachable
      is a deadlock position. */
  lemma DeadlockIffNoTargetReachable(b: Board, c: Cell)
    requires b.InGrid(c) && Blank(b, c)
    ensures c in FindDeadlockPos(b) <==> forall t :: Reaches(b, c, t) ==> !b.IsTarget(t.row, t.col)
  {
    forall t
      ensures t in Flood(b, c) <==> Reaches(b, c, t)
    {
      FloodIsReach(b, c, t);
    }
  }

  /** `deadlockPosMap`: a rows x cols grid of flags, true exactly on the listed positions. */
  function DeadlockPosMap(b: Board, dead: set<Cell>): (m: seq<seq<bool>>)
    ensures |m| == b.rows
    ensures forall i :: 0 <= i < b.rows ==> |m[i]| == b.cols
    ensures forall i, j :: 0 <= i < b.rows && 0 <= j < b.cols ==> (m[i][j] <==> Cell(i, j) in dead)
  {
    seq(b.rows, i => seq(b.cols, j => Cell(i, j) in dead))
  }

  // ------------------------------------------------ the group labels as written

  /** The tile grid of the scan as written: besides walls (`'W'`) and targets
      (`'T'`), every cell of a dead group is overwritten with the group's label
      `char(deadGroupCount + '0')`; `groups` is `deadGroupCount`. */
  datatype Tiles = Tiles(marks: map<Cell, int>, groups: int)

  /** The code of `char(k + '0')` (`'0'` is 48), as the 8 bits a `char` holds. */
  function Label(k: int): int
  {
    (k + 48) % 256
  }

  /** The tile character at `c`, as a code: `'T'` overrides `'W'`, as it is
      written second. */
  function Tile(b: Board, tiles: Tiles, c: Cell): int
  {
    if b.IsTarget(c.row, c.col) then 'T' as int
    else if b.IsWall(c.row, c.col) then 'W' as int
    else if c in tiles.marks then Label(tiles.marks[c])
    else ' ' as int
  }

  /** One iteration of the scan as written: skip a cell whose tile is not blank;
      otherwise flood from it, and when no member of the group shows `'T'`, label
      the group's blank members with the next label. */
  function ScanCellAsWritten(b: Board, tiles: Tiles, c: Cell): Tiles
    requires b.InGrid(c)
  {
    if Tile(b, tiles, c) != ' ' as int then tiles
    else
      var group := Flood(b, c);
      if exists d :: d in group && Tile(b, tiles, d) == 'T' as int then tiles
      else
        var added := map d | d in group && Tile(b, tiles, d) == ' ' as int :: tiles.groups;
        Tiles(tiles.marks + added, tiles.groups + 1)
  }

  /** The scan as written over `cells`, in order. */
  function ScanAsWritten(b: Board, cells: seq<Cell>, tiles: Tiles): (r: Tiles)
    requires forall c :: c in cells ==> b.InGrid(c)
    ensures tiles.groups <= r.groups
    decreases |cells|
  {
    if |cells| == 0 then tiles
    else ScanAsWritten(b, cells[1..], ScanCellAsWritten(b, tiles, cells[0]))
  }

  /** The tiles before the scan: only walls and targets. */
  const NoTiles := Tiles(map[], 0)

  /** The scan as written, from `tiles` and the labelled cells `dead`, ends with the
      same labelled cells as the reference scan whenever it labels at most 36 groups. */
  lemma {:induction false} ScanAsWrittenAgrees(b: Board, cells: seq<Cell>, tiles: Tiles, dead: set<Cell>)
    requires forall c :: c in cells ==> b.InGrid(c)
    requires 0 <= tiles.groups
    requires forall d :: d in tiles.marks ==> 0 <= tiles.marks[d] < tiles.groups
    requires forall d :: d in tiles.marks <==> d in dead
    requires forall d :: d in dead ==> Blank(b, d)
    ensures ScanAsWritten(b, cells, tiles).groups <= 36 ==>
      forall d :: d in ScanAsWritten(b, cells, tiles).marks <==> d in Scan(b, cells, dead)
    decreases |cells|
  {
    if |cells| > 0 && ScanAsWritten(b, cells, tiles).groups <= 36 {
      var c := cells[0];
      var tiles' := ScanCellAsWritten(b, tiles, c);
      assert tiles'.groups <= ScanAsWritten(b, cells[1..], tiles').groups;
      ScanCellAgrees(b, tiles, dead, c);
      ScanAsWrittenAgrees(b, cells[1..], tiles', ScanCell(b, dead, c));
    }
  }

  /** `findDeadlockPos` as written finds exactly the deadlock positions on every board
      with at most 36 dead groups. */
  lemma FindDeadlockPosAsWritten(b: Board)
    ensures var r := ScanAsWritten(b, GridCells(b), NoTiles);
      r.groups <= 36 ==> forall c :: c in r.marks <==> c in FindDeadlockPos(b)
  {
    ScanAsWrittenAgrees(b, GridCells(b), NoTiles, {});
  }

  /** The 37th dead group (label 36) is written as `'T'`: when the scan as written
      reaches a blank cell whose flood meets that group, it takes the cell for one
      that can reach a target and leaves it unmarked although it is a deadlock
      position. */
  lemma LabelThirtySixMasksDeadlock(b: Board, i: int, tiles: Tiles, c: Cell, d: Cell)
    requires 0 <= i < |GridCells(b)| && c == GridCells(b)[i]
    requires tiles == ScanAsWritten(b, GridCells(b)[..i], NoTiles)
    requires IsDeadlock(b, c) && c !in tiles.marks
    requires d in Flood(b, c) && d in tiles.marks && tiles.marks[d] == 36 && Blank(b, d)
    ensures Label(36) == 'T' as int
    ensures c !in ScanCellAsWritten(b, tiles, c).marks
  {
    assert b.InGrid(c);
    LabelThirtySixReadsTarget(b, tiles, d);
    SkipsTargetGroup(b, tiles, c, d);
  }

  /** A blank cell labelled 36 shows the tile `'T'`. */
  lemma LabelThirtySixReadsTarget(b: Board, tiles: Tiles, d: Cell)
    requires d in tiles.marks && tiles.marks[d] == 36 && Blank(b, d)
    ensures Label(36) == 'T' as int && Tile(b, tiles, d) == 'T' as int
  {
  }

  /** A blank cell whose group shows a `'T'` tile is skipped by the scan as written. */
  lemma SkipsTargetGroup(b: Board, tiles: Tiles, c: Cell, d: Cell)
    requires b.InGrid(c) && d in Flood(b, c) && Tile(b, tiles, d) == 'T' as int
    ensures ScanCellAsWritten(b, tiles, c) == tiles
  {
  }

  /** While at most 36 groups are labelled no label reads as `'T'` or `' '`, and
      the labelled cells are exactly the deadlock positions found so far: the scan as
      written then takes the same step as `ScanCell`. */
  lemma ScanCellAgrees(b: Board, tiles: Tiles, dead: set<Cell>, c: Cell)
    requires b.InGrid(c) && 0 <= tiles.groups <= 36
    requires forall d :: d in tiles.marks ==> 0 <= tiles.marks[d] < tiles.groups
    requires forall d :: d in tiles.marks <==> d in dead
    requires forall d :: d in dead ==> Blank(b, d)
    ensures forall d :: d in ScanCellAsWritten(b, tiles, c).marks <==> d in ScanCell(b, dead, c)
    ensures forall d :: d in ScanCellAsWritten(b, tiles, c).marks ==> 0 <= ScanCellAsWritten(b, tiles, c).marks[d] < ScanCellAsWritten(b, tiles, c).groups
  {
    forall d | d in tiles.marks
      ensures Tile(b, tiles, d) != 'T' as int && Tile(b, tiles, d) != ' ' as int
    {
      assert Blank(b, d);
    }
    forall d
      ensures Tile(b, tiles, d) == 'T' as int <==> b.IsTarget(d.row, d.col)
      ensures Tile(b, tiles, d) == ' ' as int <==> Blank(b, d) && d !in dead
    {
    }
  }
}
