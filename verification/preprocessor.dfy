/** The `Preprocessor` object as the encoder sees it once the driver has run
    `loadMap`, `TunnelIdentifying` and `findDeadlockPos`: one immutable record
    holding the board, the deadlock positions with their flag grid, and the
    tunnels.  `isDeadLockBoxPos` is the flag-grid lookup. */
module Preprocessor {
  import opened Boards
  import opened Deadlock
  import opened Tunnels

  datatype Prep = Prep(board: Board, dead: set<Cell>, deadMap: seq<seq<bool>>, tunnels: set<seq<Cell>>)
  {
    /** What the driver's sequence establishes: a loaded board, a rows x cols flag
        grid agreeing with the deadlock positions, and deadlock positions that are
        blank grid cells. */
    ghost predicate Valid()
    {
      && board.WellFormed()
      && |deadMap| == board.rows
      && (forall i :: 0 <= i < board.rows ==> |deadMap[i]| == board.cols)
      && (forall i, j :: 0 <= i < board.rows && 0 <= j < board.cols ==> (deadMap[i][j] <==> Cell(i, j) in dead))
      && (forall c :: c in dead ==> board.InGrid(c) && Blank(board, c))
    }

    /** `isDeadLockBoxPos(row, col)`: a lookup in the flag grid, so only defined
        inside the grid. */
    function IsDeadLockBoxPos(row: int, col: int): (r: bool)
      requires Valid()
      requires 0 <= row < board.rows && 0 <= col < board.cols
      ensures r <==> Cell(row, col) in dead
    {
      deadMap[row][col]
    }

    /** The deadlock test at a cell the encoder asks about.  Every such cell is in
        the grid (a walkable cell, or a neighbour the caller bounds-checked), where
        `IsDeadLockBoxPos` gives the same answer; outside it answers false. */
    predicate DeadAt(c: Cell)
    {
      board.InGrid(c) && c in dead
    }
  }

  /** The driver's preprocessing of the map text. */
  function Preprocess(lines: seq<string>): (p: Prep)
    ensures p.Valid()
    ensures p.board == LoadMap(lines)
    ensures forall c :: c in p.dead <==> IsDeadlock(p.board, c)
    ensures forall t :: t in p.tunnels ==> IsTunnel(p.board, t)
    ensures forall t :: t in p.tunnels <==>
      exists i :: FreshEntry(p.board, InteriorCells(p.board), TunnelState({}, {}), i, t)
  {
    var b := LoadMap(lines);
    var dead := FindDeadlockPos(b);
    Prep(b, dead, DeadlockPosMap(b, dead), TunnelIdentifying(b))
  }

  /** A deadlock position is never a wall or a target, so no target is a deadlock
      position. */
  lemma TargetNeverDead(p: Prep, c: Cell)
    requires p.Valid()
    requires p.board.IsTarget(c.row, c.col)
    ensures !p.DeadAt(c)
  {
  }
}
