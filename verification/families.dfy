/** The clause generators of `SokobanSolver` that need no allocator state to
    describe: each is a pure function from the preprocessed board and the horizon
    `stepLimit` to the list of clauses it adds, in the order its loops add them.
    A clause is a list of literal requests (`Literals.Req`); `Literals.RealizeAll`
    turns such a list into allocated literals in the same order, which is exactly
    the order of the `AddLit(AddXLiteral(...))` calls. */
module Families {
  import opened Seqs
  import opened Boards
  import opened Deadlock
  import opened Literals
  import opened Preprocessor

  /** `AddPlayerLiteral(c.row, c.col, pl, t)`, used positively. */
  function PlayerAt(c: Cell, pl: int, t: int): Req
  {
    Req(Player, c, pl, t, true)
  }

  /** `AddBoxLiteral(c.row, c.col, b, t)`, used positively. */
  function BoxAt(c: Cell, b: int, t: int): Req
  {
    Req(Box, c, b, t, true)
  }

  /** `~` applied to a requested literal. */
  function Not(q: Req): (n: Req)
    ensures n.positive != q.positive
    ensures (n.kind, n.cell, n.obj, n.time) == (q.kind, q.cell, q.obj, q.time)
  {
    q.(positive := !q.positive)
  }

  /** `mapInfo["Walkable"]`. */
  function Walkable(p: Prep): seq<Cell>
  {
    p.board.info.walkable
  }

  /** The cells of `cells` that are not deadlock positions, in order (the loops that
      `continue` on `isDeadLockBoxPos`). */
  function LiveCells(p: Prep, cells: seq<Cell>): (v: seq<Cell>)
    requires p.Valid()
    ensures forall c :: c in v <==> c in cells && !p.DeadAt(c)
    ensures RowMajor(cells) ==> RowMajor(v)
    decreases |cells|
  {
    if |cells| == 0 then []
    else
      var rest := LiveCells(p, cells[1..]);
      if p.DeadAt(cells[0]) then rest
      else
        assert RowMajor(cells) ==> RowMajor(cells[1..]) && forall y :: y in rest ==> Before(cells[0], y);
        assert RowMajor(cells) ==> RowMajor([cells[0]] + rest) by {
          if RowMajor(cells) {
            RowMajorAppend([cells[0]], rest);
          }
        }
        [cells[0]] + rest
  }

  /** The walkable cells that are not deadlock positions: where a box may stand. */
  function BoxCells(p: Prep): (v: seq<Cell>)
    requires p.Valid()
    ensures forall c :: c in v <==> c in Walkable(p) && !p.DeadAt(c)
    ensures forall c :: c in v ==> p.board.InGrid(c)
    ensures RowMajor(v)
  {
    assert forall c :: c in Walkable(p) ==> c in p.board.info.Get(Boards.Walkable);
    assert RowMajor(p.board.info.Get(Boards.Walkable));
    LiveCells(p, Walkable(p))
  }

  lemma WalkableInGrid(p: Prep)
    requires p.Valid()
    ensures forall c :: c in Walkable(p) ==> p.board.InGrid(c)
    ensures RowMajor(Walkable(p))
  {
    assert forall c :: c in Walkable(p) ==> c in p.board.info.Get(Boards.Walkable);
    assert RowMajor(p.board.info.Get(Boards.Walkable));
  }

  // ---------------------------------------------------------------- InitState

  /** Player `i`'s part of `InitState`: the unit on its start, then a negative unit
      for every other non-wall grid cell, row by row. */
  function PlayerInit(p: Prep, i: int, start: Cell): seq<seq<Req>>
  {
    var b := p.board;
    [[PlayerAt(start, i, 0)]]
      + ForEach(GridCells(b), c => if c != start && b.NotWall(c.row, c.col) then [[Not(PlayerAt(c, i, 0))]] else [])
  }

  /** Box `i`'s part of `InitState`: as for players, but deadlock cells are skipped. */
  function BoxInit(p: Prep, i: int, start: Cell): seq<seq<Req>>
    requires p.Valid()
  {
    var b := p.board;
    [[BoxAt(start, i, 0)]]
      + ForEach(GridCells(b), c => if p.DeadAt(c) then []
                                   else if c != start && b.NotWall(c.row, c.col) then [[Not(BoxAt(c, i, 0))]]
                                   else [])
  }

  /** `InitState`. */
  function InitState(p: Prep): seq<seq<Req>>
    requires p.Valid()
  {
    ForEach(Indexed(p.board.info.players), (e: (int, Cell)) => PlayerInit(p, e.0, e.1))
      + ForEach(Indexed(p.board.info.boxes), (e: (int, Cell)) => BoxInit(p, e.0, e.1))
  }

  /** An initial unit for an entity starting at `start`: it is there at time 0, and
      it is not at any other non-wall grid cell (boxes: nor at a deadlock position,
      where no unit is emitted at all). */
  predicate InitUnitFrom(p: Prep, q: Req, start: Cell)
    requires p.Valid()
  {
    var b := p.board;
    && q.time == 0
    && if q.positive then q.cell == start
       else q.cell != start && b.InGrid(q.cell) && b.NotWall(q.cell.row, q.cell.col) && (q.kind == Box ==> !p.DeadAt(q.cell))
  }

  /** The meaning of an initial-state unit: `InitUnitFrom` the start cell of
      entity `obj` of its kind. */
  predicate InitUnit(p: Prep, q: Req)
    requires p.Valid()
  {
    var b := p.board;
    if q.kind == Player then 0 <= q.obj < b.PlayerNum() && InitUnitFrom(p, q, b.info.players[q.obj])
    else 0 <= q.obj < b.BoxNum() && InitUnitFrom(p, q, b.info.boxes[q.obj])
  }

  lemma PlayerInitMember(p: Prep, i: int, start: Cell, cl: seq<Req>)
    requires p.Valid()
    ensures cl in PlayerInit(p, i, start) <==>
      |cl| == 1 && cl[0].kind == Player && cl[0].obj == i && InitUnitFrom(p, cl[0], start)
  {
    var b := p.board;
    var f := c => if c != start && b.NotWall(c.row, c.col) then [[Not(PlayerAt(c, i, 0))]] else [];
    ForEachMember(GridCells(b), f, cl);
    if |cl| == 1 && cl[0].kind == Player && cl[0].obj == i && InitUnitFrom(p, cl[0], start) && !cl[0].positive {
      assert cl == [Not(PlayerAt(cl[0].cell, i, 0))];
      assert f(cl[0].cell) == [cl];
      assert cl[0].cell in GridCells(b);
    }
    if |cl| == 1 && cl[0].kind == Player && cl[0].obj == i && InitUnitFrom(p, cl[0], start) && cl[0].positive {
      assert cl == [PlayerAt(start, i, 0)];
    }
  }

  lemma BoxInitMember(p: Prep, i: int, start: Cell, cl: seq<Req>)
    requires p.Valid()
    ensures cl in BoxInit(p, i, start) <==>
      |cl| == 1 && cl[0].kind == Box && cl[0].obj == i && InitUnitFrom(p, cl[0], start)
  {
    var b := p.board;
    var f := c => if p.DeadAt(c) then []
                  else if c != start && b.NotWall(c.row, c.col) then [[Not(BoxAt(c, i, 0))]]
                  else [];
    ForEachMember(GridCells(b), f, cl);
    if |cl| == 1 && cl[0].kind == Box && cl[0].obj == i && InitUnitFrom(p, cl[0], start) && !cl[0].positive {
      assert cl == [Not(BoxAt(cl[0].cell, i, 0))];
      assert f(cl[0].cell) == [cl];
      assert cl[0].cell in GridCells(b);
    }
    if |cl| == 1 && cl[0].kind == Box && cl[0].obj == i && InitUnitFrom(p, cl[0], start) && cl[0].positive {
      assert cl == [BoxAt(start, i, 0)];
    }
  }

  /** The players' half of `InitState` holds exactly the player units of `InitUnit`. */
  lemma PlayerInitsCharacterised(p: Prep, cl: seq<Req>)
    requires p.Valid()
    ensures cl in ForEach(Indexed(p.board.info.players), (e: (int, Cell)) => PlayerInit(p, e.0, e.1)) <==>
      |cl| == 1 && cl[0].kind == Player && InitUnit(p, cl[0])
  {
    var P := Indexed(p.board.info.players);
    ForEachMember(P, (e: (int, Cell)) => PlayerInit(p, e.0, e.1), cl);
    if cl in ForEach(P, (e: (int, Cell)) => PlayerInit(p, e.0, e.1)) {
      var e :| e in P && cl in PlayerInit(p, e.0, e.1);
      PlayerInitMember(p, e.0, e.1, cl);
    }
    if |cl| == 1 && cl[0].kind == Player && InitUnit(p, cl[0]) {
      var e := (cl[0].obj, p.board.info.players[cl[0].obj]);
      assert e in P;
      PlayerInitMember(p, e.0, e.1, cl);
    }
  }

  /** The boxes' half of `InitState` holds exactly the box units of `InitUnit`. */
  lemma BoxInitsCharacterised(p: Prep, cl: seq<Req>)
    requires p.Valid()
    ensures cl in ForEach(Indexed(p.board.info.boxes), (e: (int, Cell)) => BoxInit(p, e.0, e.1)) <==>
      |cl| == 1 && cl[0].kind == Box && InitUnit(p, cl[0])
  {
    var B := Indexed(p.board.info.boxes);
    ForEachMember(B, (e: (int, Cell)) => BoxInit(p, e.0, e.1), cl);
    if cl in ForEach(B, (e: (int, Cell)) => BoxInit(p, e.0, e.1)) {
      var e :| e in B && cl in BoxInit(p, e.0, e.1);
      BoxInitMember(p, e.0, e.1, cl);
    }
    if |cl| == 1 && cl[0].kind == Box && InitUnit(p, cl[0]) {
      var e := (cl[0].obj, p.board.info.boxes[cl[0].obj]);
      assert e in B;
      BoxInitMember(p, e.0, e.1, cl);
    }
  }

  /** `InitState` emits exactly the unit clauses of `InitUnit`. */
  lemma InitStateCharacterised(p: Prep, cl: seq<Req>)
    requires p.Valid()
    ensures cl in InitState(p) <==> |cl| == 1 && InitUnit(p, cl[0])
  {
    PlayerInitsCharacterised(p, cl);
    BoxInitsCharacterised(p, cl);
  }

  /** The start cell is never also negated: the unit clauses of `InitState` never
      contradict each other. */
  lemma InitStateConsistent(p: Prep, q: Req)
    requires p.Valid()
    requires [q] in InitState(p)
    ensures [Not(q)] !in InitState(p)
  {
    InitStateCharacterised(p, [q]);
    InitStateCharacterised(p, [Not(q)]);
  }

  // -------------------------------------------------------------- SolvedState

  /** The clause for one target: some box is on it at time `horizon`. */
  function SolvedClause(p: Prep, horizon: int, tg: Cell): (cl: seq<Req>)
    ensures |cl| == p.board.BoxNum()
    ensures forall k :: 0 <= k < |cl| ==> cl[k] == BoxAt(tg, k, horizon)
  {
    seq(p.board.BoxNum(), k => BoxAt(tg, k, horizon))
  }

  /** `SolvedState`: one clause per target, in target order. */
  function SolvedState(p: Prep, horizon: int): seq<seq<Req>>
  {
    ForEach(p.board.info.targets, tg => [SolvedClause(p, horizon, tg)])
  }

  /** One clause per target, in target order; clause `i` lists box 0, 1, ... on
      target `i` at time `horizon`, all positive. */
  lemma SolvedStateShape(p: Prep, horizon: int)
    ensures var r := SolvedState(p, horizon);
      && |r| == |p.board.info.targets|
      && forall i :: 0 <= i < |r| ==>
           && |r[i]| == p.board.BoxNum()
           && forall k :: 0 <= k < |r[i]| ==> r[i][k] == BoxAt(p.board.info.targets[i], k, horizon)
  {
    var ts := p.board.info.targets;
    ForEachSingletons(ts, tg => [SolvedClause(p, horizon, tg)]);
  }

  // --------------------------------------------------------- PlayerMovement

  /** The neighbour literals of a frame clause: player `pl` at time `t2` on each
      in-bounds non-wall neighbour of `w`, tried up, down, left, right. */
  function Moves(b: Board, w: Cell, pl: int, t2: int): (ms: seq<Req>)
    ensures |ms| <= 4
  {
    var (row, col) := (w.row, w.col);
    (if row > 0 && b.NotWall(row - 1, col) then [PlayerAt(Cell(row - 1, col), pl, t2)] else [])
    + (if row < b.rows - 1 && b.NotWall(row + 1, col) then [PlayerAt(Cell(row + 1, col), pl, t2)] else [])
    + (if col > 0 && b.NotWall(row, col - 1) then [PlayerAt(Cell(row, col - 1), pl, t2)] else [])
    + (if col < b.cols - 1 && b.NotWall(row, col + 1) then [PlayerAt(Cell(row, col + 1), pl, t2)] else [])
  }

  /** From a grid cell, the moves are exactly the player at time `t2` on an adjacent
      non-wall grid cell. */
  lemma MovesMember(b: Board, w: Cell, pl: int, t2: int, q: Req)
    requires b.InGrid(w)
    ensures q in Moves(b, w, pl, t2) <==>
      q.kind == Player && q.positive && q.obj == pl && q.time == t2 &&
      Adjacent(w, q.cell) && b.InGrid(q.cell) && b.NotWall(q.cell.row, q.cell.col)
  {
  }

  /** One player frame clause: if player `pl` is at `w` at time `t`, then at time
      `t2` it is at `w` or on one of the neighbours `Moves` lists. */
  function MoveClause(b: Board, w: Cell, pl: int, t: int, t2: int): (cl: seq<Req>)
    ensures 2 <= |cl| <= 6
    ensures cl[0] == Not(PlayerAt(w, pl, t)) && cl[1] == PlayerAt(w, pl, t2)
    ensures cl[2..] == Moves(b, w, pl, t2)
  {
    [Not(PlayerAt(w, pl, t)), PlayerAt(w, pl, t2)] + Moves(b, w, pl, t2)
  }

  /** One player's clauses of a sweep, one per walkable cell. */
  function MoveForPlayer(p: Prep, pl: int, t: int, t2: int): seq<seq<Req>>
  {
    ForEach(Walkable(p), w => [MoveClause(p.board, w, pl, t, t2)])
  }

  /** The clauses of one sweep over players and walkable cells at time `t`. */
  function MoveSweep(p: Prep, t: int, t2: int): seq<seq<Req>>
  {
    ForRange(0, p.board.PlayerNum(), pl => MoveForPlayer(p, pl, t, t2))
  }

  /** The forward sweep at `t`: frame clauses from `t` to `t + 1`. */
  function Forward(p: Prep, t: int): seq<seq<Req>>
  {
    MoveSweep(p, t, t + 1)
  }

  /** The backward sweep at `t`: frame clauses from `t` to `t - 1`. */
  function Backward(p: Prep, t: int): seq<seq<Req>>
  {
    MoveSweep(p, t, t - 1)
  }

  /** `PlayerMovementConstraints`: the forward sweep for t in [0, H), then the
      backward sweep for t in [1, H]. */
  function PlayerMovement(p: Prep, horizon: int): seq<seq<Req>>
  {
    ForRange(0, horizon, t => Forward(p, t)) + ForRange(1, horizon + 1, t => Backward(p, t))
  }

  lemma MoveSweepCount(p: Prep, t: int, t2: int)
    ensures |MoveSweep(p, t, t2)| == p.board.PlayerNum() * |Walkable(p)|
  {
    forall pl | 0 <= pl < p.board.PlayerNum()
      ensures |MoveForPlayer(p, pl, t, t2)| == |Walkable(p)|
    {
      ForEachUniform(Walkable(p), w => [MoveClause(p.board, w, pl, t, t2)], 1);
    }
    ForRangeUniform(0, p.board.PlayerNum(), pl => MoveForPlayer(p, pl, t, t2), |Walkable(p)|);
  }

  /** `PlayerMovementConstraints` emits exactly 2 * stepLimit * playerNum * |Walkable|
      clauses (none for a non-positive horizon). */
  lemma PlayerMovementCount(p: Prep, horizon: int)
    ensures |PlayerMovement(p, horizon)| == 2 * Count(0, horizon) * p.board.PlayerNum() * |Walkable(p)|
  {
    var k := p.board.PlayerNum() * |Walkable(p)|;
    forall t
      ensures |Forward(p, t)| == k && |Backward(p, t)| == k
    {
      MoveSweepCount(p, t, t + 1);
      MoveSweepCount(p, t, t - 1);
    }
    ForRangeUniform(0, horizon, t => Forward(p, t), k);
    ForRangeUniform(1, horizon + 1, t => Backward(p, t), k);
    assert Count(1, horizon + 1) == Count(0, horizon);
    DoubleProduct(Count(0, horizon), p.board.PlayerNum(), |Walkable(p)|);
  }

  /** `cl` is the frame clause, from time `t` to `t2`, of the player and walkable
      cell named by its first literal. */
  predicate IsFrame(p: Prep, cl: seq<Req>, t: int, t2: int)
  {
    && |cl| >= 1
    && 0 <= cl[0].obj < p.board.PlayerNum()
    && cl[0].cell in Walkable(p)
    && cl == MoveClause(p.board, cl[0].cell, cl[0].obj, t, t2)
  }

  lemma MoveForPlayerMember(p: Prep, pl: int, t: int, t2: int, cl: seq<Req>)
    ensures cl in MoveForPlayer(p, pl, t, t2) <==>
      |cl| >= 1 && cl[0].obj == pl && cl[0].cell in Walkable(p) && cl == MoveClause(p.board, cl[0].cell, pl, t, t2)
  {
    ForEachMember(Walkable(p), w => [MoveClause(p.board, w, pl, t, t2)], cl);
  }

  lemma MoveSweepMember(p: Prep, t: int, t2: int, cl: seq<Req>)
    ensures cl in MoveSweep(p, t, t2) <==> IsFrame(p, cl, t, t2)
  {
    var f := pl => MoveForPlayer(p, pl, t, t2);
    ForRangeMember(0, p.board.PlayerNum(), f, cl);
    if cl in MoveSweep(p, t, t2) {
      var pl :| 0 <= pl < p.board.PlayerNum() && cl in f(pl);
      MoveForPlayerMember(p, pl, t, t2, cl);
    }
    if IsFrame(p, cl, t, t2) {
      MoveForPlayerMember(p, cl[0].obj, t, t2, cl);
      assert cl in f(cl[0].obj);
    }
  }

  /** The meaning of a player movement clause: the frame clause of a player and a
      walkable cell for a step from t to t + 1 (0 <= t < H) or from t to t - 1
      (1 <= t <= H); the times are read off its first two literals. */
  predicate IsPlayerMovement(p: Prep, horizon: int, cl: seq<Req>)
  {
    && |cl| >= 2
    && var (t, t2) := (cl[0].time, cl[1].time);
       && ((0 <= t < horizon && t2 == t + 1) || (1 <= t <= horizon && t2 == t - 1))
       && IsFrame(p, cl, t, t2)
  }

  /** A clause of the sweep from `t` to `t2` carries those two times. */
  lemma MoveSweepTimes(p: Prep, t: int, t2: int, cl: seq<Req>)
    requires cl in MoveSweep(p, t, t2)
    ensures |cl| >= 2 && cl[0].time == t && cl[1].time == t2 && IsFrame(p, cl, t, t2)
  {
    MoveSweepMember(p, t, t2, cl);
  }

  lemma ForwardComplete(p: Prep, horizon: int, cl: seq<Req>)
    requires |cl| >= 2 && 0 <= cl[0].time < horizon && cl[1].time == cl[0].time + 1
    requires IsFrame(p, cl, cl[0].time, cl[1].time)
    ensures cl in ForRange(0, horizon, t => Forward(p, t))
  {
    var fwd := t => Forward(p, t);
    var t := cl[0].time;
    MoveSweepMember(p, t, t + 1, cl);
    assert cl in fwd(t);
    ForRangeMember(0, horizon, fwd, cl);
  }

  lemma ForwardMember(p: Prep, horizon: int, cl: seq<Req>)
    ensures cl in ForRange(0, horizon, t => Forward(p, t)) <==>
      |cl| >= 2 && 0 <= cl[0].time < horizon && cl[1].time == cl[0].time + 1 && IsFrame(p, cl, cl[0].time, cl[1].time)
  {
    var fwd := t => Forward(p, t);
    if cl in ForRange(0, horizon, fwd) {
      ForRangeMember(0, horizon, fwd, cl);
      var t :| 0 <= t < horizon && cl in fwd(t);
      MoveSweepTimes(p, t, t + 1, cl);
    }
    if |cl| >= 2 && 0 <= cl[0].time < horizon && cl[1].time == cl[0].time + 1 && IsFrame(p, cl, cl[0].time, cl[1].time) {
      ForwardComplete(p, horizon, cl);
    }
  }

  lemma BackwardComplete(p: Prep, horizon: int, cl: seq<Req>)
    requires |cl| >= 2 && 1 <= cl[0].time <= horizon && cl[1].time == cl[0].time - 1
    requires IsFrame(p, cl, cl[0].time, cl[1].time)
    ensures cl in ForRange(1, horizon + 1, t => Backward(p, t))
  {
    var bwd := t => Backward(p, t);
    var t := cl[0].time;
    MoveSweepMember(p, t, t - 1, cl);
    assert cl in bwd(t);
    ForRangeMember(1, horizon + 1, bwd, cl);
  }

  lemma BackwardMember(p: Prep, horizon: int, cl: seq<Req>)
    ensures cl in ForRange(1, horizon + 1, t => Backward(p, t)) <==>
      |cl| >= 2 && 1 <= cl[0].time <= horizon && cl[1].time == cl[0].time - 1 && IsFrame(p, cl, cl[0].time, cl[1].time)
  {
    var bwd := t => Backward(p, t);
    if cl in ForRange(1, horizon + 1, bwd) {
      ForRangeMember(1, horizon + 1, bwd, cl);
      var t :| 1 <= t < horizon + 1 && cl in bwd(t);
      MoveSweepTimes(p, t, t - 1, cl);
    }
    if |cl| >= 2 && 1 <= cl[0].time <= horizon && cl[1].time == cl[0].time - 1 && IsFrame(p, cl, cl[0].time, cl[1].time) {
      BackwardComplete(p, horizon, cl);
    }
  }

  /** `PlayerMovementConstraints` emits exactly the frame clauses `IsPlayerMovement`
      describes. */
  lemma PlayerMovementMember(p: Prep, horizon: int, cl: seq<Req>)
    ensures cl in PlayerMovement(p, horizon) <==> IsPlayerMovement(p, horizon, cl)
  {
    ForwardMember(p, horizon, cl);
    BackwardMember(p, horizon, cl);
  }

  // --------------------------------------------------------- DebugConstraints

  /** One neighbour a box at time `t0` may come from: `n` when it is in the grid,
      not a deadlock position and not a wall. */
  function Origin(p: Prep, n: Cell, b: int, t0: int): seq<Req>
    requires p.Valid()
  {
    if p.board.InGrid(n) && !p.DeadAt(n) && p.board.NotWall(n.row, n.col) then [BoxAt(n, b, t0)] else []
  }

  /** The neighbours of `w` in the order (1, 0), (-1, 0), (0, 1), (0, -1). */
  function Origins(p: Prep, w: Cell, b: int, t0: int): (os: seq<Req>)
    requires p.Valid()
    ensures |os| <= 4
  {
    Origin(p, Cell(w.row + 1, w.col), b, t0) + Origin(p, Cell(w.row - 1, w.col), b, t0)
      + Origin(p, Cell(w.row, w.col + 1), b, t0) + Origin(p, Cell(w.row, w.col - 1), b, t0)
  }

  /** The origins are exactly box `b` at `t0` on a neighbour of `w` that is in the
      grid, not a deadlock position and not a wall. */
  lemma OriginsMember(p: Prep, w: Cell, b: int, t0: int, q: Req)
    requires p.Valid()
    ensures q in Origins(p, w, b, t0) <==>
      && q.kind == Box && q.positive && q.obj == b && q.time == t0
      && Adjacent(w, q.cell) && p.board.InGrid(q.cell) && !p.DeadAt(q.cell) && p.board.NotWall(q.cell.row, q.cell.col)
  {
    var ns := [Cell(w.row + 1, w.col), Cell(w.row - 1, w.col), Cell(w.row, w.col + 1), Cell(w.row, w.col - 1)];
    assert Adjacent(w, q.cell) <==> q.cell in ns;
    var os := Origins(p, w, b, t0);
    assert q in os <==>
      (q in Origin(p, ns[0], b, t0) || q in Origin(p, ns[1], b, t0) || q in Origin(p, ns[2], b, t0) || q in Origin(p, ns[3], b, t0));
  }

  /** The box frame clause: if box `b` is at `w` at `t`, it was at `w` or at one of
      its origins at `t - 1`. */
  function DebugClause(p: Prep, w: Cell, b: int, t: int): (cl: seq<Req>)
    requires p.Valid()
    ensures 2 <= |cl| <= 6
    ensures cl[0] == Not(BoxAt(w, b, t)) && cl[1] == BoxAt(w, b, t - 1)
    ensures cl[2..] == Origins(p, w, b, t - 1)
  {
    [Not(BoxAt(w, b, t)), BoxAt(w, b, t - 1)] + Origins(p, w, b, t - 1)
  }

  function DebugBox(p: Prep, w: Cell, b: int, horizon: int): seq<seq<Req>>
    requires p.Valid()
  {
    ForRange(1, horizon + 1, t => [DebugClause(p, w, b, t)])
  }

  function DebugCell(p: Prep, w: Cell, horizon: int): seq<seq<Req>>
    requires p.Valid()
  {
    ForRange(0, p.board.BoxNum(), b => DebugBox(p, w, b, horizon))
  }

  /** `DebugConstraints`: every non-deadlock walkable cell, then every box, then every
      time 1 <= t <= H. */
  function Debug(p: Prep, horizon: int): seq<seq<Req>>
    requires p.Valid()
  {
    ForEach(BoxCells(p), w => DebugCell(p, w, horizon))
  }

  /** The meaning of a box frame clause: the `DebugClause` of the non-deadlock walkable
      cell, box and time 1 <= t <= H named by its first literal. */
  predicate IsBoxFrame(p: Prep, horizon: int, cl: seq<Req>)
    requires p.Valid()
  {
    && |cl| >= 1
    && cl[0].cell in BoxCells(p)
    && 0 <= cl[0].obj < p.board.BoxNum()
    && 1 <= cl[0].time <= horizon
    && cl == DebugClause(p, cl[0].cell, cl[0].obj, cl[0].time)
  }

  lemma DebugBoxMember(p: Prep, w: Cell, b: int, horizon: int, cl: seq<Req>)
    requires p.Valid()
    ensures cl in DebugBox(p, w, b, horizon) <==>
      |cl| >= 1 && 1 <= cl[0].time <= horizon && cl == DebugClause(p, w, b, cl[0].time)
  {
    var f := t => [DebugClause(p, w, b, t)];
    ForRangeMember(1, horizon + 1, f, cl);
    if |cl| >= 1 && 1 <= cl[0].time <= horizon && cl == DebugClause(p, w, b, cl[0].time) {
      assert cl in f(cl[0].time);
    }
  }

  lemma DebugCellMember(p: Prep, w: Cell, horizon: int, cl: seq<Req>)
    requires p.Valid()
    ensures cl in DebugCell(p, w, horizon) <==>
      |cl| >= 1 && 0 <= cl[0].obj < p.board.BoxNum() && 1 <= cl[0].time <= horizon
      && cl == DebugClause(p, w, cl[0].obj, cl[0].time)
  {
    var f := b => DebugBox(p, w, b, horizon);
    ForRangeMember(0, p.board.BoxNum(), f, cl);
    if cl in DebugCell(p, w, horizon) {
      var b :| 0 <= b < p.board.BoxNum() && cl in f(b);
      DebugBoxMember(p, w, b, horizon, cl);
    }
    if |cl| >= 1 && 0 <= cl[0].obj < p.board.BoxNum() && 1 <= cl[0].time <= horizon
       && cl == DebugClause(p, w, cl[0].obj, cl[0].time) {
      DebugBoxMember(p, w, cl[0].obj, horizon, cl);
      assert cl in f(cl[0].obj);
    }
  }

  /** `DebugConstraints` emits exactly the box frame clauses `IsBoxFrame` describes:
      none for a deadlock cell, one per live walkable cell, box and time. */
  lemma DebugMember(p: Prep, horizon: int, cl: seq<Req>)
    requires p.Valid()
    ensures cl in Debug(p, horizon) <==> IsBoxFrame(p, horizon, cl)
  {
    var f := w => DebugCell(p, w, horizon);
    ForEachMember(BoxCells(p), f, cl);
    if cl in Debug(p, horizon) {
      var w :| w in BoxCells(p) && cl in f(w);
      DebugCellMember(p, w, horizon, cl);
    }
    if IsBoxFrame(p, horizon, cl) {
      DebugCellMember(p, cl[0].cell, horizon, cl);
      assert cl in f(cl[0].cell);
    }
  }

  /** `DebugConstraints` emits |BoxCells| * boxNum * stepLimit clauses. */
  lemma DebugCount(p: Prep, horizon: int)
    requires p.Valid()
    ensures |Debug(p, horizon)| == |BoxCells(p)| * (p.board.BoxNum() * Count(1, horizon + 1))
  {
    var k := Count(1, horizon + 1);
    forall w
      ensures |DebugCell(p, w, horizon)| == p.board.BoxNum() * k
    {
      forall b
        ensures |DebugBox(p, w, b, horizon)| == k
      {
        ForRangeUniform(1, horizon + 1, t => [DebugClause(p, w, b, t)], 1);
      }
      ForRangeUniform(0, p.board.BoxNum(), b => DebugBox(p, w, b, horizon), k);
    }
    ForEachUniform(BoxCells(p), w => DebugCell(p, w, horizon), p.board.BoxNum() * k);
  }
}
