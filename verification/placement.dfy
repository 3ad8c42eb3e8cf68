/** The exclusion and existence families of `SokobanSolver`: single placement
    (an entity is on at most one cell), the three collision families (two entities
    never share a cell), the head-on swap exclusion and box existence.  Like the
    families in `Families` they are pure functions from the preprocessed board and
    the horizon `stepLimit` to the symbolic clauses they add, in loop order. */
module Placement {
  import opened Seqs
  import opened Boards
  import opened Literals
  import opened Preprocessor
  import opened Families

  /** `AddPlayerLiteral` or `AddBoxLiteral` at `c` for entity `o` at time `t`, used positively. */
  function At(kind: Kind, c: Cell, o: int, t: int): Req
  {
    Req(kind, c, o, t, true)
  }

  /** The two-literal clause `~a ∨ ~b`: not both. */
  function NotBoth(a: Req, b: Req): seq<Req>
  {
    [Not(a), Not(b)]
  }

  /** In a row-major list, a pair taken at indices i < j is exactly a pair of
      members in reading order. */
  lemma RowMajorPairs(s: seq<Cell>, a: Cell, b: Cell)
    requires RowMajor(s)
    ensures (exists i, j :: 0 <= i < j < |s| && a == s[i] && b == s[j]) <==> a in s && b in s && Before(a, b)
  {
    if a in s && b in s && Before(a, b) {
      var i :| 0 <= i < |s| && s[i] == a;
      var j :| 0 <= j < |s| && s[j] == b;
      assert i != j;
    }
  }

  // ---------------------------------------------------------- single placement

  /** For one entity at one time: `~at(cells[i]) ∨ ~at(cells[j])` for every i < j. */
  function Exclusive(cells: seq<Cell>, kind: Kind, o: int, t: int): seq<seq<Req>>
  {
    ForEach(OrderedPairs(cells), (e: (Cell, Cell)) => [NotBoth(At(kind, e.0, o, t), At(kind, e.1, o, t))])
  }

  /** One entity, every time 1 <= t <= H. */
  function ExclusiveOver(cells: seq<Cell>, kind: Kind, o: int, horizon: int): seq<seq<Req>>
  {
    ForRange(1, horizon + 1, t => Exclusive(cells, kind, o, t))
  }

  /** Every entity 0 <= o < n, then every time, then every pair of cells. */
  function Singles(cells: seq<Cell>, kind: Kind, n: int, horizon: int): seq<seq<Req>>
  {
    ForRange(0, n, o => ExclusiveOver(cells, kind, o, horizon))
  }

  /** `PlayerSinglePlacementConstraints`: over all walkable cells. */
  function PlayerSingle(p: Prep, horizon: int): seq<seq<Req>>
  {
    Singles(Families.Walkable(p), Player, p.board.PlayerNum(), horizon)
  }

  /** `BoxSinglePlacementConstraints`: over the walkable cells that are not deadlock positions. */
  function BoxSingle(p: Prep, horizon: int): seq<seq<Req>>
    requires p.Valid()
  {
    Singles(BoxCells(p), Box, p.board.BoxNum(), horizon)
  }

  /** The meaning of a single-placement clause: entity `o < n` of `kind` is not on
      two distinct cells of `cells` at one time 1 <= t <= H; the first cell comes
      first in reading order.  Entity, time and cells are read off the clause. */
  predicate IsExclusion(cells: seq<Cell>, kind: Kind, n: int, horizon: int, cl: seq<Req>)
  {
    && |cl| == 2
    && 0 <= cl[0].obj < n
    && 1 <= cl[0].time <= horizon
    && cl[0].cell in cells && cl[1].cell in cells && Before(cl[0].cell, cl[1].cell)
    && cl == NotBoth(At(kind, cl[0].cell, cl[0].obj, cl[0].time), At(kind, cl[1].cell, cl[0].obj, cl[0].time))
  }

  lemma ExclusiveMember(cells: seq<Cell>, kind: Kind, o: int, t: int, cl: seq<Req>)
    requires RowMajor(cells)
    ensures cl in Exclusive(cells, kind, o, t) <==>
      && |cl| == 2 && cl[0].obj == o && cl[0].time == t
      && cl[0].cell in cells && cl[1].cell in cells && Before(cl[0].cell, cl[1].cell)
      && cl == NotBoth(At(kind, cl[0].cell, o, t), At(kind, cl[1].cell, o, t))
  {
    var f := (e: (Cell, Cell)) => [NotBoth(At(kind, e.0, o, t), At(kind, e.1, o, t))];
    ForEachMember(OrderedPairs(cells), f, cl);
    if cl in Exclusive(cells, kind, o, t) {
      var e :| e in OrderedPairs(cells) && cl in f(e);
      OrderedPairsMember(cells, e.0, e.1);
      RowMajorPairs(cells, e.0, e.1);
    }
    if |cl| == 2 && cl[0].cell in cells && cl[1].cell in cells && Before(cl[0].cell, cl[1].cell)
       && cl == NotBoth(At(kind, cl[0].cell, o, t), At(kind, cl[1].cell, o, t)) {
      var e := (cl[0].cell, cl[1].cell);
      OrderedPairsMember(cells, e.0, e.1);
      RowMajorPairs(cells, e.0, e.1);
      assert cl in f(e);
    }
  }

  lemma ExclusiveOverMember(cells: seq<Cell>, kind: Kind, o: int, horizon: int, cl: seq<Req>)
    requires RowMajor(cells)
    requires 0 <= o
    ensures cl in ExclusiveOver(cells, kind, o, horizon) <==>
      IsExclusion(cells, kind, o + 1, horizon, cl) && cl[0].obj == o
  {
    var f := t => Exclusive(cells, kind, o, t);
    ForRangeMember(1, horizon + 1, f, cl);
    if cl in ExclusiveOver(cells, kind, o, horizon) {
      var t :| 1 <= t < horizon + 1 && cl in f(t);
      ExclusiveMember(cells, kind, o, t, cl);
    }
    if IsExclusion(cells, kind, o + 1, horizon, cl) && cl[0].obj == o {
      ExclusiveMember(cells, kind, o, cl[0].time, cl);
      assert cl in f(cl[0].time);
    }
  }

  /** The single-placement loops emit exactly the clauses `IsExclusion` describes. */
  lemma SinglesMember(cells: seq<Cell>, kind: Kind, n: int, horizon: int, cl: seq<Req>)
    requires RowMajor(cells)
    ensures cl in Singles(cells, kind, n, horizon) <==> IsExclusion(cells, kind, n, horizon, cl)
  {
    var f := o => ExclusiveOver(cells, kind, o, horizon);
    ForRangeMember(0, n, f, cl);
    if cl in Singles(cells, kind, n, horizon) {
      var o :| 0 <= o < n && cl in f(o);
      ExclusiveOverMember(cells, kind, o, horizon, cl);
    }
    if IsExclusion(cells, kind, n, horizon, cl) {
      ExclusiveOverMember(cells, kind, cl[0].obj, horizon, cl);
      assert cl in f(cl[0].obj);
    }
  }

  /** `PlayerSinglePlacementConstraints` emits exactly the two-literal, all-negative
      exclusions of two distinct walkable cells (in reading order) for one player
      at one time 1 <= t <= H. */
  lemma PlayerSingleMember(p: Prep, horizon: int, cl: seq<Req>)
    requires p.Valid()
    ensures cl in PlayerSingle(p, horizon) <==> IsExclusion(Families.Walkable(p), Player, p.board.PlayerNum(), horizon, cl)
  {
    WalkableInGrid(p);
    SinglesMember(Families.Walkable(p), Player, p.board.PlayerNum(), horizon, cl);
  }

  /** `BoxSinglePlacementConstraints`: the same over the non-deadlock walkable cells. */
  lemma BoxSingleMember(p: Prep, horizon: int, cl: seq<Req>)
    requires p.Valid()
    ensures cl in BoxSingle(p, horizon) <==> IsExclusion(BoxCells(p), Box, p.board.BoxNum(), horizon, cl)
  {
    SinglesMember(BoxCells(p), Box, p.board.BoxNum(), horizon, cl);
  }

  /** The guarantee single placement gives: for any two distinct cells of the list,
      one of the two orders is excluded for every entity and time 1 <= t <= H. */
  lemma SinglesAtMostOne(cells: seq<Cell>, kind: Kind, n: int, horizon: int, o: int, t: int, c: Cell, d: Cell)
    requires RowMajor(cells)
    requires 0 <= o < n && 1 <= t <= horizon
    requires c in cells && d in cells && c != d
    ensures NotBoth(At(kind, c, o, t), At(kind, d, o, t)) in Singles(cells, kind, n, horizon)
         || NotBoth(At(kind, d, o, t), At(kind, c, o, t)) in Singles(cells, kind, n, horizon)
  {
    SinglesMember(cells, kind, n, horizon, NotBoth(At(kind, c, o, t), At(kind, d, o, t)));
    SinglesMember(cells, kind, n, horizon, NotBoth(At(kind, d, o, t), At(kind, c, o, t)));
  }

  /** A player is on at most one walkable cell at every time 1 <= t <= H. */
  lemma PlayerAtMostOne(p: Prep, horizon: int, pl: int, t: int, c: Cell, d: Cell)
    requires p.Valid()
    requires 0 <= pl < p.board.PlayerNum() && 1 <= t <= horizon
    requires c in Families.Walkable(p) && d in Families.Walkable(p) && c != d
    ensures NotBoth(At(Player, c, pl, t), At(Player, d, pl, t)) in PlayerSingle(p, horizon)
         || NotBoth(At(Player, d, pl, t), At(Player, c, pl, t)) in PlayerSingle(p, horizon)
  {
    WalkableInGrid(p);
    SinglesAtMostOne(Families.Walkable(p), Player, p.board.PlayerNum(), horizon, pl, t, c, d);
  }

  /** A box is on at most one non-deadlock walkable cell at every time 1 <= t <= H. */
  lemma BoxAtMostOne(p: Prep, horizon: int, b: int, t: int, c: Cell, d: Cell)
    requires p.Valid()
    requires 0 <= b < p.board.BoxNum() && 1 <= t <= horizon
    requires c in BoxCells(p) && d in BoxCells(p) && c != d
    ensures NotBoth(At(Box, c, b, t), At(Box, d, b, t)) in BoxSingle(p, horizon)
         || NotBoth(At(Box, d, b, t), At(Box, c, b, t)) in BoxSingle(p, horizon)
  {
    SinglesAtMostOne(BoxCells(p), Box, p.board.BoxNum(), horizon, b, t, c, d);
  }

  /** The number of single-placement clauses: one per entity, time and ordered pair. */
  lemma SinglesCount(cells: seq<Cell>, kind: Kind, n: int, horizon: int)
    ensures |Singles(cells, kind, n, horizon)| == Count(0, n) * (Count(1, horizon + 1) * |OrderedPairs(cells)|)
  {
    var k := |OrderedPairs(cells)|;
    forall o
      ensures |ExclusiveOver(cells, kind, o, horizon)| == Count(1, horizon + 1) * k
    {
      forall t
        ensures |Exclusive(cells, kind, o, t)| == k
      {
        ForEachUniform(OrderedPairs(cells), (e: (Cell, Cell)) => [NotBoth(At(kind, e.0, o, t), At(kind, e.1, o, t))], 1);
      }
      ForRangeUniform(1, horizon + 1, t => Exclusive(cells, kind, o, t), k);
    }
    ForRangeUniform(0, n, o => ExclusiveOver(cells, kind, o, horizon), Count(1, horizon + 1) * k);
  }

  // ---------------------------------------------------------------- collisions

  /** Entities o1 (of kind k1) and o2 (of kind k2) are not both on `w`, for every
      time 1 <= t <= H. */
  function Clash(k1: Kind, o1: int, k2: Kind, o2: int, w: Cell, horizon: int): seq<seq<Req>>
  {
    ForRange(1, horizon + 1, t => [NotBoth(At(k1, w, o1, t), At(k2, w, o2, t))])
  }

  /** `Clash` on every cell of `cells`, in order. */
  function ClashCells(cells: seq<Cell>, k1: Kind, o1: int, k2: Kind, o2: int, horizon: int): seq<seq<Req>>
  {
    ForEach(cells, w => Clash(k1, o1, k2, o2, w, horizon))
  }

  /** The meaning of a collision clause: an entity of kind `k1` and one of kind `k2`
      are not both on one cell of `cells` at one time 1 <= t <= H.  Entities, cell
      and time are read off the clause. */
  predicate IsClash(cells: seq<Cell>, k1: Kind, k2: Kind, horizon: int, cl: seq<Req>)
  {
    && |cl| == 2
    && cl[0].cell in cells
    && 1 <= cl[0].time <= horizon
    && cl == NotBoth(At(k1, cl[0].cell, cl[0].obj, cl[0].time), At(k2, cl[0].cell, cl[1].obj, cl[0].time))
  }

  lemma ClashMember(k1: Kind, o1: int, k2: Kind, o2: int, w: Cell, horizon: int, cl: seq<Req>)
    ensures cl in Clash(k1, o1, k2, o2, w, horizon) <==>
      IsClash([w], k1, k2, horizon, cl) && cl[0].obj == o1 && cl[1].obj == o2
  {
    var f := t => [NotBoth(At(k1, w, o1, t), At(k2, w, o2, t))];
    ForRangeMember(1, horizon + 1, f, cl);
    if IsClash([w], k1, k2, horizon, cl) && cl[0].obj == o1 && cl[1].obj == o2 {
      assert cl in f(cl[0].time);
    }
  }

  lemma ClashCellsMember(cells: seq<Cell>, k1: Kind, o1: int, k2: Kind, o2: int, horizon: int, cl: seq<Req>)
    ensures cl in ClashCells(cells, k1, o1, k2, o2, horizon) <==>
      IsClash(cells, k1, k2, horizon, cl) && cl[0].obj == o1 && cl[1].obj == o2
  {
    var f := w => Clash(k1, o1, k2, o2, w, horizon);
    ForEachMember(cells, f, cl);
    if cl in ClashCells(cells, k1, o1, k2, o2, horizon) {
      var w :| w in cells && cl in f(w);
      ClashMember(k1, o1, k2, o2, w, horizon, cl);
    }
    if IsClash(cells, k1, k2, horizon, cl) && cl[0].obj == o1 && cl[1].obj == o2 {
      ClashMember(k1, o1, k2, o2, cl[0].cell, horizon, cl);
    }
  }

  /** For entity o1, the partners o1 < o2 < n. */
  function TriangleRow(cells: seq<Cell>, kind: Kind, o1: int, n: int, horizon: int): seq<seq<Req>>
  {
    ForRange(o1 + 1, n, o2 => ClashCells(cells, kind, o1, kind, o2, horizon))
  }

  /** Every pair o1 < o2 < n of entities of one kind, then every cell, then every time. */
  function Triangle(cells: seq<Cell>, kind: Kind, n: int, horizon: int): seq<seq<Req>>
  {
    ForRange(0, n - 1, o1 => TriangleRow(cells, kind, o1, n, horizon))
  }

  lemma TriangleRowMember(cells: seq<Cell>, kind: Kind, o1: int, n: int, horizon: int, cl: seq<Req>)
    ensures cl in TriangleRow(cells, kind, o1, n, horizon) <==>
      IsClash(cells, kind, kind, horizon, cl) && cl[0].obj == o1 && o1 < cl[1].obj < n
  {
    var f := o2 => ClashCells(cells, kind, o1, kind, o2, horizon);
    ForRangeMember(o1 + 1, n, f, cl);
    if cl in TriangleRow(cells, kind, o1, n, horizon) {
      var o2 :| o1 + 1 <= o2 < n && cl in f(o2);
      ClashCellsMember(cells, kind, o1, kind, o2, horizon, cl);
    }
    if IsClash(cells, kind, kind, horizon, cl) && cl[0].obj == o1 && o1 < cl[1].obj < n {
      ClashCellsMember(cells, kind, o1, kind, cl[1].obj, horizon, cl);
      assert cl in f(cl[1].obj);
    }
  }

  /** The pair loops emit exactly the collision clauses of two distinct entities
      o1 < o2 < n of one kind. */
  lemma TriangleMember(cells: seq<Cell>, kind: Kind, n: int, horizon: int, cl: seq<Req>)
    ensures cl in Triangle(cells, kind, n, horizon) <==>
      IsClash(cells, kind, kind, horizon, cl) && 0 <= cl[0].obj < cl[1].obj < n
  {
    var f := o1 => TriangleRow(cells, kind, o1, n, horizon);
    ForRangeMember(0, n - 1, f, cl);
    if cl in Triangle(cells, kind, n, horizon) {
      var o1 :| 0 <= o1 < n - 1 && cl in f(o1);
      TriangleRowMember(cells, kind, o1, n, horizon, cl);
    }
    if IsClash(cells, kind, kind, horizon, cl) && 0 <= cl[0].obj < cl[1].obj < n {
      TriangleRowMember(cells, kind, cl[0].obj, n, horizon, cl);
      assert cl in f(cl[0].obj);
    }
  }

  /** `BoxCollisionConstraints`: box pairs on the non-deadlock walkable cells. */
  function BoxCollision(p: Prep, horizon: int): seq<seq<Req>>
    requires p.Valid()
  {
    Triangle(BoxCells(p), Box, p.board.BoxNum(), horizon)
  }

  /** `PlayerCollisionConstraints`: player pairs on all walkable cells. */
  function PlayerCollision(p: Prep, horizon: int): seq<seq<Req>>
  {
    Triangle(Families.Walkable(p), Player, p.board.PlayerNum(), horizon)
  }

  /** Two distinct boxes never share a non-deadlock walkable cell at 1 <= t <= H,
      and these are the only clauses `BoxCollisionConstraints` emits. */
  lemma BoxCollisionMember(p: Prep, horizon: int, cl: seq<Req>)
    requires p.Valid()
    ensures cl in BoxCollision(p, horizon) <==>
      IsClash(BoxCells(p), Box, Box, horizon, cl) && 0 <= cl[0].obj < cl[1].obj < p.board.BoxNum()
  {
    TriangleMember(BoxCells(p), Box, p.board.BoxNum(), horizon, cl);
  }

  /** Two distinct players never share a walkable cell at 1 <= t <= H, and these are
      the only clauses `PlayerCollisionConstraints` emits. */
  lemma PlayerCollisionMember(p: Prep, horizon: int, cl: seq<Req>)
    ensures cl in PlayerCollision(p, horizon) <==>
      IsClash(Families.Walkable(p), Player, Player, horizon, cl) && 0 <= cl[0].obj < cl[1].obj < p.board.PlayerNum()
  {
    TriangleMember(Families.Walkable(p), Player, p.board.PlayerNum(), horizon, cl);
  }

  /** For player `pl`: every box, then every non-deadlock walkable cell, then every time. */
  function BoxesVersus(p: Prep, pl: int, horizon: int): seq<seq<Req>>
    requires p.Valid()
  {
    ForRange(0, p.board.BoxNum(), b => ClashCells(BoxCells(p), Box, b, Player, pl, horizon))
  }

  /** `BoxAndPlayerCollisionConstraints`: `~B(w, b, t) ∨ ~P(w, pl, t)`, players outermost. */
  function BoxAndPlayer(p: Prep, horizon: int): seq<seq<Req>>
    requires p.Valid()
  {
    ForRange(0, p.board.PlayerNum(), pl => BoxesVersus(p, pl, horizon))
  }

  lemma BoxesVersusMember(p: Prep, pl: int, horizon: int, cl: seq<Req>)
    requires p.Valid()
    ensures cl in BoxesVersus(p, pl, horizon) <==>
      IsClash(BoxCells(p), Box, Player, horizon, cl) && 0 <= cl[0].obj < p.board.BoxNum() && cl[1].obj == pl
  {
    var f := b => ClashCells(BoxCells(p), Box, b, Player, pl, horizon);
    ForRangeMember(0, p.board.BoxNum(), f, cl);
    if cl in BoxesVersus(p, pl, horizon) {
      var b :| 0 <= b < p.board.BoxNum() && cl in f(b);
      ClashCellsMember(BoxCells(p), Box, b, Player, pl, horizon, cl);
    }
    if IsClash(BoxCells(p), Box, Player, horizon, cl) && 0 <= cl[0].obj < p.board.BoxNum() && cl[1].obj == pl {
      ClashCellsMember(BoxCells(p), Box, cl[0].obj, Player, pl, horizon, cl);
      assert cl in f(cl[0].obj);
    }
  }

  /** No box and player share a non-deadlock walkable cell at 1 <= t <= H, and these
      are the only clauses `BoxAndPlayerCollisionConstraints` emits. */
  lemma BoxAndPlayerMember(p: Prep, horizon: int, cl: seq<Req>)
    requires p.Valid()
    ensures cl in BoxAndPlayer(p, horizon) <==>
      && IsClash(BoxCells(p), Box, Player, horizon, cl)
      && 0 <= cl[0].obj < p.board.BoxNum() && 0 <= cl[1].obj < p.board.PlayerNum()
  {
    var f := pl => BoxesVersus(p, pl, horizon);
    ForRangeMember(0, p.board.PlayerNum(), f, cl);
    if cl in BoxAndPlayer(p, horizon) {
      var pl :| 0 <= pl < p.board.PlayerNum() && cl in f(pl);
      BoxesVersusMember(p, pl, horizon, cl);
    }
    if IsClash(BoxCells(p), Box, Player, horizon, cl)
       && 0 <= cl[0].obj < p.board.BoxNum() && 0 <= cl[1].obj < p.board.PlayerNum() {
      BoxesVersusMember(p, cl[1].obj, horizon, cl);
      assert cl in f(cl[1].obj);
    }
  }

  /** The number of box/player collision clauses. */
  lemma BoxAndPlayerCount(p: Prep, horizon: int)
    requires p.Valid()
    ensures |BoxAndPlayer(p, horizon)| ==
      p.board.PlayerNum() * (p.board.BoxNum() * (|BoxCells(p)| * Count(1, horizon + 1)))
  {
    var k := Count(1, horizon + 1);
    forall pl
      ensures |BoxesVersus(p, pl, horizon)| == p.board.BoxNum() * (|BoxCells(p)| * k)
    {
      forall b
        ensures |ClashCells(BoxCells(p), Box, b, Player, pl, horizon)| == |BoxCells(p)| * k
      {
        forall w
          ensures |Clash(Box, b, Player, pl, w, horizon)| == k
        {
          ForRangeUniform(1, horizon + 1, t => [NotBoth(At(Box, w, b, t), At(Player, w, pl, t))], 1);
        }
        ForEachUniform(BoxCells(p), w => Clash(Box, b, Player, pl, w, horizon), k);
      }
      ForRangeUniform(0, p.board.BoxNum(), b => ClashCells(BoxCells(p), Box, b, Player, pl, horizon), |BoxCells(p)| * k);
    }
    ForRangeUniform(0, p.board.PlayerNum(), pl => BoxesVersus(p, pl, horizon), p.board.BoxNum() * (|BoxCells(p)| * k));
  }

  // ------------------------------------------------------------------ head-on

  /** `~P(w, a, t) ∨ ~P(n, a, t+1) ∨ ~P(n, b, t) ∨ ~P(w, b, t+1)`: players a and b
      do not swap cells w and n between t and t + 1. */
  function Swap(w: Cell, n: Cell, a: int, b: int, t: int): seq<Req>
  {
    [Not(PlayerAt(w, a, t)), Not(PlayerAt(n, a, t + 1)), Not(PlayerAt(n, b, t)), Not(PlayerAt(w, b, t + 1))]
  }

  /** Both swap clauses for one pair at one time, when the neighbour is not a wall
      (there is no bounds test: a coordinate beyond the grid is not a wall). */
  function HeadOnAt(b: Board, w: Cell, n: Cell, p1: int, p2: int, t: int): seq<seq<Req>>
  {
    if b.NotWall(n.row, n.col) then [Swap(w, n, p1, p2, t), Swap(w, n, p2, p1, t)] else []
  }

  /** The neighbour of `w` one step along `d`. */
  function Shift(w: Cell, d: Cell): Cell
  {
    Cell(w.row + d.row, w.col + d.col)
  }

  /** One pair on one walkable cell, for 1 <= t < H. */
  function HeadOnCell(b: Board, w: Cell, d: Cell, p1: int, p2: int, horizon: int): seq<seq<Req>>
  {
    ForRange(1, horizon, t => HeadOnAt(b, w, Shift(w, d), p1, p2, t))
  }

  /** One pair over all walkable cells. */
  function HeadOnPair(p: Prep, d: Cell, p1: int, p2: int, horizon: int): seq<seq<Req>>
  {
    ForEach(Families.Walkable(p), w => HeadOnCell(p.board, w, d, p1, p2, horizon))
  }

  /** For player p1, the partners p1 < p2. */
  function HeadOnRow(p: Prep, d: Cell, p1: int, horizon: int): seq<seq<Req>>
  {
    ForRange(p1 + 1, p.board.PlayerNum(), p2 => HeadOnPair(p, d, p1, p2, horizon))
  }

  /** One block of `PlayerHeadOnConstraints`: every pair, every walkable cell, every time. */
  function HeadOnBlock(p: Prep, d: Cell, horizon: int): seq<seq<Req>>
  {
    ForRange(0, p.board.PlayerNum(), p1 => HeadOnRow(p, d, p1, horizon))
  }

  /** `PlayerHeadOnConstraints`: the right-neighbour block, then the down-neighbour block. */
  function PlayerHeadOn(p: Prep, horizon: int): seq<seq<Req>>
  {
    HeadOnBlock(p, Cell(0, 1), horizon) + HeadOnBlock(p, Cell(1, 0), horizon)
  }

  /** A swap clause across the cell of its first literal and that cell's non-wall
      neighbour along `d`, for 1 <= t < H; players and time are read off the clause. */
  predicate SwapShape(b: Board, d: Cell, horizon: int, cl: seq<Req>)
  {
    && |cl| == 4
    && 1 <= cl[0].time < horizon
    && b.NotWall(cl[0].cell.row + d.row, cl[0].cell.col + d.col)
    && cl == Swap(cl[0].cell, Shift(cl[0].cell, d), cl[0].obj, cl[2].obj, cl[0].time)
  }

  /** The meaning of a head-on clause along direction `d`: two distinct players (of
      the first and third literal) do not swap a walkable cell and its non-wall
      neighbour along `d` between t and t + 1, for 1 <= t < H. */
  predicate IsSwap(p: Prep, d: Cell, horizon: int, cl: seq<Req>)
  {
    && SwapShape(p.board, d, horizon, cl)
    && cl[0].cell in Families.Walkable(p)
    && 0 <= cl[0].obj < p.board.PlayerNum() && 0 <= cl[2].obj < p.board.PlayerNum()
    && cl[0].obj != cl[2].obj
  }

  /** The two players of a swap clause are p1 and p2, in either order. */
  predicate Between(cl: seq<Req>, p1: int, p2: int)
    requires |cl| >= 3
  {
    (cl[0].obj == p1 && cl[2].obj == p2) || (cl[0].obj == p2 && cl[2].obj == p1)
  }

  lemma HeadOnCellMember(b: Board, w: Cell, d: Cell, p1: int, p2: int, horizon: int, cl: seq<Req>)
    ensures cl in HeadOnCell(b, w, d, p1, p2, horizon) <==>
      SwapShape(b, d, horizon, cl) && cl[0].cell == w && Between(cl, p1, p2)
  {
    var f := t => HeadOnAt(b, w, Shift(w, d), p1, p2, t);
    ForRangeMember(1, horizon, f, cl);
    if SwapShape(b, d, horizon, cl) && cl[0].cell == w && Between(cl, p1, p2) {
      assert cl in f(cl[0].time);
    }
  }

  lemma HeadOnPairMember(p: Prep, d: Cell, p1: int, p2: int, horizon: int, cl: seq<Req>)
    ensures cl in HeadOnPair(p, d, p1, p2, horizon) <==>
      SwapShape(p.board, d, horizon, cl) && cl[0].cell in Families.Walkable(p) && Between(cl, p1, p2)
  {
    var f := w => HeadOnCell(p.board, w, d, p1, p2, horizon);
    ForEachMember(Families.Walkable(p), f, cl);
    if cl in HeadOnPair(p, d, p1, p2, horizon) {
      var w :| w in Families.Walkable(p) && cl in f(w);
      HeadOnCellMember(p.board, w, d, p1, p2, horizon, cl);
    }
    if SwapShape(p.board, d, horizon, cl) && cl[0].cell in Families.Walkable(p) && Between(cl, p1, p2) {
      HeadOnCellMember(p.board, cl[0].cell, d, p1, p2, horizon, cl);
      assert cl in f(cl[0].cell);
    }
  }

  lemma HeadOnRowMember(p: Prep, d: Cell, p1: int, horizon: int, cl: seq<Req>)
    requires 0 <= p1
    ensures cl in HeadOnRow(p, d, p1, horizon) <==>
      IsSwap(p, d, horizon, cl) && (if cl[0].obj < cl[2].obj then cl[0].obj else cl[2].obj) == p1
  {
    var f := p2 => HeadOnPair(p, d, p1, p2, horizon);
    ForRangeMember(p1 + 1, p.board.PlayerNum(), f, cl);
    if cl in HeadOnRow(p, d, p1, horizon) {
      var p2 :| p1 + 1 <= p2 < p.board.PlayerNum() && cl in f(p2);
      HeadOnPairMember(p, d, p1, p2, horizon, cl);
    }
    if IsSwap(p, d, horizon, cl) && (if cl[0].obj < cl[2].obj then cl[0].obj else cl[2].obj) == p1 {
      var p2 := if cl[0].obj < cl[2].obj then cl[2].obj else cl[0].obj;
      HeadOnPairMember(p, d, p1, p2, horizon, cl);
      assert cl in f(p2);
    }
  }

  lemma HeadOnBlockMember(p: Prep, d: Cell, horizon: int, cl: seq<Req>)
    ensures cl in HeadOnBlock(p, d, horizon) <==> IsSwap(p, d, horizon, cl)
  {
    var f := p1 => HeadOnRow(p, d, p1, horizon);
    ForRangeMember(0, p.board.PlayerNum(), f, cl);
    if cl in HeadOnBlock(p, d, horizon) {
      var p1 :| 0 <= p1 < p.board.PlayerNum() && cl in f(p1);
      HeadOnRowMember(p, d, p1, horizon, cl);
    }
    if IsSwap(p, d, horizon, cl) {
      var p1 := if cl[0].obj < cl[2].obj then cl[0].obj else cl[2].obj;
      HeadOnRowMember(p, d, p1, horizon, cl);
      assert cl in f(p1);
    }
  }

  /** `PlayerHeadOnConstraints` emits exactly the swap exclusions of two distinct
      players across a walkable cell and its right or lower non-wall neighbour. */
  lemma PlayerHeadOnMember(p: Prep, horizon: int, cl: seq<Req>)
    ensures cl in PlayerHeadOn(p, horizon) <==> IsSwap(p, Cell(0, 1), horizon, cl) || IsSwap(p, Cell(1, 0), horizon, cl)
  {
    HeadOnBlockMember(p, Cell(0, 1), horizon, cl);
    HeadOnBlockMember(p, Cell(1, 0), horizon, cl);
  }

  // ---------------------------------------------------------------- existence

  /** The clause "box `b` is on some non-deadlock walkable cell at `t`". */
  function Somewhere(p: Prep, b: int, t: int): seq<Req>
    requires p.Valid()
  {
    ForEach(BoxCells(p), v => [BoxAt(v, b, t)])
  }

  /** A `Somewhere` clause holds one positive literal per non-deadlock walkable cell,
      and nothing else. */
  lemma SomewhereMember(p: Prep, b: int, t: int, q: Req)
    requires p.Valid()
    ensures |Somewhere(p, b, t)| == |BoxCells(p)|
    ensures q in Somewhere(p, b, t) <==>
      q.kind == Box && q.positive && q.obj == b && q.time == t && q.cell in Families.Walkable(p) && !p.DeadAt(q.cell)
  {
    ForEachMember(BoxCells(p), v => [BoxAt(v, b, t)], q);
    ForEachUniform(BoxCells(p), v => [BoxAt(v, b, t)], 1);
  }

  /** All boxes at time `t`. */
  function SomewhereAt(p: Prep, t: int): seq<seq<Req>>
    requires p.Valid()
  {
    ForRange(0, p.board.BoxNum(), b => [Somewhere(p, b, t)])
  }

  /** `ExistenceConstraints`: for 1 <= t < H, one clause per box. */
  function Existence(p: Prep, horizon: int): seq<seq<Req>>
    requires p.Valid()
  {
    ForRange(1, horizon, t => SomewhereAt(p, t))
  }

  lemma SomewhereAtMember(p: Prep, t: int, cl: seq<Req>)
    requires p.Valid()
    ensures |SomewhereAt(p, t)| == p.board.BoxNum()
    ensures cl in SomewhereAt(p, t) <==> exists b :: 0 <= b < p.board.BoxNum() && cl == Somewhere(p, b, t)
  {
    ForRangeUniform(0, p.board.BoxNum(), b => [Somewhere(p, b, t)], 1);
    var f := b => [Somewhere(p, b, t)];
    ForRangeMember(0, p.board.BoxNum(), f, cl);
    if exists b :: 0 <= b < p.board.BoxNum() && cl == Somewhere(p, b, t) {
      var b :| 0 <= b < p.board.BoxNum() && cl == Somewhere(p, b, t);
      assert cl in f(b);
    }
  }

  /** `ExistenceConstraints` emits one clause per box and time 1 <= t < H, and they are
      exactly the `Somewhere` clauses of those boxes and times. */
  lemma ExistenceMember(p: Prep, horizon: int, cl: seq<Req>)
    requires p.Valid()
    ensures |Existence(p, horizon)| == Count(1, horizon) * p.board.BoxNum()
    ensures cl in Existence(p, horizon) <==>
      exists t, b :: 1 <= t < horizon && 0 <= b < p.board.BoxNum() && cl == Somewhere(p, b, t)
  {
    var f := t => SomewhereAt(p, t);
    forall t
      ensures |f(t)| == p.board.BoxNum()
    {
      SomewhereAtMember(p, t, cl);
    }
    ForRangeUniform(1, horizon, f, p.board.BoxNum());
    ForRangeMember(1, horizon, f, cl);
    if cl in Existence(p, horizon) {
      var t :| 1 <= t < horizon && cl in f(t);
      SomewhereAtMember(p, t, cl);
      var b :| 0 <= b < p.board.BoxNum() && cl == Somewhere(p, b, t);
    }
    if exists t, b :: 1 <= t < horizon && 0 <= b < p.board.BoxNum() && cl == Somewhere(p, b, t) {
      var t, b :| 1 <= t < horizon && 0 <= b < p.board.BoxNum() && cl == Somewhere(p, b, t);
      SomewhereAtMember(p, t, cl);
      assert cl in f(t);
    }
  }
}
