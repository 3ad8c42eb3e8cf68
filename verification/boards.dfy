/** The board as `Preprocessor::loadMap` classifies it: the five coordinate lists of
    `mapInfo` ("Players", "Walls", "Boxes", "Targets", "Walkable") plus the map size,
    and the grid predicates of `Preprocessor.h` that answer membership questions over
    those lists.  Opening the file and `getline` are outside the model: the map text
    arrives as its sequence of lines. */
module Boards {
  import opened Seqs

  /** A (row, col) coordinate; rows are line numbers, columns character positions. */
  datatype Cell = Cell(row: int, col: int)

  /** Strict row-major reading order on coordinates. */
  predicate Before(a: Cell, b: Cell)
  {
    a.row < b.row || (a.row == b.row && a.col < b.col)
  }

  /** A list in strict row-major order (hence without duplicates). */
  predicate RowMajor(s: seq<Cell>)
  {
    forall i, j :: 0 <= i < j < |s| ==> Before(s[i], s[j])
  }

  /** Names of the five `mapInfo` lists. */
  datatype Tag = Players | Walls | Boxes | Targets | Walkable

  /** The typed replacement of `mapInfo`: one list per tag, in load order. */
  datatype MapInfo = MapInfo(players: seq<Cell>, walls: seq<Cell>, boxes: seq<Cell>,
                             targets: seq<Cell>, walkable: seq<Cell>)
  {
    function Get(tag: Tag): seq<Cell>
    {
      match tag
      case Players => players
      case Walls => walls
      case Boxes => boxes
      case Targets => targets
      case Walkable => walkable
    }

    /** Appends every list of `other` to the matching list of this one. */
    function Append(other: MapInfo): (m: MapInfo)
      ensures forall tag :: m.Get(tag) == Get(tag) + other.Get(tag)
    {
      MapInfo(players + other.players, walls + other.walls, boxes + other.boxes,
              targets + other.targets, walkable + other.walkable)
    }
  }

  const NoLists := MapInfo([], [], [], [], [])

  /** A loaded map: the lists and `mapSize` = (number of lines, longest line). */
  datatype Board = Board(info: MapInfo, rows: nat, cols: nat)
  {
    predicate InGrid(c: Cell)
    {
      0 <= c.row < rows && 0 <= c.col < cols
    }

    predicate IsWall(row: int, col: int)
    {
      Cell(row, col) in info.walls
    }

    predicate NotWall(row: int, col: int)
    {
      Cell(row, col) !in info.walls
    }

    predicate IsWalkable(row: int, col: int)
    {
      Cell(row, col) in info.walkable
    }

    predicate IsTarget(row: int, col: int)
    {
      Cell(row, col) in info.targets
    }

    /** `playerNum` */
    function PlayerNum(): nat
    {
      |info.players|
    }

    /** `boxNum` */
    function BoxNum(): nat
    {
      |info.boxes|
    }

    /** Every wall lies inside the grid. */
    predicate WallsInGrid()
    {
      forall c :: c in info.walls ==> InGrid(c)
    }

    /** What every loaded board satisfies: every listed coordinate is inside the grid,
        every list is in reading order, and no coordinate is both a wall and walkable. */
    predicate WellFormed()
    {
      && (forall tag, c :: c in info.Get(tag) ==> InGrid(c))
      && (forall tag :: RowMajor(info.Get(tag)))
      && (forall c :: c in info.walls ==> c !in info.walkable)
    }
  }

  /** Walls in particular lie in the grid. */
  lemma WallsInGridOf(b: Board)
    requires b.WellFormed()
    ensures b.WallsInGrid()
  {
    forall c | c in b.info.walls
      ensures b.InGrid(c)
    {
      assert c in b.info.Get(Walls);
    }
  }

  const PlayerSymbol := '@'
  const WallSymbol := '#'
  const BoxSymbol := '$'
  const TargetSymbol := '.'
  const BoxOnTargetSymbol := '*'
  const PlayerOnTargetSymbol := '+'

  /** Which characters put a coordinate into which list (the map format's legend). */
  predicate Marks(tag: Tag, ch: char)
  {
    match tag
    case Players => ch == PlayerSymbol || ch == PlayerOnTargetSymbol
    case Walls => ch == WallSymbol
    case Boxes => ch == BoxSymbol || ch == BoxOnTargetSymbol
    case Targets => ch == TargetSymbol || ch == BoxOnTargetSymbol || ch == PlayerOnTargetSymbol
    case Walkable => ch != WallSymbol
  }

  /** The `switch` on one character plus the trailing "not a wall, so walkable" push.
      Unknown characters land in no list but Walkable. */
  function Classify(ch: char, cell: Cell): (m: MapInfo)
    ensures forall tag :: m.Get(tag) == if Marks(tag, ch) then [cell] else []
  {
    var one := [cell];
    var lists :=
      if ch == PlayerSymbol then MapInfo(one, [], [], [], [])
      else if ch == WallSymbol then MapInfo([], one, [], [], [])
      else if ch == BoxSymbol then MapInfo([], [], one, [], [])
      else if ch == TargetSymbol then MapInfo([], [], [], one, [])
      else if ch == BoxOnTargetSymbol then MapInfo([], [], one, one, [])
      else if ch == PlayerOnTargetSymbol then MapInfo(one, [], [], one, [])
      else NoLists;
    lists.(walkable := if ch != WallSymbol then one else [])
  }

  lemma RowMajorAppend(a: seq<Cell>, b: seq<Cell>)
    requires RowMajor(a) && RowMajor(b)
    requires forall x, y :: x in a && y in b ==> Before(x, y)
    ensures RowMajor(a + b)
  {
    forall i, j | 0 <= i < j < |a + b|
      ensures Before((a + b)[i], (a + b)[j])
    {
      if j < |a| {
      } else if i >= |a| {
        assert (a + b)[i] == b[i - |a|] && (a + b)[j] == b[j - |a|];
      } else {
        assert (a + b)[i] in a && (a + b)[j] in b;
      }
    }
  }

  /** A row-major list followed by at most the one cell `c`, which lies after all of
      its cells, is row-major. */
  lemma RowMajorSnoc(a: seq<Cell>, b: seq<Cell>, c: Cell)
    requires RowMajor(a) && (b == [] || b == [c])
    requires forall x :: x in a ==> Before(x, c)
    ensures RowMajor(a + b)
  {
    RowMajorAppend(a, b);
  }

  /** A row-major list of cells above row `n` followed by a row-major list of cells
      of row `n` is row-major. */
  lemma RowMajorRows(a: seq<Cell>, b: seq<Cell>, n: int)
    requires RowMajor(a) && RowMajor(b)
    requires forall x :: x in a ==> x.row < n
    requires forall y :: y in b ==> y.row == n
    ensures RowMajor(a + b)
  {
    RowMajorAppend(a, b);
  }

  /** The lists contributed by one line, scanned left to right as row `row`. */
  function ScanLine(line: string, row: int): (m: MapInfo)
    ensures forall tag, c :: c in m.Get(tag) <==> c.row == row && 0 <= c.col < |line| && Marks(tag, line[c.col])
    ensures forall tag :: RowMajor(m.Get(tag))
    decreases |line|
  {
    if |line| == 0 then NoLists
    else
      var n := |line| - 1;
      var front := ScanLine(line[..n], row);
      var last := Classify(line[n], Cell(row, n));
      forall tag
        ensures RowMajor(front.Get(tag) + last.Get(tag))
      {
        RowMajorSnoc(front.Get(tag), last.Get(tag), Cell(row, n));
      }
      ScanLineStep(line, row, front, last);
      front.Append(last)
  }

  /** The cells of all but the last character and the cell of the last character
      together are the cells of the line. */
  lemma ScanLineStep(line: string, row: int, front: MapInfo, last: MapInfo)
    requires |line| > 0
    requires forall tag, c :: c in front.Get(tag) <==>
      c.row == row && 0 <= c.col < |line| - 1 && Marks(tag, line[..|line| - 1][c.col])
    requires forall tag :: last.Get(tag) == if Marks(tag, line[|line| - 1]) then [Cell(row, |line| - 1)] else []
    ensures forall tag, c :: c in front.Get(tag) + last.Get(tag) <==>
      c.row == row && 0 <= c.col < |line| && Marks(tag, line[c.col])
  {
    var n := |line| - 1;
    forall tag, c
      ensures c in front.Get(tag) + last.Get(tag) <==>
        c.row == row && 0 <= c.col < |line| && Marks(tag, line[c.col])
    {
      if 0 <= c.col < n {
        assert line[..n][c.col] == line[c.col];
      }
    }
  }

  /** The lists contributed by all lines, row by row (the `getline` loop). */
  function ScanLines(lines: seq<string>): (m: MapInfo)
    ensures forall tag, c :: c in m.Get(tag) <==>
      0 <= c.row < |lines| && 0 <= c.col < |lines[c.row]| && Marks(tag, lines[c.row][c.col])
    ensures forall tag :: RowMajor(m.Get(tag))
    decreases |lines|
  {
    if |lines| == 0 then NoLists
    else
      var n := |lines| - 1;
      var front := ScanLines(lines[..n]);
      var last := ScanLine(lines[n], n);
      forall tag
        ensures RowMajor(front.Get(tag) + last.Get(tag))
      {
        RowMajorRows(front.Get(tag), last.Get(tag), n);
      }
      ScanLinesStep(lines, front, last);
      front.Append(last)
  }

  /** The cells of the first `|lines| - 1` lines and those of the last line together
      are the cells of all lines. */
  lemma ScanLinesStep(lines: seq<string>, front: MapInfo, last: MapInfo)
    requires |lines| > 0
    requires forall tag, c :: c in front.Get(tag) <==>
      0 <= c.row < |lines| - 1 && 0 <= c.col < |lines[..|lines| - 1][c.row]| && Marks(tag, lines[..|lines| - 1][c.row][c.col])
    requires forall tag, c :: c in last.Get(tag) <==>
      c.row == |lines| - 1 && 0 <= c.col < |lines[|lines| - 1]| && Marks(tag, lines[|lines| - 1][c.col])
    ensures forall tag, c :: c in front.Get(tag) + last.Get(tag) <==>
      0 <= c.row < |lines| && 0 <= c.col < |lines[c.row]| && Marks(tag, lines[c.row][c.col])
  {
    var n := |lines| - 1;
    forall tag, c
      ensures c in front.Get(tag) + last.Get(tag) <==>
        0 <= c.row < |lines| && 0 <= c.col < |lines[c.row]| && Marks(tag, lines[c.row][c.col])
    {
      if 0 <= c.row < n {
        assert lines[..n][c.row] == lines[c.row];
      }
    }
  }

  /** Length of the longest line, 0 for no lines. */
  function MaxLength(lines: seq<string>): (w: nat)
    ensures forall i :: 0 <= i < |lines| ==> |lines[i]| <= w
    ensures |lines| == 0 ==> w == 0
    ensures |lines| > 0 ==> exists i :: 0 <= i < |lines| && |lines[i]| == w
    decreases |lines|
  {
    if |lines| == 0 then 0
    else
      var n := |lines| - 1;
      var w := MaxLength(lines[..n]);
      assert forall i :: 0 <= i < n ==> lines[..n][i] == lines[i];
      Max(w, |lines[n]|)
  }

  /** `Preprocessor::loadMap` minus the file handling and the trailing deadlock pass. */
  function LoadMap(lines: seq<string>): (b: Board)
    ensures b.WellFormed()
    ensures b.rows == |lines|
    ensures forall i :: 0 <= i < |lines| ==> |lines[i]| <= b.cols
    ensures b.cols == 0 || exists i :: 0 <= i < |lines| && |lines[i]| == b.cols
    ensures forall tag, c :: c in b.info.Get(tag) <==>
      0 <= c.row < |lines| && 0 <= c.col < |lines[c.row]| && Marks(tag, lines[c.row][c.col])
  {
    var info := ScanLines(lines);
    var b := Board(info, |lines|, MaxLength(lines));
    assert forall c :: c in info.walls ==> c !in info.walkable by {
      forall c | c in info.walls
        ensures c !in info.walkable
      {
        assert c in info.Get(Walls);
        assert lines[c.row][c.col] == WallSymbol;
        assert c !in info.Get(Walkable);
      }
    }
    assert forall tag, c :: c in info.Get(tag) ==> b.InGrid(c);
    b
  }

  /** `notWall` is exactly the negation of `isWall`. */
  lemma NotWallIsNotIsWall(b: Board, row: int, col: int)
    ensures b.NotWall(row, col) <==> !b.IsWall(row, col)
  {
  }

  /** The grid predicates are membership tests in the loaded lists, so a coordinate
      that no line reaches is neither a wall, nor walkable, nor a target. */
  lemma UnloadedIsNothing(lines: seq<string>, c: Cell)
    requires !(0 <= c.row < |lines| && 0 <= c.col < |lines[c.row]|)
    ensures var b := LoadMap(lines);
      !b.IsWall(c.row, c.col) && !b.IsWalkable(c.row, c.col) && !b.IsTarget(c.row, c.col)
  {
    var b := LoadMap(lines);
    assert c !in b.info.Get(Walls) && c !in b.info.Get(Walkable) && c !in b.info.Get(Targets);
  }

  /** A loaded coordinate is walkable exactly when it is not a wall. */
  lemma LoadedWalkableIffNotWall(lines: seq<string>, c: Cell)
    requires 0 <= c.row < |lines| && 0 <= c.col < |lines[c.row]|
    ensures var b := LoadMap(lines);
      b.IsWalkable(c.row, c.col) <==> b.NotWall(c.row, c.col)
  {
    var b := LoadMap(lines);
    assert c in b.info.Get(Walkable) <==> c !in b.info.Get(Walls);
  }

  /** No coordinate of a loaded board is both a wall and walkable. */
  lemma NeverWallAndWalkable(b: Board, row: int, col: int)
    requires b.WellFormed()
    ensures !(b.IsWall(row, col) && b.IsWalkable(row, col))
  {
  }
}
