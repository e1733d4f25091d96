/** Day 10, Pipe Maze (src/bin/day10.rs): compass directions, pipe pieces
    and the row scan that counts the cells enclosed by the loop. */
module Day10 {
  import opened Wrappers
  import opened Coordinates

  datatype Direction = North | East | South | West {
    /** `Direction::opposite`. */
    function Opposite(): (r: Direction)
      ensures r != this
    {
      match this
      case North => South
      case East => West
      case South => North
      case West => East
    }
  }

  /** `opposite` is an involution. */
  lemma OppositeInvolution(d: Direction)
    ensures d.Opposite().Opposite() == d
    ensures d.Opposite() != d
  {
  }

  /** One step along one axis. */
  predicate UnitStep(o: Offset) {
    -1 <= o.dx <= 1 && -1 <= o.dy <= 1 && (o.dx == 0) != (o.dy == 0)
  }

  /** `Offset::from(Direction)`: north is up, so `dy` is `-1`. */
  function ToOffset(d: Direction): (o: Offset)
    ensures UnitStep(o)
  {
    match d
    case North => Offset(0, -1)
    case East => Offset(1, 0)
    case South => Offset(0, 1)
    case West => Offset(-1, 0)
  }

  /** `Direction::try_from(Offset)`: only the four unit steps convert. */
  function FromOffset(o: Offset): (r: Result<Direction, string>)
    ensures r.Ok? <==> UnitStep(o)
  {
    match o
    case Offset(0, -1) => Ok(North)
    case Offset(1, 0) => Ok(East)
    case Offset(0, 1) => Ok(South)
    case Offset(-1, 0) => Ok(West)
    case _ => Err("cannot convert offset to direction")
  }

  /** The two conversions are mutually inverse on the four directions. */
  lemma DirectionRoundTrip(d: Direction)
    ensures FromOffset(ToOffset(d)) == Ok(d)
  {
  }

  lemma OffsetRoundTrip(o: Offset)
    requires UnitStep(o)
    ensures ToOffset(FromOffset(o).value) == o
  {
    if o.dx == 0 {
      assert o.dy == -1 || o.dy == 1;
    } else {
      assert o.dy == 0 && (o.dx == -1 || o.dx == 1);
    }
  }

  /** Opposite directions are opposite offsets. */
  lemma OppositeOffset(d: Direction)
    ensures ToOffset(d.Opposite()) == Offset(-ToOffset(d).dx, -ToOffset(d).dy)
  {
  }

  datatype Node = Empty | Path(x: Direction, y: Direction) | Start

  /** `Node::walk`: entering a pipe while moving in `direction`, the
      direction one leaves it in. One enters the end `x` while moving
      towards `x.opposite()`. */
  function Walk(node: Node, direction: Direction): (r: Option<Direction>)
    ensures node.Empty? || node.Start? ==> r.None?
    ensures r.Some? <==> node.Path? && (direction == node.x.Opposite() || direction == node.y.Opposite())
    ensures r.Some? ==> r.value == node.x || r.value == node.y
  {
    match node
    case Empty => None
    case Start => None
    case Path(x, y) =>
      if x.Opposite() == direction then Some(y)
      else if y.Opposite() == direction then Some(x)
      else None
  }

  /** Every pipe can be walked back the way it was walked in. */
  lemma WalkReversible(node: Node, d: Direction)
    requires Walk(node, d).Some?
    ensures Walk(node, Walk(node, d).value.Opposite()) == Some(d.Opposite())
  {
  }

  /** Entering at one end leaves through the other. */
  lemma WalkThrough(x: Direction, y: Direction)
    requires x != y
    ensures Walk(Path(x, y), x.Opposite()) == Some(y)
    ensures Walk(Path(x, y), y.Opposite()) == Some(x)
    ensures forall d | d != x.Opposite() && d != y.Opposite() :: Walk(Path(x, y), d).None?
  {
  }

  /** The characters of the maze map. */
  function ParseNode(c: char): (r: Option<Node>)
    ensures r.Some? <==> c in "|-LJ7F.S"
    ensures r.Some? && r.value.Path? ==> r.value.x != r.value.y
  {
    match c
    case '|' => Some(Path(North, South))
    case '-' => Some(Path(West, East))
    case 'L' => Some(Path(North, East))
    case 'J' => Some(Path(North, West))
    case '7' => Some(Path(South, West))
    case 'F' => Some(Path(South, East))
    case '.' => Some(Empty)
    case 'S' => Some(Start)
    case _ => None
  }

  /** Different characters are different pieces. */
  lemma ParseNodeInjective(c: char, d: char)
    requires ParseNode(c).Some? && ParseNode(d).Some? && c != d
    ensures ParseNode(c) != ParseNode(d)
  {
  }

  /** Every pair of distinct directions, in some order, is a piece. */
  lemma ParseNodeCovers(x: Direction, y: Direction)
    requires x != y
    ensures exists e | e in "|-LJ7F" :: ParseNode(e) == Some(Path(x, y)) || ParseNode(e) == Some(Path(y, x))
  {
    var e := match (x, y)
      case (North, South) => '|' case (South, North) => '|'
      case (West, East) => '-' case (East, West) => '-'
      case (North, East) => 'L' case (East, North) => 'L'
      case (North, West) => 'J' case (West, North) => 'J'
      case (South, West) => '7' case (West, South) => '7'
      case _ => 'F';
    assert e in "|-LJ7F";
  }

  /** `Maze::start_point`. */
  function StartPoint(maze: Grid<Node>): (r: Option<Coordinate>)
    ensures r.Some? ==> Get(maze, r.value) == Some(Start)
    ensures r.None? ==> forall c: Coordinate :: Get(maze, c) != Some(Start)
  {
    Find(maze, Start)
  }

  // ---------------------------------------------------------------------
  // Counting enclosed cells.
  // ---------------------------------------------------------------------

  /** `directions[index]` is in bounds for every grid cell found on the
      path, as `count_enclosed` needs. */
  predicate DirectionsCover(maze: Grid<Node>, path: seq<Coordinate>, directions: seq<Direction>) {
    forall y, x | 0 <= y < |maze| && 0 <= x < |maze[y]| ::
      Position(path, Coordinate(x, y)).Some? ==> Position(path, Coordinate(x, y)).value < |directions|
  }

  /** The pieces the scan treats as crossing the row: those with an end
      pointing south. */
  predicate TouchesSouth(node: Node) {
    node.Path? && (node.y == South || node.x == South)
  }

  /** How a cell changes the winding count of its row: a path cell with a
      southern end adds one if the path was heading north when it reached
      the cell, and takes one away otherwise. */
  function Contribution(maze: Grid<Node>, path: seq<Coordinate>, directions: seq<Direction>,
                        x: nat, y: nat): int
    requires DirectionsCover(maze, path, directions)
    requires y < |maze| && x < |maze[y]|
  {
    match Position(path, Coordinate(x, y))
    case None => 0
    case Some(index) =>
      if !TouchesSouth(maze[y][x]) then 0
      else if directions[index] == North then 1
      else -1
  }

  /** The winding count of row `y` just before column `x`. */
  function Winding(maze: Grid<Node>, path: seq<Coordinate>, directions: seq<Direction>,
                   x: nat, y: nat): int
    requires DirectionsCover(maze, path, directions)
    requires y < |maze| && x <= |maze[y]|
  {
    if x == 0 then 0
    else Winding(maze, path, directions, x - 1, y) + Contribution(maze, path, directions, x - 1, y)
  }

  /** A cell is enclosed when it is off the path and the winding count
      before it is non-zero. */
  predicate Enclosed(maze: Grid<Node>, path: seq<Coordinate>, directions: seq<Direction>,
                     x: nat, y: nat)
    requires DirectionsCover(maze, path, directions)
    requires y < |maze| && x < |maze[y]|
  {
    Coordinate(x, y) !in path && Winding(maze, path, directions, x, y) != 0
  }

  /** The enclosed cells of row `y` before column `x`. */
  function EnclosedInRow(maze: Grid<Node>, path: seq<Coordinate>, directions: seq<Direction>,
                         x: nat, y: nat): nat
    requires DirectionsCover(maze, path, directions)
    requires y < |maze| && x <= |maze[y]|
  {
    if x == 0 then 0
    else EnclosedInRow(maze, path, directions, x - 1, y)
         + (if Enclosed(maze, path, directions, x - 1, y) then 1 else 0)
  }

  /** The enclosed cells of the rows before `y`. */
  function EnclosedBefore(maze: Grid<Node>, path: seq<Coordinate>, directions: seq<Direction>,
                          y: nat): nat
    requires DirectionsCover(maze, path, directions)
    requires y <= |maze|
  {
    if y == 0 then 0
    else EnclosedBefore(maze, path, directions, y - 1)
         + EnclosedInRow(maze, path, directions, |maze[y - 1]|, y - 1)
  }

  /** The cells of row `y` before column `x` that are off the path. */
  function OffPathInRow(maze: Grid<Node>, path: seq<Coordinate>, x: nat, y: nat): nat
    requires y < |maze| && x <= |maze[y]|
  {
    if x == 0 then 0
    else OffPathInRow(maze, path, x - 1, y) + (if Coordinate(x - 1, y) in path then 0 else 1)
  }

  /** The cells of the rows before `y` that are off the path. */
  function OffPathBefore(maze: Grid<Node>, path: seq<Coordinate>, y: nat): nat
    requires y <= |maze|
  {
    if y == 0 then 0
    else OffPathBefore(maze, path, y - 1) + OffPathInRow(maze, path, |maze[y - 1]|, y - 1)
  }

  /** `Maze::count_enclosed`: a row-by-row scan keeping the winding count
      `num` of the current row. The count is exactly the number of cells
      off the path with a non-zero winding count before them. */
  method CountEnclosed(maze: Grid<Node>, path: seq<Coordinate>, directions: seq<Direction>)
    returns (count: nat)
    requires DirectionsCover(maze, path, directions)
    ensures count == EnclosedBefore(maze, path, directions, |maze|)
    ensures count <= OffPathBefore(maze, path, |maze|)
  {
    count := 0;
    var y := 0;
    while y < |maze|
      invariant 0 <= y <= |maze|
      invariant count == EnclosedBefore(maze, path, directions, y)
    {
      var num := 0;
      var x := 0;
      while x < |maze[y]|
        invariant 0 <= x <= |maze[y]|
        invariant num == Winding(maze, path, directions, x, y)
        invariant count == EnclosedBefore(maze, path, directions, y) + EnclosedInRow(maze, path, directions, x, y)
      {
        match Position(path, Coordinate(x, y)) {
          case Some(index) =>
            var dir := directions[index];
            var node := Get(maze, path[index]).Extract();
            if TouchesSouth(node) {
              if dir == North {
                num := num + 1;
              } else {
                num := num - 1;
              }
            }
          case None =>
            if num != 0 {
              count := count + 1;
            }
        }
        x := x + 1;
      }
      y := y + 1;
    }
    EnclosedAtMostOffPath(maze, path, directions, |maze|);
  }

  lemma {:induction false} EnclosedInRowAtMostOffPath(maze: Grid<Node>, path: seq<Coordinate>,
                                                      directions: seq<Direction>, x: nat, y: nat)
    requires DirectionsCover(maze, path, directions)
    requires y < |maze| && x <= |maze[y]|
    ensures EnclosedInRow(maze, path, directions, x, y) <= OffPathInRow(maze, path, x, y)
  {
    if x > 0 {
      EnclosedInRowAtMostOffPath(maze, path, directions, x - 1, y);
    }
  }

  /** Path cells are never counted: the count is at most the number of
      cells off the path. */
  lemma {:induction false} EnclosedAtMostOffPath(maze: Grid<Node>, path: seq<Coordinate>,
                                                 directions: seq<Direction>, y: nat)
    requires DirectionsCover(maze, path, directions)
    requires y <= |maze|
    ensures EnclosedBefore(maze, path, directions, y) <= OffPathBefore(maze, path, y)
  {
    if y > 0 {
      EnclosedAtMostOffPath(maze, path, directions, y - 1);
      EnclosedInRowAtMostOffPath(maze, path, directions, |maze[y - 1]|, y - 1);
    }
  }

  /** A row the path never crosses southwards encloses nothing. */
  lemma {:induction false} NoCrossingNoneEnclosed(maze: Grid<Node>, path: seq<Coordinate>,
                                                  directions: seq<Direction>, x: nat, y: nat)
    requires DirectionsCover(maze, path, directions)
    requires y < |maze| && x <= |maze[y]|
    requires forall x' | 0 <= x' < |maze[y]| :: !TouchesSouth(maze[y][x'])
    ensures Winding(maze, path, directions, x, y) == 0
    ensures EnclosedInRow(maze, path, directions, x, y) == 0
  {
    if x > 0 {
      NoCrossingNoneEnclosed(maze, path, directions, x - 1, y);
    }
  }
}
