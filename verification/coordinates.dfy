/** The shared grid library (src/lib/coordinates.rs): offsets between
    coordinates, bounded coordinate arithmetic, the neighbour iterator and
    row-major grid lookup. `usize` and `isize` are 64 bits wide. */
module Coordinates {
  import opened Wrappers

  const USIZE_MAX: int := 0xFFFF_FFFF_FFFF_FFFF
  const ISIZE_MAX: int := 0x7FFF_FFFF_FFFF_FFFF
  const ISIZE_MIN: int := -0x8000_0000_0000_0000

  datatype Offset = Offset(dx: int, dy: int) {
    predicate Valid() {
      ISIZE_MIN <= dx <= ISIZE_MAX && ISIZE_MIN <= dy <= ISIZE_MAX
    }
  }

  datatype Coordinate = Coordinate(x: nat, y: nat) {
    predicate Valid() {
      x <= USIZE_MAX && y <= USIZE_MAX
    }

    /** Both components convert to `isize`, as `sub` demands. */
    predicate Signed() {
      x <= ISIZE_MAX && y <= ISIZE_MAX
    }
  }

  /** `Coordinate - Coordinate`: the offset leading from `b` to `a`. The
      `try_into().unwrap()` conversions panic above `isize::MAX`. */
  function Sub(a: Coordinate, b: Coordinate): (r: Offset)
    requires a.Signed() && b.Signed()
    ensures r.Valid()
    ensures r.dx > ISIZE_MIN && r.dy > ISIZE_MIN
    ensures r == Offset(0, 0) <==> a == b
  {
    Offset(a.x - b.x, a.y - b.y)
  }

  /** One component of `Coordinate::offset`: `checked_add` of a
      non-negative `d`, `checked_sub` of `d.abs()` otherwise. `isize::MIN`
      has no positive absolute value: the wrapped `abs` fails the `usize`
      conversion, which makes the step `None`. */
  function Step(v: nat, d: int): (r: Option<nat>)
    requires v <= USIZE_MAX && ISIZE_MIN <= d <= ISIZE_MAX
    ensures r.Some? <==> (0 <= v + d <= USIZE_MAX && d != ISIZE_MIN)
    ensures r.Some? ==> r.value == v + d
  {
    if d >= 0 then (if v + d <= USIZE_MAX then Some(v + d) else None)
    else if d == ISIZE_MIN then None
    else if v >= -d then Some(v + d)
    else None
  }

  /** `Coordinate::offset`: `None` exactly when a component would leave
      `[0, usize::MAX]`. */
  function OffsetBy(c: Coordinate, o: Offset): (r: Option<Coordinate>)
    requires c.Valid() && o.Valid()
    ensures r.Some? <==> (&& 0 <= c.x + o.dx <= USIZE_MAX && 0 <= c.y + o.dy <= USIZE_MAX
                          && o.dx != ISIZE_MIN && o.dy != ISIZE_MIN)
    ensures r.Some? ==> r.value.Valid() && r.value.x == c.x + o.dx && r.value.y == c.y + o.dy
  {
    var x :- Step(c.x, o.dx);
    var y :- Step(c.y, o.dy);
    Some(Coordinate(x, y))
  }

  /** Offsetting `b` by `a - b` leads back to `a`. */
  lemma OffsetOfDifference(a: Coordinate, b: Coordinate)
    requires a.Signed() && b.Signed()
    ensures b.Valid() && OffsetBy(b, Sub(a, b)) == Some(a)
  {
  }

  /** An offset followed by the difference recovers it. */
  lemma DifferenceOfOffset(c: Coordinate, o: Offset)
    requires c.Valid() && o.Valid()
    requires OffsetBy(c, o).Some? && OffsetBy(c, o).value.Signed() && c.Signed()
    ensures Sub(OffsetBy(c, o).value, c) == o
  {
  }

  function AbsDiff(a: nat, b: nat): nat {
    if a >= b then a - b else b - a
  }

  /** `manhatten_distance`. */
  function Manhattan(a: Coordinate, b: Coordinate): (r: nat)
    ensures r == 0 <==> a == b
    ensures r >= AbsDiff(a.x, b.x) && r >= AbsDiff(a.y, b.y)
  {
    AbsDiff(a.x, b.x) + AbsDiff(a.y, b.y)
  }

  lemma ManhattanSymmetric(a: Coordinate, b: Coordinate)
    ensures Manhattan(a, b) == Manhattan(b, a)
  {
  }

  lemma ManhattanTriangle(a: Coordinate, b: Coordinate, c: Coordinate)
    ensures Manhattan(a, c) <= Manhattan(a, b) + Manhattan(b, c)
  {
  }

  /** The distance is the size of the difference offset. */
  lemma ManhattanOfSub(a: Coordinate, b: Coordinate)
    requires a.Signed() && b.Signed()
    ensures var o := Sub(a, b);
      Manhattan(a, b) == (if o.dx < 0 then -o.dx else o.dx) + (if o.dy < 0 then -o.dy else o.dy)
  {
  }

  // ---------------------------------------------------------------------
  // The neighbour iterator.
  // ---------------------------------------------------------------------

  /** The offsets `CoordinateIterator` tries, in order: the four straight
      ones, then the four diagonal ones. */
  function NeighbourOffset(k: nat): (o: Offset)
    requires k < 8
    ensures o.Valid() && -1 <= o.dx <= 1 && -1 <= o.dy <= 1 && o != Offset(0, 0)
    ensures k < 4 <==> (o.dx == 0 || o.dy == 0)
  {
    match k
    case 0 => Offset(-1, 0)
    case 1 => Offset(0, -1)
    case 2 => Offset(1, 0)
    case 3 => Offset(0, 1)
    case 4 => Offset(-1, -1)
    case 5 => Offset(-1, 1)
    case 6 => Offset(1, -1)
    case _ => Offset(1, 1)
  }

  function Limit(diagonal: bool): nat {
    if diagonal then 8 else 4
  }

  /** `CoordinateIterator::next` from position `i`: the next coordinate
      that exists and the position after it. */
  function Next(center: Coordinate, i: nat, diagonal: bool): (r: Option<(Coordinate, nat)>)
    requires center.Valid()
    ensures r.Some? ==> i < r.value.1 <= Limit(diagonal)
    ensures r.Some? ==> OffsetBy(center, NeighbourOffset(r.value.1 - 1)) == Some(r.value.0)
    ensures r.Some? ==> forall k | i <= k < r.value.1 - 1 :: OffsetBy(center, NeighbourOffset(k)).None?
    ensures r.None? ==> forall k | i <= k < Limit(diagonal) :: OffsetBy(center, NeighbourOffset(k)).None?
    decreases 8 - i
  {
    if !diagonal && i >= 4 then None
    else if i >= 8 then None
    else match OffsetBy(center, NeighbourOffset(i))
      case Some(n) => Some((n, i + 1))
      case None =>
        var rest := Next(center, i + 1, diagonal);
        assert OffsetBy(center, NeighbourOffset(i)).None?;
        rest
  }

  /** Everything the iterator yields from position `i` on. */
  function NeighboursFrom(center: Coordinate, i: nat, diagonal: bool): seq<Coordinate>
    requires center.Valid()
    decreases 8 - i
  {
    match Next(center, i, diagonal)
    case None => []
    case Some((n, j)) => [n] + NeighboursFrom(center, j, diagonal)
  }

  /** `center.iter(diagonal)`, collected. */
  function Neighbours(center: Coordinate, diagonal: bool): (r: seq<Coordinate>)
    requires center.Valid()
    ensures |r| <= Limit(diagonal)
    ensures center !in r
    ensures forall n | n in r :: Manhattan(center, n) == 1 || (diagonal && Manhattan(center, n) == 2)
  {
    NeighboursFromLanding(center, 0, diagonal);
    LandingReached(center, 0, Limit(diagonal));
    NeighboursFrom(center, 0, diagonal)
  }

  /** The reference: the offsets `k` in `[i, limit)` that land on a
      coordinate, in order. */
  function Landing(center: Coordinate, i: nat, limit: nat): seq<Coordinate>
    requires center.Valid() && limit <= 8
    decreases limit - i
  {
    if i >= limit then []
    else match OffsetBy(center, NeighbourOffset(i))
      case Some(n) => [n] + Landing(center, i + 1, limit)
      case None => Landing(center, i + 1, limit)
  }

  lemma {:induction false} NeighboursFromLanding(center: Coordinate, i: nat, diagonal: bool)
    requires center.Valid() && i <= Limit(diagonal)
    ensures NeighboursFrom(center, i, diagonal) == Landing(center, i, Limit(diagonal))
    decreases 8 - i
  {
    match Next(center, i, diagonal)
    case None =>
      LandingNone(center, i, Limit(diagonal));
    case Some((n, j)) =>
      NeighboursFromLanding(center, j, diagonal);
      LandingSkip(center, i, j - 1, Limit(diagonal));
  }

  /** No offset lands: nothing is yielded. */
  lemma {:induction false} LandingNone(center: Coordinate, i: nat, limit: nat)
    requires center.Valid() && limit <= 8
    requires forall k | i <= k < limit :: OffsetBy(center, NeighbourOffset(k)).None?
    ensures Landing(center, i, limit) == []
    decreases limit - i
  {
    if i < limit {
      LandingNone(center, i + 1, limit);
    }
  }

  /** Offsets before `k` that do not land are skipped. */
  lemma {:induction false} LandingSkip(center: Coordinate, i: nat, k: nat, limit: nat)
    requires center.Valid() && i <= k < limit <= 8
    requires OffsetBy(center, NeighbourOffset(k)).Some?
    requires forall m | i <= m < k :: OffsetBy(center, NeighbourOffset(m)).None?
    ensures Landing(center, i, limit) == [OffsetBy(center, NeighbourOffset(k)).value] + Landing(center, k + 1, limit)
    decreases k - i
  {
    if i < k {
      LandingSkip(center, i + 1, k, limit);
    }
  }

  /** Every coordinate yielded is one step from the centre, or two along a
      diagonal, and there is at most one per offset. */
  lemma {:induction false} LandingReached(center: Coordinate, i: nat, limit: nat)
    requires center.Valid() && limit <= 8
    ensures |Landing(center, i, limit)| + i <= limit || |Landing(center, i, limit)| == 0
    ensures center !in Landing(center, i, limit)
    ensures forall n | n in Landing(center, i, limit) ::
      Manhattan(center, n) == 1 || (limit > 4 && Manhattan(center, n) == 2)
    decreases limit - i
  {
    if i < limit {
      LandingReached(center, i + 1, limit);
      var o := NeighbourOffset(i);
      if OffsetBy(center, o).Some? {
        var n := OffsetBy(center, o).value;
        assert Manhattan(center, n) == (if o.dx == 0 then 0 else 1) + (if o.dy == 0 then 0 else 1);
      }
    }
  }

  /** The iterator yields exactly the neighbours that exist, in the listed
      order of offsets. */
  lemma NeighboursInOrder(center: Coordinate, diagonal: bool)
    requires center.Valid()
    ensures Neighbours(center, diagonal) == Landing(center, 0, Limit(diagonal))
  {
    NeighboursFromLanding(center, 0, diagonal);
  }

  // ---------------------------------------------------------------------
  // Grids.
  // ---------------------------------------------------------------------

  /** `Grid<T>`: rows of cells, indexed `[y][x]`. */
  type Grid<T> = seq<seq<T>>

  /** `Grid::get`. */
  function Get<T>(grid: Grid<T>, c: Coordinate): (r: Option<T>)
    ensures r.Some? <==> c.y < |grid| && c.x < |grid[c.y]|
    ensures r.Some? ==> r.value == grid[c.y][c.x]
  {
    if c.y < |grid| && c.x < |grid[c.y]| then Some(grid[c.y][c.x]) else None
  }

  /** `position`: the first index holding `item`. */
  function Position<T(==)>(row: seq<T>, item: T): (r: Option<nat>)
    ensures r.Some? <==> item in row
    ensures r.Some? ==> r.value < |row| && row[r.value] == item
    ensures r.Some? ==> forall x | 0 <= x < r.value :: row[x] != item
  {
    if |row| == 0 then None
    else if row[0] == item then Some(0)
    else match Position(row[1..], item)
      case None => None
      case Some(x) => Some(x + 1)
  }

  /** `Grid::find`, searching the rows from `y` on. */
  function FindFrom<T(==)>(grid: Grid<T>, item: T, y: nat): (r: Option<Coordinate>)
    requires y <= |grid|
    ensures r.Some? <==> exists y' | y <= y' < |grid| :: item in grid[y']
    ensures r.Some? ==> y <= r.value.y < |grid| && Get(grid, r.value) == Some(item)
    ensures r.Some? ==> forall y' | y <= y' < r.value.y :: item !in grid[y']
    ensures r.Some? ==> forall x | 0 <= x < r.value.x :: grid[r.value.y][x] != item
    decreases |grid| - y
  {
    if y == |grid| then None
    else match Position(grid[y], item)
      case Some(x) => Some(Coordinate(x, y))
      case None => FindFrom(grid, item, y + 1)
  }

  /** `Grid::find`: the first occurrence in row-major order. */
  function Find<T(==)>(grid: Grid<T>, item: T): (r: Option<Coordinate>)
    ensures r.Some? <==> exists y | 0 <= y < |grid| :: item in grid[y]
    ensures r.Some? ==> Get(grid, r.value) == Some(item)
    ensures r.Some? ==> forall c: Coordinate | Get(grid, c) == Some(item) ::
      r.value.y < c.y || (r.value.y == c.y && r.value.x <= c.x)
  {
    FindFrom(grid, item, 0)
  }
}
