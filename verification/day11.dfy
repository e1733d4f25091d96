/** Day 11, Cosmic Expansion (src/bin/day11.rs): distances between
    galaxies when every empty row and column is widened. */
module Day11 {
  import opened Wrappers
  import opened Coordinates

  /** The galaxies in reading order, with the empty columns and rows
      found by `parse`. */
  datatype Galaxies = Galaxies(galaxies: seq<Coordinate>, emptyColumns: seq<nat>, emptyRows: seq<nat>)

  function Min(a: nat, b: nat): nat { if a <= b then a else b }

  function Max(a: nat, b: nat): nat { if a >= b then a else b }

  /** The number of indices in `[lo, end)` listed in `empties`. */
  function CountRange(lo: nat, end: nat, empties: seq<nat>): (r: nat)
    ensures r <= if lo <= end then end - lo else 0
    ensures r == 0 <==> forall k | lo <= k < end :: k !in empties
    decreases end - lo
  {
    if lo >= end then 0
    else (if lo in empties then 1 else 0) + CountRange(lo + 1, end, empties)
  }

  /** `num_empty_cols_rows_between_coords`: the empty columns in the
      inclusive span of the two `x`s plus the empty rows in the inclusive
      span of the two `y`s. */
  function NumEmptyBetween(g: Galaxies, from: Coordinate, to: Coordinate): (r: nat)
    ensures r == 0 <==>
      (forall k | Min(from.x, to.x) <= k <= Max(from.x, to.x) :: k !in g.emptyColumns) &&
      (forall k | Min(from.y, to.y) <= k <= Max(from.y, to.y) :: k !in g.emptyRows)
    ensures r <= Manhattan(from, to) + 2
  {
    CountRange(Min(from.x, to.x), Max(from.x, to.x) + 1, g.emptyColumns)
    + CountRange(Min(from.y, to.y), Max(from.y, to.y) + 1, g.emptyRows)
  }

  /** The count does not depend on the order of the two galaxies. */
  lemma NumEmptySymmetric(g: Galaxies, a: Coordinate, b: Coordinate)
    ensures NumEmptyBetween(g, a, b) == NumEmptyBetween(g, b, a)
  {
  }

  /** The distance between two galaxies once every empty row and column
      between them is `multiplier` wide. */
  function PairDistance(g: Galaxies, a: Coordinate, b: Coordinate, multiplier: nat): (r: nat)
    requires multiplier >= 1
    ensures r >= Manhattan(a, b)
    ensures multiplier == 1 ==> r == Manhattan(a, b)
  {
    var n := NumEmptyBetween(g, a, b);
    MulNat(n, multiplier - 1);
    Manhattan(a, b) + n * (multiplier - 1)
  }

  lemma MulNat(x: nat, y: nat)
    ensures x * y >= 0 && (y == 0 ==> x * y == 0)
  {
  }

  /** `dist` summed over every unordered pair of entries, in the order of
      `tuple_combinations`: the first entry with each later one, then the
      pairs among the rest. */
  function PairSum(gs: seq<Coordinate>, dist: (Coordinate, Coordinate) -> nat): nat {
    if |gs| == 0 then 0 else FirstWithRest(gs[0], gs[1..], dist) + PairSum(gs[1..], dist)
  }

  function FirstWithRest(x: Coordinate, rest: seq<Coordinate>, dist: (Coordinate, Coordinate) -> nat): nat {
    if |rest| == 0 then 0 else dist(x, rest[0]) + FirstWithRest(x, rest[1..], dist)
  }

  /** `Galaxies::sum_of_pair_distances`. A `multiplier` of 0 underflows
      `multiplier - 1`. */
  function SumOfPairDistances(g: Galaxies, multiplier: nat): nat
    requires multiplier >= 1
  {
    PairSum(g.galaxies, (a, b) => PairDistance(g, a, b, multiplier))
  }

  /** Pointwise smaller distances give a smaller sum. */
  lemma {:induction false} FirstWithRestMono(x: Coordinate, rest: seq<Coordinate>,
                                             f: (Coordinate, Coordinate) -> nat, h: (Coordinate, Coordinate) -> nat)
    requires forall j | 0 <= j < |rest| :: f(x, rest[j]) <= h(x, rest[j])
    ensures FirstWithRest(x, rest, f) <= FirstWithRest(x, rest, h)
    ensures (forall j | 0 <= j < |rest| :: f(x, rest[j]) == h(x, rest[j])) ==>
      FirstWithRest(x, rest, f) == FirstWithRest(x, rest, h)
  {
    if |rest| > 0 {
      assert forall j | 1 <= j < |rest| :: rest[1..][j - 1] == rest[j];
      FirstWithRestMono(x, rest[1..], f, h);
    }
  }

  lemma {:induction false} PairSumMono(gs: seq<Coordinate>, f: (Coordinate, Coordinate) -> nat, h: (Coordinate, Coordinate) -> nat)
    requires forall i, j | 0 <= i < j < |gs| :: f(gs[i], gs[j]) <= h(gs[i], gs[j])
    ensures PairSum(gs, f) <= PairSum(gs, h)
    ensures (forall i, j | 0 <= i < j < |gs| :: f(gs[i], gs[j]) == h(gs[i], gs[j])) ==>
      PairSum(gs, f) == PairSum(gs, h)
  {
    if |gs| > 0 {
      var rest := gs[1..];
      assert forall j | 0 <= j < |rest| :: rest[j] == gs[j + 1];
      FirstWithRestMono(gs[0], rest, f, h);
      PairSumMono(rest, f, h);
    }
  }

  /** With no expansion the sum is the plain Manhattan sum over pairs. */
  lemma NoExpansion(g: Galaxies)
    ensures SumOfPairDistances(g, 1) == PairSum(g.galaxies, Manhattan)
  {
    var f := (a, b) => PairDistance(g, a, b, 1);
    PairSumMono(g.galaxies, f, Manhattan);
    PairSumMono(g.galaxies, Manhattan, f);
  }

  /** A wider expansion never brings galaxies closer. */
  lemma ExpansionMonotone(g: Galaxies, m1: nat, m2: nat)
    requires 1 <= m1 <= m2
    ensures SumOfPairDistances(g, m1) <= SumOfPairDistances(g, m2)
  {
    var f := (a, b) => PairDistance(g, a, b, m1);
    var h := (a, b) => PairDistance(g, a, b, m2);
    forall a, b ensures f(a, b) <= h(a, b) {
      MulMono(NumEmptyBetween(g, a, b), m1 - 1, m2 - 1);
    }
    PairSumMono(g.galaxies, f, h);
  }

  lemma MulMono(k: nat, a: nat, b: nat)
    requires a <= b
    ensures k * a <= k * b
  {
  }

  // ---------------------------------------------------------------------
  // The expanded universe.
  // ---------------------------------------------------------------------

  /** The position of `c` once each empty column left of it and each empty
      row above it is `multiplier` wide. */
  function Expand(g: Galaxies, c: Coordinate, multiplier: nat): Coordinate
    requires multiplier >= 1
  {
    Coordinate(c.x + (multiplier - 1) * CountRange(0, c.x, g.emptyColumns),
               c.y + (multiplier - 1) * CountRange(0, c.y, g.emptyRows))
  }

  /** No galaxy lies in a listed empty column or row. */
  predicate Separated(g: Galaxies) {
    forall k | 0 <= k < |g.galaxies| ::
      g.galaxies[k].x !in g.emptyColumns && g.galaxies[k].y !in g.emptyRows
  }

  lemma {:induction false} CountSplit(lo: nat, mid: nat, end: nat, empties: seq<nat>)
    requires lo <= mid <= end
    ensures CountRange(lo, end, empties) == CountRange(lo, mid, empties) + CountRange(mid, end, empties)
    decreases mid - lo
  {
    if lo < mid {
      CountSplit(lo + 1, mid, end, empties);
    }
  }

  /** Between two non-empty indices, the inclusive count is the difference
      of the counts below them. */
  lemma SpanCount(a: nat, b: nat, empties: seq<nat>)
    requires a <= b && b !in empties
    ensures CountRange(a, b + 1, empties) == CountRange(0, b, empties) - CountRange(0, a, empties)
  {
    CountSplit(0, a, b, empties);
    CountSplit(a, b, b + 1, empties);
  }

  /** One axis of the expansion: the expanded gap is the gap plus the
      widening of the empty lines in the inclusive span. */
  lemma AxisGap(a: nat, b: nat, empties: seq<nat>, m: nat)
    requires a !in empties && b !in empties && m >= 1
    ensures AbsDiff(a + (m - 1) * CountRange(0, a, empties), b + (m - 1) * CountRange(0, b, empties))
         == AbsDiff(a, b) + CountRange(Min(a, b), Max(a, b) + 1, empties) * (m - 1)
  {
    if a <= b {
      SpanCount(a, b, empties);
      MulSub(m - 1, CountRange(0, b, empties), CountRange(0, a, empties));
    } else {
      SpanCount(b, a, empties);
      MulSub(m - 1, CountRange(0, a, empties), CountRange(0, b, empties));
    }
  }

  lemma MulSub(k: nat, x: nat, y: nat)
    requires y <= x
    ensures k * x - k * y == (x - y) * k && k * y <= k * x
  {
  }

  /** The distance `sum_of_pair_distances` adds up is the Manhattan
      distance in the expanded universe. */
  lemma PairDistanceExpanded(g: Galaxies, a: Coordinate, b: Coordinate, m: nat)
    requires m >= 1
    requires a.x !in g.emptyColumns && b.x !in g.emptyColumns
    requires a.y !in g.emptyRows && b.y !in g.emptyRows
    ensures PairDistance(g, a, b, m) == Manhattan(Expand(g, a, m), Expand(g, b, m))
  {
    ExpandedManhattan(g, a, b, m);
    assert PairDistance(g, a, b, m) == Manhattan(a, b) + NumEmptyBetween(g, a, b) * (m - 1);
  }

  /** Both axes together: the expanded distance is the plain one plus the
      widening of every empty line in the two spans. */
  lemma ExpandedManhattan(g: Galaxies, a: Coordinate, b: Coordinate, m: nat)
    requires m >= 1
    requires a.x !in g.emptyColumns && b.x !in g.emptyColumns
    requires a.y !in g.emptyRows && b.y !in g.emptyRows
    ensures Manhattan(Expand(g, a, m), Expand(g, b, m)) == Manhattan(a, b) + NumEmptyBetween(g, a, b) * (m - 1)
  {
    var cx := CountRange(Min(a.x, b.x), Max(a.x, b.x) + 1, g.emptyColumns);
    var cy := CountRange(Min(a.y, b.y), Max(a.y, b.y) + 1, g.emptyRows);
    var ea := Expand(g, a, m);
    var eb := Expand(g, b, m);
    ExpandedColumns(g, a, b, m);
    ExpandedRows(g, a, b, m);
    assert NumEmptyBetween(g, a, b) == cx + cy;
    SumGaps(AbsDiff(a.x, b.x), AbsDiff(a.y, b.y), cx, cy, m - 1);
  }

  lemma ExpandedColumns(g: Galaxies, a: Coordinate, b: Coordinate, m: nat)
    requires m >= 1 && a.x !in g.emptyColumns && b.x !in g.emptyColumns
    ensures AbsDiff(Expand(g, a, m).x, Expand(g, b, m).x)
         == AbsDiff(a.x, b.x) + CountRange(Min(a.x, b.x), Max(a.x, b.x) + 1, g.emptyColumns) * (m - 1)
  {
    AxisGap(a.x, b.x, g.emptyColumns, m);
  }

  lemma ExpandedRows(g: Galaxies, a: Coordinate, b: Coordinate, m: nat)
    requires m >= 1 && a.y !in g.emptyRows && b.y !in g.emptyRows
    ensures AbsDiff(Expand(g, a, m).y, Expand(g, b, m).y)
         == AbsDiff(a.y, b.y) + CountRange(Min(a.y, b.y), Max(a.y, b.y) + 1, g.emptyRows) * (m - 1)
  {
    AxisGap(a.y, b.y, g.emptyRows, m);
  }

  lemma SumGaps(dx: nat, dy: nat, cx: nat, cy: nat, k: nat)
    ensures (dx + cx * k) + (dy + cy * k) == (dx + dy) + (cx + cy) * k
  {
  }

  function ExpandAll(g: Galaxies, m: nat): (r: seq<Coordinate>)
    requires m >= 1
    ensures |r| == |g.galaxies| && forall k | 0 <= k < |r| :: r[k] == Expand(g, g.galaxies[k], m)
  {
    seq(|g.galaxies|, k requires 0 <= k < |g.galaxies| => Expand(g, g.galaxies[k], m))
  }

  /** The sum of expanded distances is the plain Manhattan sum over the
      galaxies moved to their expanded positions. */
  lemma SumIsExpandedManhattan(g: Galaxies, m: nat)
    requires m >= 1 && Separated(g)
    ensures SumOfPairDistances(g, m) == PairSum(ExpandAll(g, m), Manhattan)
  {
    var gs := g.galaxies;
    var f := (a, b) => PairDistance(g, a, b, m);
    var h := (a, b) => Manhattan(Expand(g, a, m), Expand(g, b, m));
    forall i, j | 0 <= i < j < |gs| ensures f(gs[i], gs[j]) == h(gs[i], gs[j]) {
      PairDistanceExpanded(g, gs[i], gs[j], m);
    }
    PairSumMono(gs, f, h);
    PairSumMono(gs, h, f);
    assert SumOfPairDistances(g, m) == PairSum(gs, h);
    PairSumMapped(gs, g, m);
    assert ExpandAll(g, m) == seq(|gs|, k requires 0 <= k < |gs| => Expand(g, gs[k], m));
  }

  /** Summing a distance of the expanded positions is summing Manhattan
      over the expanded sequence. */
  lemma {:induction false} PairSumMapped(gs: seq<Coordinate>, g: Galaxies, m: nat)
    requires m >= 1
    ensures PairSum(gs, (a, b) => Manhattan(Expand(g, a, m), Expand(g, b, m)))
         == PairSum(seq(|gs|, k requires 0 <= k < |gs| => Expand(g, gs[k], m)), Manhattan)
  {
    var h := (a, b) => Manhattan(Expand(g, a, m), Expand(g, b, m));
    var e := seq(|gs|, k requires 0 <= k < |gs| => Expand(g, gs[k], m));
    if |gs| > 0 {
      var e' := seq(|gs[1..]|, k requires 0 <= k < |gs[1..]| => Expand(g, gs[1..][k], m));
      assert e[1..] == e';
      FirstWithRestMapped(gs[0], gs[1..], g, m);
      PairSumMapped(gs[1..], g, m);
    }
  }

  lemma {:induction false} FirstWithRestMapped(x: Coordinate, rest: seq<Coordinate>, g: Galaxies, m: nat)
    requires m >= 1
    ensures FirstWithRest(x, rest, (a, b) => Manhattan(Expand(g, a, m), Expand(g, b, m)))
         == FirstWithRest(Expand(g, x, m), seq(|rest|, k requires 0 <= k < |rest| => Expand(g, rest[k], m)), Manhattan)
  {
    var e := seq(|rest|, k requires 0 <= k < |rest| => Expand(g, rest[k], m));
    if |rest| > 0 {
      var e' := seq(|rest[1..]|, k requires 0 <= k < |rest[1..]| => Expand(g, rest[1..][k], m));
      assert e[1..] == e';
      FirstWithRestMapped(x, rest[1..], g, m);
    }
  }

  // ---------------------------------------------------------------------
  // Parsing.
  // ---------------------------------------------------------------------

  /** The galaxies of `line` (row `y`) from column `x` on, left to right. */
  function RowGalaxies(line: string, y: nat, x: nat): (r: seq<Coordinate>)
    requires x <= |line|
    ensures forall k | 0 <= k < |r| :: r[k].y == y && x <= r[k].x < |line| && line[r[k].x] == '#'
    ensures forall j | x <= j < |line| && line[j] == '#' :: Coordinate(j, y) in r
    ensures forall k, l | 0 <= k < l < |r| :: r[k].x < r[l].x
    decreases |line| - x
  {
    if x == |line| then []
    else if line[x] == '#' then
      var rest := RowGalaxies(line, y, x + 1);
      assert forall k | 0 < k < |rest| + 1 :: ([Coordinate(x, y)] + rest)[k] == rest[k - 1];
      [Coordinate(x, y)] + rest
    else RowGalaxies(line, y, x + 1)
  }

  /** The galaxies of the lines from row `y` on, in reading order. */
  function GalaxiesFrom(lines: seq<string>, y: nat): (r: seq<Coordinate>)
    requires y <= |lines|
    ensures forall k | 0 <= k < |r| ::
      y <= r[k].y < |lines| && r[k].x < |lines[r[k].y]| && lines[r[k].y][r[k].x] == '#'
    ensures forall i, j | y <= i < |lines| && 0 <= j < |lines[i]| && lines[i][j] == '#' :: Coordinate(j, i) in r
    decreases |lines| - y
  {
    if y == |lines| then [] else RowGalaxies(lines[y], y, 0) + GalaxiesFrom(lines, y + 1)
  }

  /** Coordinate `a` comes before `b` in reading order. */
  predicate ReadsBefore(a: Coordinate, b: Coordinate) {
    a.y < b.y || (a.y == b.y && a.x < b.x)
  }

  /** The galaxies are listed in reading order: by row, then by column. */
  lemma {:induction false} GalaxiesInReadingOrder(lines: seq<string>, y: nat)
    requires y <= |lines|
    ensures forall k, l | 0 <= k < l < |GalaxiesFrom(lines, y)| ::
      ReadsBefore(GalaxiesFrom(lines, y)[k], GalaxiesFrom(lines, y)[l])
    decreases |lines| - y
  {
    if y < |lines| {
      var row := RowGalaxies(lines[y], y, 0);
      var rest := GalaxiesFrom(lines, y + 1);
      GalaxiesInReadingOrder(lines, y + 1);
      var r := row + rest;
      assert GalaxiesFrom(lines, y) == r;
      forall k, l | 0 <= k < l < |r| ensures ReadsBefore(r[k], r[l]) {
        if l < |row| {
          assert r[k] == row[k] && r[l] == row[l];
          assert row[k].y == y == row[l].y && row[k].x < row[l].x;
        } else if k < |row| {
          assert r[k] == row[k] && r[l] == rest[l - |row|];
          assert row[k].y == y < rest[l - |row|].y;
        } else {
          assert r[k] == rest[k - |row|] && r[l] == rest[l - |row|];
          assert ReadsBefore(rest[k - |row|], rest[l - |row|]);
        }
      }
    }
  }

  /** The largest of the chosen components, with a witness. */
  function MaxComponent(gs: seq<Coordinate>, byX: bool): (r: nat)
    requires |gs| > 0
    ensures forall k | 0 <= k < |gs| :: (if byX then gs[k].x else gs[k].y) <= r
    ensures exists k | 0 <= k < |gs| :: (if byX then gs[k].x else gs[k].y) == r
  {
    var v := if byX then gs[0].x else gs[0].y;
    if |gs| == 1 then v
    else
      var rest := MaxComponent(gs[1..], byX);
      assert forall k | 1 <= k < |gs| :: gs[k] == gs[1..][k - 1];
      Max(v, rest)
  }

  /** No galaxy has `k` as its chosen component. */
  predicate Unused(gs: seq<Coordinate>, k: nat, byX: bool) {
    forall i | 0 <= i < |gs| :: (if byX then gs[i].x else gs[i].y) != k
  }

  /** The indices in `[lo, end)` that no galaxy uses, ascending. */
  function EmptyLines(gs: seq<Coordinate>, lo: nat, end: nat, byX: bool): (r: seq<nat>)
    ensures forall k :: k in r <==> lo <= k < end && Unused(gs, k, byX)
    ensures forall i, j | 0 <= i < j < |r| :: r[i] < r[j]
    decreases end - lo
  {
    if lo >= end then []
    else
      var rest := EmptyLines(gs, lo + 1, end, byX);
      assert forall i | 0 <= i < |rest| :: rest[i] in rest;
      if Unused(gs, lo, byX) then [lo] + rest else rest
  }

  /** Below the largest component plus one is at most some component. */
  lemma BelowWidth(gs: seq<Coordinate>, byX: bool, k: nat)
    requires |gs| > 0
    ensures k < MaxComponent(gs, byX) + 1 <==>
      exists i | 0 <= i < |gs| :: k <= (if byX then gs[i].x else gs[i].y)
  {
    var w := MaxComponent(gs, byX);
    var i :| 0 <= i < |gs| && (if byX then gs[i].x else gs[i].y) == w;
    if k < w + 1 {
      assert k <= (if byX then gs[i].x else gs[i].y);
    }
  }

  /** The lines hold a galaxy exactly when some line has a `#`. */
  lemma SomeGalaxy(lines: seq<string>)
    ensures |GalaxiesFrom(lines, 0)| == 0 <==>
      forall i, j | 0 <= i < |lines| && 0 <= j < |lines[i]| :: lines[i][j] != '#'
  {
    var gs := GalaxiesFrom(lines, 0);
    if |gs| > 0 {
      assert lines[gs[0].y][gs[0].x] == '#';
    }
  }

  /** The empty lines found below the width are exactly the unused indices
      up to the largest component. */
  lemma EmptyLinesBelowWidth(gs: seq<Coordinate>, byX: bool)
    requires |gs| > 0
    ensures forall k: nat :: k in EmptyLines(gs, 0, MaxComponent(gs, byX) + 1, byX) <==>
      (exists i | 0 <= i < |gs| :: k <= (if byX then gs[i].x else gs[i].y)) && Unused(gs, k, byX)
  {
    forall k: nat ensures k in EmptyLines(gs, 0, MaxComponent(gs, byX) + 1, byX) <==>
      (exists i | 0 <= i < |gs| :: k <= (if byX then gs[i].x else gs[i].y)) && Unused(gs, k, byX)
    {
      BelowWidth(gs, byX, k);
    }
  }

  /** No galaxy lies on a line `EmptyLines` lists. */
  lemma EmptyLinesSeparate(gs: seq<Coordinate>, end: nat, byX: bool, k: nat)
    requires k < |gs|
    ensures (if byX then gs[k].x else gs[k].y) !in EmptyLines(gs, 0, end, byX)
  {
    assert !Unused(gs, if byX then gs[k].x else gs[k].y, byX);
  }

  /** The galaxies with the empty columns and rows below the width and
      height that the largest coordinates give. */
  function WithEmptyLines(gs: seq<Coordinate>): (g: Galaxies)
    requires |gs| > 0
    ensures g.galaxies == gs && Separated(g)
    ensures forall k: nat :: k in g.emptyColumns <==>
      (exists i | 0 <= i < |gs| :: k <= gs[i].x) && Unused(gs, k, true)
    ensures forall k: nat :: k in g.emptyRows <==>
      (exists i | 0 <= i < |gs| :: k <= gs[i].y) && Unused(gs, k, false)
  {
    var width := MaxComponent(gs, true) + 1;
    var height := MaxComponent(gs, false) + 1;
    var g := Galaxies(gs, EmptyLines(gs, 0, width, true), EmptyLines(gs, 0, height, false));
    EmptyLinesBelowWidth(gs, true);
    EmptyLinesBelowWidth(gs, false);
    assert Separated(g) by {
      forall k | 0 <= k < |gs| ensures gs[k].x !in g.emptyColumns && gs[k].y !in g.emptyRows {
        EmptyLinesSeparate(gs, width, true, k);
        EmptyLinesSeparate(gs, height, false, k);
      }
    }
    g
  }

  /** `parse`: the galaxies in reading order, each at (column, line) of its
      `#`; with none, the `max()?` gives up. Otherwise the empty columns
      are those below the width with no galaxy, and likewise the rows. */
  function Parse(lines: seq<string>): (r: Option<Galaxies>)
    ensures r.None? <==> forall i, j | 0 <= i < |lines| && 0 <= j < |lines[i]| :: lines[i][j] != '#'
    ensures r.Some? ==> r.value == WithEmptyLines(GalaxiesFrom(lines, 0))
  {
    var galaxies := GalaxiesFrom(lines, 0);
    SomeGalaxy(lines);
    if |galaxies| == 0 then None else Some(WithEmptyLines(galaxies))
  }
}
