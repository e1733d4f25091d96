/** Day 13, Point of Incidence (src/bin/day13.rs): finding the line of
    reflection of a pattern of ash and rocks, exactly or with one smudge. */
module Day13 {
  import opened Wrappers

  datatype Tile = Ash | Rocks

  type Floor = seq<seq<Tile>>

  /** Every row is at least as long as the first, so that `row[i]` is in
      bounds for every column `i` of the first row. */
  predicate Rotatable(floor: Floor) {
    |floor| > 0 && forall y | 0 <= y < |floor| :: |floor[y]| >= |floor[0]|
  }

  predicate Rectangular(floor: Floor) {
    forall y | 0 <= y < |floor| :: |floor[y]| == |floor[0]|
  }

  /** Column `i`, read top to bottom. */
  function Column(floor: Floor, i: nat): (c: seq<Tile>)
    requires forall y | 0 <= y < |floor| :: i < |floor[y]|
    ensures |c| == |floor|
    ensures forall y | 0 <= y < |floor| :: c[y] == floor[y][i]
  {
    seq(|floor|, y requires 0 <= y < |floor| => floor[y][i])
  }

  /** `Floor::rotate`: the transpose. `first().unwrap()` panics on an
      empty floor. */
  function Rotate(floor: Floor): (r: Floor)
    requires Rotatable(floor)
    ensures |r| == |floor[0]|
    ensures forall i | 0 <= i < |r| :: |r[i]| == |floor|
    ensures forall i, j | 0 <= i < |r| && 0 <= j < |floor| :: r[i][j] == floor[j][i]
  {
    seq(|floor[0]|, i requires 0 <= i < |floor[0]| => Column(floor, i))
  }

  /** Transposing a non-degenerate rectangle twice gives it back. */
  lemma RotateTwice(floor: Floor)
    requires Rotatable(floor) && Rectangular(floor) && |floor[0]| > 0
    ensures Rotatable(Rotate(floor)) && Rotate(Rotate(floor)) == floor
  {
    var r := Rotate(floor);
    var rr := Rotate(r);
    assert |rr| == |floor|;
    forall j | 0 <= j < |floor| ensures rr[j] == floor[j] {
      assert |rr[j]| == |floor[j]|;
    }
  }

  /** The number of positions where two rows differ, over their common
      length (`zip` stops at the shorter). */
  function Diff(a: seq<Tile>, b: seq<Tile>): (r: nat)
    ensures r <= |a| && r <= |b|
  {
    if |a| == 0 || |b| == 0 then 0
    else (if a[0] != b[0] then 1 else 0) + Diff(a[1..], b[1..])
  }

  lemma {:induction false} DiffZero(a: seq<Tile>, b: seq<Tile>)
    requires |a| == |b|
    ensures Diff(a, b) == 0 <==> a == b
  {
    if |a| > 0 {
      DiffZero(a[1..], b[1..]);
      if a != b && a[0] == b[0] {
        assert a == [a[0]] + a[1..] && b == [b[0]] + b[1..];
      }
    }
  }

  /** The total number of differing cells over the pairs of rows
      `(upper - k, lower + k)` that lie inside the floor: the reference
      measure of how far a line is from being a mirror. */
  function MirrorDiff(floor: Floor, upper: nat, lower: nat): nat
    decreases |floor| - lower
  {
    if lower >= |floor| || upper >= |floor| then 0
    else Diff(floor[upper], floor[lower]) + (if upper == 0 then 0 else MirrorDiff(floor, upper - 1, lower + 1))
  }

  /** The line below row `i - 1` is a mirror: exact without a smudge, off
      by exactly one cell with one. */
  predicate IsMirror(floor: Floor, i: nat, smudged: bool)
    requires 1 <= i
  {
    MirrorDiff(floor, i - 1, i) == (if smudged then 1 else 0)
  }

  ghost predicate HasMirror(floor: Floor, smudged: bool) {
    exists i | 1 <= i < |floor| :: IsMirror(floor, i, smudged)
  }

  /** `i` is the first line that is a mirror. */
  predicate FirstMirror(floor: Floor, i: nat, smudged: bool)
    requires 1 <= i
  {
    IsMirror(floor, i, smudged) && forall j | 1 <= j < i :: !IsMirror(floor, j, smudged)
  }

  /** Without a smudge, a mirror line makes every compared pair of rows
      agree, and equal when rows have equal lengths. */
  lemma {:induction false} ExactMirrorPairs(floor: Floor, upper: nat, lower: nat, k: nat)
    requires MirrorDiff(floor, upper, lower) == 0
    requires k <= upper && lower + k < |floor| && upper < |floor|
    ensures Diff(floor[upper - k], floor[lower + k]) == 0
    ensures Rectangular(floor) ==> floor[upper - k] == floor[lower + k]
    decreases k
  {
    if k > 0 {
      ExactMirrorPairs(floor, upper - 1, lower + 1, k - 1);
    }
    if Rectangular(floor) {
      DiffZero(floor[upper - k], floor[lower + k]);
    }
  }

  /** The reflection test of `horizontal_mirror_rows` for row `i`: walk the
      pairs of rows outwards from the line, allowing one single-cell
      difference when `smudged` and none otherwise, until an index leaves
      the floor. */
  method ReflectsAt(floor: Floor, i: nat, smudged: bool) returns (b: bool)
    requires 1 <= i < |floor|
    ensures b <==> IsMirror(floor, i, smudged)
  {
    var lower := i;
    var upper := i - 1;
    var used := !smudged;
    while true
      invariant upper < lower && upper + lower == 2 * i - 1
      invariant IsMirror(floor, i, smudged) <==> MirrorDiff(floor, upper, lower) == (if used then 0 else 1)
      decreases |floor| - lower
    {
      if lower >= |floor| {
        return used;
      }
      var d := Diff(floor[upper], floor[lower]);
      if d == 0 {
      } else if d == 1 && !used {
        used := true;
      } else {
        return false;
      }
      if upper == 0 {
        return used;
      }
      upper := upper - 1;
      lower := lower + 1;
    }
  }

  /** `Floor::horizontal_mirror_rows`: the first row index with a mirror
      line above it. */
  method HorizontalMirrorRows(floor: Floor, smudged: bool) returns (r: Option<nat>)
    ensures r.Some? ==> 1 <= r.value < |floor| && IsMirror(floor, r.value, smudged)
    ensures r.Some? ==> forall j | 1 <= j < r.value :: !IsMirror(floor, j, smudged)
    ensures r.None? ==> forall j | 1 <= j < |floor| :: !IsMirror(floor, j, smudged)
  {
    var i := 1;
    while i < |floor|
      invariant 1 <= i
      invariant forall j | 1 <= j < i :: !IsMirror(floor, j, smudged)
    {
      var b := ReflectsAt(floor, i, smudged);
      if b {
        return Some(i);
      }
      i := i + 1;
    }
    return None;
  }

  /** `Floor::mirror_value`: 100 times the row of a horizontal line, or
      else the column of a vertical one, found as a horizontal line of the
      rotated floor. The rotation is computed either way; `None` stands
      for the `expect` panic when there is no line at all. */
  method MirrorValue(floor: Floor, smudged: bool) returns (r: Option<nat>)
    requires Rotatable(floor)
    ensures HasMirror(floor, smudged) ==>
      exists i | 1 <= i < |floor| :: FirstMirror(floor, i, smudged) && r == Some(100 * i)
    ensures !HasMirror(floor, smudged) && HasMirror(Rotate(floor), smudged) ==>
      exists j | 1 <= j < |floor[0]| :: FirstMirror(Rotate(floor), j, smudged) && r == Some(j)
    ensures r.None? <==> !HasMirror(floor, smudged) && !HasMirror(Rotate(floor), smudged)
  {
    var horizontal := HorizontalMirrorRows(floor, smudged);
    var vertical := HorizontalMirrorRows(Rotate(floor), smudged);
    match horizontal {
      case Some(x) =>
        r := Some(100 * x);
        assert FirstMirror(floor, x, smudged);
      case None =>
        r := vertical;
        if vertical.Some? {
          assert FirstMirror(Rotate(floor), vertical.value, smudged);
        }
    }
  }
}
