/** `Almanac` of day 5 (src/bin/day5.rs:252-286): the seeds, the seed
    ranges and the ordered list of maps they are folded through. */
module Day5Almanac {
  import opened Wrappers
  import opened Day5Ranges
  import opened Day5Mappings
  import opened Day5Maps

  datatype Almanac = Almanac(seeds: seq<nat>, seedRanges: seq<Range>, maps: seq<Map>)

  predicate ValidMaps(maps: seq<Map>) {
    forall i | 0 <= i < |maps| :: ValidMap(maps[i])
  }

  /** The parser's `seeds.chunks(2)`: each pair `(start, length)` becomes the
      range `[start, start + length)`. An odd count makes the last chunk one
      element long and `x[1]` panics, so the count must be even. */
  function SeedRanges(seeds: seq<nat>): (r: seq<Range>)
    requires |seeds| % 2 == 0
    ensures |r| * 2 == |seeds|
    ensures forall i | 0 <= i < |r| :: r[i].start == seeds[2 * i] && r[i].WellFormed() && r[i].Len() == seeds[2 * i + 1]
  {
    if |seeds| == 0 then []
    else [Range(seeds[0], seeds[0] + seeds[1])] + SeedRanges(seeds[2..])
  }

  /** `seed_to_location`: the point folded through every map in order. */
  function SeedToLocation(maps: seq<Map>, seed: nat): nat {
    if |maps| == 0 then seed else SeedToLocation(maps[1..], MapThrough(maps[0], seed))
  }

  /** `seed_range_to_lowest_location`, generalised to a list: the range
      list folded through every map in order. */
  function RangesThrough(maps: seq<Map>, v: seq<Range>): (r: seq<Range>)
    ensures |maps| > 0 ==> NoneEmpty(r) && AllWellFormed(r)
  {
    if |maps| == 0 then v else RangesThrough(maps[1..], MapRanges(maps[0], v))
  }

  /** Folding a range list through the almanac yields exactly the locations
      of the seeds it covers. */
  lemma {:induction false} RangesThroughImage(maps: seq<Map>, v: seq<Range>)
    requires ValidMaps(maps) && AllWellFormed(v)
    ensures forall y :: Covered(RangesThrough(maps, v), y) <==>
                          exists x: nat :: Covered(v, x) && SeedToLocation(maps, x) == y
  {
    if |maps| == 0 {
      forall y | Covered(v, y) ensures exists x: nat :: Covered(v, x) && SeedToLocation(maps, x) == y {
        var i :| 0 <= i < |v| && v[i].Contains(y);
        assert SeedToLocation(maps, y as nat) == y;
      }
    } else {
      var w := MapRanges(maps[0], v);
      MapRangesImage(maps[0], v);
      RangesThroughImage(maps[1..], w);
      assert RangesThrough(maps, v) == RangesThrough(maps[1..], w);
      forall y | Covered(RangesThrough(maps, v), y)
        ensures exists x: nat :: Covered(v, x) && SeedToLocation(maps, x) == y
      {
        var z: nat :| Covered(w, z) && SeedToLocation(maps[1..], z) == y;
        var x: nat :| Covered(v, x) && MapThrough(maps[0], x) == z;
        assert SeedToLocation(maps, x) == y;
      }
      forall y | exists x: nat :: Covered(v, x) && SeedToLocation(maps, x) == y
        ensures Covered(RangesThrough(maps, v), y)
      {
        var x: nat :| Covered(v, x) && SeedToLocation(maps, x) == y;
        var z := MapThrough(maps[0], x);
        assert Covered(w, z);
      }
    }
  }

  /** `seed_range_to_lowest_location`. */
  function SeedRangeToLocations(maps: seq<Map>, seedRange: Range): seq<Range> {
    RangesThrough(maps, [seedRange])
  }

  /** A one-seed range folds to exactly the location of that seed. */
  lemma PointRangeConsistency(maps: seq<Map>, unit: Range)
    requires ValidMaps(maps) && unit.end == unit.start + 1
    ensures forall y :: Covered(SeedRangeToLocations(maps, unit), y) <==> y == SeedToLocation(maps, unit.start)
  {
    var v := [unit];
    CoveredSingleton(unit);
    RangesThroughImage(maps, v);
    assert Covered(v, unit.start);
    forall x: nat | Covered(v, x) ensures x == unit.start {
    }
  }

  /** `Iterator::min` over a list of naturals. */
  function MinOf(s: seq<nat>): (r: Option<nat>)
    ensures r.None? <==> |s| == 0
    ensures r.Some? ==> r.value in s && forall i | 0 <= i < |s| :: r.value <= s[i]
  {
    if |s| == 0 then None
    else match MinOf(s[1..])
      case None => Some(s[0])
      case Some(m) => Some(if s[0] <= m then s[0] else m)
  }

  function Locations(maps: seq<Map>, seeds: seq<nat>): (r: seq<nat>)
    ensures |r| == |seeds|
    ensures forall i | 0 <= i < |seeds| :: r[i] == SeedToLocation(maps, seeds[i])
  {
    if |seeds| == 0 then [] else [SeedToLocation(maps, seeds[0])] + Locations(maps, seeds[1..])
  }

  /** `lowest_location`; `None` stands for the panic of `unwrap` on an
      empty seed list. */
  function LowestLocation(a: Almanac): (r: Option<nat>)
    ensures r.None? <==> |a.seeds| == 0
    ensures r.Some? ==> (exists i | 0 <= i < |a.seeds| :: SeedToLocation(a.maps, a.seeds[i]) == r.value)
    ensures r.Some? ==> forall i | 0 <= i < |a.seeds| :: r.value <= SeedToLocation(a.maps, a.seeds[i])
  {
    MinOf(Locations(a.maps, a.seeds))
  }

  function Starts(v: seq<Range>): (r: seq<nat>)
    ensures |r| == |v| && forall i | 0 <= i < |v| :: r[i] == v[i].start
  {
    if |v| == 0 then [] else [v[0].start] + Starts(v[1..])
  }

  /** The `flat_map` of src/bin/day5.rs:281: every seed range's output. */
  function AllOutputs(maps: seq<Map>, seedRanges: seq<Range>): (r: seq<Range>)
    ensures |maps| > 0 ==> NoneEmpty(r) && AllWellFormed(r)
  {
    if |seedRanges| == 0 then []
    else
      SeedRangeToLocations(maps, seedRanges[0]) + AllOutputs(maps, seedRanges[1..])
  }

  /** `lowest_location_ranges`, run sequentially; `None` stands for the
      panic of `unwrap` when no range survives. */
  function LowestLocationRanges(a: Almanac): Option<nat> {
    MinOf(Starts(AllOutputs(a.maps, a.seedRanges)))
  }

  /** The union of all outputs is the set of locations of all seeds in any
      seed range. */
  lemma {:induction false} AllOutputsImage(maps: seq<Map>, seedRanges: seq<Range>)
    requires ValidMaps(maps) && AllWellFormed(seedRanges)
    ensures forall y :: Covered(AllOutputs(maps, seedRanges), y) <==>
                          exists x: nat :: Covered(seedRanges, x) && SeedToLocation(maps, x) == y
  {
    if |seedRanges| > 0 {
      var head := RangesThrough(maps, [seedRanges[0]]);
      var rest := AllOutputs(maps, seedRanges[1..]);
      CoveredSingleton(seedRanges[0]);
      RangesThroughImage(maps, [seedRanges[0]]);
      AllOutputsImage(maps, seedRanges[1..]);
      CoveredAppend(head, rest);
      CoveredCons(seedRanges);
      forall y | Covered(AllOutputs(maps, seedRanges), y)
        ensures exists x: nat :: Covered(seedRanges, x) && SeedToLocation(maps, x) == y
      {
        if Covered(head, y) {
          var x: nat :| Covered([seedRanges[0]], x) && SeedToLocation(maps, x) == y;
          assert Covered(seedRanges, x);
        } else {
          var x: nat :| Covered(seedRanges[1..], x) && SeedToLocation(maps, x) == y;
          assert Covered(seedRanges, x);
        }
      }
      forall y | exists x: nat :: Covered(seedRanges, x) && SeedToLocation(maps, x) == y
        ensures Covered(AllOutputs(maps, seedRanges), y)
      {
        var x: nat :| Covered(seedRanges, x) && SeedToLocation(maps, x) == y;
        if seedRanges[0].Contains(x) {
          assert Covered([seedRanges[0]], x);
          assert Covered(head, y);
        } else {
          assert Covered(seedRanges[1..], x);
          assert Covered(rest, y);
        }
      }
    }
  }

  /** On a list of non-empty ranges, the least start is the least covered
      point. */
  lemma LeastStartIsLeastPoint(v: seq<Range>)
    requires NoneEmpty(v)
    ensures MinOf(Starts(v)).Some? ==> Covered(v, MinOf(Starts(v)).value)
    ensures MinOf(Starts(v)).Some? ==> forall y :: Covered(v, y) ==> MinOf(Starts(v)).value <= y
  {
    var s := Starts(v);
    if MinOf(s).Some? {
      var m := MinOf(s).value;
      var i :| 0 <= i < |s| && s[i] == m;
      assert v[i].Contains(m);
    }
  }

  /** The answer of part two is right whenever the almanac has a map: it is
      the location of some seed of some seed range, and no seed of any seed
      range has a lower location. It is `None` exactly when every seed
      range is empty. */
  lemma LowestLocationRangesCorrect(a: Almanac)
    requires |a.maps| > 0 && ValidMaps(a.maps) && AllWellFormed(a.seedRanges)
    ensures LowestLocationRanges(a).Some? ==>
      exists x: nat :: Covered(a.seedRanges, x) && SeedToLocation(a.maps, x) == LowestLocationRanges(a).value
    ensures LowestLocationRanges(a).Some? ==>
      forall x: nat :: Covered(a.seedRanges, x) ==> LowestLocationRanges(a).value <= SeedToLocation(a.maps, x)
    ensures LowestLocationRanges(a).None? <==> forall x: nat :: !Covered(a.seedRanges, x)
  {
    var out := AllOutputs(a.maps, a.seedRanges);
    AllOutputsImage(a.maps, a.seedRanges);
    LeastStartIsLeastPoint(out);
    forall x: nat | Covered(a.seedRanges, x) ensures Covered(out, SeedToLocation(a.maps, x)) {
    }
    if LowestLocationRanges(a).None? {
      assert |out| == 0;
      assert forall y :: !Covered(out, y);
    } else {
      var m := LowestLocationRanges(a).value;
      assert Covered(out, m);
    }
  }
}
