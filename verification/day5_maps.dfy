/** `Map` of day 5 (src/bin/day5.rs:187-250): one stage of the almanac,
    a list of translations applied to points and to range lists, followed
    by merge-to-fixpoint compaction. */
module Day5Maps {
  import opened Wrappers
  import opened Day5Ranges
  import opened Day5Mappings

  datatype Map = Map(mappings: seq<Mapping>)

  predicate ValidMap(mp: Map) {
    forall i | 0 <= i < |mp.mappings| :: Valid(mp.mappings[i])
  }

  /** `find_map` over the mappings: the image under the first mapping whose
      source holds `x`. */
  function FindMap(ms: seq<Mapping>, x: nat): (r: Option<nat>)
    ensures r.None? <==> forall i | 0 <= i < |ms| :: !ms[i].source.Contains(x)
    ensures forall i | 0 <= i < |ms| && ms[i].source.Contains(x) ::
              (forall j | 0 <= j < i :: !ms[j].source.Contains(x)) ==> r == MapPoint(ms[i], x)
  {
    if |ms| == 0 then None
    else match MapPoint(ms[0], x)
      case Some(v) => Some(v)
      case None => FindMap(ms[1..], x)
  }

  /** `Map::map`: the first matching translation, else the identity. */
  function MapThrough(mp: Map, x: nat): (r: nat)
    ensures (forall i | 0 <= i < |mp.mappings| :: !mp.mappings[i].source.Contains(x)) ==> r == x
    ensures forall i | 0 <= i < |mp.mappings| && mp.mappings[i].source.Contains(x) ::
              (forall j | 0 <= j < i :: !mp.mappings[j].source.Contains(x)) ==>
                r == mp.mappings[i].destination.start + (x - mp.mappings[i].source.start)
  {
    match FindMap(mp.mappings, x)
    case Some(v) => v
    case None => x
  }

  /** The point map of a stage given as its list of mappings. */
  function StagePoint(ms: seq<Mapping>, x: nat): nat {
    MapThrough(Map(ms), x)
  }

  /** One step of the fold at src/bin/day5.rs:204-223: every range still
      waiting is split by one mapping; the translated pieces go to the
      output, the rest stay waiting. Returns (translated, still waiting). */
  function ApplyMapping(m: Mapping, working: seq<Range>): (r: (seq<Range>, seq<Range>))
    ensures Valid(m) && AllWellFormed(working) ==>
      && AllWellFormed(r.0) && AllWellFormed(r.1)
      && TotalLen(r.0) + TotalLen(r.1) == TotalLen(working)
  {
    if |working| == 0 then ([], [])
    else
      var piece := MapRange(m, working[0]);
      var rest := ApplyMapping(m, working[1..]);
      UnmappedCovered(piece);
      TotalLenAppend(piece.MappedList(), rest.0);
      TotalLenAppend(piece.Unmapped(), rest.1);
      (piece.MappedList() + rest.0, piece.Unmapped() + rest.1)
  }

  /** What one step does to points: a waiting point leaves the waiting
      list exactly when the mapping's source holds it, and the translated
      pieces hold exactly the images of those points. */
  lemma {:induction false} ApplyMappingPoints(m: Mapping, working: seq<Range>)
    requires Valid(m) && AllWellFormed(working)
    ensures forall x :: Covered(ApplyMapping(m, working).1, x) <==> Covered(working, x) && !m.source.Contains(x)
    ensures forall y :: Covered(ApplyMapping(m, working).0, y) <==>
                          m.destination.Contains(y) && Covered(working, Preimage(m, y))
  {
    if |working| > 0 {
      var w0 := working[0];
      var piece := MapRange(m, w0);
      var rest := ApplyMapping(m, working[1..]);
      var r := ApplyMapping(m, working);
      assert r.0 == piece.MappedList() + rest.0;
      assert r.1 == piece.Unmapped() + rest.1;
      ApplyMappingPoints(m, working[1..]);
      PiecePoints(m, w0);
      CoveredAppend(piece.MappedList(), rest.0);
      CoveredAppend(piece.Unmapped(), rest.1);
      CoveredCons(working);
    }
  }

  /** The point facts of `MapRange` for one range, phrased with `Covered`. */
  lemma PiecePoints(m: Mapping, input: Range)
    requires Valid(m) && input.WellFormed()
    ensures forall x :: Covered(MapRange(m, input).Unmapped(), x) <==> input.Contains(x) && !m.source.Contains(x)
    ensures forall y :: Covered(MapRange(m, input).MappedList(), y) <==>
                          m.destination.Contains(y) && input.Contains(Preimage(m, y))
  {
    var piece := MapRange(m, input);
    UnmappedCovered(piece);
    forall y ensures Covered(piece.MappedList(), y) <==> OptContains(piece.mapped, y) {
      if piece.mapped.Some? {
        assert piece.MappedList()[0] == piece.mapped.value;
      }
    }
  }

  /** The whole fold over the mappings, followed by the identity for what is
      left: translated pieces of the first mapping, then of the second, ...,
      then the ranges no mapping touched. */
  function Translate(ms: seq<Mapping>, working: seq<Range>): (r: seq<Range>)
    ensures (forall i | 0 <= i < |ms| :: Valid(ms[i])) && AllWellFormed(working) ==>
      AllWellFormed(r) && TotalLen(r) == TotalLen(working)
  {
    if |ms| == 0 then working
    else
      var step := ApplyMapping(ms[0], working);
      var rest := Translate(ms[1..], step.1);
      TotalLenAppend(step.0, rest);
      step.0 + rest
  }

  /** Peeling the first mapping off a stage's point map. */
  lemma StagePointCons(ms: seq<Mapping>, x: nat)
    requires |ms| > 0
    ensures ms[0].source.Contains(x) ==> Some(StagePoint(ms, x)) == MapPoint(ms[0], x)
    ensures !ms[0].source.Contains(x) ==> StagePoint(ms, x) == StagePoint(ms[1..], x)
  {
    assert FindMap(ms, x) == (if ms[0].source.Contains(x) then MapPoint(ms[0], x) else FindMap(ms[1..], x));
  }

  /** Splitting a range list through a stage is exact: the result covers
      precisely the images, under the first-match point map, of the points
      the input covers. This holds even when sources overlap. */
  lemma {:induction false} TranslateImage(ms: seq<Mapping>, working: seq<Range>)
    requires forall i | 0 <= i < |ms| :: Valid(ms[i])
    requires AllWellFormed(working)
    ensures forall y :: Covered(Translate(ms, working), y) <==>
                          exists x: nat :: Covered(working, x) && StagePoint(ms, x) == y
  {
    if |ms| == 0 {
      forall y | Covered(working, y) ensures exists x: nat :: Covered(working, x) && StagePoint(ms, x) == y {
        var i :| 0 <= i < |working| && working[i].Contains(y);
        assert StagePoint(ms, y as nat) == y;
      }
    } else {
      var m := ms[0];
      var step := ApplyMapping(m, working);
      var rest := Translate(ms[1..], step.1);
      assert Translate(ms, working) == step.0 + rest;
      ApplyMappingPoints(m, working);
      TranslateImage(ms[1..], step.1);
      CoveredAppend(step.0, rest);
      forall y | Covered(Translate(ms, working), y)
        ensures exists x: nat :: Covered(working, x) && StagePoint(ms, x) == y
      {
        if Covered(step.0, y) {
          var x := Preimage(m, y);
          MapPointOnto(m, y as nat);
          StagePointCons(ms, x as nat);
          assert Covered(working, x as nat) && StagePoint(ms, x as nat) == y;
        } else {
          assert Covered(rest, y);
          var x: nat :| Covered(step.1, x) && StagePoint(ms[1..], x) == y;
          StagePointCons(ms, x);
          assert Covered(working, x) && StagePoint(ms, x) == y;
        }
      }
      forall y | exists x: nat :: Covered(working, x) && StagePoint(ms, x) == y
        ensures Covered(Translate(ms, working), y)
      {
        var x: nat :| Covered(working, x) && StagePoint(ms, x) == y;
        StagePointCons(ms, x);
        if m.source.Contains(x) {
          assert Preimage(m, y) == x;
          assert Covered(step.0, y);
        } else {
          assert Covered(step.1, x);
          assert Covered(rest, y);
        }
      }
    }
  }

  /** The `find_map` of the merge fold (src/bin/day5.rs:235-238): the first
      accumulated range at or after `from` that `range` unites with, and
      the union. The new range is the receiver of `union`. */
  function FindUnion(v: seq<Range>, range: Range, from: nat): (r: Option<(nat, Range)>)
    requires from <= |v|
    ensures r.Some? ==> from <= r.value.0 < |v| && Union(range, v[r.value.0]) == Some(r.value.1)
    ensures r.Some? ==> forall j | from <= j < r.value.0 :: Union(range, v[j]).None?
    ensures r.None? <==> forall j | from <= j < |v| :: Union(range, v[j]).None?
    decreases |v| - from
  {
    if from == |v| then None
    else match Union(range, v[from])
      case Some(u) => Some((from, u))
      case None => FindUnion(v, range, from + 1)
  }

  /** One step of the merge fold: unite `range` with the first accumulated
      range it joins (remove that one, push the union), or else push it. */
  function MergeStep(v: seq<Range>, range: Range): (r: seq<Range>)
    ensures |r| == |v| + 1 <==> forall j | 0 <= j < |v| :: Union(range, v[j]).None?
    ensures |r| <= |v| + 1
    ensures AllWellFormed(v) && range.WellFormed() ==>
      AllWellFormed(r) && forall x :: Covered(r, x) <==> Covered(v, x) || range.Contains(x)
    ensures NoneEmpty(v) && !range.IsEmpty() ==> NoneEmpty(r)
  {
    match FindUnion(v, range, 0)
    case Some((i, u)) =>
      if AllWellFormed(v) && range.WellFormed() then
        UnionPoints(range, v[i]);
        CoveredRemove(v, i);
        CoveredAppend(v[..i] + v[i + 1..], [u]);
        CoveredSingleton(u);
        v[..i] + v[i + 1..] + [u]
      else
        v[..i] + v[i + 1..] + [u]
    case None =>
      CoveredAppend(v, [range]);
      CoveredSingleton(range);
      v + [range]
  }

  /** `mapped.into_iter().fold(vec![], ...)` (src/bin/day5.rs:234-246):
      one merge pass, continuing from the accumulator `acc`. */
  function MergeFold(acc: seq<Range>, todo: seq<Range>): (r: seq<Range>)
    ensures |r| <= |acc| + |todo|
    ensures AllWellFormed(acc) && AllWellFormed(todo) ==>
      AllWellFormed(r) && forall x :: Covered(r, x) <==> Covered(acc, x) || Covered(todo, x)
    ensures NoneEmpty(acc) && NoneEmpty(todo) ==> NoneEmpty(r)
    decreases |todo|
  {
    if |todo| == 0 then acc
    else
      var next := MergeStep(acc, todo[0]);
      CoveredCons(todo);
      MergeFold(next, todo[1..])
  }

  function MergePass(v: seq<Range>): seq<Range> {
    MergeFold([], v)
  }

  /** The loop at src/bin/day5.rs:230-247: merge passes repeat while a pass
      shrinks the list. The result covers the same points, has no empty
      range and is no longer than the input. */
  function Compact(v: seq<Range>): (r: seq<Range>)
    ensures |r| <= |v|
    ensures AllWellFormed(v) ==> AllWellFormed(r) && forall x :: Covered(r, x) <==> Covered(v, x)
    ensures NoneEmpty(v) ==> NoneEmpty(r)
    decreases |v|
  {
    var w := MergePass(v);
    assert forall x :: !Covered([], x);
    if |w| < |v| then Compact(w) else w
  }

  /** The same loop written as in the source, with `prev_len` starting one
      above the length so that the first pass always runs. */
  method CompactLoop(v: seq<Range>) returns (mapped: seq<Range>)
    ensures mapped == Compact(v)
    ensures AllWellFormed(v) ==> forall x :: Covered(mapped, x) <==> Covered(v, x)
    ensures |mapped| <= |v|
  {
    mapped := v;
    var prevLen := |mapped| + 1;
    while |mapped| < prevLen
      invariant |mapped| <= |v|
      invariant (if |mapped| < prevLen then Compact(mapped) else mapped) == Compact(v)
      decreases prevLen
    {
      prevLen := |mapped|;
      mapped := MergePass(mapped);
    }
  }

  /** `Map::map_range`: translate, drop empty ranges, compact. */
  function MapRanges(mp: Map, input: seq<Range>): (r: seq<Range>)
    ensures NoneEmpty(r) && AllWellFormed(r)
  {
    Compact(DropEmpty(Translate(mp.mappings, input)))
  }

  /** Range mapping through a stage agrees with point mapping: the output
      covers exactly the images of the input's points. */
  lemma MapRangesImage(mp: Map, input: seq<Range>)
    requires ValidMap(mp) && AllWellFormed(input)
    ensures forall y :: Covered(MapRanges(mp, input), y) <==>
                          exists x: nat :: Covered(input, x) && MapThrough(mp, x) == y
  {
    TranslateImage(mp.mappings, input);
    assert forall x: nat :: StagePoint(mp.mappings, x) == MapThrough(mp, x);
  }

  /** The loop's comment promises disjoint output, but `overlap` misses
      strict containment: translating `[100,101)` to `[5,6)` next to an
      untouched `[0,10)` leaves two ranges that share the point 5. */
  lemma CompactMayLeaveOverlap()
    ensures MapRanges(Map([Mapping(Range(100, 101), Range(5, 6))]), [Range(100, 101), Range(0, 10)])
            == [Range(5, 6), Range(0, 10)]
    ensures SharePoint(Range(5, 6), Range(0, 10))
  {
    OverlapExampleTranslate();
    OverlapExampleDrop();
    OverlapExampleCompact();
    assert Range(5, 6).Contains(5) && Range(0, 10).Contains(5);
  }

  /** The first step of the example: the mapped piece, the empty rest of
      `[100,101)`, and the untouched `[0,10)`. */
  lemma OverlapExampleTranslate()
    ensures Translate([Mapping(Range(100, 101), Range(5, 6))], [Range(100, 101), Range(0, 10)])
            == [Range(5, 6), Range(101, 101), Range(0, 10)]
  {
    var m := Mapping(Range(100, 101), Range(5, 6));
    var input := [Range(100, 101), Range(0, 10)];
    assert MapRange(m, Range(100, 101)) == RangeMapping(Some(Range(5, 6)), Some(Range(101, 101)), None);
    assert MapRange(m, Range(0, 10)) == RangeMapping(None, Some(Range(0, 10)), None);
    assert input[1..] == [Range(0, 10)];
    assert [Range(0, 10)][1..] == [];
    assert ApplyMapping(m, []) == ([], []);
    assert MapRange(m, Range(0, 10)).MappedList() == [];
    assert MapRange(m, Range(0, 10)).Unmapped() == [Range(0, 10)];
    assert MapRange(m, Range(100, 101)).MappedList() == [Range(5, 6)];
    assert MapRange(m, Range(100, 101)).Unmapped() == [Range(101, 101)];
    var rest := ApplyMapping(m, input[1..]);
    assert rest == ([], [Range(0, 10)]);
    var step := ApplyMapping(m, input);
    assert input[0] == Range(100, 101);
    assert step == ([Range(5, 6)] + rest.0, [Range(101, 101)] + rest.1);
    assert step.0 == [Range(5, 6)] + [] == [Range(5, 6)];
    assert step.1 == [Range(101, 101)] + [Range(0, 10)] == [Range(101, 101), Range(0, 10)];
  }

  lemma OverlapExampleDrop()
    ensures DropEmpty([Range(5, 6), Range(101, 101), Range(0, 10)]) == [Range(5, 6), Range(0, 10)]
  {
    assert DropEmpty([Range(0, 10)]) == [Range(0, 10)];
    assert DropEmpty([Range(101, 101), Range(0, 10)]) == [Range(0, 10)];
  }

  /** Merging finds no union for the two ranges, so they stay apart. */
  lemma OverlapExampleCompact()
    ensures Compact([Range(5, 6), Range(0, 10)]) == [Range(5, 6), Range(0, 10)]
  {
    var kept := [Range(5, 6), Range(0, 10)];
    assert MergeStep([], Range(5, 6)) == [Range(5, 6)];
    assert FindUnion([Range(5, 6)], Range(0, 10), 0) == None;
    assert MergeStep([Range(5, 6)], Range(0, 10)) == kept;
    assert MergeFold([Range(5, 6)], kept[1..]) == kept;
    assert MergePass(kept) == kept;
  }
}
