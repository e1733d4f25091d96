/** `Mapping` and `RangeMapping` of day 5 (src/bin/day5.rs:56-86,
    141-185): one translation of a source range onto a destination range. */
module Day5Mappings {
  import opened Wrappers
  import opened Day5Ranges

  datatype Mapping = Mapping(source: Range, destination: Range)

  /** What the parser builds: both ranges well formed and of equal length. */
  predicate Valid(m: Mapping) {
    m.source.WellFormed() && m.destination.WellFormed() && m.source.Len() == m.destination.Len()
  }

  /** The parser's construction from a `dest_start src_start length` line. */
  function FromTriple(destStart: nat, srcStart: nat, length: nat): (m: Mapping)
    ensures Valid(m)
    ensures m.source.start == srcStart && m.destination.start == destStart
    ensures m.source.Len() == length
  {
    Mapping(Range(srcStart, srcStart + length), Range(destStart, destStart + length))
  }

  /** The source point that the translation sends to `y`. */
  function Preimage(m: Mapping, y: int): int {
    y - m.destination.start + m.source.start
  }

  /** `Mapping::map`. */
  function MapPoint(m: Mapping, x: nat): (r: Option<nat>)
    ensures r.Some? <==> m.source.Contains(x)
    ensures r.Some? ==> Preimage(m, r.value) == x
    ensures Valid(m) && r.Some? ==> m.destination.Contains(r.value)
  {
    if m.source.Contains(x) then Some(m.destination.start + (x - m.source.start)) else None
  }

  /** Every point of the destination is hit, by exactly its preimage. */
  lemma MapPointOnto(m: Mapping, y: nat)
    requires Valid(m) && m.destination.Contains(y)
    ensures Preimage(m, y) >= 0
    ensures MapPoint(m, Preimage(m, y) as nat) == Some(y)
  {
  }

  /** The result of `Mapping::map_range`: at most one translated piece and
      at most two untranslated pieces. */
  datatype RangeMapping = RangeMapping(mapped: Option<Range>, unmapped1: Option<Range>, unmapped2: Option<Range>)
  {
    /** The untranslated pieces in the order the caller pushes them. */
    function Unmapped(): seq<Range> {
      (if unmapped1.Some? then [unmapped1.value] else [])
        + (if unmapped2.Some? then [unmapped2.value] else [])
    }

    function MappedList(): seq<Range> {
      if mapped.Some? then [mapped.value] else []
    }
  }

  function OptLen(r: Option<Range>): nat {
    if r.Some? then r.value.Len() else 0
  }

  predicate OptContains(r: Option<Range>, x: int) {
    r.Some? && r.value.Contains(x)
  }

  predicate OptWellFormed(r: Option<Range>) {
    r.None? || r.value.WellFormed()
  }

  /** `Mapping::map_range`, split on whether the two ends of the input are
      translated. The end of the input is exclusive but is looked up as a point,
      exactly as written. For a valid translation and a well-formed input:
      the untranslated pieces hold exactly the input points outside the
      source; the translated piece holds exactly the images of the input
      points inside it; and the lengths add up to the input's length. */
  function MapRange(m: Mapping, input: Range): (r: RangeMapping)
    ensures Valid(m) && input.WellFormed() ==> Splits(m, input, r)
    ensures Valid(m) && input.WellFormed() && Disjoint(input, m.source) ==>
      && (r.mapped.None? || r.mapped.value.IsEmpty())
      && DropEmpty(r.Unmapped()) == DropEmpty([input])
  {
    match (MapPoint(m, input.start), MapPoint(m, input.end))
    case (Some(start), Some(end)) =>
      var r := RangeMapping(Some(Range(start, end)), None, None);
      assert Valid(m) && input.WellFormed() ==> Splits(m, input, r) by {
        if Valid(m) && input.WellFormed() { SplitsInside(m, input, start, end); }
      }
      r
    case (Some(start), None) =>
      var r := RangeMapping(Some(Range(start, m.destination.end)), Some(Range(m.source.end, input.end)), None);
      assert Valid(m) && input.WellFormed() ==> Splits(m, input, r) by {
        if Valid(m) && input.WellFormed() { SplitsTail(m, input, start); }
      }
      r
    case (None, Some(end)) =>
      var r := RangeMapping(Some(Range(m.destination.start, end)), Some(Range(input.start, m.source.start)), None);
      assert Valid(m) && input.WellFormed() ==> Splits(m, input, r) by {
        if Valid(m) && input.WellFormed() { SplitsHead(m, input, end); }
      }
      r
    case (None, None) =>
      if Disjoint(input, m.source) then
        var r := RangeMapping(None, Some(input), None);
        assert Valid(m) && input.WellFormed() ==> Splits(m, input, r) by {
          if Valid(m) && input.WellFormed() { SplitsApart(m, input); }
        }
        r
      else
        var r := RangeMapping(Some(m.destination), Some(Range(input.start, m.source.start)), Some(Range(m.source.end, input.end)));
        assert Valid(m) && input.WellFormed() ==> Splits(m, input, r) by {
          if Valid(m) && input.WellFormed() { SplitsAround(m, input); }
        }
        r
  }

  /** What `map_range` promises for a valid translation and a well-formed
      input: the pieces are well formed and their lengths add up to the
      input's; the untranslated pieces hold exactly the input points
      outside the source; the translated piece holds exactly the images of
      the input points inside it. */
  ghost predicate Splits(m: Mapping, input: Range, r: RangeMapping) {
    && OptWellFormed(r.mapped) && OptWellFormed(r.unmapped1) && OptWellFormed(r.unmapped2)
    && OptLen(r.mapped) + OptLen(r.unmapped1) + OptLen(r.unmapped2) == input.Len()
    && (forall x :: (OptContains(r.unmapped1, x) || OptContains(r.unmapped2, x)) <==>
                     (input.Contains(x) && !m.source.Contains(x)))
    && (forall y :: OptContains(r.mapped, y) <==>
                     (m.destination.Contains(y) && input.Contains(Preimage(m, y))))
  }

  /** Both ends translated: the whole input is translated. */
  lemma SplitsInside(m: Mapping, input: Range, start: nat, end: nat)
    requires Valid(m) && input.WellFormed()
    requires MapPoint(m, input.start) == Some(start) && MapPoint(m, input.end) == Some(end)
    ensures Splits(m, input, RangeMapping(Some(Range(start, end)), None, None))
  {
  }

  /** Only the start translated: the input runs past the source's end. */
  lemma SplitsTail(m: Mapping, input: Range, start: nat)
    requires Valid(m) && input.WellFormed()
    requires MapPoint(m, input.start) == Some(start) && MapPoint(m, input.end).None?
    ensures Splits(m, input, RangeMapping(Some(Range(start, m.destination.end)), Some(Range(m.source.end, input.end)), None))
  {
  }

  /** Only the end translated: the input starts before the source. */
  lemma SplitsHead(m: Mapping, input: Range, end: nat)
    requires Valid(m) && input.WellFormed()
    requires MapPoint(m, input.start).None? && MapPoint(m, input.end) == Some(end)
    ensures Splits(m, input, RangeMapping(Some(Range(m.destination.start, end)), Some(Range(input.start, m.source.start)), None))
  {
  }

  /** Neither end translated and no overlap: nothing is translated. */
  lemma SplitsApart(m: Mapping, input: Range)
    requires Valid(m) && input.WellFormed()
    requires MapPoint(m, input.start).None? && MapPoint(m, input.end).None? && Disjoint(input, m.source)
    ensures Splits(m, input, RangeMapping(None, Some(input), None))
  {
  }

  /** Neither end translated but overlapping: the input surrounds the
      source, which is translated whole. */
  lemma SplitsAround(m: Mapping, input: Range)
    requires Valid(m) && input.WellFormed()
    requires MapPoint(m, input.start).None? && MapPoint(m, input.end).None? && !Disjoint(input, m.source)
    ensures Splits(m, input, RangeMapping(Some(m.destination), Some(Range(input.start, m.source.start)), Some(Range(m.source.end, input.end))))
  {
  }

  lemma UnmappedCovered(r: RangeMapping)
    ensures forall x :: Covered(r.Unmapped(), x) <==> OptContains(r.unmapped1, x) || OptContains(r.unmapped2, x)
    ensures TotalLen(r.Unmapped()) == OptLen(r.unmapped1) + OptLen(r.unmapped2)
    ensures OptWellFormed(r.unmapped1) && OptWellFormed(r.unmapped2) ==> AllWellFormed(r.Unmapped())
  {
    var u1 := if r.unmapped1.Some? then [r.unmapped1.value] else [];
    var u2 := if r.unmapped2.Some? then [r.unmapped2.value] else [];
    CoveredAppend(u1, u2);
    TotalLenAppend(u1, u2);
  }
}
