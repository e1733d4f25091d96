/** The `SetOperations` trait of day 5, instantiated at `Range<u64>`
    (src/bin/day5.rs:6-54). A range is half-open, `[start, end)`. */
module Day5Ranges {
  import opened Wrappers

  /** `std::ops::Range<u64>`. Rust does not force `start <= end`; the
      predicate `WellFormed` says when that holds. */
  datatype Range = Range(start: nat, end: nat) {
    predicate WellFormed() { start <= end }

    /** `Range::contains`. */
    predicate Contains(x: int) { start <= x < end }

    /** `Range::is_empty`. */
    predicate IsEmpty() { !(start < end) }

    /** The number of integers the range holds (`ExactSizeIterator::len`). */
    function Len(): nat { if start <= end then end - start else 0 }
  }

  /** Some integer lies in both ranges. */
  ghost predicate SharePoint(a: Range, b: Range) {
    exists x :: a.Contains(x) && b.Contains(x)
  }

  function Min(a: nat, b: nat): nat { if a <= b then a else b }
  function Max(a: nat, b: nat): nat { if a >= b then a else b }

  function Disjoint(a: Range, b: Range): bool {
    a.end <= b.start || a.start >= b.end
  }

  function ContainedIn(a: Range, b: Range): bool {
    a.start >= b.start && a.end <= b.end
  }

  /** As written: true when `a.start` lies in `b`, or `a.end` lies in
      `(b.start, b.end]`. It misses the case where `a` strictly contains `b`. */
  function Overlap(a: Range, b: Range): bool {
    (a.start >= b.start && a.start < b.end) || (a.end <= b.end && a.end > b.start)
  }

  function Adjacent(a: Range, b: Range): bool {
    a.start == b.end || a.end == b.start
  }

  function Union(a: Range, b: Range): (r: Option<Range>)
    ensures r.Some? <==> Overlap(a, b) || Adjacent(a, b)
    ensures r.Some? ==> ContainedIn(a, r.value) && ContainedIn(b, r.value)
  {
    if Overlap(a, b) || Adjacent(a, b) then
      Some(Range(Min(a.start, b.start), Max(a.end, b.end)))
    else
      None
  }

  function Intersection(a: Range, b: Range): (r: Option<Range>)
    ensures r.Some? <==> Overlap(a, b)
    ensures r.Some? ==> ContainedIn(r.value, a) && ContainedIn(r.value, b)
  {
    if Overlap(a, b) then
      Some(Range(Max(a.start, b.start), Min(a.end, b.end)))
    else
      None
  }

  /** `disjoint` is symmetric, and on non-empty ranges it holds exactly
      when the ranges share no integer. */
  lemma DisjointMeansNoSharedPoint(a: Range, b: Range)
    ensures Disjoint(a, b) == Disjoint(b, a)
    ensures !a.IsEmpty() && !b.IsEmpty() ==> (Disjoint(a, b) <==> !SharePoint(a, b))
  {
    if !a.IsEmpty() && !b.IsEmpty() && !Disjoint(a, b) {
      var x := Max(a.start, b.start);
      assert a.Contains(x) && b.Contains(x);
    }
  }

  /** On a non-empty range, `contained_in` is set inclusion. */
  lemma ContainedInIsInclusion(a: Range, b: Range)
    requires !a.IsEmpty()
    ensures ContainedIn(a, b) <==> (forall x :: a.Contains(x) ==> b.Contains(x))
  {
    if forall x :: a.Contains(x) ==> b.Contains(x) {
      assert a.Contains(a.start);
      assert a.Contains(a.end - 1);
    }
  }

  /** What `overlap` really decides: for a non-empty `a`, it holds exactly
      when the ranges share an integer and `a` does not strictly contain `b`. */
  lemma OverlapCharacterized(a: Range, b: Range)
    requires !a.IsEmpty()
    ensures Overlap(a, b) <==> SharePoint(a, b) && !(a.start < b.start && b.end < a.end)
  {
    if Overlap(a, b) {
      if a.start >= b.start && a.start < b.end {
        assert a.Contains(a.start) && b.Contains(a.start);
      } else {
        assert a.Contains(a.end - 1) && b.Contains(a.end - 1);
      }
    }
  }

  /** `overlap` is not symmetric: `[0,10)` strictly contains `[5,6)`, yet
      only the call with the smaller range as receiver reports it. */
  lemma OverlapNotSymmetric()
    ensures Overlap(Range(5, 6), Range(0, 10))
    ensures !Overlap(Range(0, 10), Range(5, 6))
    ensures SharePoint(Range(0, 10), Range(5, 6))
  {
    assert Range(0, 10).Contains(5) && Range(5, 6).Contains(5);
  }

  /** On well-formed ranges, a defined union holds exactly the integers of
      its two arguments: merging neither loses nor invents a point. */
  lemma UnionPoints(a: Range, b: Range)
    requires a.WellFormed() && b.WellFormed()
    requires Union(a, b).Some?
    ensures Union(a, b).value.WellFormed()
    ensures forall x :: Union(a, b).value.Contains(x) <==> a.Contains(x) || b.Contains(x)
    ensures Union(a, b).value.Len() <= a.Len() + b.Len()
  {
  }

  /** A defined intersection holds exactly the integers common to both. */
  lemma IntersectionPoints(a: Range, b: Range)
    requires Intersection(a, b).Some?
    ensures forall x :: Intersection(a, b).value.Contains(x) <==> a.Contains(x) && b.Contains(x)
  {
  }

  /** Some range of `v` holds `x`: the set of integers a range list covers. */
  ghost predicate Covered(v: seq<Range>, x: int) {
    exists i | 0 <= i < |v| :: v[i].Contains(x)
  }

  predicate AllWellFormed(v: seq<Range>) {
    forall i | 0 <= i < |v| :: v[i].WellFormed()
  }

  predicate NoneEmpty(v: seq<Range>) {
    forall i | 0 <= i < |v| :: !v[i].IsEmpty()
  }

  lemma CoveredAppend(v: seq<Range>, w: seq<Range>)
    ensures forall x :: Covered(v + w, x) <==> Covered(v, x) || Covered(w, x)
  {
    forall x ensures Covered(v + w, x) <==> Covered(v, x) || Covered(w, x) {
      if Covered(v + w, x) {
        var i :| 0 <= i < |v + w| && (v + w)[i].Contains(x);
        if i >= |v| { assert w[i - |v|].Contains(x); } else { assert v[i].Contains(x); }
      }
      if Covered(v, x) {
        var i :| 0 <= i < |v| && v[i].Contains(x);
        assert (v + w)[i] == v[i];
      }
      if Covered(w, x) {
        var i :| 0 <= i < |w| && w[i].Contains(x);
        assert (v + w)[|v| + i] == w[i];
      }
    }
  }

  /** The number of integers the ranges of `v` hold, counted with multiplicity. */
  function TotalLen(v: seq<Range>): nat {
    if |v| == 0 then 0 else v[0].Len() + TotalLen(v[1..])
  }

  lemma TotalLenAppend(v: seq<Range>, w: seq<Range>)
    ensures TotalLen(v + w) == TotalLen(v) + TotalLen(w)
  {
    if |v| > 0 {
      assert (v + w)[1..] == v[1..] + w;
      TotalLenAppend(v[1..], w);
    } else {
      assert v + w == w;
    }
  }

  /** `.filter(|range| !range.is_empty())`: drops the ranges that hold no
      integer, so the covered set is unchanged. */
  function DropEmpty(v: seq<Range>): (r: seq<Range>)
    ensures NoneEmpty(r)
    ensures |r| <= |v|
    ensures AllWellFormed(r)
    ensures forall i | 0 <= i < |r| :: r[i] in v
    ensures forall x :: Covered(r, x) <==> Covered(v, x)
    ensures TotalLen(r) == TotalLen(v)
  {
    if |v| == 0 then []
    else
      var rest := DropEmpty(v[1..]);
      CoveredAppend([v[0]], v[1..]);
      assert v == [v[0]] + v[1..];
      if v[0].IsEmpty() then
        assert forall x :: !Covered([v[0]], x);
        rest
      else
        CoveredAppend([v[0]], rest);
        [v[0]] + rest
  }

  /** The covered set of a non-empty list: its head's points and its tail's. */
  lemma CoveredCons(v: seq<Range>)
    requires |v| > 0
    ensures forall x :: Covered(v, x) <==> v[0].Contains(x) || Covered(v[1..], x)
  {
    forall x ensures Covered(v, x) <==> v[0].Contains(x) || Covered(v[1..], x) {
      if Covered(v, x) {
        var i :| 0 <= i < |v| && v[i].Contains(x);
        if i > 0 { assert v[1..][i - 1] == v[i]; }
      }
      if Covered(v[1..], x) {
        var i :| 0 <= i < |v[1..]| && v[1..][i].Contains(x);
        assert v[i + 1] == v[1..][i];
      }
    }
  }

  /** Removing the range at `i` takes away at most that range's points. */
  lemma CoveredRemove(v: seq<Range>, i: nat)
    requires i < |v|
    ensures forall x :: Covered(v, x) <==> v[i].Contains(x) || Covered(v[..i] + v[i + 1..], x)
  {
    assert v == v[..i] + [v[i]] + v[i + 1..];
    CoveredAppend(v[..i], [v[i]]);
    CoveredAppend(v[..i] + [v[i]], v[i + 1..]);
    CoveredAppend(v[..i], v[i + 1..]);
    assert forall x :: Covered([v[i]], x) <==> v[i].Contains(x);
  }

  lemma CoveredSingleton(a: Range)
    ensures forall x :: Covered([a], x) <==> a.Contains(x)
  {
    assert [a][0] == a;
  }
}
