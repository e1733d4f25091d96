/** Day 9, Mirage Maintenance (src/bin/day9.rs): predicting the next value
    of a sequence by repeated differencing. */
module Day9 {

  /** The pairwise differences `y - x` of neighbouring values
      (`tuple_windows`), one shorter than the row. */
  function Differences(row: seq<int>): (d: seq<int>)
    ensures |d| == if |row| == 0 then 0 else |row| - 1
    ensures forall i | 0 <= i < |d| :: d[i] == row[i + 1] - row[i]
  {
    if |row| <= 1 then [] else seq(|row| - 1, i requires 0 <= i < |row| - 1 => row[i + 1] - row[i])
  }

  predicate AllZero(row: seq<int>) {
    forall i | 0 <= i < |row| :: row[i] == 0
  }

  /** The next value: the sum of the last elements of every level of the
      difference table that still has a non-zero entry. */
  function NextValue(row: seq<int>): int
    decreases |row|
  {
    if AllZero(row) then 0 else row[|row| - 1] + NextValue(Differences(row))
  }

  function Sum(s: seq<int>): int {
    if |s| == 0 then 0 else Sum(s[..|s| - 1]) + s[|s| - 1]
  }

  /** `row_difference`: push the last element of every level while it
      still has a non-zero entry, difference, and sum what was pushed.
      Each level is one shorter, so the loop ends. */
  method RowDifference(row: seq<int>) returns (r: int)
    ensures r == NextValue(row)
  {
    var finalElement: seq<int> := [];
    var difference := row;
    while exists i | 0 <= i < |difference| :: difference[i] != 0
      invariant Sum(finalElement) + NextValue(difference) == NextValue(row)
      decreases |difference|
    {
      finalElement := finalElement + [difference[|difference| - 1]];
      difference := Differences(difference);
    }
    r := SumLoop(finalElement);
  }

  /** `final_element.into_iter().sum()`. */
  method SumLoop(s: seq<int>) returns (total: int)
    ensures total == Sum(s)
  {
    total := 0;
    var k := 0;
    while k < |s|
      invariant 0 <= k <= |s|
      invariant total == Sum(s[..k])
    {
      assert s[..k + 1][..k] == s[..k];
      total := total + s[k];
      k := k + 1;
    }
    assert s[..|s|] == s;
  }

  /** The prediction continues the difference table: appending it to the
      row appends the prediction of the differences to the differences. */
  lemma ExtendsTable(row: seq<int>)
    requires |row| >= 1
    ensures Differences(row + [NextValue(row)]) == Differences(row) + [NextValue(Differences(row))]
  {
    var next := NextValue(row);
    AppendDifference(row, next);
    if AllZero(row) {
      ZeroRow(row);
      ZeroRow(Differences(row));
    } else {
      Unfold(row);
    }
  }

  /** Appending a value appends its difference from the old last value. */
  lemma AppendDifference(row: seq<int>, v: int)
    requires |row| >= 1
    ensures Differences(row + [v]) == Differences(row) + [v - row[|row| - 1]]
  {
    var ext := row + [v];
    var d := Differences(row);
    var e := Differences(ext);
    forall i | 0 <= i < |d| ensures e[i] == d[i] {
      assert ext[i] == row[i] && ext[i + 1] == row[i + 1];
    }
    assert e[|d|] == v - row[|row| - 1];
  }

  /** One level of the table: a row with a non-zero entry predicts its
      last value plus the prediction of its differences. */
  lemma Unfold(row: seq<int>)
    requires !AllZero(row)
    ensures NextValue(row) == row[|row| - 1] + NextValue(Differences(row))
  {
  }

  /** An empty or all-zero row predicts 0, and so do its differences. */
  lemma ZeroRow(row: seq<int>)
    requires AllZero(row)
    ensures NextValue(row) == 0
    ensures AllZero(Differences(row))
  {
  }

  /** A constant row predicts its value. */
  lemma ConstantRow(row: seq<int>, c: int)
    requires |row| >= 1 && forall i | 0 <= i < |row| :: row[i] == c
    ensures NextValue(row) == c
  {
    if c != 0 {
      assert !AllZero(row) by { assert row[0] != 0; }
      ZeroRow(Differences(row));
      Unfold(row);
    } else {
      ZeroRow(row);
    }
  }

  /** An arithmetic progression with a non-zero step predicts one more
      step. */
  lemma ArithmeticRow(row: seq<int>, d: int)
    requires |row| >= 2 && d != 0
    requires forall i, j | 0 <= i && j == i + 1 < |row| :: row[j] - row[i] == d
    ensures NextValue(row) == row[|row| - 1] + d
  {
    assert !AllZero(row) by { assert row[1] - row[0] == d; }
    var diffs := Differences(row);
    forall i | 0 <= i < |diffs| ensures diffs[i] == d {
    }
    ConstantRow(diffs, d);
    Unfold(row);
  }

  // ---------------------------------------------------------------------
  // Part two: the same prediction on the reversed row.
  // ---------------------------------------------------------------------

  function Reverse(s: seq<int>): (r: seq<int>)
    ensures |r| == |s| && forall i | 0 <= i < |s| :: r[i] == s[|s| - 1 - i]
  {
    seq(|s|, i requires 0 <= i < |s| => s[|s| - 1 - i])
  }

  function Negate(s: seq<int>): (r: seq<int>)
    ensures |r| == |s| && forall i | 0 <= i < |s| :: r[i] == -s[i]
  {
    seq(|s|, i requires 0 <= i < |s| => -s[i])
  }

  /** `row_difference(row.iter().rev())`: the value extrapolated before
      the first one. */
  function PreviousValue(row: seq<int>): int {
    NextValue(Reverse(row))
  }

  /** The differences of the reversed row are the negated differences,
      reversed. */
  lemma ReverseDifferences(row: seq<int>)
    ensures Differences(Reverse(row)) == Negate(Reverse(Differences(row)))
  {
    var n := |row|;
    var r := Reverse(row);
    var d := Differences(row);
    var a := Differences(r);
    var b := Negate(Reverse(d));
    assert |a| == |b|;
    forall i | 0 <= i < |a| ensures a[i] == b[i] {
      assert a[i] == r[i + 1] - r[i];
      assert r[i + 1] == row[n - 2 - i] && r[i] == row[n - 1 - i];
      assert b[i] == -Reverse(d)[i];
      assert Reverse(d)[i] == d[n - 2 - i];
      assert d[n - 2 - i] == row[n - 1 - i] - row[n - 2 - i];
    }
  }

  /** Negating the row negates the prediction. */
  lemma {:induction false} NegatedRow(row: seq<int>)
    ensures NextValue(Negate(row)) == -NextValue(row)
    decreases |row|
  {
    var neg := Negate(row);
    if AllZero(row) {
      assert AllZero(neg);
      ZeroRow(neg);
      ZeroRow(row);
    } else {
      var i :| 0 <= i < |row| && row[i] != 0;
      assert neg[i] != 0;
      var d := Differences(row);
      assert Differences(neg) == Negate(d) by {
        var a := Differences(neg);
        var b := Negate(d);
        forall k | 0 <= k < |a| ensures a[k] == b[k] {
          assert neg[k + 1] == -row[k + 1] && neg[k] == -row[k];
        }
      }
      NegatedRow(d);
      Unfold(row);
      Unfold(neg);
    }
  }

  /** Extrapolating backwards: a row with a non-zero entry has, before its
      first value, that value minus the backward extrapolation of its
      differences. */
  lemma PreviousUnfold(row: seq<int>)
    requires !AllZero(row)
    ensures PreviousValue(row) == row[0] - PreviousValue(Differences(row))
  {
    var rev := Reverse(row);
    var i :| 0 <= i < |row| && row[i] != 0;
    assert rev[|row| - 1 - i] != 0;
    Unfold(rev);
    ReverseDifferences(row);
    NegatedRow(Reverse(Differences(row)));
  }

  /** An arithmetic progression with a non-zero step extends one step
      backwards. */
  lemma ArithmeticRowBackwards(row: seq<int>, d: int)
    requires |row| >= 2 && d != 0
    requires forall i, j | 0 <= i && j == i + 1 < |row| :: row[j] - row[i] == d
    ensures PreviousValue(row) == row[0] - d
  {
    assert !AllZero(row) by { assert row[1] - row[0] == d; }
    var diffs := Differences(row);
    forall i | 0 <= i < |diffs| ensures diffs[i] == d {
    }
    var rd := Reverse(diffs);
    forall i | 0 <= i < |rd| ensures rd[i] == d {
    }
    ConstantRow(rd, d);
    PreviousUnfold(row);
  }
}
