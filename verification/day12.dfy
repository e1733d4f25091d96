/** Day 12, Hot Springs (src/bin/day12.rs): the recursive counter of the
    ways the unknown springs of a row can be filled in so that the runs of
    damaged springs match the row's group list, and the unfolding of a
    row into `amount` copies. */
module Day12 {

  datatype Spring = Operational | Damaged | Unknown

  datatype Row = Row(springs: seq<Spring>, groups: seq<nat>)

  function Sum(s: seq<nat>): nat {
    if |s| == 0 then 0 else s[0] + Sum(s[1..])
  }

  /** `recursive_check` without its memo table. `numPlaced` is the number of
      damaged springs placed so far, `inARow` the length of the run being
      placed and `group` the index of the group that run belongs to. A run
      is only checked not to exceed its group; the exact sizes are checked
      once, at the end, through the total of damaged springs. */
  function RecursiveCheck(remaining: seq<Spring>, toPlace: seq<nat>, numPlaced: nat,
                          inARow: nat, group: nat): nat
    decreases |remaining|
  {
    if group >= |toPlace| && inARow > 0 then 0
    else if group < |toPlace| && toPlace[group] < inARow then 0
    else if |remaining| == 0 then (if numPlaced == Sum(toPlace) then 1 else 0)
    else
      var next := group + (if inARow > 0 then 1 else 0);
      match remaining[0]
      case Operational => RecursiveCheck(remaining[1..], toPlace, numPlaced, 0, next)
      case Damaged => RecursiveCheck(remaining[1..], toPlace, numPlaced + 1, inARow + 1, group)
      case Unknown =>
        RecursiveCheck(remaining[1..], toPlace, numPlaced + 1, inARow + 1, group)
        + RecursiveCheck(remaining[1..], toPlace, numPlaced, 0, next)
  }

  // ---------------------------------------------------------------------
  // A reference definition: enumerate every completion and compare its
  // runs of damaged springs with the groups.
  // ---------------------------------------------------------------------

  /** `[run]` for a finished run, nothing when no run was open. */
  function Closed(run: nat): seq<nat> {
    if run > 0 then [run] else []
  }

  /** The lengths of the maximal runs of `Damaged` in `t`, when `t` is
      preceded by `run` damaged springs. */
  function RunsFrom(t: seq<Spring>, run: nat): seq<nat> {
    if |t| == 0 then Closed(run)
    else if t[0] == Damaged then RunsFrom(t[1..], run + 1)
    else Closed(run) + RunsFrom(t[1..], 0)
  }

  /** The lengths of the maximal runs of damaged springs in `t`. */
  function Runs(t: seq<Spring>): seq<nat> {
    RunsFrom(t, 0)
  }

  /** The number of completions of `s`, each `Unknown` replaced by
      `Operational` or `Damaged`, that extend `prefix` to a row whose runs
      are exactly `groups`. */
  function Completions(s: seq<Spring>, prefix: seq<Spring>, groups: seq<nat>): nat
    decreases |s|
  {
    if |s| == 0 then (if Runs(prefix) == groups then 1 else 0)
    else match s[0]
      case Operational => Completions(s[1..], prefix + [Operational], groups)
      case Damaged => Completions(s[1..], prefix + [Damaged], groups)
      case Unknown =>
        Completions(s[1..], prefix + [Damaged], groups)
        + Completions(s[1..], prefix + [Operational], groups)
  }

  /** The number of arrangements of a row, by enumeration. */
  function Arrangements(springs: seq<Spring>, groups: seq<nat>): nat {
    Completions(springs, [], groups)
  }

  predicate Positive(groups: seq<nat>) {
    forall i | 0 <= i < |groups| :: groups[i] > 0
  }

  predicate Below(c: seq<nat>, groups: seq<nat>) {
    |c| <= |groups| && forall i | 0 <= i < |c| :: c[i] <= groups[i]
  }

  lemma {:induction false} SumAppend(a: seq<nat>, b: seq<nat>)
    ensures Sum(a + b) == Sum(a) + Sum(b)
  {
    if |a| == 0 {
      assert a + b == b;
    } else {
      assert (a + b)[1..] == a[1..] + b;
      SumAppend(a[1..], b);
    }
  }

  /** Runs that never exceed their groups add up to the groups' total only
      when they are the groups. */
  lemma {:induction false} SumBelow(c: seq<nat>, groups: seq<nat>)
    requires Positive(groups) && Below(c, groups)
    ensures Sum(c) <= Sum(groups)
    ensures Sum(c) == Sum(groups) <==> c == groups
  {
    if |c| == 0 {
      if |groups| > 0 {
        assert groups[0] > 0;
      }
    } else {
      SumBelow(c[1..], groups[1..]);
      if c != groups {
        assert c[0] != groups[0] || c[1..] != groups[1..];
      }
    }
  }

  /** An open run is reported first, and at least as long as it already is. */
  lemma {:induction false} OpenRunFirst(t: seq<Spring>, run: nat)
    requires run > 0
    ensures |RunsFrom(t, run)| > 0 && RunsFrom(t, run)[0] >= run
  {
    if |t| > 0 && t[0] == Damaged {
      OpenRunFirst(t[1..], run + 1);
    }
  }

  /** When no extension of `prefix` has the right runs, none is counted. */
  lemma {:induction false} NoCompletions(s: seq<Spring>, prefix: seq<Spring>, groups: seq<nat>)
    requires forall t :: Runs(prefix + t) != groups
    ensures Completions(s, prefix, groups) == 0
    decreases |s|
  {
    if |s| == 0 {
      assert prefix + [] == prefix;
      assert Runs(prefix + []) != groups;
    } else {
      forall c: Spring ensures forall t :: Runs(prefix + [c] + t) != groups {
        forall t ensures Runs(prefix + [c] + t) != groups {
          assert prefix + [c] + t == prefix + ([c] + t);
        }
      }
      NoCompletions(s[1..], prefix + [Operational], groups);
      NoCompletions(s[1..], prefix + [Damaged], groups);
    }
  }

  /** The state of `recursive_check` summarises a prefix: `done` are the
      finished runs, `run` the open one, `placed` their total. */
  ghost predicate Summarises(prefix: seq<Spring>, done: seq<nat>, run: nat, placed: nat) {
    && placed == Sum(done) + run
    && forall t :: Runs(prefix + t) == done + RunsFrom(t, run)
  }

  lemma PrefixShift(prefix: seq<Spring>, c: Spring, t: seq<Spring>)
    ensures prefix + [c] + t == prefix + ([c] + t)
    ensures ([c] + t)[0] == c && ([c] + t)[1..] == t
  {
  }

  lemma DamagedStep(prefix: seq<Spring>, done: seq<nat>, run: nat, placed: nat)
    requires Summarises(prefix, done, run, placed)
    ensures Summarises(prefix + [Damaged], done, run + 1, placed + 1)
  {
    forall t ensures Runs(prefix + [Damaged] + t) == done + RunsFrom(t, run + 1) {
      PrefixShift(prefix, Damaged, t);
      assert RunsFrom([Damaged] + t, run) == RunsFrom(t, run + 1);
    }
  }

  lemma OperationalStep(prefix: seq<Spring>, done: seq<nat>, run: nat, placed: nat)
    requires Summarises(prefix, done, run, placed)
    ensures Summarises(prefix + [Operational], done + Closed(run), 0, placed)
  {
    SumAppend(done, Closed(run));
    forall t ensures Runs(prefix + [Operational] + t) == done + Closed(run) + RunsFrom(t, 0) {
      PrefixShift(prefix, Operational, t);
      assert RunsFrom([Operational] + t, run) == Closed(run) + RunsFrom(t, 0);
    }
  }

  /** The two early returns of `recursive_check`: too many runs, or a run
      longer than its group. */
  predicate Pruned(groups: seq<nat>, group: nat, run: nat) {
    (group >= |groups| && run > 0) || (group < |groups| && groups[group] < run)
  }

  lemma PrunedHasNoCompletions(s: seq<Spring>, groups: seq<nat>, prefix: seq<Spring>,
                               done: seq<nat>, run: nat, placed: nat)
    requires Below(done, groups) && Summarises(prefix, done, run, placed)
    requires Pruned(groups, |done|, run)
    ensures Completions(s, prefix, groups) == 0
  {
    forall t ensures Runs(prefix + t) != groups {
      OpenRunFirst(t, run);
      if |done| < |groups| {
        assert Runs(prefix + t)[|done|] == RunsFrom(t, run)[0];
      }
    }
    NoCompletions(s, prefix, groups);
  }

  /** Closing a run that fits its group keeps the finished runs in bounds. */
  lemma BelowClosed(groups: seq<nat>, done: seq<nat>, run: nat)
    requires Below(done, groups) && !Pruned(groups, |done|, run)
    ensures Below(done + Closed(run), groups)
  {
  }

  lemma EndOfRow(groups: seq<nat>, prefix: seq<Spring>, done: seq<nat>, run: nat, placed: nat)
    requires Positive(groups) && Below(done, groups) && Summarises(prefix, done, run, placed)
    requires !Pruned(groups, |done|, run)
    ensures (placed == Sum(groups)) == (Runs(prefix) == groups)
  {
    var done' := done + Closed(run);
    BelowClosed(groups, done, run);
    assert prefix + [] == prefix;
    assert Runs(prefix + []) == done + RunsFrom([], run);
    SumAppend(done, Closed(run));
    SumBelow(done', groups);
  }

  lemma {:induction false} CheckMatchesCompletions(s: seq<Spring>, groups: seq<nat>, prefix: seq<Spring>,
                                                   done: seq<nat>, run: nat, placed: nat)
    requires Positive(groups) && Below(done, groups)
    requires Summarises(prefix, done, run, placed)
    ensures RecursiveCheck(s, groups, placed, run, |done|) == Completions(s, prefix, groups)
    decreases |s|
  {
    if Pruned(groups, |done|, run) {
      PrunedHasNoCompletions(s, groups, prefix, done, run, placed);
    } else if |s| == 0 {
      EndOfRow(groups, prefix, done, run, placed);
    } else {
      var done' := done + Closed(run);
      BelowClosed(groups, done, run);
      var damaged := RecursiveCheck(s[1..], groups, placed + 1, run + 1, |done|);
      var operational := RecursiveCheck(s[1..], groups, placed, 0, |done'|);
      if s[0] != Operational {
        DamagedStep(prefix, done, run, placed);
        CheckMatchesCompletions(s[1..], groups, prefix + [Damaged], done, run + 1, placed + 1);
      }
      if s[0] != Damaged {
        OperationalStep(prefix, done, run, placed);
        CheckMatchesCompletions(s[1..], groups, prefix + [Operational], done', 0, placed);
      }
      assert |done'| == |done| + (if run > 0 then 1 else 0);
      match s[0]
      case Operational =>
        assert RecursiveCheck(s, groups, placed, run, |done|) == operational;
      case Damaged =>
        assert RecursiveCheck(s, groups, placed, run, |done|) == damaged;
      case Unknown =>
        assert RecursiveCheck(s, groups, placed, run, |done|) == damaged + operational;
    }
  }

  /** For positive groups, `recursive_check` started from the empty state
      counts exactly the completions of the row whose damaged runs are the
      groups. */
  lemma CheckCountsArrangements(springs: seq<Spring>, groups: seq<nat>)
    requires Positive(groups)
    ensures RecursiveCheck(springs, groups, 0, 0, 0) == Arrangements(springs, groups)
  {
    forall t ensures Runs([] + t) == [] + RunsFrom(t, 0) {
      assert [] + t == t;
    }
    CheckMatchesCompletions(springs, groups, [], [], 0, 0);
  }

  /** With a zero-sized group the end-of-row total still matches although
      no row has a run of length zero: `#` against groups `1,0`. */
  lemma ZeroGroupCounted()
    ensures RecursiveCheck([Damaged], [1, 0], 0, 0, 0) == 1
    ensures Arrangements([Damaged], [1, 0]) == 0
  {
    assert [Damaged][1..] == [];
    assert RecursiveCheck([], [1, 0], 1, 1, 0) == 1;
    assert [] + [Damaged] == [Damaged];
    assert RunsFrom([Damaged], 0) == RunsFrom([], 1) == [1];
  }

  // ---------------------------------------------------------------------
  // Unfolding a row.
  // ---------------------------------------------------------------------

  /** `amount` copies of `s`, back to back. */
  function Repeat<T>(s: seq<T>, amount: nat): seq<T> {
    if amount == 0 then [] else s + Repeat(s, amount - 1)
  }

  /** The copies are `|s| * amount` long. */
  lemma {:induction false} RepeatLength<T>(s: seq<T>, amount: nat)
    ensures |Repeat(s, amount)| == |s| * amount
  {
    if amount > 0 {
      RepeatLength(s, amount - 1);
      MulStep(|s|, amount);
    }
  }

  lemma MulStep(n: nat, amount: nat)
    requires amount >= 1
    ensures n * amount == n + n * (amount - 1)
  {
  }

  /** Position `k` of the copies is position `k % |s|` of `s`. */
  lemma {:induction false} RepeatAt<T>(s: seq<T>, amount: nat, k: nat)
    requires |s| > 0 && k < |Repeat(s, amount)|
    ensures Repeat(s, amount)[k] == s[k % |s|]
  {
    if k >= |s| {
      RepeatAt(s, amount - 1, k - |s|);
      ModShift(k - |s|, |s|);
    } else {
      assert k % |s| == k;
    }
  }

  lemma ModShift(k: nat, n: nat)
    requires n > 0
    ensures (k + n) % n == k % n
  {
    ModUnique(k + n, n, k / n + 1, k % n);
  }

  /** The remainder is the only `r` in `[0, n)` with `x == n * q + r`. */
  lemma ModUnique(x: int, n: int, q: int, r: int)
    requires n > 0 && 0 <= r < n && x == n * q + r
    ensures x % n == r
  {
    var d := q - x / n;
    assert n * d == x % n - r;
    if d >= 1 {
      MulAtLeast(n, d);
    } else if d <= -1 {
      MulAtLeast(n, -d);
    }
  }

  lemma MulAtLeast(n: int, d: int)
    requires n > 0 && d >= 1
    ensures n * d >= n && n * -d <= -n
  {
  }

  /** `repeat_and_leak`: the springs repeated `amount` times with an
      `Unknown` between copies (not after the last), and the groups
      repeated `amount` times. `amount - 1` underflows at zero. */
  function RepeatAndLeak(row: Row, amount: nat): (r: (seq<Spring>, seq<nat>))
    requires amount >= 1
    ensures |r.0| == |row.springs| * amount + amount - 1
    ensures forall k | 0 <= k < |r.0| ::
      r.0[k] == if k % (|row.springs| + 1) == |row.springs| then Unknown
                else row.springs[k % (|row.springs| + 1)]
    ensures |r.1| == |row.groups| * amount
    ensures forall k | 0 <= k < |r.1| :: r.1[k] == row.groups[k % |row.groups|]
  {
    var block := row.springs + [Unknown];
    var all := Repeat(block, amount);
    RepeatLength(block, amount);
    RepeatLength(row.groups, amount);
    assert |all| == |row.springs| * amount + amount;
    forall k | 0 <= k < |all| ensures all[k] == block[k % |block|] {
      RepeatAt(block, amount, k);
    }
    var groups := Repeat(row.groups, amount);
    forall k | 0 <= k < |groups| ensures groups[k] == row.groups[k % |row.groups|] {
      RepeatAt(row.groups, amount, k);
    }
    (all[..|row.springs| * amount + amount - 1], groups)
  }

  /** `num_arrangements`, the parallel sum made sequential. */
  function NumArrangements(rows: seq<Row>, amount: nat): (r: nat)
    requires amount >= 1
    ensures (forall i | 0 <= i < |rows| :: Positive(rows[i].groups)) ==>
      r == TotalArrangements(rows, amount)
  {
    if |rows| == 0 then 0
    else
      var (springs, groups) := RepeatAndLeak(rows[0], amount);
      UnfoldedRowCounts(rows[0], amount);
      RecursiveCheck(springs, groups, 0, 0, 0) + NumArrangements(rows[1..], amount)
  }

  lemma UnfoldedRowCounts(row: Row, amount: nat)
    requires amount >= 1
    ensures Positive(row.groups) ==>
      RecursiveCheck(RepeatAndLeak(row, amount).0, RepeatAndLeak(row, amount).1, 0, 0, 0)
      == Arrangements(RepeatAndLeak(row, amount).0, RepeatAndLeak(row, amount).1)
  {
    if Positive(row.groups) {
      CheckCountsArrangements(RepeatAndLeak(row, amount).0, RepeatAndLeak(row, amount).1);
    }
  }

  /** The enumerated arrangements of every unfolded row, summed. */
  function TotalArrangements(rows: seq<Row>, amount: nat): nat
    requires amount >= 1
  {
    if |rows| == 0 then 0
    else
      var (springs, groups) := RepeatAndLeak(rows[0], amount);
      Arrangements(springs, groups) + TotalArrangements(rows[1..], amount)
  }
}
