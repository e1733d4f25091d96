/** Day 3, Gear Ratios (src/bin/day3.rs): scanning an engine schematic
    for numbers and symbols, then summing the numbers next to a symbol and
    the products of the numbers next to a gear. */
module Day3 {

  type Byte = b: int | 0 <= b < 256

  const DOT: Byte := 46
  const STAR: Byte := 42

  /** `u8::is_ascii_digit`. */
  predicate IsDigit(b: Byte) { 48 <= b <= 57 }

  /** A byte that is neither `.` nor a digit: the scanner makes it a
      symbol. */
  predicate IsSymbol(b: Byte) { b != DOT && !IsDigit(b) }

  /** One byte of the schematic with its line and column. */
  datatype Cell = Cell(row: nat, col: nat, b: Byte)

  /** `Number`: the value and the inclusive row and column ranges of the
      box around it. */
  datatype Number = Number(rowLo: int, rowHi: int, colLo: int, colHi: int, num: nat)

  /** `Symbol`, with the byte read as a `char`. */
  datatype Symbol = Symbol(row: int, col: int, symbol: Byte)

  // ---------------------------------------------------------------------
  // The flattened byte stream.
  // ---------------------------------------------------------------------

  function RowCells(line: seq<Byte>, row: nat): (r: seq<Cell>)
    ensures |r| == |line| && forall j | 0 <= j < |line| :: r[j] == Cell(row, j, line[j])
  {
    seq(|line|, j requires 0 <= j < |line| => Cell(row, j, line[j]))
  }

  /** `s` lays out the lines from row `y` on: every cell holds the byte
      at its row and column, every byte of those lines has its cell, the
      first cell starts a line, and each cell is either the next column of
      the same line or the start of a later line. */
  predicate LaysOut(lines: seq<seq<Byte>>, y: nat, s: seq<Cell>) {
    (forall k | 0 <= k < |s| ::
      y <= s[k].row < |lines| && s[k].col < |lines[s[k].row]| && s[k].b == lines[s[k].row][s[k].col]) &&
    (forall i, j | y <= i < |lines| && 0 <= j < |lines[i]| :: Cell(i, j, lines[i][j]) in s) &&
    (|s| > 0 ==> s[0].col == 0) &&
    (forall k | 0 < k < |s| ::
      (s[k].row == s[k - 1].row && s[k].col == s[k - 1].col + 1) || (s[k].row > s[k - 1].row && s[k].col == 0))
  }

  /** The bytes of the lines from row `y` on, one after the other, as
      `lines().enumerate().flat_map(...)` yields them. */
  function Flatten(lines: seq<seq<Byte>>, y: nat): (s: seq<Cell>)
    requires y <= |lines|
    ensures LaysOut(lines, y, s)
    decreases |lines| - y
  {
    if y == |lines| then []
    else
      var here := RowCells(lines[y], y);
      var rest := Flatten(lines, y + 1);
      FlattenStep(lines, y, here, rest);
      here + rest
  }

  /** A row's cells followed by a layout of the later rows lay out the
      rows from this one on. */
  lemma FlattenStep(lines: seq<seq<Byte>>, y: nat, here: seq<Cell>, rest: seq<Cell>)
    requires y < |lines| && here == RowCells(lines[y], y) && LaysOut(lines, y + 1, rest)
    ensures LaysOut(lines, y, here + rest)
  {
    FlattenStepCells(lines, y, here, rest);
    FlattenStepCovers(lines, y, here, rest);
    FlattenStepOrder(lines, y, here, rest);
  }

  lemma FlattenStepCells(lines: seq<seq<Byte>>, y: nat, here: seq<Cell>, rest: seq<Cell>)
    requires y < |lines| && here == RowCells(lines[y], y) && LaysOut(lines, y + 1, rest)
    ensures forall k | 0 <= k < |here + rest| :: var c := (here + rest)[k];
      y <= c.row < |lines| && c.col < |lines[c.row]| && c.b == lines[c.row][c.col]
  {
    var s := here + rest;
    forall k | 0 <= k < |s|
      ensures y <= s[k].row < |lines| && s[k].col < |lines[s[k].row]| && s[k].b == lines[s[k].row][s[k].col]
    {
      if k >= |here| {
        assert s[k] == rest[k - |here|];
      }
    }
  }

  lemma FlattenStepCovers(lines: seq<seq<Byte>>, y: nat, here: seq<Cell>, rest: seq<Cell>)
    requires y < |lines| && here == RowCells(lines[y], y) && LaysOut(lines, y + 1, rest)
    ensures forall i, j | y <= i < |lines| && 0 <= j < |lines[i]| :: Cell(i, j, lines[i][j]) in here + rest
  {
    var s := here + rest;
    forall i, j | y <= i < |lines| && 0 <= j < |lines[i]| ensures Cell(i, j, lines[i][j]) in s {
      if i == y {
        assert s[j] == Cell(i, j, lines[i][j]);
      } else {
        assert Cell(i, j, lines[i][j]) in rest;
      }
    }
  }

  lemma FlattenStepOrder(lines: seq<seq<Byte>>, y: nat, here: seq<Cell>, rest: seq<Cell>)
    requires y < |lines| && here == RowCells(lines[y], y) && LaysOut(lines, y + 1, rest)
    ensures |here + rest| > 0 ==> (here + rest)[0].col == 0
    ensures forall k | 0 < k < |here + rest| :: var s := here + rest;
      (s[k].row == s[k - 1].row && s[k].col == s[k - 1].col + 1) || (s[k].row > s[k - 1].row && s[k].col == 0)
  {
    var s := here + rest;
    forall k | 0 < k < |s|
      ensures (s[k].row == s[k - 1].row && s[k].col == s[k - 1].col + 1) || (s[k].row > s[k - 1].row && s[k].col == 0)
    {
      if k < |here| {
        assert s[k] == here[k] && s[k - 1] == here[k - 1];
      } else if k == |here| {
        assert s[k] == rest[0] && s[k - 1] == here[k - 1];
      } else {
        assert s[k] == rest[k - |here|] && s[k - 1] == rest[k - 1 - |here|];
      }
    }
  }

  // ---------------------------------------------------------------------
  // The scanner.
  // ---------------------------------------------------------------------

  /** The length of the digit run from `p`. As written the run goes on
      across line ends; with `stopAtLineEnd` it also ends where the line
      `row` does. */
  function RunLength(s: seq<Cell>, p: nat, row: nat, stopAtLineEnd: bool): (len: nat)
    requires p <= |s|
    ensures p + len <= |s|
    ensures forall k | p <= k < p + len :: IsDigit(s[k].b) && (stopAtLineEnd ==> s[k].row == row)
    ensures p + len == |s| || !IsDigit(s[p + len].b) || (stopAtLineEnd && s[p + len].row != row)
    decreases |s| - p
  {
    if p == |s| || !IsDigit(s[p].b) || (stopAtLineEnd && s[p].row != row) then 0
    else 1 + RunLength(s, p + 1, row, stopAtLineEnd)
  }

  /** The decimal value of the digits `s[p..e]`. */
  function DigitsValue(s: seq<Cell>, p: nat, e: nat): nat
    requires p <= e <= |s|
    requires forall k | p <= k < e :: IsDigit(s[k].b)
    decreases e - p
  {
    if e == p then 0
    else
      assert IsDigit(s[e - 1].b);
      DigitsValue(s, p, e - 1) * 10 + (s[e - 1].b - 48)
  }

  /** `p` continues the digit run of `p - 1`. */
  predicate Continues(s: seq<Cell>, p: nat, stopAtLineEnd: bool)
    requires p < |s|
  {
    p > 0 && IsDigit(s[p - 1].b) && IsDigit(s[p].b) && (stopAtLineEnd ==> s[p - 1].row == s[p].row)
  }

  /** A digit run begins at `p`. */
  predicate RunStart(s: seq<Cell>, p: nat, stopAtLineEnd: bool)
    requires p < |s|
  {
    IsDigit(s[p].b) && !Continues(s, p, stopAtLineEnd)
  }

  /** The number whose run starts at `p`: its box reaches one row above
      and below the start's row, and from the column before the start to
      the column `len` further on. */
  function NumberAt(s: seq<Cell>, p: nat, stopAtLineEnd: bool): (n: Number)
    requires p < |s|
  {
    var len := RunLength(s, p, s[p].row, stopAtLineEnd);
    Number(s[p].row - 1, s[p].row + 1, s[p].col - 1, s[p].col + len, DigitsValue(s, p, p + len))
  }

  function SymbolAt(c: Cell): Symbol {
    Symbol(c.row, c.col, c.b)
  }

  /** The positions a run covers continue it, and the one after it does
      not. */
  lemma RunFacts(s: seq<Cell>, p: nat, stopAtLineEnd: bool)
    requires p < |s| && IsDigit(s[p].b)
    ensures var len := RunLength(s, p, s[p].row, stopAtLineEnd);
      len >= 1 &&
      (forall q | p < q < p + len :: Continues(s, q, stopAtLineEnd)) &&
      (p + len < |s| ==> !Continues(s, p + len, stopAtLineEnd))
  {
    var len := RunLength(s, p, s[p].row, stopAtLineEnd);
    forall q | p < q < p + len ensures Continues(s, q, stopAtLineEnd) {
      assert IsDigit(s[q - 1].b) && IsDigit(s[q].b);
    }
  }

  /** `n` is the number of a run starting at or after `p`. */
  ghost predicate NumberFrom(n: Number, s: seq<Cell>, p: nat, stopAtLineEnd: bool) {
    exists q: nat | p <= q < |s| :: RunStart(s, q, stopAtLineEnd) && n == NumberAt(s, q, stopAtLineEnd)
  }

  /** `y` is the symbol of a position at or after `p`. */
  ghost predicate SymbolFrom(y: Symbol, s: seq<Cell>, p: nat) {
    exists q: nat | p <= q < |s| :: IsSymbol(s[q].b) && y == SymbolAt(s[q])
  }

  ghost predicate NumbersFrom(nums: seq<Number>, s: seq<Cell>, p: nat, stopAtLineEnd: bool) {
    forall k | 0 <= k < |nums| :: NumberFrom(nums[k], s, p, stopAtLineEnd)
  }

  ghost predicate SymbolsFrom(syms: seq<Symbol>, s: seq<Cell>, p: nat) {
    forall k | 0 <= k < |syms| :: SymbolFrom(syms[k], s, p)
  }

  lemma NumbersFromEarlier(nums: seq<Number>, s: seq<Cell>, p: nat, p': nat, stopAtLineEnd: bool)
    requires p' <= p && NumbersFrom(nums, s, p, stopAtLineEnd)
    ensures NumbersFrom(nums, s, p', stopAtLineEnd)
  {
    forall k | 0 <= k < |nums| ensures NumberFrom(nums[k], s, p', stopAtLineEnd) {
      var q: nat :| p <= q < |s| && RunStart(s, q, stopAtLineEnd) && nums[k] == NumberAt(s, q, stopAtLineEnd);
    }
  }

  lemma SymbolsFromEarlier(syms: seq<Symbol>, s: seq<Cell>, p: nat, p': nat)
    requires p' <= p && SymbolsFrom(syms, s, p)
    ensures SymbolsFrom(syms, s, p')
  {
    forall k | 0 <= k < |syms| ensures SymbolFrom(syms[k], s, p') {
      var q: nat :| p <= q < |s| && IsSymbol(s[q].b) && syms[k] == SymbolAt(s[q]);
    }
  }

  /** Putting the number of the run at `p` in front. */
  lemma NumbersFromCons(nums: seq<Number>, s: seq<Cell>, p: nat, p': nat, stopAtLineEnd: bool)
    requires p < p' && p < |s| && RunStart(s, p, stopAtLineEnd) && NumbersFrom(nums, s, p', stopAtLineEnd)
    ensures NumbersFrom([NumberAt(s, p, stopAtLineEnd)] + nums, s, p, stopAtLineEnd)
  {
    var all := [NumberAt(s, p, stopAtLineEnd)] + nums;
    NumbersFromEarlier(nums, s, p', p, stopAtLineEnd);
    forall k | 0 <= k < |all| ensures NumberFrom(all[k], s, p, stopAtLineEnd) {
      if k > 0 {
        assert all[k] == nums[k - 1];
      }
    }
  }

  lemma SymbolsFromCons(syms: seq<Symbol>, s: seq<Cell>, p: nat)
    requires p < |s| && IsSymbol(s[p].b) && SymbolsFrom(syms, s, p + 1)
    ensures SymbolsFrom([SymbolAt(s[p])] + syms, s, p)
  {
    var all := [SymbolAt(s[p])] + syms;
    SymbolsFromEarlier(syms, s, p + 1, p);
    forall k | 0 <= k < |all| ensures SymbolFrom(all[k], s, p) {
      if k > 0 {
        assert all[k] == syms[k - 1];
      }
    }
  }

  /** The scan of `parse` from stream position `p`: `.` is skipped, a digit
      starts a run that becomes one `Number`, and any other byte is a
      `Symbol`. Every step consumes at least one byte. */
  function Scan(s: seq<Cell>, p: nat, stopAtLineEnd: bool): (r: (seq<Number>, seq<Symbol>))
    requires p <= |s| && (p < |s| ==> !Continues(s, p, stopAtLineEnd))
    ensures |r.0| + |r.1| <= |s| - p
    decreases |s| - p
  {
    if p == |s| then ([], [])
    else if s[p].b == DOT then
      Scan(s, p + 1, stopAtLineEnd)
    else if IsDigit(s[p].b) then
      var len := RunLength(s, p, s[p].row, stopAtLineEnd);
      RunFacts(s, p, stopAtLineEnd);
      var rest := Scan(s, p + len, stopAtLineEnd);
      ([NumberAt(s, p, stopAtLineEnd)] + rest.0, rest.1)
    else
      var rest := Scan(s, p + 1, stopAtLineEnd);
      (rest.0, [SymbolAt(s[p])] + rest.1)
  }

  /** The numbers of the scan are exactly those of the runs from `p` on. */
  lemma {:induction false} ScanNumbers(s: seq<Cell>, p: nat, stopAtLineEnd: bool)
    requires p <= |s| && (p < |s| ==> !Continues(s, p, stopAtLineEnd))
    ensures NumbersFrom(Scan(s, p, stopAtLineEnd).0, s, p, stopAtLineEnd)
    ensures forall q | p <= q < |s| && RunStart(s, q, stopAtLineEnd) :: NumberAt(s, q, stopAtLineEnd) in Scan(s, p, stopAtLineEnd).0
    decreases |s| - p
  {
    if p == |s| {
    } else if IsDigit(s[p].b) {
      var len := RunLength(s, p, s[p].row, stopAtLineEnd);
      RunFacts(s, p, stopAtLineEnd);
      var rest := Scan(s, p + len, stopAtLineEnd).0;
      assert Scan(s, p, stopAtLineEnd).0 == [NumberAt(s, p, stopAtLineEnd)] + rest;
      ScanNumbers(s, p + len, stopAtLineEnd);
      NumbersFromCons(rest, s, p, p + len, stopAtLineEnd);
    } else {
      var rest := Scan(s, p + 1, stopAtLineEnd).0;
      ScanNumbers(s, p + 1, stopAtLineEnd);
      NumbersFromEarlier(rest, s, p + 1, p, stopAtLineEnd);
    }
  }

  /** Every symbol of the scan comes from a symbol byte from `p` on. */
  lemma {:induction false} ScanSymbolsSound(s: seq<Cell>, p: nat, stopAtLineEnd: bool)
    requires p <= |s| && (p < |s| ==> !Continues(s, p, stopAtLineEnd))
    ensures SymbolsFrom(Scan(s, p, stopAtLineEnd).1, s, p)
    decreases |s| - p
  {
    if p == |s| {
    } else if IsDigit(s[p].b) {
      var len := RunLength(s, p, s[p].row, stopAtLineEnd);
      RunFacts(s, p, stopAtLineEnd);
      var rest := Scan(s, p + len, stopAtLineEnd).1;
      assert Scan(s, p, stopAtLineEnd).1 == rest;
      ScanSymbolsSound(s, p + len, stopAtLineEnd);
      SymbolsFromEarlier(rest, s, p + len, p);
    } else if s[p].b == DOT {
      var rest := Scan(s, p + 1, stopAtLineEnd).1;
      assert Scan(s, p, stopAtLineEnd).1 == rest;
      ScanSymbolsSound(s, p + 1, stopAtLineEnd);
      SymbolsFromEarlier(rest, s, p + 1, p);
    } else {
      var rest := Scan(s, p + 1, stopAtLineEnd).1;
      assert Scan(s, p, stopAtLineEnd).1 == [SymbolAt(s[p])] + rest;
      ScanSymbolsSound(s, p + 1, stopAtLineEnd);
      SymbolsFromCons(rest, s, p);
    }
  }

  /** Every symbol byte from `p` on gives a symbol of the scan. */
  lemma {:induction false} ScanSymbolsComplete(s: seq<Cell>, p: nat, stopAtLineEnd: bool)
    requires p <= |s| && (p < |s| ==> !Continues(s, p, stopAtLineEnd))
    ensures forall q | p <= q < |s| && IsSymbol(s[q].b) :: SymbolAt(s[q]) in Scan(s, p, stopAtLineEnd).1
    decreases |s| - p
  {
    if p == |s| {
    } else if IsDigit(s[p].b) {
      var len := RunLength(s, p, s[p].row, stopAtLineEnd);
      RunFacts(s, p, stopAtLineEnd);
      assert Scan(s, p, stopAtLineEnd).1 == Scan(s, p + len, stopAtLineEnd).1;
      ScanSymbolsComplete(s, p + len, stopAtLineEnd);
      assert forall q | p <= q < p + len :: !IsSymbol(s[q].b);
    } else if s[p].b == DOT {
      assert Scan(s, p, stopAtLineEnd).1 == Scan(s, p + 1, stopAtLineEnd).1;
      ScanSymbolsComplete(s, p + 1, stopAtLineEnd);
    } else {
      var rest := Scan(s, p + 1, stopAtLineEnd).1;
      assert Scan(s, p, stopAtLineEnd).1 == [SymbolAt(s[p])] + rest;
      ScanSymbolsComplete(s, p + 1, stopAtLineEnd);
    }
  }

  /** `parse`, as written: the digit runs of the flattened stream. */
  function Parse(lines: seq<seq<Byte>>): (seq<Number>, seq<Symbol>) {
    Scan(Flatten(lines, 0), 0, false)
  }

  /** `parse` with runs ended at line ends. */
  function ParseByLine(lines: seq<seq<Byte>>): (seq<Number>, seq<Symbol>) {
    Scan(Flatten(lines, 0), 0, true)
  }

  // ---------------------------------------------------------------------
  // Part numbers.
  // ---------------------------------------------------------------------

  /** `rows.contains(&row) && cols.contains(&col)`: the symbol lies in the
      number's box. */
  predicate Touches(n: Number, y: Symbol) {
    n.rowLo <= y.row <= n.rowHi && n.colLo <= y.col <= n.colHi
  }

  /** Some symbol lies in the number's box (`any`). */
  predicate IsPart(n: Number, syms: seq<Symbol>) {
    exists k | 0 <= k < |syms| :: Touches(n, syms[k])
  }

  /** The numbers with a symbol in their box, in order. */
  function PartNumbers(nums: seq<Number>, syms: seq<Symbol>): (r: seq<Number>)
    ensures forall n :: n in r <==> n in nums && IsPart(n, syms)
    ensures |r| <= |nums|
  {
    if |nums| == 0 then []
    else (if IsPart(nums[0], syms) then [nums[0]] else []) + PartNumbers(nums[1..], syms)
  }

  function Values(nums: seq<Number>): nat {
    if |nums| == 0 then 0 else nums[0].num + Values(nums[1..])
  }

  /** The sum of part numbers. */
  function PartSum(nums: seq<Number>, syms: seq<Symbol>): nat {
    Values(PartNumbers(nums, syms))
  }

  lemma PartSumCons(nums: seq<Number>, syms: seq<Symbol>)
    requires |nums| > 0
    ensures PartSum(nums, syms) == (if IsPart(nums[0], syms) then nums[0].num else 0) + PartSum(nums[1..], syms)
  {
    var rest := PartNumbers(nums[1..], syms);
    if IsPart(nums[0], syms) {
      assert ([nums[0]] + rest)[1..] == rest;
    } else {
      assert [] + rest == rest;
    }
  }

  /** More symbols never lose a part number. */
  lemma {:induction false} PartSumMonotone(nums: seq<Number>, syms: seq<Symbol>, more: seq<Symbol>)
    requires forall k | 0 <= k < |syms| :: syms[k] in more
    ensures PartSum(nums, syms) <= PartSum(nums, more)
  {
    if |nums| > 0 {
      PartSumCons(nums, syms);
      PartSumCons(nums, more);
      PartSumMonotone(nums[1..], syms, more);
      if IsPart(nums[0], syms) {
        var k :| 0 <= k < |syms| && Touches(nums[0], syms[k]);
        var k' :| 0 <= k' < |more| && more[k'] == syms[k];
        assert IsPart(nums[0], more);
      }
    }
  }

  /** Without symbols nothing is a part number. */
  lemma {:induction false} NoSymbolsNoParts(nums: seq<Number>)
    ensures PartSum(nums, []) == 0
  {
    if |nums| > 0 {
      PartSumCons(nums, []);
      NoSymbolsNoParts(nums[1..]);
    }
  }

  /** When every number has a symbol in its box, all of them are summed. */
  lemma {:induction false} AllParts(nums: seq<Number>, syms: seq<Symbol>)
    requires forall k | 0 <= k < |nums| :: IsPart(nums[k], syms)
    ensures PartSum(nums, syms) == Values(nums)
  {
    if |nums| > 0 {
      assert forall k | 0 <= k < |nums[1..]| :: nums[1..][k] == nums[k + 1];
      PartSumCons(nums, syms);
      AllParts(nums[1..], syms);
    }
  }

  // ---------------------------------------------------------------------
  // Gear ratios.
  // ---------------------------------------------------------------------

  /** The numbers whose box holds the symbol, in order. */
  function Adjacent(nums: seq<Number>, y: Symbol): (r: seq<Number>)
    ensures forall n :: n in r <==> n in nums && Touches(n, y)
    ensures |r| <= |nums|
  {
    if |nums| == 0 then []
    else Adjacent(nums[..|nums| - 1], y) + (if Touches(nums[|nums| - 1], y) then [nums[|nums| - 1]] else [])
  }

  /** Numbers `i < j` are the only two whose box holds the symbol. */
  predicate ExactlyTwo(nums: seq<Number>, y: Symbol, i: nat, j: nat) {
    i < j < |nums| && Touches(nums[i], y) && Touches(nums[j], y) &&
    forall k | 0 <= k < |nums| && k != i && k != j :: !Touches(nums[k], y)
  }

  /** The entries of `nums` at the indices `idx`. */
  function Pick(nums: seq<Number>, idx: seq<nat>): (r: seq<Number>)
    requires forall t | 0 <= t < |idx| :: idx[t] < |nums|
    ensures |r| == |idx| && forall t | 0 <= t < |idx| :: r[t] == nums[idx[t]]
  {
    seq(|idx|, t requires 0 <= t < |idx| => nums[idx[t]])
  }

  /** `idx` lists, increasing, exactly the indices of the numbers whose
      box holds the symbol. */
  predicate TouchIndices(nums: seq<Number>, y: Symbol, idx: seq<nat>) {
    (forall t | 0 <= t < |idx| :: idx[t] < |nums| && Touches(nums[idx[t]], y)) &&
    (forall t, u | 0 <= t < u < |idx| :: idx[t] < idx[u]) &&
    (forall k | 0 <= k < |nums| && Touches(nums[k], y) :: k in idx)
  }

  /** Dropping the last number: the last index goes with it if it
      touches. */
  lemma TouchIndicesInit(nums: seq<Number>, y: Symbol, idx: seq<nat>)
    requires |nums| > 0 && TouchIndices(nums, y, idx)
    ensures var n := |nums| - 1;
      if Touches(nums[n], y) then |idx| > 0 && idx[|idx| - 1] == n && TouchIndices(nums[..n], y, idx[..|idx| - 1])
      else TouchIndices(nums[..n], y, idx)
  {
    var n := |nums| - 1;
    var init := nums[..n];
    if Touches(nums[n], y) {
      var t :| 0 <= t < |idx| && idx[t] == n;
      assert idx[|idx| - 1] < |nums|;
      assert t == |idx| - 1;
      var idx' := idx[..|idx| - 1];
      forall k | 0 <= k < |init| && Touches(init[k], y) ensures k in idx' {
        assert nums[k] == init[k];
        var u :| 0 <= u < |idx| && idx[u] == k;
        assert idx'[u] == k;
      }
      forall t' | 0 <= t' < |idx'| ensures idx'[t'] < |init| {
        assert idx[t'] < idx[|idx| - 1];
      }
    } else {
      forall t | 0 <= t < |idx| ensures idx[t] < n {
        assert idx[t] != n;
      }
    }
  }

  lemma PickLast(nums: seq<Number>, idx: seq<nat>)
    requires |nums| > 0 && |idx| > 0 && idx[|idx| - 1] == |nums| - 1
    requires forall t | 0 <= t < |idx| - 1 :: idx[t] < |nums| - 1
    ensures Pick(nums, idx) == Pick(nums[..|nums| - 1], idx[..|idx| - 1]) + [nums[|nums| - 1]]
  {
  }

  lemma PickInit(nums: seq<Number>, idx: seq<nat>)
    requires |nums| > 0 && forall t | 0 <= t < |idx| :: idx[t] < |nums| - 1
    ensures Pick(nums, idx) == Pick(nums[..|nums| - 1], idx)
  {
  }

  /** The touching numbers are those at the increasing indices `idx`. */
  lemma {:induction false} AdjacentAt(nums: seq<Number>, y: Symbol, idx: seq<nat>)
    requires TouchIndices(nums, y, idx)
    ensures Adjacent(nums, y) == Pick(nums, idx)
  {
    if |nums| > 0 {
      var n := |nums| - 1;
      TouchIndicesInit(nums, y, idx);
      if Touches(nums[n], y) {
        var idx' := idx[..|idx| - 1];
        AdjacentAt(nums[..n], y, idx');
        PickLast(nums, idx);
      } else {
        AdjacentAt(nums[..n], y, idx);
        PickInit(nums, idx);
      }
    }
  }

  /** The gear rule for one symbol: the product of its two adjacent
      numbers when there are exactly two, and 0 otherwise. */
  function GearRatio(y: Symbol, nums: seq<Number>): (r: nat)
    ensures |Adjacent(nums, y)| != 2 ==> r == 0
  {
    var adjacent := Adjacent(nums, y);
    if |adjacent| == 2 then adjacent[0].num * adjacent[1].num else 0
  }

  /** With exactly the numbers `i` and `j` around it, the ratio is their
      product. */
  lemma GearOfTwo(nums: seq<Number>, y: Symbol, i: nat, j: nat)
    requires ExactlyTwo(nums, y, i, j)
    ensures GearRatio(y, nums) == nums[i].num * nums[j].num
  {
    var idx := [i, j];
    forall k | 0 <= k < |nums| && Touches(nums[k], y) ensures k in idx {
    }
    AdjacentAt(nums, y, idx);
  }

  /** With a single adjacent number, or three, a symbol is no gear. */
  lemma NotAGear(nums: seq<Number>, y: Symbol, idx: seq<nat>)
    requires |idx| != 2 && TouchIndices(nums, y, idx)
    ensures GearRatio(y, nums) == 0
  {
    AdjacentAt(nums, y, idx);
  }

  /** The sum of gear ratios over the `*` symbols. */
  function GearSum(syms: seq<Symbol>, nums: seq<Number>): nat {
    if |syms| == 0 then 0
    else (if syms[0].symbol == STAR then GearRatio(syms[0], nums) else 0) + GearSum(syms[1..], nums)
  }

  /** Only `*` symbols can be gears. */
  lemma {:induction false} NoStarNoGears(syms: seq<Symbol>, nums: seq<Number>)
    requires forall k | 0 <= k < |syms| :: syms[k].symbol != STAR
    ensures GearSum(syms, nums) == 0
  {
    if |syms| > 0 {
      assert forall k | 0 <= k < |syms[1..]| :: syms[1..][k] == syms[k + 1];
      NoStarNoGears(syms[1..], nums);
    }
  }

  // ---------------------------------------------------------------------
  // The box and the digits.
  // ---------------------------------------------------------------------

  /** Position `(r, c)` is on or next to `(r', c')`, diagonals included. */
  predicate NextTo(r: int, c: int, r': int, c': int) {
    -1 <= r - r' <= 1 && -1 <= c - c' <= 1
  }

  /** For a run of `len >= 1` digits at `(row, col)`, the box holds
      exactly the positions next to one of the digits `(row, col + t)`. */
  lemma BoxIsNeighbourhood(row: int, col: int, len: nat, v: nat, y: Symbol)
    requires len >= 1
    ensures Touches(Number(row - 1, row + 1, col - 1, col + len, v), y) <==>
      exists c | col <= c < col + len :: NextTo(y.row, y.col, row, c)
  {
    if Touches(Number(row - 1, row + 1, col - 1, col + len, v), y) {
      var c := if y.col < col then col else if y.col >= col + len then col + len - 1 else y.col;
      assert NextTo(y.row, y.col, row, c);
    }
  }

  /** Each cell is the next column of the previous one's line, or starts
      a later line: what a layout guarantees about neighbours. */
  predicate Consecutive(s: seq<Cell>) {
    forall k | 0 < k < |s| ::
      (s[k].row == s[k - 1].row && s[k].col == s[k - 1].col + 1) || (s[k].row > s[k - 1].row && s[k].col == 0)
  }

  lemma FlattenConsecutive(lines: seq<seq<Byte>>)
    ensures Consecutive(Flatten(lines, 0))
  {
  }

  /** With runs ended at line ends, a run's digits sit in consecutive
      columns of its first row. */
  lemma {:induction false} RunCells(s: seq<Cell>, p: nat, q: nat)
    requires Consecutive(s) && p <= q < |s| && q < p + RunLength(s, p, s[p].row, true)
    ensures s[q].row == s[p].row && s[q].col == s[p].col + (q - p)
    decreases q - p
  {
    if q > p {
      RunCells(s, p, q - 1);
      assert s[q].row == s[p].row;
    }
  }

  /** With runs ended at line ends, a symbol lies in a number's box
      exactly when it is next to one of the number's digits. */
  lemma ByLineBoxIsDigitNeighbourhood(s: seq<Cell>, p: nat, y: Symbol)
    requires Consecutive(s) && p < |s| && RunStart(s, p, true)
    ensures Touches(NumberAt(s, p, true), y) <==>
      exists q | p <= q < p + RunLength(s, p, s[p].row, true) :: NextTo(y.row, y.col, s[q].row, s[q].col)
  {
    var len := RunLength(s, p, s[p].row, true);
    RunFacts(s, p, true);
    var n := NumberAt(s, p, true);
    BoxIsNeighbourhood(s[p].row, s[p].col, len, n.num, y);
    if Touches(n, y) {
      var c :| s[p].col <= c < s[p].col + len && NextTo(y.row, y.col, s[p].row, c);
      var q := p + (c - s[p].col);
      RunCells(s, p, q);
      assert NextTo(y.row, y.col, s[q].row, s[q].col);
    } else {
      forall q | p <= q < p + len ensures !NextTo(y.row, y.col, s[q].row, s[q].col) {
        RunCells(s, p, q);
      }
    }
  }
}

/** A schematic whose digit run wraps from one line to the next: the
    lines "1", "2" and "*". */
module Day3Wrap {
  import opened Day3

  const Schematic: seq<seq<Byte>> := [[49], [50], [42]]
  const Stream: seq<Cell> := [Cell(0, 0, 49), Cell(1, 0, 50), Cell(2, 0, 42)]
  const Star: Symbol := Symbol(2, 0, 42)

  lemma StreamOfSchematic()
    ensures Flatten(Schematic, 0) == Stream
  {
    FlattenFromOne();
    assert RowCells(Schematic[0], 0) == [Cell(0, 0, 49)];
  }

  lemma FlattenFromOne()
    ensures Flatten(Schematic, 1) == [Cell(1, 0, 50), Cell(2, 0, 42)]
  {
    FlattenFromTwo();
    assert RowCells(Schematic[1], 1) == [Cell(1, 0, 50)];
  }

  lemma FlattenFromTwo()
    ensures Flatten(Schematic, 2) == [Cell(2, 0, 42)]
  {
    assert Flatten(Schematic, 3) == [];
    assert RowCells(Schematic[2], 2) == [Cell(2, 0, 42)];
  }

  lemma ScanTail(stop: bool)
    ensures Scan(Stream, 2, stop) == ([], [Star])
  {
    assert Scan(Stream, 3, stop) == ([], []);
    assert !IsDigit(Stream[2].b) && Stream[2].b != DOT;
    assert Scan(Stream, 2, stop) == (Scan(Stream, 3, stop).0, [SymbolAt(Stream[2])] + Scan(Stream, 3, stop).1);
    assert [SymbolAt(Stream[2])] + [] == [Star];
  }

  lemma WrappedNumber()
    ensures RunLength(Stream, 0, 0, false) == 2
    ensures NumberAt(Stream, 0, false) == Number(-1, 1, -1, 2, 12)
  {
    assert RunLength(Stream, 2, 0, false) == 0;
    assert RunLength(Stream, 0, 0, false) == 2;
    assert DigitsValue(Stream, 0, 2) == 12 by {
      assert DigitsValue(Stream, 0, 1) == 1;
    }
  }

  lemma WrappedScan()
    ensures Scan(Stream, 0, false) == ([Number(-1, 1, -1, 2, 12)], [Star])
  {
    WrappedNumber();
    ScanTail(false);
    assert Scan(Stream, 0, false) == ([NumberAt(Stream, 0, false)] + Scan(Stream, 2, false).0, Scan(Stream, 2, false).1);
    assert [Number(-1, 1, -1, 2, 12)] + [] == [Number(-1, 1, -1, 2, 12)];
  }

  lemma ByLineNumbers()
    ensures RunLength(Stream, 0, 0, true) == 1 && RunLength(Stream, 1, 1, true) == 1
    ensures NumberAt(Stream, 0, true) == Number(-1, 1, -1, 1, 1)
    ensures NumberAt(Stream, 1, true) == Number(0, 2, -1, 1, 2)
  {
    assert RunLength(Stream, 1, 0, true) == 0;
    assert RunLength(Stream, 0, 0, true) == 1;
    assert RunLength(Stream, 2, 1, true) == 0;
    assert RunLength(Stream, 1, 1, true) == 1;
    assert DigitsValue(Stream, 0, 1) == 1;
    assert DigitsValue(Stream, 1, 2) == 2;
  }

  lemma ByLineScanFromOne()
    ensures Scan(Stream, 1, true) == ([Number(0, 2, -1, 1, 2)], [Star])
  {
    ByLineNumbers();
    ScanTail(true);
    assert Scan(Stream, 1, true) == ([NumberAt(Stream, 1, true)] + Scan(Stream, 2, true).0, Scan(Stream, 2, true).1);
    assert [Number(0, 2, -1, 1, 2)] + [] == [Number(0, 2, -1, 1, 2)];
  }

  lemma ByLineScan()
    ensures Scan(Stream, 0, true) == ([Number(-1, 1, -1, 1, 1), Number(0, 2, -1, 1, 2)], [Star])
  {
    ByLineNumbers();
    ByLineScanFromOne();
    assert Scan(Stream, 0, true) == ([NumberAt(Stream, 0, true)] + Scan(Stream, 1, true).0, Scan(Stream, 1, true).1);
    assert [Number(-1, 1, -1, 1, 1)] + [Number(0, 2, -1, 1, 2)] == [Number(-1, 1, -1, 1, 1), Number(0, 2, -1, 1, 2)];
  }

  /** As written, the "1" and "2" on separate lines become the one number
      12, boxed around the first line, so the `*` below the "2" is missed
      and the sum of part numbers is 0. */
  lemma WrappedRun()
    ensures Parse(Schematic) == ([Number(-1, 1, -1, 2, 12)], [Star])
    ensures NextTo(Star.row, Star.col, Stream[1].row, Stream[1].col)
    ensures PartSum(Parse(Schematic).0, Parse(Schematic).1) == 0
  {
    StreamOfSchematic();
    WrappedScan();
    WrappedParts();
  }

  lemma WrappedParts()
    ensures PartSum([Number(-1, 1, -1, 2, 12)], [Star]) == 0
  {
    assert !Touches(Number(-1, 1, -1, 2, 12), Star);
    assert [Number(-1, 1, -1, 2, 12)][1..] == [];
  }

  /** With runs ended at line ends the same schematic has the numbers 1
      and 2, and the "2" next to the `*` is a part number. */
  lemma ByLineRun()
    ensures ParseByLine(Schematic) == ([Number(-1, 1, -1, 1, 1), Number(0, 2, -1, 1, 2)], [Star])
    ensures PartSum(ParseByLine(Schematic).0, ParseByLine(Schematic).1) == 2
  {
    StreamOfSchematic();
    ByLineScan();
    ByLineParts();
  }

  lemma ByLineParts()
    ensures PartSum([Number(-1, 1, -1, 1, 1), Number(0, 2, -1, 1, 2)], [Star]) == 2
  {
    var one := Number(-1, 1, -1, 1, 1);
    var two := Number(0, 2, -1, 1, 2);
    assert !IsPart(one, [Star]);
    assert IsPart(two, [Star]) by { assert Touches(two, [Star][0]); }
    assert PartNumbers([two], [Star]) == [two] by {
      assert [two][1..] == [];
    }
    assert [one, two][1..] == [two];
    assert PartNumbers([one, two], [Star]) == [two];
    assert Values([two]) == 2 by {
      assert [two][1..] == [];
    }
  }
}
