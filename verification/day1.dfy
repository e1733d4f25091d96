/** Day 1, Trebuchet?! (src/bin/day1.rs): calibration values from the
    first and last digit of every line, with digits spelled out in words
    counting too in the second part. */
module Day1 {
  import opened Wrappers

  /** `char::to_digit(10)`. */
  function ToDigit(c: char): (r: Option<nat>)
    ensures r.Some? <==> '0' <= c <= '9'
    ensures r.Some? ==> r.value <= 9 && r.value == (c as int) - ('0' as int)
  {
    if '0' <= c <= '9' then Some((c as int) - ('0' as int)) else None
  }

  predicate IsDigit(c: char) { '0' <= c <= '9' }

  predicate NoDigit(line: string) {
    forall i | 0 <= i < |line| :: !IsDigit(line[i])
  }

  /** The first digit of `line` (`find_map`), with its index. */
  function FirstDigit(line: string): (r: Option<nat>)
    ensures r.None? <==> forall i | 0 <= i < |line| :: !IsDigit(line[i])
    ensures r.Some? ==> exists i | 0 <= i < |line| :: IsDigit(line[i]) && ToDigit(line[i]) == r
                                   && forall j | 0 <= j < i :: !IsDigit(line[j])
  {
    if |line| == 0 then None
    else if IsDigit(line[0]) then ToDigit(line[0])
    else
      var rest := FirstDigit(line[1..]);
      assert forall i | 1 <= i < |line| :: line[i] == line[1..][i - 1];
      if rest.Some? then
        var i :| 0 <= i < |line[1..]| && IsDigit(line[1..][i]) && ToDigit(line[1..][i]) == rest
                 && forall j | 0 <= j < i :: !IsDigit(line[1..][j]);
        assert IsDigit(line[i + 1]) && forall j | 0 <= j < i + 1 :: !IsDigit(line[j]);
        rest
      else rest
  }

  /** The last digit of `line` (`rev().find_map`). */
  function LastDigit(line: string): (r: Option<nat>)
    ensures r.None? <==> forall i | 0 <= i < |line| :: !IsDigit(line[i])
    ensures r.Some? ==> exists i | 0 <= i < |line| :: IsDigit(line[i]) && ToDigit(line[i]) == r
                                   && forall j | i < j < |line| :: !IsDigit(line[j])
  {
    if |line| == 0 then None
    else if IsDigit(line[|line| - 1]) then ToDigit(line[|line| - 1])
    else
      var init := line[..|line| - 1];
      var rest := LastDigit(init);
      assert forall i | 0 <= i < |init| :: line[i] == init[i];
      if rest.Some? then
        var i :| 0 <= i < |init| && IsDigit(init[i]) && ToDigit(init[i]) == rest
                 && forall j | i < j < |init| :: !IsDigit(init[j]);
        assert IsDigit(line[i]) && forall j | i < j < |line| :: !IsDigit(line[j]);
        rest
      else rest
  }

  /** A line's part-one calibration value, `None` without a digit. */
  function CalibrationOne(line: string): (r: Option<nat>)
    ensures r.None? <==> NoDigit(line)
    ensures r.None? <==> |DigitsOf(line)| == 0
    ensures r.Some? ==> r.value == DigitsOf(line)[0] * 10 + DigitsOf(line)[|DigitsOf(line)| - 1]
    ensures r.Some? ==> r.value <= 99
  {
    FirstOfDigits(line);
    LastOfDigits(line);
    var first := FirstDigit(line);
    var last := LastDigit(line);
    if first.None? || last.None? then None else Some(first.value * 10 + last.value)
  }

  /** A line with exactly one digit `d` is worth `11 * d`. */
  lemma SingleDigit(line: string, k: nat)
    requires k < |line| && IsDigit(line[k])
    requires forall i | 0 <= i < |line| && i != k :: !IsDigit(line[i])
    ensures CalibrationOne(line).Some? && CalibrationOne(line).value == 11 * ToDigit(line[k]).value
  {
    var d := ToDigit(line[k]);
    var f := FirstDigit(line);
    var i :| 0 <= i < |line| && IsDigit(line[i]) && ToDigit(line[i]) == f
             && forall j | 0 <= j < i :: !IsDigit(line[j]);
    var l := LastDigit(line);
    var i' :| 0 <= i' < |line| && IsDigit(line[i']) && ToDigit(line[i']) == l
              && forall j | i' < j < |line| :: !IsDigit(line[j]);
    assert i == k && i' == k;
    assert f == d && l == d;
  }

  /** `Iterator<Option<u32>>::sum`: `None` as soon as one entry is. */
  function SumAll(values: seq<Option<nat>>): (r: Option<nat>)
    ensures r.None? <==> exists i | 0 <= i < |values| :: values[i].None?
  {
    if |values| == 0 then Some(0)
    else
      var rest :- SumAll(values[1..]);
      assert forall i | 1 <= i < |values| :: values[i] == values[1..][i - 1];
      var v :- values[0];
      Some(v + rest)
  }

  /** The total of the values when none is missing. */
  function Total(values: seq<nat>): nat {
    if |values| == 0 then 0 else values[0] + Total(values[1..])
  }

  /** `SumAll` adds up the present values. */
  lemma {:induction false} SumAllTotal(values: seq<Option<nat>>)
    requires forall i | 0 <= i < |values| :: values[i].Some?
    ensures SumAll(values) == Some(Total(seq(|values|, i requires 0 <= i < |values| => values[i].value)))
  {
    if |values| > 0 {
      var all := seq(|values|, i requires 0 <= i < |values| => values[i].value);
      var rest := seq(|values[1..]|, i requires 0 <= i < |values[1..]| => values[1..][i].value);
      assert all[1..] == rest;
      SumAllTotal(values[1..]);
    }
  }

  /** The calibration value of every line. */
  function CalibrationsOne(lines: seq<string>): (r: seq<Option<nat>>)
    ensures |r| == |lines| && forall i | 0 <= i < |lines| :: r[i] == CalibrationOne(lines[i])
  {
    seq(|lines|, i requires 0 <= i < |lines| => CalibrationOne(lines[i]))
  }

  /** `part_one`: the sum over the lines, `None` if a line has no digit. */
  function PartOne(lines: seq<string>): (r: Option<nat>)
    ensures r.None? <==> exists i | 0 <= i < |lines| :: NoDigit(lines[i])
  {
    SumAll(CalibrationsOne(lines))
  }

  /** Each line adds at most 99. */
  lemma PartOneBound(lines: seq<string>)
    requires PartOne(lines).Some?
    ensures PartOne(lines).value <= 99 * |lines|
  {
    var values := CalibrationsOne(lines);
    SumAllTotal(values);
    TotalBound(seq(|values|, i requires 0 <= i < |values| => values[i].value), 99);
  }

  lemma {:induction false} TotalBound(values: seq<nat>, bound: nat)
    requires forall i | 0 <= i < |values| :: values[i] <= bound
    ensures Total(values) <= bound * |values|
  {
    if |values| > 0 {
      assert forall i | 0 <= i < |values[1..]| :: values[1..][i] == values[i + 1];
      TotalBound(values[1..], bound);
    }
  }

  // ---------------------------------------------------------------------
  // Part two: digits and digit names.
  // ---------------------------------------------------------------------

  /** The name of the digit `v`. */
  function Name(v: nat): string
    requires 1 <= v <= 9
  {
    match v
    case 1 => "one"
    case 2 => "two"
    case 3 => "three"
    case 4 => "four"
    case 5 => "five"
    case 6 => "six"
    case 7 => "seven"
    case 8 => "eight"
    case _ => "nine"
  }

  function DigitChar(v: nat): (c: char)
    requires v <= 9
    ensures IsDigit(c) && ToDigit(c) == Some(v)
  {
    (('0' as int) + v) as char
  }

  predicate StartsWith(s: string, prefix: string) {
    |prefix| <= |s| && s[..|prefix|] == prefix
  }

  /** `s` begins with the digit `v` or its name. */
  predicate Spells(s: string, v: nat)
    requires 1 <= v <= 9
  {
    StartsWith(s, [DigitChar(v)]) || StartsWith(s, Name(v))
  }

  /** `number_from_string`: the first of the alternatives `1`/`one` …
      `9`/`nine` that `s` begins with. Only one character is consumed
      whatever matched, so names may overlap. */
  function TokenAt(s: string): (r: Option<nat>)
    ensures r.Some? ==> 1 <= r.value <= 9 && Spells(s, r.value)
    ensures r.None? <==> forall v | 1 <= v <= 9 :: !Spells(s, v)
  {
    TokenFrom(s, LeastDigit())
  }

  /** The first alternative tried; a call rather than a literal, so that
      the verifier unfolds `TokenFrom` one alternative at a time. */
  function LeastDigit(): nat { 1 }

  function TokenFrom(s: string, v: nat): (r: Option<nat>)
    requires 1 <= v <= 10
    ensures r.Some? ==> v <= r.value <= 9 && Spells(s, r.value)
    ensures r.Some? ==> forall u | v <= u < r.value :: !Spells(s, u)
    ensures r.None? <==> forall u | v <= u <= 9 :: !Spells(s, u)
    decreases 10 - v
  {
    if v == 10 then None
    else if Spells(s, v) then Some(v)
    else TokenFrom(s, v + 1)
  }

  /** The values `many1(any)` collects, flattened: at every position a
      token when one starts there, and nothing otherwise. */
  function Tokens(s: string): (r: seq<nat>)
    ensures forall k | 0 <= k < |r| :: 1 <= r[k] <= 9
  {
    if |s| == 0 then []
    else (match TokenAt(s) case Some(v) => [v] case None => []) + Tokens(s[1..])
  }

  /** The parsed values are exactly the tokens starting at some position. */
  lemma {:induction false} TokensAt(s: string, v: nat)
    ensures v in Tokens(s) <==> exists i | 0 <= i < |s| :: TokenAt(s[i..]) == Some(v)
  {
    if |s| > 0 {
      TokensAt(s[1..], v);
      assert s[0..] == s;
      if v in Tokens(s[1..]) {
        var i :| 0 <= i < |s[1..]| && TokenAt(s[1..][i..]) == Some(v);
        assert s[1..][i..] == s[i + 1..];
      }
      if i :| 0 <= i < |s| && TokenAt(s[i..]) == Some(v) {
        if i > 0 {
          assert s[1..][i - 1..] == s[i..];
        }
      }
    }
  }

  /** No token starts anywhere in `line`. */
  predicate NoToken(line: string) {
    forall i | 0 <= i < |line| :: TokenAt(line[i..]).None?
  }

  lemma {:induction false} TokensEmpty(s: string)
    ensures |Tokens(s)| == 0 <==> NoToken(s)
  {
    if |s| > 0 {
      TokensEmpty(s[1..]);
      assert s[0..] == s;
      forall i | 1 <= i < |s| ensures s[i..] == s[1..][i - 1..] {
      }
    }
  }

  /** `parse`: `many1` needs one item, so an empty line is `None`. */
  function ParseLine(line: string): (r: Option<seq<nat>>)
    ensures r.None? <==> |line| == 0
    ensures r.Some? ==> |r.value| == |TokenStarts(line)|
    ensures r.Some? ==> forall k | 0 <= k < |r.value| :: r.value[k] == TokenAt(line[TokenStarts(line)[k]..]).value
  {
    TokensByPosition(line, 0);
    assert line[0..] == line;
    if |line| == 0 then None else Some(Tokens(line))
  }

  /** `q` occurs in the position list `ps`. */
  predicate Listed(ps: seq<nat>, q: nat) {
    q in ps
  }

  /** The indices from `i` on at which `mask` holds, ascending. */
  function Positions(mask: seq<bool>, i: nat): (ps: seq<nat>)
    requires i <= |mask|
    ensures forall k | 0 <= k < |ps| :: i <= ps[k] < |mask| && mask[ps[k]]
    ensures forall k, l | 0 <= k < l < |ps| :: ps[k] < ps[l]
    ensures forall q {:trigger Listed(ps, q)} | i <= q < |mask| && mask[q] :: Listed(ps, q)
    decreases |mask| - i
  {
    if i == |mask| then []
    else
      var head := if mask[i] then [i] else [];
      var rest := Positions(mask, i + 1);
      ListedAfter(head, rest);
      assert mask[i] ==> Listed(head + rest, i);
      head + rest
  }

  /** Whatever `rest` lists, `head + rest` lists too. */
  lemma ListedAfter(head: seq<nat>, rest: seq<nat>)
    ensures forall q {:trigger Listed(head + rest, q)} | Listed(rest, q) :: Listed(head + rest, q)
  {
    forall q | Listed(rest, q) ensures Listed(head + rest, q) {
      var a :| 0 <= a < |rest| && rest[a] == q;
      assert (head + rest)[|head| + a] == q;
    }
  }

  /** Whether a token starts at each position of `line`. */
  function TokenMask(line: string): (mask: seq<bool>)
    ensures |mask| == |line| && forall q | 0 <= q < |line| :: mask[q] == TokenAt(line[q..]).Some?
  {
    seq(|line|, q requires 0 <= q < |line| => TokenAt(line[q..]).Some?)
  }

  /** Every position of `line` at which a token starts, ascending. */
  function TokenStarts(line: string): (ps: seq<nat>)
    ensures forall k | 0 <= k < |ps| :: ps[k] < |line| && TokenAt(line[ps[k]..]).Some?
    ensures forall k, l | 0 <= k < l < |ps| :: ps[k] < ps[l]
    ensures forall q {:trigger Listed(ps, q)} | 0 <= q < |line| && TokenAt(line[q..]).Some? :: Listed(ps, q)
  {
    Positions(TokenMask(line), 0)
  }

  /** The values `many1(any)` collects from position `i` on are the tokens
      at the starting positions, in order. */
  lemma {:induction false} TokensByPosition(s: string, i: nat)
    requires i <= |s|
    ensures |Tokens(s[i..])| == |Positions(TokenMask(s), i)|
    ensures forall k | 0 <= k < |Tokens(s[i..])| ::
      Tokens(s[i..])[k] == TokenAt(s[Positions(TokenMask(s), i)[k]..]).value
    decreases |s| - i
  {
    if i < |s| {
      var mask := TokenMask(s);
      TokensByPosition(s, i + 1);
      TokensStep(s, i);
      var rest := Tokens(s[i + 1..]);
      var ps := Positions(mask, i + 1);
      if mask[i] {
        var v := TokenAt(s[i..]).value;
        assert Tokens(s[i..]) == [v] + rest;
        assert Positions(mask, i) == [i] + ps;
        forall k | 0 <= k < |rest| + 1 ensures ([v] + rest)[k] == TokenAt(s[([i] + ps)[k]..]).value {
          if k > 0 {
            assert ([v] + rest)[k] == rest[k - 1] && ([i] + ps)[k] == ps[k - 1];
          }
        }
      } else {
        assert Tokens(s[i..]) == rest;
        assert Positions(mask, i) == ps;
      }
    }
  }

  /** One step of `many1(any)`: a token where one starts, then the rest. */
  lemma TokensStep(s: string, i: nat)
    requires i < |s|
    ensures TokenAt(s[i..]).Some? ==> Tokens(s[i..]) == [TokenAt(s[i..]).value] + Tokens(s[i + 1..])
    ensures TokenAt(s[i..]).None? ==> Tokens(s[i..]) == Tokens(s[i + 1..])
  {
    assert s[i..][1..] == s[i + 1..];
  }

  /** A line's part-two value: first and last parsed value, `None` when
      there is none. */
  function CalibrationTwo(line: string): (r: Option<nat>)
    ensures r.None? <==> |Tokens(line)| == 0
    ensures r.Some? ==> 11 <= r.value <= 99
  {
    var list :- ParseLine(line);
    if |list| == 0 then None else Some(list[0] * 10 + list[|list| - 1])
  }

  /** A line gives no part-two value exactly when no token starts in it. */
  lemma CalibrationTwoNone(line: string)
    ensures CalibrationTwo(line).None? <==> NoToken(line)
  {
    TokensEmpty(line);
  }

  /** The first listed position is the least index where `mask` holds. */
  lemma FirstPosition(mask: seq<bool>, i: nat)
    requires i < |mask| && mask[i]
    requires forall k | 0 <= k < i :: !mask[k]
    ensures |Positions(mask, 0)| > 0 && Positions(mask, 0)[0] == i
  {
    var ps := Positions(mask, 0);
    assert Listed(ps, i);
    var a :| 0 <= a < |ps| && ps[a] == i;
    AscendingEnds(ps, a);
    assert mask[ps[0]];
  }

  /** The last listed position is the greatest index where `mask` holds. */
  lemma LastPosition(mask: seq<bool>, j: nat)
    requires j < |mask| && mask[j]
    requires forall k | j < k < |mask| :: !mask[k]
    ensures |Positions(mask, 0)| > 0 && Positions(mask, 0)[|Positions(mask, 0)| - 1] == j
  {
    var ps := Positions(mask, 0);
    assert Listed(ps, j);
    var b :| 0 <= b < |ps| && ps[b] == j;
    AscendingEnds(ps, b);
    assert mask[ps[|ps| - 1]];
  }

  /** In an ascending list every entry lies between the first and the last. */
  lemma AscendingEnds(ps: seq<nat>, a: nat)
    requires forall k, l | 0 <= k < l < |ps| :: ps[k] < ps[l]
    requires a < |ps|
    ensures ps[0] <= ps[a] <= ps[|ps| - 1]
  {
  }

  /** A line's part-two value is ten times the token at the first position
      where one starts plus the token at the last such position. */
  lemma CalibrationTwoEnds(line: string, i: nat, j: nat)
    requires i < |line| && TokenAt(line[i..]).Some?
    requires j < |line| && TokenAt(line[j..]).Some?
    requires forall k | 0 <= k < i :: TokenAt(line[k..]).None?
    requires forall k | j < k < |line| :: TokenAt(line[k..]).None?
    ensures CalibrationTwo(line).Some?
    ensures CalibrationTwo(line).value == TokenAt(line[i..]).value * 10 + TokenAt(line[j..]).value
  {
    var mask := TokenMask(line);
    FirstPosition(mask, i);
    LastPosition(mask, j);
    CalibrationTwoByPositions(line);
  }

  /** The part-two value in terms of the first and last token start. */
  lemma CalibrationTwoByPositions(line: string)
    requires |Positions(TokenMask(line), 0)| > 0
    ensures var ps := Positions(TokenMask(line), 0);
      CalibrationTwo(line).Some? &&
      CalibrationTwo(line).value == TokenAt(line[ps[0]..]).value * 10 + TokenAt(line[ps[|ps| - 1]..]).value
  {
    var ps := Positions(TokenMask(line), 0);
    TokensByPosition(line, 0);
    assert line[0..] == line;
    var list := Tokens(line);
    CalibrationTwoOfTokens(line);
    assert list[0] == TokenAt(line[ps[0]..]).value;
    assert list[|list| - 1] == TokenAt(line[ps[|ps| - 1]..]).value;
  }

  /** The part-two value takes the first and last of the tokens read. */
  lemma CalibrationTwoOfTokens(line: string)
    ensures CalibrationTwo(line).Some? ==>
      CalibrationTwo(line).value == Tokens(line)[0] * 10 + Tokens(line)[|Tokens(line)| - 1]
  {
    if |line| > 0 {
      assert ParseLine(line) == Some(Tokens(line));
    }
  }

  /** `part_two`: the sum over the lines, `None` if a line has no token. */
  function PartTwo(lines: seq<string>): (r: Option<nat>)
    ensures r.None? <==> exists i | 0 <= i < |lines| :: |Tokens(lines[i])| == 0
  {
    SumAll(CalibrationsTwo(lines))
  }

  lemma PartTwoNone(lines: seq<string>)
    ensures PartTwo(lines).None? <==> exists i | 0 <= i < |lines| :: NoToken(lines[i])
  {
    forall i | 0 <= i < |lines| ensures |Tokens(lines[i])| == 0 <==> NoToken(lines[i]) {
      TokensEmpty(lines[i]);
    }
  }

  function CalibrationsTwo(lines: seq<string>): (r: seq<Option<nat>>)
    ensures |r| == |lines| && forall i | 0 <= i < |lines| :: r[i] == CalibrationTwo(lines[i])
  {
    seq(|lines|, i requires 0 <= i < |lines| => CalibrationTwo(lines[i]))
  }

  /** A name's first letter; a digit is its own first character. */
  lemma SpellsFirst(s: string, v: nat)
    requires 1 <= v <= 9 && Spells(s, v)
    ensures |s| > 0 && (IsDigit(s[0]) || (s[0] == Name(v)[0] && |s| >= |Name(v)|))
  {
    if StartsWith(s, Name(v)) {
      assert s[0] == s[..|Name(v)|][0];
    } else {
      assert s[0] == s[..1][0];
    }
  }

  /** No token starts at a character that is neither a digit `1`-`9` nor
      the first letter of a name close enough to the end. */
  lemma NoTokenAt(s: string)
    requires |s| > 0 && !('1' <= s[0] <= '9')
    requires forall v | 1 <= v <= 9 :: s[0] != Name(v)[0] || |s| < |Name(v)|
    ensures TokenAt(s) == None
  {
    forall v | 1 <= v <= 9 ensures !Spells(s, v) {
      if Spells(s, v) {
        SpellsFirst(s, v);
      }
    }
  }

  /** Every digit name begins with a lower-case letter. */
  lemma NameStartsLower(v: nat)
    requires 1 <= v <= 9
    ensures |Name(v)| > 0 && 'a' <= Name(v)[0] <= 'z'
  {
  }

  /** A character that is neither a digit `1`-`9` nor a lower-case letter
      starts no token. */
  lemma NoTokenAtOther(s: string)
    requires |s| > 0 && !('1' <= s[0] <= '9') && !('a' <= s[0] <= 'z')
    ensures TokenAt(s) == None
  {
    forall v | 1 <= v <= 9 ensures s[0] != Name(v)[0] {
      NameStartsLower(v);
    }
    NoTokenAt(s);
  }

  /** A `0`, like any character that starts no digit name, starts no
      token. */
  lemma NoTokenAtZero(s: string)
    requires |s| > 0 && s[0] == '0'
    ensures TokenAt(s) == None
  {
    NoTokenAt(s);
  }

  /** Overlapping names both count: "twone" reads as 2 then 1. */
  lemma Twone()
    ensures Tokens("twone") == [2, 1]
  {
    TokensWone();
    TokenTwo();
    TokensTake("twone", "wone", 2);
  }

  lemma TokensWone()
    ensures Tokens("wone") == [1]
  {
    TokensOne();
    var s := "wone";
    assert s[0] == 'w' && s[1..] == "one";
    NoTokenAtW(s);
    TokensSkip(s, "one");
  }

  /** No digit name begins with `w`. */
  lemma NoTokenAtW(s: string)
    requires |s| > 0 && s[0] == 'w'
    ensures TokenAt(s) == None
  {
    forall v | 1 <= v <= 9 ensures s[0] != Name(v)[0] {
    }
    NoTokenAt(s);
  }

  lemma TokensOne()
    ensures Tokens("one") == [1]
  {
    TokensNe();
    TokenOne();
    TokensTake("one", "ne", 1);
  }

  lemma TokensNe()
    ensures Tokens("ne") == []
  {
    NoTokenAt("e");
    TokensSkip("e", []);
    NoTokenAt("ne");
    TokensSkip("ne", "e");
  }

  lemma TokensTake(s: string, rest: string, v: nat)
    requires |s| > 0 && s[1..] == rest && TokenAt(s) == Some(v)
    ensures Tokens(s) == [v] + Tokens(rest)
  {
  }

  lemma TokensSkip(s: string, rest: string)
    requires |s| > 0 && s[1..] == rest && TokenAt(s) == None
    ensures Tokens(s) == Tokens(rest)
  {
  }

  lemma TokenTwo()
    ensures TokenAt("twone") == Some(2)
  {
    var s := "twone";
    assert s[..3] == "two" && s[..1] == ['t'];
  }

  lemma TokenOne()
    ensures TokenAt("one") == Some(1)
  {
    assert "one"[..3] == "one";
  }

  // ---------------------------------------------------------------------
  // The two parts agree on lines without letters and zeros.
  // ---------------------------------------------------------------------

  /** The values of the digit characters of `s`, in order. */
  function DigitsOf(s: string): (r: seq<nat>)
    ensures forall k | 0 <= k < |r| :: r[k] <= 9
  {
    if |s| == 0 then []
    else (if IsDigit(s[0]) then [ToDigit(s[0]).value] else []) + DigitsOf(s[1..])
  }

  lemma {:induction false} DigitsOfAppend(a: string, b: string)
    ensures DigitsOf(a + b) == DigitsOf(a) + DigitsOf(b)
  {
    if |a| > 0 {
      assert (a + b)[1..] == a[1..] + b;
      DigitsOfAppend(a[1..], b);
    } else {
      assert a + b == b;
    }
  }

  /** `find_map` finds the first of the digits. */
  lemma {:induction false} FirstOfDigits(s: string)
    ensures FirstDigit(s) == if |DigitsOf(s)| == 0 then None else Some(DigitsOf(s)[0])
  {
    if |s| > 0 && !IsDigit(s[0]) {
      FirstOfDigits(s[1..]);
    }
  }

  /** `rev().find_map` finds the last of the digits. */
  lemma {:induction false} LastOfDigits(s: string)
    ensures LastDigit(s) == if |DigitsOf(s)| == 0 then None else Some(DigitsOf(s)[|DigitsOf(s)| - 1])
  {
    if |s| > 0 {
      var init := s[..|s| - 1];
      var c := s[|s| - 1];
      assert s == init + [c];
      DigitsOfAppend(init, [c]);
      assert [c][1..] == [];
      LastOfDigits(init);
    }
  }

  /** No lower-case letter and no `0`. */
  predicate Plain(s: string) {
    forall i | 0 <= i < |s| :: !('a' <= s[i] <= 'z') && s[i] != '0'
  }

  /** A digit `1`-`9` not followed by a name starts its own token. */
  lemma DigitToken(s: string)
    requires |s| > 0 && '1' <= s[0] <= '9'
    ensures TokenAt(s) == Some(ToDigit(s[0]).value)
  {
    var d := ToDigit(s[0]).value;
    assert s[..1] == [DigitChar(d)];
    forall u | 1 <= u <= 9 && u != d ensures !Spells(s, u) {
      if Spells(s, u) {
        SpellsFirst(s, u);
      }
    }
  }

  /** On a plain line the tokens are exactly the digits. */
  lemma {:induction false} PlainTokens(s: string)
    requires Plain(s)
    ensures Tokens(s) == DigitsOf(s)
  {
    if |s| > 0 {
      assert Plain(s[1..]) by {
        forall i | 0 <= i < |s[1..]| ensures !('a' <= s[1..][i] <= 'z') && s[1..][i] != '0' {
          assert s[1..][i] == s[i + 1];
        }
      }
      PlainTokens(s[1..]);
      assert !('a' <= s[0] <= 'z') && s[0] != '0';
      if IsDigit(s[0]) {
        assert Tokens(s) == [ToDigit(s[0]).value] + Tokens(s[1..]) by {
          DigitToken(s);
        }
        assert DigitsOf(s) == [ToDigit(s[0]).value] + DigitsOf(s[1..]);
      } else {
        assert Tokens(s) == Tokens(s[1..]) by {
          NoTokenAtOther(s);
        }
        assert DigitsOf(s) == DigitsOf(s[1..]);
      }
    }
  }

  /** On lines with no letters and no zeros, both parts read the same
      value. */
  lemma PlainLineAgrees(line: string)
    requires Plain(line) && |line| > 0
    ensures CalibrationTwo(line) == CalibrationOne(line)
  {
    var ds := DigitsOf(line);
    PlainTokens(line);
    assert ParseLine(line) == Some(ds);
    assert CalibrationTwo(line).Some? ==> CalibrationTwo(line).value == ds[0] * 10 + ds[|ds| - 1];
    SameOption(CalibrationTwo(line), CalibrationOne(line));
  }

  lemma SameOption(a: Option<nat>, b: Option<nat>)
    requires a.None? == b.None? && (a.Some? ==> a.value == b.value)
    ensures a == b
  {
  }
}
