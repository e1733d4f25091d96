/** Day 6, Wait For It (src/bin/day6.rs): boat races, where holding the
    button longer trades travel time for speed. */
module Day6 {
  import opened Wrappers

  const U64_MAX: nat := 0xFFFF_FFFF_FFFF_FFFF

  datatype Race = Race(time: nat, distance: nat)

  /** `Race::distance_travelled`: nothing once the button is held past the
      end of the race, otherwise speed `held` for the remaining time. */
  function DistanceTravelled(race: Race, held: nat): (r: nat)
    ensures held == 0 || held >= race.time ==> r == 0
  {
    if held > race.time then 0 else held * (race.time - held)
  }

  /** Any hold strictly inside the race moves the boat. */
  lemma DistancePositive(race: Race, held: nat)
    requires 0 < held < race.time
    ensures DistanceTravelled(race, held) >= race.time - held
    ensures DistanceTravelled(race, held) >= held
  {
    NonNegProduct(held - 1, race.time - held);
    NonNegProduct(held, race.time - held - 1);
  }

  /** Holding for `h` or for `time - h` goes equally far. */
  lemma DistanceSymmetric(race: Race, held: nat)
    requires held <= race.time
    ensures DistanceTravelled(race, held) == DistanceTravelled(race, race.time - held)
  {
  }

  /** `Race::win`. */
  predicate Win(race: Race, held: nat) {
    DistanceTravelled(race, held) > race.distance
  }

  /** The distance rises, then falls: a hold time between two winning ones
      wins too. */
  lemma WinsBetween(race: Race, a: nat, b: nat, c: nat)
    requires a <= b <= c && Win(race, a) && Win(race, c)
    ensures Win(race, b)
  {
    var t := race.time;
    assert a <= t && c <= t;
    if a + b <= t {
      assert b * (t - b) - a * (t - a) == (b - a) * (t - a - b);
      NonNegProduct(b - a, t - a - b);
    } else {
      assert b * (t - b) - c * (t - c) == (c - b) * (b + c - t);
      NonNegProduct(c - b, b + c - t);
    }
  }

  lemma NonNegProduct(x: int, y: int)
    requires x >= 0 && y >= 0
    ensures x * y >= 0
  {
  }

  /** The first winning hold time in `[from, until)`, searching upwards. */
  function FirstWin(race: Race, from: nat, until: nat): (r: Option<nat>)
    ensures r.Some? ==> from <= r.value < until && Win(race, r.value)
    ensures r.Some? ==> forall h | from <= h < r.value :: !Win(race, h)
    ensures r.None? ==> forall h | from <= h < until :: !Win(race, h)
    decreases until - from
  {
    if from >= until then None
    else if Win(race, from) then Some(from)
    else FirstWin(race, from + 1, until)
  }

  /** The last winning hold time in `[from, until)`, searching downwards. */
  function LastWin(race: Race, from: nat, until: nat): (r: Option<nat>)
    ensures r.Some? ==> from <= r.value < until && Win(race, r.value)
    ensures r.Some? ==> forall h | r.value < h < until :: !Win(race, h)
    ensures r.None? ==> forall h | from <= h < until :: !Win(race, h)
    decreases until - from
  {
    if from >= until then None
    else if Win(race, until - 1) then Some(until - 1)
    else LastWin(race, from, until - 1)
  }

  /** The number of winning hold times in `[from, until)`, counted one by
      one. */
  function CountWins(race: Race, from: nat, until: nat): nat
    decreases until - from
  {
    if from >= until then 0
    else (if Win(race, from) then 1 else 0) + CountWins(race, from + 1, until)
  }

  /** `Race::winning_moves_count`: the span from the first to the last
      winning hold time in `[1, time)`. Since the winners are contiguous,
      this is the number of winning hold times. */
  function WinningMovesCount(race: Race): (r: nat)
    ensures r == CountWins(race, 1, race.time)
    ensures r <= race.time - 1 || r == 0
  {
    var first := FirstWin(race, 1, race.time);
    var last := LastWin(race, 1, race.time);
    if first.None? || last.None? then
      NoWins(race, 1, race.time);
      0
    else
      SpanCount(race, first.value, last.value);
      last.value - first.value + 1
  }

  lemma {:induction false} NoWins(race: Race, from: nat, until: nat)
    requires forall h | from <= h < until :: !Win(race, h)
    ensures CountWins(race, from, until) == 0
    decreases until - from
  {
    if from < until {
      NoWins(race, from + 1, until);
    }
  }

  lemma {:induction false} AllWin(race: Race, from: nat, until: nat)
    requires forall h | from <= h < until :: Win(race, h)
    ensures CountWins(race, from, until) == if from <= until then until - from else 0
    decreases until - from
  {
    if from < until {
      AllWin(race, from + 1, until);
    }
  }

  /** Counting a range piece by piece. */
  lemma {:induction false} CountSplit(race: Race, from: nat, mid: nat, until: nat)
    requires from <= mid <= until
    ensures CountWins(race, from, until) == CountWins(race, from, mid) + CountWins(race, mid, until)
    decreases mid - from
  {
    if from < mid {
      CountSplit(race, from + 1, mid, until);
    }
  }

  /** With the first and last winners known, the count is their span. */
  lemma SpanCount(race: Race, first: nat, last: nat)
    requires 1 <= first <= last < race.time
    requires Win(race, first) && Win(race, last)
    requires forall h | 1 <= h < first :: !Win(race, h)
    requires forall h | last < h < race.time :: !Win(race, h)
    ensures CountWins(race, 1, race.time) == last - first + 1
  {
    forall h | first <= h < last + 1 ensures Win(race, h) {
      WinsBetween(race, first, h, last);
    }
    CountSplit(race, 1, first, race.time);
    CountSplit(race, first, last + 1, race.time);
    NoWins(race, 1, first);
    AllWin(race, first, last + 1);
    NoWins(race, last + 1, race.time);
  }

  // ---------------------------------------------------------------------
  // Combining the races by concatenating their digits.
  // ---------------------------------------------------------------------

  /** The decimal digits of `n`, most significant first, as `to_string`
      writes them. */
  function Digits(n: nat): (ds: seq<nat>)
    ensures |ds| >= 1 && forall i | 0 <= i < |ds| :: ds[i] < 10
    decreases n
  {
    if n < 10 then [n] else Digits(n / 10) + [n % 10]
  }

  /** The number a string of digits denotes, as `parse` reads it. */
  function FromDigits(ds: seq<nat>): nat {
    if |ds| == 0 then 0 else FromDigits(ds[..|ds| - 1]) * 10 + ds[|ds| - 1]
  }

  function Pow10(k: nat): (r: nat)
    ensures r >= 1
  {
    if k == 0 then 1 else 10 * Pow10(k - 1)
  }

  lemma {:induction false} DigitsRoundTrip(n: nat)
    ensures FromDigits(Digits(n)) == n
    decreases n
  {
    if n >= 10 {
      DigitsRoundTrip(n / 10);
      var ds := Digits(n / 10) + [n % 10];
      assert ds[..|ds| - 1] == Digits(n / 10);
    }
  }

  lemma {:induction false} FromDigitsAppend(a: seq<nat>, b: seq<nat>)
    ensures FromDigits(a + b) == FromDigits(a) * Pow10(|b|) + FromDigits(b)
    decreases |b|
  {
    if |b| == 0 {
      assert a + b == a;
    } else {
      var b' := b[..|b| - 1];
      assert (a + b)[..|a + b| - 1] == a + b';
      FromDigitsAppend(a, b');
      calc {
        FromDigits(a + b);
        FromDigits(a + b') * 10 + b[|b| - 1];
        (FromDigits(a) * Pow10(|b'|) + FromDigits(b')) * 10 + b[|b| - 1];
        { MulAssoc(FromDigits(a), Pow10(|b'|), 10); }
        FromDigits(a) * Pow10(|b|) + FromDigits(b);
      }
    }
  }

  lemma MulAssoc(x: nat, y: nat, z: nat)
    ensures (x * y) * z == x * (z * y)
  {
  }

  /** All the numbers' digits, one after the other. */
  function Concatenated(ns: seq<nat>): seq<nat> {
    if |ns| == 0 then [] else Concatenated(ns[..|ns| - 1]) + Digits(ns[|ns| - 1])
  }

  datatype ParseError = Empty | PosOverflow

  /** `collect::<String>().parse::<u64>()` of the numbers' decimal forms:
      an empty string and a value past `u64::MAX` are errors. */
  function ParseConcatenated(ns: seq<nat>): (r: Result<nat, ParseError>)
    ensures r.Err? <==> |ns| == 0 || FromDigits(Concatenated(ns)) > U64_MAX
    ensures r.Err? && |ns| == 0 ==> r.error == Empty
    ensures r.Ok? ==> r.value <= U64_MAX
  {
    var ds := Concatenated(ns);
    if |ds| == 0 then
      ConcatenatedEmpty(ns);
      Err(Empty)
    else if FromDigits(ds) > U64_MAX then
      ConcatenatedEmpty(ns);
      Err(PosOverflow)
    else Ok(FromDigits(ds))
  }

  lemma ConcatenatedEmpty(ns: seq<nat>)
    ensures |Concatenated(ns)| == 0 <==> |ns| == 0
  {
    if |ns| > 0 {
      assert |Digits(ns[|ns| - 1])| >= 1;
    }
  }

  /** Writing `b` after `a` shifts `a` by the width of `b`. */
  lemma ConcatenatedValue(ns: seq<nat>, n: nat)
    ensures FromDigits(Concatenated(ns + [n])) == FromDigits(Concatenated(ns)) * Pow10(|Digits(n)|) + n
  {
    assert (ns + [n])[..|ns + [n]| - 1] == ns;
    FromDigitsAppend(Concatenated(ns), Digits(n));
    DigitsRoundTrip(n);
  }

  /** A single race combines to itself. */
  lemma CombineOne(n: nat)
    requires n <= U64_MAX
    ensures ParseConcatenated([n]) == Ok(n)
  {
    assert [n][..0] == [];
    ConcatenatedValue([], n);
  }

  function Times(races: seq<Race>): (r: seq<nat>)
    ensures |r| == |races| && forall i | 0 <= i < |races| :: r[i] == races[i].time
  {
    seq(|races|, i requires 0 <= i < |races| => races[i].time)
  }

  function Distances(races: seq<Race>): (r: seq<nat>)
    ensures |r| == |races| && forall i | 0 <= i < |races| :: r[i] == races[i].distance
  {
    seq(|races|, i requires 0 <= i < |races| => races[i].distance)
  }

  /** `Races::combine_races`: the distances are parsed first, so their
      error is the one reported. */
  function CombineRaces(races: seq<Race>): (r: Result<Race, ParseError>)
    ensures r.Ok? <==> |races| > 0 && FromDigits(Concatenated(Times(races))) <= U64_MAX
                                    && FromDigits(Concatenated(Distances(races))) <= U64_MAX
    ensures r.Ok? ==> r.value == Race(FromDigits(Concatenated(Times(races))),
                                      FromDigits(Concatenated(Distances(races))))
  {
    var distance :- ParseConcatenated(Distances(races));
    var time :- ParseConcatenated(Times(races));
    Ok(Race(time, distance))
  }
}
