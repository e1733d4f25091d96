/** Day 4, Scratchcards (src/bin/day4.rs): matching numbers, card points
    and the propagation of won copies to the following cards. */
module Day4 {

  datatype Game = Game(id: nat, winningNums: seq<nat>, playedNums: seq<nat>)

  /** `Game::matches`: the played entries that are winning numbers, a
      repeated entry counted each time. */
  function Matches(game: Game): (r: nat)
    ensures r <= |game.playedNums|
    ensures r == 0 <==> forall i | 0 <= i < |game.playedNums| :: game.playedNums[i] !in game.winningNums
    ensures r == |game.playedNums| <==> forall i | 0 <= i < |game.playedNums| :: game.playedNums[i] in game.winningNums
    ensures r == |WinningPlays(game.playedNums, game.winningNums, 0)|
  {
    CountInPlays(game.playedNums, game.winningNums, 0);
    assert game.playedNums[0..] == game.playedNums;
    CountIn(game.playedNums, game.winningNums)
  }

  /** The indices from `lo` on of the played entries that are winning
      numbers. */
  ghost function WinningPlays(played: seq<nat>, winning: seq<nat>, lo: nat): set<nat> {
    set i: nat | lo <= i < |played| && played[i] in winning
  }

  /** Counting the played entries that win counts their indices, so a
      repeated entry counts once per occurrence. */
  lemma {:induction false} CountInPlays(played: seq<nat>, winning: seq<nat>, lo: nat)
    requires lo <= |played|
    ensures CountIn(played[lo..], winning) == |WinningPlays(played, winning, lo)|
    decreases |played| - lo
  {
    if lo == |played| {
      assert WinningPlays(played, winning, lo) == {};
    } else {
      CountInPlays(played, winning, lo + 1);
      assert played[lo..][1..] == played[lo + 1..];
      var rest := WinningPlays(played, winning, lo + 1);
      if played[lo] in winning {
        assert WinningPlays(played, winning, lo) == {lo} + rest;
        assert lo !in rest;
      } else {
        assert WinningPlays(played, winning, lo) == rest;
      }
    }
  }

  function CountIn(played: seq<nat>, winning: seq<nat>): (r: nat)
    ensures r <= |played|
    ensures r == 0 <==> forall i | 0 <= i < |played| :: played[i] !in winning
    ensures r == |played| <==> forall i | 0 <= i < |played| :: played[i] in winning
  {
    if |played| == 0 then 0
    else
      var rest := CountIn(played[1..], winning);
      assert forall i | 1 <= i < |played| :: played[i] == played[1..][i - 1];
      (if played[0] in winning then 1 else 0) + rest
  }

  function Pow2(k: nat): (r: nat)
    ensures r >= 1
  {
    if k == 0 then 1 else 2 * Pow2(k - 1)
  }

  /** The points for `count` matches: none for no match, one for the
      first, doubled for every further match. */
  function Points(count: nat): (r: nat)
    ensures r == 0 <==> count == 0
  {
    if count == 0 then 0 else Pow2(count - 1)
  }

  /** One match scores a point, and every further match doubles it. */
  lemma PointsDouble(count: nat)
    ensures Points(1) == 1
    ensures count >= 1 ==> Points(count + 1) == 2 * Points(count)
  {
  }

  /** `Game::score`. */
  function Score(game: Game): (r: nat)
    ensures r == 0 <==> Matches(game) == 0
    ensures Matches(game) == 1 ==> r == 1
  {
    Points(Matches(game))
  }

  // ---------------------------------------------------------------------
  // Copies of scratchcards.
  // ---------------------------------------------------------------------

  /** The number of copies of card `i` held in the end: the original, plus
      one for every copy of each earlier card whose matches reach it. */
  function Copies(matches: seq<nat>, i: nat): (r: nat)
    requires i < |matches|
    ensures r >= 1
    decreases i, 1
  {
    1 + Won(matches, i, i)
  }

  /** The copies of card `i` won from cards `0 .. upto - 1`. */
  function Won(matches: seq<nat>, i: nat, upto: nat): nat
    requires upto <= i < |matches|
    decreases i, 0, upto
  {
    if upto == 0 then 0
    else
      var k := upto - 1;
      Won(matches, i, k) + (if i <= k + matches[k] then Copies(matches, k) else 0)
  }

  function Sum(s: seq<nat>): nat {
    if |s| == 0 then 0 else Sum(s[..|s| - 1]) + s[|s| - 1]
  }

  function AllMatches(games: seq<Game>): (r: seq<nat>)
    ensures |r| == |games| && forall i | 0 <= i < |games| :: r[i] == Matches(games[i])
  {
    seq(|games|, i requires 0 <= i < |games| => Matches(games[i]))
  }

  /** The copy-propagation loop: every card, once its own count is final,
      adds that count to each of the next `matches` cards that exist. The
      counts end as `Copies`, and the total is at least one per card. */
  method Scratchcards(games: seq<Game>) returns (repeats: seq<nat>, total: nat)
    ensures |repeats| == |games|
    ensures forall i | 0 <= i < |games| :: repeats[i] == Copies(AllMatches(games), i)
    ensures total == Sum(repeats) && total >= |games|
  {
    var matches := AllMatches(games);
    var n := |games|;
    repeats := seq(n, _ => 1);
    var i := 0;
    while i < n
      invariant 0 <= i <= n && |repeats| == n
      invariant forall t | 0 <= t < i :: repeats[t] == Copies(matches, t)
      invariant forall t | i <= t < n :: repeats[t] == 1 + Won(matches, t, i)
    {
      repeats := AddCopies(matches, repeats, i);
      i := i + 1;
    }
    total := SumLoop(repeats);
    SumAtLeast(repeats);
  }

  /** The inner loop for card `i`: its final count is added to cards
      `i + 1 ..= i + matches[i]`, skipping indices past the end. */
  method AddCopies(matches: seq<nat>, repeats: seq<nat>, i: nat) returns (r: seq<nat>)
    requires i < |matches| == |repeats|
    requires forall t | 0 <= t < i :: repeats[t] == Copies(matches, t)
    requires forall t | i <= t < |matches| :: repeats[t] == 1 + Won(matches, t, i)
    ensures |r| == |matches|
    ensures forall t | 0 <= t <= i :: r[t] == Copies(matches, t)
    ensures forall t | i < t < |matches| :: r[t] == 1 + Won(matches, t, i + 1)
    ensures forall t | 0 <= t < |matches| :: r[t] >= repeats[t]
    ensures forall t | 0 <= t <= i || i + matches[i] < t < |matches| :: r[t] == repeats[t]
  {
    var n := |matches|;
    r := repeats;
    var j := 1;
    while j <= matches[i]
      invariant 1 <= j <= matches[i] + 1 && |r| == n
      invariant forall t | 0 <= t <= i :: r[t] == Copies(matches, t)
      invariant forall t | i < t < n ::
        r[t] == 1 + Won(matches, t, i) + (if t < i + j then Copies(matches, i) else 0)
      invariant forall t | 0 <= t < n :: r[t] >= repeats[t]
      invariant forall t | 0 <= t <= i || i + j <= t < n :: r[t] == repeats[t]
    {
      var numAdded := r[i];
      if i + j < n {
        r := r[i + j := r[i + j] + numAdded];
      }
      j := j + 1;
    }
  }

  /** `repeats.iter().sum()`. */
  method SumLoop(s: seq<nat>) returns (total: nat)
    ensures total == Sum(s)
  {
    total := 0;
    var k := 0;
    while k < |s|
      invariant 0 <= k <= |s|
      invariant total == Sum(s[..k])
    {
      assert s[..k + 1][..k] == s[..k];
      total := total + s[k];
      k := k + 1;
    }
    assert s[..|s|] == s;
  }

  lemma {:induction false} SumAtLeast(s: seq<nat>)
    requires forall i | 0 <= i < |s| :: s[i] >= 1
    ensures Sum(s) >= |s|
  {
    if |s| > 0 {
      SumAtLeast(s[..|s| - 1]);
    }
  }

  /** A card is only ever given copies by earlier cards: a first card, or
      one no earlier card reaches, is held once. */
  lemma {:induction false} UnreachedHeldOnce(matches: seq<nat>, i: nat, upto: nat)
    requires upto <= i < |matches|
    requires forall k | 0 <= k < upto :: k + matches[k] < i
    ensures Won(matches, i, upto) == 0
  {
    if upto > 0 {
      UnreachedHeldOnce(matches, i, upto - 1);
    }
  }
}
