/** Day 7, Camel Cards (src/bin/day7.rs): card and hand ordering, with and
    without jokers, and the ranked winnings of a game. */
module Day7 {
  import opened Wrappers

  /** `Card`, in declaration order (the order `self as u32` compares). */
  datatype Card = Two | Three | Four | Five | Six | Seven | Eight | Nine | T | J | Q | K | A

  /** `card as u32`. */
  function Rank(c: Card): nat {
    match c
    case Two => 0 case Three => 1 case Four => 2 case Five => 3 case Six => 4
    case Seven => 5 case Eight => 6 case Nine => 7 case T => 8 case J => 9
    case Q => 10 case K => 11 case A => 12
  }

  /** A reference strength: the declaration rank, except that in joker
      mode `J` sits below everything. */
  function Strength(c: Card, noJoker: bool): int {
    if !noJoker && c == J then -1 else Rank(c)
  }

  /** `Card::cmp`. It orders cards exactly by `Strength`. */
  function CardCmp(a: Card, b: Card, noJoker: bool): (r: Ordering)
    ensures r == Compare(Strength(a, noJoker), Strength(b, noJoker))
    ensures r == Equal <==> a == b
    ensures noJoker ==> r == Compare(Rank(a), Rank(b))
    ensures !noJoker && a == J && b != J ==> r == Less
  {
    var compare := Compare(Rank(a), Rank(b));
    if noJoker then compare
    else match (a, b)
      case (J, J) => Equal
      case (J, _) => Less
      case (_, J) => Greater
      case _ => compare
  }

  /** The labels `from_str` accepts. */
  function Label(c: Card): string {
    match c
    case A => "A" case K => "K" case Q => "Q" case J => "J" case T => "T"
    case Nine => "9" case Eight => "8" case Seven => "7" case Six => "6"
    case Five => "5" case Four => "4" case Three => "3" case Two => "2"
  }

  datatype Error = CardParseError(text: string)

  /** `Card::from_str`. */
  function ParseCard(s: string): (r: Result<Card, Error>)
    ensures r.Ok? ==> Label(r.value) == s
    ensures r.Err? ==> r.error == CardParseError(s) && forall c: Card :: Label(c) != s
  {
    match s
    case "A" => Ok(A) case "K" => Ok(K) case "Q" => Ok(Q) case "J" => Ok(J)
    case "T" => Ok(T) case "9" => Ok(Nine) case "8" => Ok(Eight) case "7" => Ok(Seven)
    case "6" => Ok(Six) case "5" => Ok(Five) case "4" => Ok(Four) case "3" => Ok(Three)
    case "2" => Ok(Two)
    case _ => Err(CardParseError(s))
  }

  /** Parsing inverts printing: every card's label parses back to it. */
  lemma ParseLabel(c: Card)
    ensures ParseCard(Label(c)) == Ok(c)
  {
  }

  datatype HandType = HighCard | OnePair | TwoPair | ThreeOfAKind | FullHouse | FourOfAKind | FiveOfAKind

  /** The derived `Ord` of `HandType`: declaration order. */
  function TypeRank(h: HandType): nat {
    match h
    case HighCard => 0 case OnePair => 1 case TwoPair => 2 case ThreeOfAKind => 3
    case FullHouse => 4 case FourOfAKind => 5 case FiveOfAKind => 6
  }

  datatype Hand = Hand(cards: seq<Card>, bid: nat)

  function Count(cards: seq<Card>, c: Card): (r: nat)
    ensures r <= |cards|
  {
    if |cards| == 0 then 0 else (if cards[0] == c then 1 else 0) + Count(cards[1..], c)
  }

  const AllCards: seq<Card> := [Two, Three, Four, Five, Six, Seven, Eight, Nine, T, J, Q, K, A]
  const NonJokers: seq<Card> := [Two, Three, Four, Five, Six, Seven, Eight, Nine, T, Q, K, A]

  function Counts(cards: seq<Card>, pool: seq<Card>): (r: seq<nat>)
    ensures |r| == |pool| && forall i | 0 <= i < |pool| :: r[i] == Count(cards, pool[i])
  {
    if |pool| == 0 then [] else [Count(cards, pool[0])] + Counts(cards, pool[1..])
  }

  /** The largest entry, 0 for an empty list (`.max().unwrap_or(0)`). */
  function MaxOf(s: seq<nat>): (r: nat)
    ensures forall i | 0 <= i < |s| :: s[i] <= r
    ensures |s| > 0 ==> r in s
    ensures |s| == 0 ==> r == 0
  {
    if |s| == 0 then 0 else var m := MaxOf(s[1..]); if s[0] >= m then s[0] else m
  }

  /** An index of a largest entry (`max_by_key`; which one is irrelevant to
      the counts that follow). */
  function ArgMax(s: seq<nat>): (i: nat)
    requires |s| > 0
    ensures i < |s| && s[i] == MaxOf(s)
  {
    FirstIndex(s, MaxOf(s))
  }

  function FirstIndex(s: seq<nat>, m: nat): (i: nat)
    requires m in s
    ensures i < |s| && s[i] == m
  {
    if s[0] == m then 0 else 1 + FirstIndex(s[1..], m)
  }

  /** The match at src/bin/day7.rs:103-111 on (largest count plus jokers,
      second-largest count). */
  function Classify(top: nat, second: nat): HandType {
    match (top, second)
    case (5, _) => FiveOfAKind
    case (4, _) => FourOfAKind
    case (3, 2) => FullHouse
    case (3, _) => ThreeOfAKind
    case (2, 2) => TwoPair
    case (2, _) => OnePair
    case _ => HighCard
  }

  /** `Hand::hand_type`: in joker mode the jokers are taken out of the count
      table and added to the largest remaining count. */
  function HandTypeOf(cards: seq<Card>, noJoker: bool): HandType {
    var jokers := if noJoker then 0 else Count(cards, J);
    var counts := Counts(cards, if noJoker then AllCards else NonJokers);
    var i := ArgMax(counts);
    Classify(counts[i] + jokers, MaxOf(counts[..i] + counts[i + 1..]))
  }

  function Remove(s: seq<nat>, i: nat): seq<nat>
    requires i < |s|
  {
    s[..i] + s[i + 1..]
  }

  /** Removing one entry leaves the maximum alone when another entry
      attains it. */
  lemma MaxOfRemove(s: seq<nat>, i: nat, k: nat)
    requires i < |s| && k < |s| && i != k && s[k] == MaxOf(s)
    ensures MaxOf(Remove(s, i)) == MaxOf(s)
  {
    var r := Remove(s, i);
    assert s[k] <= MaxOf(r) by {
      var k' := if k < i then k else k - 1;
      RemoveAt(s, i, k');
    }
    assert MaxOf(r) <= MaxOf(s) by {
      var j :| 0 <= j < |r| && r[j] == MaxOf(r);
      RemoveAt(s, i, j);
    }
  }

  lemma RemoveAt(s: seq<nat>, i: nat, j: nat)
    requires i < |s| && j < |s| - 1
    ensures |Remove(s, i)| == |s| - 1
    ensures Remove(s, i)[j] == s[if j < i then j else j + 1]
  {
  }

  /** `HashMap` iteration order decides which of several largest counts
      `max_by_key` removes; the second-largest count does not depend on it. */
  lemma TieBreakIrrelevant(s: seq<nat>, i: nat, k: nat)
    requires i < |s| && k < |s| && s[i] == MaxOf(s) && s[k] == MaxOf(s)
    ensures MaxOf(Remove(s, i)) == MaxOf(Remove(s, k))
  {
    if i != k {
      MaxOfRemove(s, i, k);
      MaxOfRemove(s, k, i);
    }
  }

  lemma CountUniform(cards: seq<Card>, c: Card, d: Card)
    requires forall i | 0 <= i < |cards| :: cards[i] == c
    ensures Count(cards, d) == if c == d then |cards| else 0
  {
    if |cards| > 0 {
      CountUniform(cards[1..], c, d);
    }
  }

  /** The largest count plus the jokers decides five of a kind. */
  lemma FiveWhenTopIsFive(cards: seq<Card>, noJoker: bool)
    requires MaxOf(Counts(cards, if noJoker then AllCards else NonJokers))
             + (if noJoker then 0 else Count(cards, J)) == 5
    ensures HandTypeOf(cards, noJoker) == FiveOfAKind
  {
  }

  /** A card that takes up the whole hand has the largest count. */
  lemma MaxCountWhole(cards: seq<Card>, pool: seq<Card>, k: nat)
    requires k < |pool| && Count(cards, pool[k]) == |cards|
    ensures MaxOf(Counts(cards, pool)) == |cards|
  {
    var counts := Counts(cards, pool);
    assert counts[k] == |cards|;
    var j :| 0 <= j < |counts| && counts[j] == MaxOf(counts);
  }

  /** A pool whose cards are all absent has largest count 0. */
  lemma MaxCountNone(cards: seq<Card>, pool: seq<Card>)
    requires forall k | 0 <= k < |pool| :: Count(cards, pool[k]) == 0
    ensures MaxOf(Counts(cards, pool)) == 0
  {
    var counts := Counts(cards, pool);
    if |counts| > 0 {
      var j :| 0 <= j < |counts| && counts[j] == MaxOf(counts);
    }
  }

  function NonJokerIndex(c: Card): nat
    requires c != J
    ensures NonJokerIndex(c) < |NonJokers| && NonJokers[NonJokerIndex(c)] == c
  {
    if Rank(c) < 9 then Rank(c) else Rank(c) - 1
  }

  /** Five equal cards are five of a kind in either mode, and so are five
      jokers in joker mode. */
  lemma FiveOfAKindExamples(c: Card)
    ensures HandTypeOf([c, c, c, c, c], true) == FiveOfAKind
    ensures HandTypeOf([c, c, c, c, c], false) == FiveOfAKind
  {
    FiveEqualCards([c, c, c, c, c], c);
  }

  lemma FiveEqualCards(cards: seq<Card>, c: Card)
    requires |cards| == 5 && forall i | 0 <= i < |cards| :: cards[i] == c
    ensures HandTypeOf(cards, true) == FiveOfAKind
    ensures HandTypeOf(cards, false) == FiveOfAKind
  {
    FiveEqualPlain(cards, c);
    if c != J {
      FiveEqualJokerMode(cards, c);
    } else {
      FiveJokers(cards);
    }
  }

  lemma FiveEqualPlain(cards: seq<Card>, c: Card)
    requires |cards| == 5 && forall i | 0 <= i < |cards| :: cards[i] == c
    ensures HandTypeOf(cards, true) == FiveOfAKind
  {
    CountUniform(cards, c, c);
    assert AllCards[Rank(c)] == c;
    MaxCountWhole(cards, AllCards, Rank(c));
    FiveWhenTopIsFive(cards, true);
  }

  lemma FiveEqualJokerMode(cards: seq<Card>, c: Card)
    requires |cards| == 5 && forall i | 0 <= i < |cards| :: cards[i] == c
    requires c != J
    ensures HandTypeOf(cards, false) == FiveOfAKind
  {
    CountUniform(cards, c, c);
    CountUniform(cards, c, J);
    MaxCountWhole(cards, NonJokers, NonJokerIndex(c));
    FiveWhenTopIsFive(cards, false);
  }

  lemma FiveJokers(cards: seq<Card>)
    requires |cards| == 5 && forall i | 0 <= i < |cards| :: cards[i] == J
    ensures HandTypeOf(cards, false) == FiveOfAKind
  {
    CountUniform(cards, J, J);
    forall k | 0 <= k < |NonJokers| ensures Count(cards, NonJokers[k]) == 0 {
      CountUniform(cards, J, NonJokers[k]);
    }
    MaxCountNone(cards, NonJokers);
    FiveWhenTopIsFive(cards, false);
  }

  /** Only a largest count (plus jokers) of 5 classifies as five of a kind. */
  lemma ClassifyFive(top: nat, second: nat)
    ensures Classify(top, second) == FiveOfAKind <==> top == 5
  {
  }

  /** A card counted once per position holds every position exactly when
      its count is the hand's length. */
  lemma {:induction false} CountAll(cards: seq<Card>, c: Card)
    ensures Count(cards, c) == |cards| <==> forall i | 0 <= i < |cards| :: cards[i] == c
  {
    if |cards| > 0 {
      CountAll(cards[1..], c);
      assert forall i | 1 <= i < |cards| :: cards[i] == cards[1..][i - 1];
    }
  }

  /** Two different cards together fill at most the hand, and fill it
      exactly when every position holds one of them. */
  lemma {:induction false} CountPair(cards: seq<Card>, c: Card, d: Card)
    requires c != d
    ensures Count(cards, c) + Count(cards, d) <= |cards|
    ensures Count(cards, c) + Count(cards, d) == |cards| <==>
      forall i | 0 <= i < |cards| :: cards[i] == c || cards[i] == d
  {
    if |cards| > 0 {
      CountPair(cards[1..], c, d);
      assert forall i | 1 <= i < |cards| :: cards[i] == cards[1..][i - 1];
    }
  }

  /** Without jokers, a five-card hand is five of a kind exactly when all
      its cards are equal. */
  lemma PlainFiveOfAKind(cards: seq<Card>)
    requires |cards| == 5
    ensures HandTypeOf(cards, true) == FiveOfAKind <==> forall i | 0 <= i < |cards| :: cards[i] == cards[0]
  {
    var counts := Counts(cards, AllCards);
    var i := ArgMax(counts);
    ClassifyFive(counts[i], MaxOf(counts[..i] + counts[i + 1..]));
    CountAll(cards, AllCards[i]);
    if forall k | 0 <= k < |cards| :: cards[k] == cards[0] {
      FiveEqualPlain(cards, cards[0]);
    }
  }

  /** The non-joker cards of `cards` are all the same card. */
  predicate OneKindBesideJokers(cards: seq<Card>) {
    forall i, j | 0 <= i < |cards| && 0 <= j < |cards| && cards[i] != J && cards[j] != J :: cards[i] == cards[j]
  }

  /** With jokers, a five-card hand is five of a kind exactly when its
      non-joker cards are all equal. */
  lemma JokerFiveOfAKind(cards: seq<Card>)
    requires |cards| == 5
    ensures HandTypeOf(cards, false) == FiveOfAKind <==> OneKindBesideJokers(cards)
  {
    if HandTypeOf(cards, false) == FiveOfAKind {
      JokerFiveAllOneKind(cards);
    }
    if OneKindBesideJokers(cards) {
      var c := if exists k | 0 <= k < |cards| :: cards[k] != J
               then var k :| 0 <= k < |cards| && cards[k] != J; cards[k] else A;
      assert forall i | 0 <= i < |cards| :: cards[i] == c || cards[i] == J;
      OneKindJokerFive(cards, c);
    }
  }

  lemma JokerFiveAllOneKind(cards: seq<Card>)
    requires |cards| == 5 && HandTypeOf(cards, false) == FiveOfAKind
    ensures OneKindBesideJokers(cards)
  {
    var counts := Counts(cards, NonJokers);
    var i := ArgMax(counts);
    ClassifyFive(counts[i] + Count(cards, J), MaxOf(counts[..i] + counts[i + 1..]));
    NonJokersNotJoker(i);
    var d := NonJokers[i];
    CountPair(cards, d, J);
    OneKindOrJoker(cards, d);
  }

  lemma OneKindOrJoker(cards: seq<Card>, d: Card)
    requires forall i | 0 <= i < |cards| :: cards[i] == d || cards[i] == J
    ensures OneKindBesideJokers(cards)
  {
  }

  lemma NonJokersNotJoker(k: nat)
    requires k < |NonJokers|
    ensures NonJokers[k] != J
  {
  }

  lemma OneKindJokerFive(cards: seq<Card>, c: Card)
    requires |cards| == 5 && c != J
    requires forall i | 0 <= i < |cards| :: cards[i] == c || cards[i] == J
    ensures HandTypeOf(cards, false) == FiveOfAKind
  {
    CountPair(cards, c, J);
    MaxCountBesideJokers(cards, c);
    FiveWhenTopIsFive(cards, false);
  }

  /** A card that fills the hand together with the jokers has the largest
      non-joker count. */
  lemma MaxCountBesideJokers(cards: seq<Card>, c: Card)
    requires c != J && Count(cards, c) + Count(cards, J) == |cards|
    ensures MaxOf(Counts(cards, NonJokers)) + Count(cards, J) == |cards|
  {
    var counts := Counts(cards, NonJokers);
    assert counts[NonJokerIndex(c)] == Count(cards, c);
    var k :| 0 <= k < |counts| && counts[k] == MaxOf(counts);
    NonJokersNotJoker(k);
    CountPair(cards, NonJokers[k], J);
  }

  /** Compares the cards pairwise, up to the shorter hand; the first
      unequal pair decides (the `zip`/`fold` at src/bin/day7.rs:117-123). */
  function CardsCmp(xs: seq<Card>, ys: seq<Card>, noJoker: bool): (r: Ordering)
    ensures r == Equal <==> forall i | 0 <= i < |xs| && i < |ys| :: xs[i] == ys[i]
  {
    if |xs| == 0 || |ys| == 0 then Equal
    else
      var rest := CardsCmp(xs[1..], ys[1..], noJoker);
      assert forall i | 1 <= i < |xs| && i < |ys| :: xs[1..][i - 1] == xs[i] && ys[1..][i - 1] == ys[i];
      CardCmp(xs[0], ys[0], noJoker).Then(rest)
  }

  /** The first position where the hands differ decides the comparison. */
  lemma {:induction false} CardsCmpDecidedAt(xs: seq<Card>, ys: seq<Card>, noJoker: bool, i: nat)
    requires i < |xs| && i < |ys| && xs[..i] == ys[..i] && xs[i] != ys[i]
    ensures CardsCmp(xs, ys, noJoker) == CardCmp(xs[i], ys[i], noJoker)
    decreases i
  {
    if i > 0 {
      assert xs[0] == xs[..i][0] == ys[..i][0] == ys[0];
      assert xs[1..][..i - 1] == xs[..i][1..] == ys[..i][1..] == ys[1..][..i - 1];
      CardsCmpDecidedAt(xs[1..], ys[1..], noJoker, i - 1);
    }
  }

  /** `Hand::cmp`: hand type first, then the cards in order. */
  function HandCmp(a: Hand, b: Hand, noJoker: bool): (r: Ordering)
    ensures TypeRank(HandTypeOf(a.cards, noJoker)) < TypeRank(HandTypeOf(b.cards, noJoker)) ==> r == Less
    ensures TypeRank(HandTypeOf(a.cards, noJoker)) > TypeRank(HandTypeOf(b.cards, noJoker)) ==> r == Greater
    ensures HandTypeOf(a.cards, noJoker) == HandTypeOf(b.cards, noJoker) ==> r == CardsCmp(a.cards, b.cards, noJoker)
  {
    Compare(TypeRank(HandTypeOf(a.cards, noJoker)), TypeRank(HandTypeOf(b.cards, noJoker)))
      .Then(CardsCmp(a.cards, b.cards, noJoker))
  }

  /** Swapping the hands reverses the card comparison. */
  lemma {:induction false} CardsCmpAntisymmetric(xs: seq<Card>, ys: seq<Card>, noJoker: bool)
    ensures CardsCmp(xs, ys, noJoker) == CardsCmp(ys, xs, noJoker).Reverse()
  {
    if |xs| > 0 && |ys| > 0 {
      CardsCmpAntisymmetric(xs[1..], ys[1..], noJoker);
    }
  }

  /** `Hand::cmp` is antisymmetric, so sorting by it is well defined. */
  lemma HandCmpAntisymmetric(a: Hand, b: Hand, noJoker: bool)
    ensures HandCmp(a, b, noJoker) == HandCmp(b, a, noJoker).Reverse()
  {
    CardsCmpAntisymmetric(a.cards, b.cards, noJoker);
  }

  /** A comparison that swapping the arguments reverses. */
  ghost predicate Antisymmetric(cmp: (Hand, Hand) -> Ordering) {
    forall a, b :: cmp(a, b) == cmp(b, a).Reverse()
  }

  /** Consecutive hands are in non-decreasing `cmp` order. */
  ghost predicate Sorted(hs: seq<Hand>, cmp: (Hand, Hand) -> Ordering) {
    forall i | 0 <= i < |hs| - 1 :: cmp(hs[i], hs[i + 1]) != Greater
  }

  /** Inserts `h` before the first hand it does not exceed, so that among
      equal hands the earlier one stays first. */
  function Insert(h: Hand, s: seq<Hand>, cmp: (Hand, Hand) -> Ordering): (r: seq<Hand>)
    ensures multiset(r) == multiset(s) + multiset{h}
    ensures |r| == |s| + 1 && (r[0] == h || (|s| > 0 && r[0] == s[0]))
    ensures Antisymmetric(cmp) && Sorted(s, cmp) ==> Sorted(r, cmp)
  {
    if |s| == 0 || cmp(h, s[0]) != Greater then [h] + s
    else
      var rest := Insert(h, s[1..], cmp);
      assert s == [s[0]] + s[1..];
      assert Antisymmetric(cmp) && Sorted(s, cmp) ==> Sorted([s[0]] + rest, cmp) by {
        if Antisymmetric(cmp) && Sorted(s, cmp) {
          assert Sorted(s[1..], cmp) by {
            forall i | 0 <= i < |s[1..]| - 1 ensures cmp(s[1..][i], s[1..][i + 1]) != Greater {
              assert s[1..][i] == s[i + 1] && s[1..][i + 1] == s[i + 2];
            }
          }
          assert cmp(s[0], h) == cmp(h, s[0]).Reverse();
          assert cmp(s[0], rest[0]) != Greater;
        }
      }
      [s[0]] + rest
  }

  /** `sort_by`, a stable sort, written as insertion sort. */
  function Sort(hs: seq<Hand>, cmp: (Hand, Hand) -> Ordering): (r: seq<Hand>)
    ensures multiset(r) == multiset(hs)
    ensures |r| == |hs|
    ensures Antisymmetric(cmp) ==> Sorted(r, cmp)
  {
    if |hs| == 0 then []
    else
      assert hs == [hs[0]] + hs[1..];
      Insert(hs[0], Sort(hs[1..], cmp), cmp)
  }

  /** The hands of `hs` that compare Equal to `k`, in their order in `hs`. */
  function EqualTo(hs: seq<Hand>, cmp: (Hand, Hand) -> Ordering, k: Hand): seq<Hand> {
    if |hs| == 0 then []
    else (if cmp(hs[0], k) == Equal then [hs[0]] else []) + EqualTo(hs[1..], cmp, k)
  }

  /** Any two hands of `hs` that compare Equal to `k` compare Equal to
      each other. */
  ghost predicate EqualClass(hs: seq<Hand>, cmp: (Hand, Hand) -> Ordering, k: Hand) {
    forall a, b | a in hs && b in hs && cmp(a, k) == Equal && cmp(b, k) == Equal :: cmp(a, b) == Equal
  }

  /** Inserting `h` puts it ahead of every hand of its class already in
      `s`. */
  lemma {:induction false} EqualToInsert(h: Hand, s: seq<Hand>, cmp: (Hand, Hand) -> Ordering, k: Hand)
    requires EqualClass([h] + s, cmp, k)
    ensures EqualTo(Insert(h, s, cmp), cmp, k) == (if cmp(h, k) == Equal then [h] else []) + EqualTo(s, cmp, k)
  {
    if |s| == 0 || cmp(h, s[0]) != Greater {
      assert Insert(h, s, cmp) == [h] + s;
      assert ([h] + s)[1..] == s;
    } else {
      var rest := Insert(h, s[1..], cmp);
      assert Insert(h, s, cmp) == [s[0]] + rest;
      assert ([s[0]] + rest)[1..] == rest;
      assert EqualClass([h] + s[1..], cmp, k) by {
        forall a | a in [h] + s[1..] ensures a in [h] + s {
          if a != h {
            assert a in s[1..];
          }
        }
      }
      EqualToInsert(h, s[1..], cmp, k);
      assert s[0] in [h] + s;
      assert h in [h] + s;
    }
  }

  /** `sort_by` is stable: the hands of any class of mutually Equal hands
      come out in their input order. */
  lemma {:induction false} SortStable(hs: seq<Hand>, cmp: (Hand, Hand) -> Ordering, k: Hand)
    requires EqualClass(hs, cmp, k)
    ensures EqualTo(Sort(hs, cmp), cmp, k) == EqualTo(hs, cmp, k)
  {
    if |hs| > 0 {
      var tail := Sort(hs[1..], cmp);
      assert EqualClass(hs[1..], cmp, k) by {
        forall a | a in hs[1..] ensures a in hs {
        }
      }
      SortStable(hs[1..], cmp, k);
      assert EqualClass([hs[0]] + tail, cmp, k) by {
        forall a | a in [hs[0]] + tail ensures a in hs {
          if a != hs[0] {
            assert a in multiset(tail);
            assert a in multiset(hs[1..]);
          }
        }
      }
      EqualToInsert(hs[0], tail, cmp, k);
    }
  }

  /** Between hands with equally many cards, `Hand::cmp` gives Equal exactly
      for the same cards, so a class of Equal hands shares its cards. */
  lemma HandCmpEqual(a: Hand, b: Hand, noJoker: bool)
    requires |a.cards| == |b.cards|
    ensures HandCmp(a, b, noJoker) == Equal <==> a.cards == b.cards
  {
  }

  function BidSum(hs: seq<Hand>): nat {
    if |hs| == 0 then 0 else hs[0].bid + BidSum(hs[1..])
  }

  /** Sum of `rank * bid`, the ranks counting up from `rank`. */
  function RankedSum(hs: seq<Hand>, rank: nat): nat {
    if |hs| == 0 then 0 else rank * hs[0].bid + RankedSum(hs[1..], rank + 1)
  }

  lemma {:induction false} BidSumInsert(h: Hand, s: seq<Hand>, cmp: (Hand, Hand) -> Ordering)
    ensures BidSum(Insert(h, s, cmp)) == h.bid + BidSum(s)
  {
    if |s| > 0 && cmp(h, s[0]) == Greater {
      BidSumInsert(h, s[1..], cmp);
    }
  }

  lemma {:induction false} BidSumSort(hs: seq<Hand>, cmp: (Hand, Hand) -> Ordering)
    ensures BidSum(Sort(hs, cmp)) == BidSum(hs)
  {
    if |hs| > 0 {
      BidSumSort(hs[1..], cmp);
      BidSumInsert(hs[0], Sort(hs[1..], cmp), cmp);
    }
  }

  lemma {:induction false} RankedSumBounds(hs: seq<Hand>, rank: nat)
    requires |hs| > 0
    ensures rank * BidSum(hs) <= RankedSum(hs, rank) <= (rank + |hs| - 1) * BidSum(hs)
  {
    var b := hs[0].bid;
    var rest := hs[1..];
    if |rest| == 0 {
      assert BidSum(hs) == b;
    } else {
      RankedSumBounds(rest, rank + 1);
      var B := BidSum(rest);
      var W := RankedSum(rest, rank + 1);
      var top := rank + |hs| - 1;
      assert BidSum(hs) == b + B && RankedSum(hs, rank) == rank * b + W;
      assert (rank + 1) * B <= W <= top * B;
      MulDistrib(rank, b, B);
      MulDistrib(top, b, B);
      MulMono(rank, top, b);
      MulMono(rank, rank + 1, B);
    }
  }

  lemma MulDistrib(k: nat, x: nat, y: nat)
    ensures k * (x + y) == k * x + k * y
  {
  }

  lemma MulMono(k: nat, l: nat, x: nat)
    requires k <= l
    ensures k * x <= l * x
  {
  }

  /** The comparison `sort_by` is given. */
  function ByHand(noJoker: bool): (Hand, Hand) -> Ordering {
    (a: Hand, b: Hand) => HandCmp(a, b, noJoker)
  }

  /** `Game::winnings`: the hands sorted ascending by `Hand::cmp`, each bid
      multiplied by its 1-based rank. The order is a permutation sorted by
      `Hand::cmp`; every bid is paid at least once and at most as many
      times as there are hands. */
  function Winnings(hands: seq<Hand>, noJoker: bool): (r: nat)
    ensures BidSum(hands) <= r <= |hands| * BidSum(hands)
  {
    var sorted := Sort(hands, ByHand(noJoker));
    BidSumSort(hands, ByHand(noJoker));
    PaidBetween(sorted);
    RankedSum(sorted, 1)
  }

  lemma PaidBetween(hs: seq<Hand>)
    ensures BidSum(hs) <= RankedSum(hs, 1) <= |hs| * BidSum(hs)
  {
    if |hs| > 0 {
      RankedSumBounds(hs, 1);
    }
  }

  /** The order `winnings` ranks the hands in is sorted by `Hand::cmp` and is
      a permutation of the game's hands. */
  lemma WinningsOrder(hands: seq<Hand>, noJoker: bool)
    ensures Sorted(Sort(hands, ByHand(noJoker)), ByHand(noJoker))
    ensures multiset(Sort(hands, ByHand(noJoker))) == multiset(hands)
  {
    forall a, b ensures ByHand(noJoker)(a, b) == ByHand(noJoker)(b, a).Reverse() {
      HandCmpAntisymmetric(a, b, noJoker);
    }
  }

  /** In a game whose hands all hold as many cards as `k`, the hands with
      the cards of `k` are ranked in their input order. */
  lemma WinningsStable(hands: seq<Hand>, noJoker: bool, k: Hand)
    requires forall i | 0 <= i < |hands| :: |hands[i].cards| == |k.cards|
    ensures EqualTo(Sort(hands, ByHand(noJoker)), ByHand(noJoker), k) == EqualTo(hands, ByHand(noJoker), k)
  {
    var cmp := ByHand(noJoker);
    forall a, b | a in hands && b in hands && cmp(a, k) == Equal && cmp(b, k) == Equal
      ensures cmp(a, b) == Equal
    {
      HandCmpEqual(a, k, noJoker);
      HandCmpEqual(b, k, noJoker);
      HandCmpEqual(a, b, noJoker);
    }
    SortStable(hands, cmp, k);
  }
}
