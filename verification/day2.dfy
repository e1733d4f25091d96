/** Day 2, Cube Conundrum (src/bin/day2.rs): draws of coloured cubes, the
    validity of a game against a bag, and the fewest cubes a game needs. */
module Day2 {

  datatype Color = Red | Green | Blue

  datatype Draw = Draw(red: nat, green: nat, blue: nat)

  datatype Game = Game(id: nat, draws: seq<Draw>)

  /** The sum of the counts given for `color`. */
  function Total(value: seq<(nat, Color)>, color: Color): nat {
    if |value| == 0 then 0
    else Total(value[..|value| - 1], color)
         + (if value[|value| - 1].1 == color then value[|value| - 1].0 else 0)
  }

  /** The count given last for `color`, or 0 when there is none. */
  function Latest(value: seq<(nat, Color)>, color: Color): nat {
    if |value| == 0 then 0
    else if value[|value| - 1].1 == color then value[|value| - 1].0
    else Latest(value[..|value| - 1], color)
  }

  /** `Draw::from`, as written: a red count replaces the earlier one, while
      green and blue counts add up. Colours never named stay 0. */
  function DrawFrom(value: seq<(nat, Color)>): (d: Draw)
    ensures d.red == Latest(value, Red)
    ensures d.green == Total(value, Green) && d.blue == Total(value, Blue)
  {
    if |value| == 0 then Draw(0, 0, 0)
    else
      var draw := DrawFrom(value[..|value| - 1]);
      var (count, color) := value[|value| - 1];
      match color
      case Red => draw.(red := count)
      case Green => draw.(green := draw.green + count)
      case Blue => draw.(blue := draw.blue + count)
  }

  /** Naming red twice keeps only the last count, unlike green. */
  lemma RedOverwritten()
    ensures DrawFrom([(3, Red), (4, Red)]).red == 4
    ensures DrawFrom([(3, Green), (4, Green)]).green == 7
  {
    assert [(3, Red), (4, Red)][..1] == [(3, Red)];
    assert [(3, Green), (4, Green)][..1] == [(3, Green)];
  }

  /** `Draw::from` with every colour accumulated alike. */
  function DrawFromTotals(value: seq<(nat, Color)>): (d: Draw)
    ensures d.red == Total(value, Red) && d.green == Total(value, Green) && d.blue == Total(value, Blue)
  {
    if |value| == 0 then Draw(0, 0, 0)
    else
      var draw := DrawFromTotals(value[..|value| - 1]);
      var (count, color) := value[|value| - 1];
      match color
      case Red => draw.(red := draw.red + count)
      case Green => draw.(green := draw.green + count)
      case Blue => draw.(blue := draw.blue + count)
  }

  /** The two agree whenever red is named at most once, as in every draw
      of the puzzle. */
  lemma {:induction false} DrawFromAgrees(value: seq<(nat, Color)>)
    requires forall i, j | 0 <= i < j < |value| :: value[i].1 == Red ==> value[j].1 != Red
    ensures DrawFrom(value) == DrawFromTotals(value)
  {
    if |value| > 0 {
      DrawFromAgrees(value[..|value| - 1]);
      if value[|value| - 1].1 == Red {
        RedAbsent(value[..|value| - 1]);
      }
    }
  }

  lemma {:induction false} RedAbsent(value: seq<(nat, Color)>)
    requires forall i | 0 <= i < |value| :: value[i].1 != Red
    ensures Total(value, Red) == 0 && Latest(value, Red) == 0
  {
    if |value| > 0 {
      RedAbsent(value[..|value| - 1]);
    }
  }

  /** `Draw::power`. */
  function Power(d: Draw): (r: nat)
    ensures r == 0 <==> d.red == 0 || d.green == 0 || d.blue == 0
  {
    d.red * d.green * d.blue
  }

  /** Each count is at most the bound's. */
  predicate AtMost(d: Draw, bound: Draw) {
    d.red <= bound.red && d.green <= bound.green && d.blue <= bound.blue
  }

  /** `Game::is_valid`. */
  function IsValid(game: Game, maxDraw: Draw): (r: bool)
    ensures r <==> forall i | 0 <= i < |game.draws| :: AtMost(game.draws[i], maxDraw)
  {
    AllAtMost(game.draws, maxDraw)
  }

  function AllAtMost(draws: seq<Draw>, bound: Draw): (r: bool)
    ensures r <==> forall i | 0 <= i < |draws| :: AtMost(draws[i], bound)
  {
    if |draws| == 0 then true
    else AtMost(draws[0], bound) && AllAtMost(draws[1..], bound)
  }

  function Max(a: nat, b: nat): nat { if a >= b then a else b }

  /** The componentwise maximum of the draws, starting from zero. */
  function MaxDraw(draws: seq<Draw>): (r: Draw)
    ensures forall i | 0 <= i < |draws| :: AtMost(draws[i], r)
    ensures r.red == 0 || exists i | 0 <= i < |draws| :: draws[i].red == r.red
    ensures r.green == 0 || exists i | 0 <= i < |draws| :: draws[i].green == r.green
    ensures r.blue == 0 || exists i | 0 <= i < |draws| :: draws[i].blue == r.blue
  {
    if |draws| == 0 then Draw(0, 0, 0)
    else
      var acc := MaxDraw(draws[..|draws| - 1]);
      var x := draws[|draws| - 1];
      Draw(Max(acc.red, x.red), Max(acc.green, x.green), Max(acc.blue, x.blue))
  }

  /** `Game::fewest_possible`: the smallest bag every draw fits in. */
  function FewestPossible(game: Game): (r: Draw)
    ensures forall i | 0 <= i < |game.draws| :: AtMost(game.draws[i], r)
  {
    MaxDraw(game.draws)
  }

  /** A game is valid against a bag exactly when its fewest-possible bag
      fits in it: the fewest-possible bag is the least bound. */
  lemma ValidIffFewestFits(game: Game, maxDraw: Draw)
    ensures IsValid(game, maxDraw) <==> AtMost(FewestPossible(game), maxDraw)
  {
    var f := FewestPossible(game);
    if IsValid(game, maxDraw) {
      if f.red != 0 {
        var i :| 0 <= i < |game.draws| && game.draws[i].red == f.red;
        assert AtMost(game.draws[i], maxDraw);
      }
      if f.green != 0 {
        var i :| 0 <= i < |game.draws| && game.draws[i].green == f.green;
        assert AtMost(game.draws[i], maxDraw);
      }
      if f.blue != 0 {
        var i :| 0 <= i < |game.draws| && game.draws[i].blue == f.blue;
        assert AtMost(game.draws[i], maxDraw);
      }
    }
  }

  /** Every game is valid against its own fewest-possible bag. */
  lemma ValidAgainstFewest(game: Game)
    ensures IsValid(game, FewestPossible(game))
  {
  }
}
