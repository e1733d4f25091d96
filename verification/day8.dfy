/** Day 8, Haunted Wasteland (src/bin/day8.rs): following left/right
    instructions through a network of named nodes. */
module Day8 {
  import opened Wrappers

  type Name = string

  datatype Direction = Left | Right

  /** `Node`: the names reached by turning left and right. */
  datatype Node = Node(left: Name, right: Name)

  /** `Graph`: the nodes by name. */
  type Graph = map<Name, Node>

  /** `Node::turn`: the left name for `Left`, the right one for `Right`. */
  function Turn(node: Node, dir: Direction): (r: Name)
    ensures dir == Left ==> r == node.left
    ensures dir == Right ==> r == node.right
  {
    match dir
    case Left => node.left
    case Right => node.right
  }

  // ---------------------------------------------------------------------
  // Part one: from "AAA" to "ZZZ".
  // ---------------------------------------------------------------------

  const START: Name := "AAA"
  const GOAL: Name := "ZZZ"

  /** The node left from before step `k` of the walk from "AAA", where
      step `k` follows `dirs[k % |dirs|]`; `None` once a name reached is
      not in the graph. */
  function Current(g: Graph, dirs: seq<Direction>, k: nat): Option<Node>
    requires |dirs| > 0
  {
    if k == 0 then (if START in g then Some(g[START]) else None)
    else
      match Current(g, dirs, k - 1)
      case None => None
      case Some(node) =>
        var next := Turn(node, dirs[(k - 1) % |dirs|]);
        if next in g then Some(g[next]) else None
  }

  /** The name step `k` lands on, if the walk gets that far. */
  function Landed(g: Graph, dirs: seq<Direction>, k: nat): Option<Name>
    requires |dirs| > 0
  {
    match Current(g, dirs, k)
    case None => None
    case Some(node) => Some(Turn(node, dirs[k % |dirs|]))
  }

  /** What `count_steps` does within `fuel` steps: returns, or is still
      walking. */
  datatype Walk = Done(steps: Option<nat>) | Walking

  /** `Graph::count_steps`, run for at most `fuel` steps. It gives `None`
      when there are no directions, when "AAA" is missing, or when a name
      reached before "ZZZ" is missing; otherwise the number of the first
      step that lands on "ZZZ". The source loops for ever when the walk
      never reaches "ZZZ" and never leaves the graph; that is `Walking`
      here at every fuel. */
  method CountSteps(g: Graph, dirs: seq<Direction>, fuel: nat) returns (r: Walk)
    ensures |dirs| == 0 || START !in g ==> r == Done(None)
    ensures r.Done? && r.steps.Some? ==>
      |dirs| > 0 && 1 <= r.steps.value <= fuel && Landed(g, dirs, r.steps.value - 1) == Some(GOAL) &&
      forall k | 0 <= k < r.steps.value - 1 :: Landed(g, dirs, k).Some? && Landed(g, dirs, k).value != GOAL
    ensures r == Done(None) && |dirs| > 0 && START in g ==>
      exists k | 0 <= k < fuel :: Landed(g, dirs, k).Some? && Landed(g, dirs, k).value !in g &&
        Landed(g, dirs, k).value != GOAL && Current(g, dirs, k + 1).None? &&
        forall j | 0 <= j < k :: Landed(g, dirs, j).Some? && Landed(g, dirs, j).value != GOAL
    ensures r == Walking ==>
      |dirs| > 0 && forall k | 0 <= k < fuel :: Landed(g, dirs, k).Some? && Landed(g, dirs, k).value != GOAL
  {
    if |dirs| == 0 || START !in g {
      return Done(None);
    }
    var current := g[START];
    var count := 0;
    while count < fuel
      invariant count <= fuel
      invariant Current(g, dirs, count) == Some(current)
      invariant forall k | 0 <= k < count :: Landed(g, dirs, k).Some? && Landed(g, dirs, k).value != GOAL
    {
      var next := Turn(current, dirs[count % |dirs|]);
      assert Landed(g, dirs, count) == Some(next);
      if next == GOAL {
        return Done(Some(count + 1));
      }
      if next !in g {
        assert Current(g, dirs, count + 1).None?;
        return Done(None);
      }
      current := g[next];
      count := count + 1;
    }
    return Walking;
  }

  // ---------------------------------------------------------------------
  // Part two: every start ending in 'A' at once.
  // ---------------------------------------------------------------------

  /** Every name a node turns to is itself a node: `get(..).unwrap()`
      never fails. */
  predicate Closed(g: Graph) {
    forall n, dir | n in g :: Step(g, n, dir) in g
  }

  /** The name reached from node `n` in direction `dir`. */
  function Step(g: Graph, n: Name, dir: Direction): Name
    requires n in g
  {
    Turn(g[n], dir)
  }

  /** The name after `k` moves from `start`, move `k` following
      `dirs[k % |dirs|]`. */
  function WalkName(g: Graph, dirs: seq<Direction>, start: Name, k: nat): (r: Name)
    requires |dirs| > 0 && Closed(g) && start in g
    ensures r in g
  {
    if k == 0 then start else Step(g, WalkName(g, dirs, start, k - 1), dirs[(k - 1) % |dirs|])
  }

  predicate Distinct(s: seq<Name>) {
    forall i, j | 0 <= i < j < |s| :: s[i] != s[j]
  }

  /** The elements of `s`, for the termination measure. */
  function Elements(s: seq<Name>): set<Name> {
    set x | x in s
  }

  /** The visiting loop of `count_steps_multiple`: record each name
      reached until one is reached a second time. It returns the names
      recorded and the one that repeats. Each round records a new name of
      the graph, so it stops. */
  function Explore(g: Graph, dirs: seq<Direction>, start: Name, current: Node, visited: seq<Name>): (r: (seq<Name>, Name))
    requires |dirs| > 0 && Closed(g) && start in g
    requires current == g[WalkName(g, dirs, start, |visited|)]
    requires forall k | 0 <= k < |visited| :: visited[k] == WalkName(g, dirs, start, k + 1)
    requires Distinct(visited)
    ensures |visited| <= |r.0| && r.0[..|visited|] == visited
    ensures forall k | 0 <= k < |r.0| :: r.0[k] == WalkName(g, dirs, start, k + 1)
    ensures Distinct(r.0)
    ensures r.1 == WalkName(g, dirs, start, |r.0| + 1) && r.1 in r.0
    decreases g.Keys - Elements(visited)
  {
    var next := Turn(current, dirs[|visited| % |dirs|]);
    assert next == Step(g, WalkName(g, dirs, start, |visited|), dirs[|visited| % |dirs|]);
    if next in visited then (visited, next)
    else
      assert g.Keys - Elements(visited + [next]) < g.Keys - Elements(visited) by {
        assert next in g.Keys - Elements(visited);
      }
      Explore(g, dirs, start, g[next], visited + [next])
  }

  /** The first position of `x` in `s` (`position(..).unwrap()`). */
  function Position(s: seq<Name>, x: Name): (i: nat)
    requires x in s
    ensures i < |s| && s[i] == x && forall j | 0 <= j < i :: s[j] != x
  {
    if s[0] == x then 0 else 1 + Position(s[1..], x)
  }

  /** `loop_length`: the names recorded from the first visit of the
      repeated name on. The walk then comes back to that name, so it is at
      least 1, and exactly `loop_length` moves after its first visit. */
  function LoopLength(g: Graph, dirs: seq<Direction>, start: Name): (r: nat)
    requires |dirs| > 0 && Closed(g) && start in g
    ensures r >= 1
  {
    var (visited, repeated) := Explore(g, dirs, start, g[start], []);
    |visited| - Position(visited, repeated)
  }

  /** The walk comes back: the name `loop_length` moves after the first
      visit of the repeated name is that name again. */
  lemma LoopReturns(g: Graph, dirs: seq<Direction>, start: Name)
    requires |dirs| > 0 && Closed(g) && start in g
    ensures var (visited, repeated) := Explore(g, dirs, start, g[start], []);
      var p := Position(visited, repeated);
      WalkName(g, dirs, start, p + 1) == repeated &&
      WalkName(g, dirs, start, p + 1 + LoopLength(g, dirs, start)) == repeated
  {
    var (visited, repeated) := Explore(g, dirs, start, g[start], []);
    var p := Position(visited, repeated);
    assert visited[p] == WalkName(g, dirs, start, p + 1);
    assert p + 1 + LoopLength(g, dirs, start) == |visited| + 1;
  }

  /** No name is seen twice before the repeated one comes back. */
  lemma LoopDistinct(g: Graph, dirs: seq<Direction>, start: Name)
    requires |dirs| > 0 && Closed(g) && start in g
    ensures var visited := Explore(g, dirs, start, g[start], []).0;
      forall i, j | 1 <= i < j <= |visited| :: WalkName(g, dirs, start, i) != WalkName(g, dirs, start, j)
  {
    var visited := Explore(g, dirs, start, g[start], []).0;
    forall i, j | 1 <= i < j <= |visited|
      ensures WalkName(g, dirs, start, i) != WalkName(g, dirs, start, j)
    {
      assert visited[i - 1] != visited[j - 1];
    }
  }

  // ---------------------------------------------------------------------
  // Least common multiples.
  // ---------------------------------------------------------------------

  predicate Divides(d: nat, n: nat)
    requires d >= 1
  {
    n % d == 0
  }

  /** The least common multiple of `a` and `b` that is at least `m`. */
  function LcmFrom(a: nat, b: nat, m: nat): (r: nat)
    requires a >= 1 && b >= 1 && 1 <= m <= a * b
    ensures m <= r <= a * b && Divides(a, r) && Divides(b, r)
    ensures forall k | m <= k < r :: !(Divides(a, k) && Divides(b, k))
    decreases a * b - m
  {
    if Divides(a, m) && Divides(b, m) then m
    else
      ProductIsCommonMultiple(a, b);
      LcmFrom(a, b, m + 1)
  }

  lemma ProductIsCommonMultiple(a: nat, b: nat)
    requires a >= 1 && b >= 1
    ensures a * b >= 1 && Divides(a, a * b) && Divides(b, a * b)
  {
    MulMod(a, b);
    MulMod(b, a);
  }

  lemma MulMod(a: nat, q: nat)
    requires a >= 1
    ensures (a * q) % a == 0
  {
    var n := a * q;
    var d := n / a;
    var r := n % a;
    assert n == a * d + r;
    MulSub(a, q, d);
    if q - d >= 1 {
      MulMono(a, q - d);
    } else if q - d <= -1 {
      MulMono(a, d - q);
      MulSub(a, d, q);
    }
  }

  lemma MulSub(a: int, x: int, y: int)
    ensures a * (x - y) == a * x - a * y
  {
  }

  /** `Integer::lcm` on positive numbers: the least positive common
      multiple. */
  function Lcm(a: nat, b: nat): (r: nat)
    requires a >= 1 && b >= 1
    ensures r >= 1 && Divides(a, r) && Divides(b, r)
  {
    ProductIsCommonMultiple(a, b);
    LcmFrom(a, b, 1)
  }

  /** A multiple of `d` minus a multiple of it, when not negative, is one
      too. */
  lemma DivSub(d: nat, m: nat, l: nat, q: nat)
    requires d >= 1 && Divides(d, m) && Divides(d, l) && q * l <= m
    ensures Divides(d, m - q * l)
  {
    var x := m / d;
    var y := l / d;
    assert m == d * x && l == d * y;
    assert q * l == d * (q * y);
    assert m - q * l == d * (x - q * y);
    MulMod(d, x - q * y);
  }

  /** Every common multiple of `a` and `b` is a multiple of their least
      one. */
  lemma LcmDividesCommonMultiple(a: nat, b: nat, m: nat)
    requires a >= 1 && b >= 1 && Divides(a, m) && Divides(b, m)
    ensures Divides(Lcm(a, b), m)
  {
    var l := Lcm(a, b);
    var q := m / l;
    var rest := m % l;
    assert m == q * l + rest;
    DivSub(a, m, l, q);
    DivSub(b, m, l, q);
    ProductIsCommonMultiple(a, b);
  }

  /** Two positive numbers that divide each other are equal. */
  lemma DividesAntisymmetric(x: nat, y: nat)
    requires x >= 1 && y >= 1 && Divides(x, y) && Divides(y, x)
    ensures x == y
  {
    DividesBound(x, y);
    DividesBound(y, x);
  }

  lemma DividesBound(d: nat, n: nat)
    requires d >= 1 && n >= 1 && Divides(d, n)
    ensures d <= n
  {
    var q := n / d;
    assert n == d * q;
    if q > 0 {
      MulMono(d, q);
    }
  }

  lemma MulMono(d: nat, q: int)
    requires q >= 1
    ensures d <= d * q
  {
  }

  lemma DividesTrans(a: nat, b: nat, c: nat)
    requires a >= 1 && b >= 1 && Divides(a, b) && Divides(b, c)
    ensures Divides(a, c)
  {
    var x := b / a;
    var y := c / b;
    assert b == a * x && c == b * y;
    assert c == a * (x * y);
    MulMod(a, x * y);
  }

  /** `reduce(|x, y| x.lcm(&y))`: `None` for no values. */
  function LcmAll(vs: seq<nat>): (r: Option<nat>)
    requires forall i | 0 <= i < |vs| :: vs[i] >= 1
    ensures r.None? <==> |vs| == 0
    ensures r.Some? ==> r.value >= 1 && forall i | 0 <= i < |vs| :: Divides(vs[i], r.value)
  {
    if |vs| == 0 then None
    else if |vs| == 1 then Some(vs[0])
    else
      var front := LcmAll(vs[..|vs| - 1]).value;
      var r := Lcm(front, vs[|vs| - 1]);
      forall i | 0 <= i < |vs| - 1 ensures Divides(vs[i], r) {
        assert vs[i] == vs[..|vs| - 1][i];
        DividesTrans(vs[i], front, r);
      }
      Some(r)
  }

  /** The fold is the least common multiple: every common multiple of the
      values is a multiple of it. */
  lemma {:induction false} LcmAllLeast(vs: seq<nat>, m: nat)
    requires |vs| > 0 && forall i | 0 <= i < |vs| :: vs[i] >= 1
    requires forall i | 0 <= i < |vs| :: Divides(vs[i], m)
    ensures Divides(LcmAll(vs).value, m)
  {
    if |vs| > 1 {
      var init := vs[..|vs| - 1];
      forall i | 0 <= i < |init| ensures Divides(init[i], m) {
        assert init[i] == vs[i];
      }
      LcmAllLeast(init, m);
      LcmDividesCommonMultiple(LcmAll(init).value, vs[|vs| - 1], m);
    }
  }

  /** The fold does not depend on the order of the values, so the
      arbitrary key order of the `HashMap` does not matter. */
  lemma LcmAllOrderFree(vs: seq<nat>, ws: seq<nat>)
    requires forall i | 0 <= i < |vs| :: vs[i] >= 1
    requires multiset(vs) == multiset(ws)
    ensures forall i | 0 <= i < |ws| :: ws[i] >= 1
    ensures LcmAll(vs) == LcmAll(ws)
  {
    forall i | 0 <= i < |ws| ensures ws[i] >= 1 {
      assert ws[i] in multiset(vs);
    }
    if |vs| > 0 {
      assert |ws| > 0 by { assert |multiset(ws)| == |vs|; }
      var a := LcmAll(vs).value;
      var b := LcmAll(ws).value;
      forall i | 0 <= i < |vs| ensures Divides(vs[i], b) {
        assert vs[i] in multiset(ws);
        var j :| 0 <= j < |ws| && ws[j] == vs[i];
      }
      forall i | 0 <= i < |ws| ensures Divides(ws[i], a) {
        assert ws[i] in multiset(vs);
        var j :| 0 <= j < |vs| && vs[j] == ws[i];
      }
      LcmAllLeast(vs, b);
      LcmAllLeast(ws, a);
      DividesAntisymmetric(a, b);
    } else {
      assert |ws| == 0 by { assert |multiset(ws)| == 0; }
    }
  }

  // ---------------------------------------------------------------------
  // count_steps_multiple.
  // ---------------------------------------------------------------------

  /** `name.as_bytes()[2] == b'A'`. */
  predicate IsStart(name: Name)
    requires |name| >= 3
  {
    name[2] == 'A'
  }

  /** The starting names among `keys`, in order. */
  function Starts(keys: seq<Name>): (r: seq<Name>)
    requires forall n | n in keys :: |n| >= 3
    ensures forall n :: n in r <==> n in keys && IsStart(n)
  {
    if |keys| == 0 then []
    else (if IsStart(keys[0]) then [keys[0]] else []) + Starts(keys[1..])
  }

  /** The value each start contributes: `loop_length.lcm(&directions.len())`. */
  function StartValues(g: Graph, dirs: seq<Direction>, starts: seq<Name>): (r: seq<nat>)
    requires |dirs| > 0 && Closed(g) && forall i | 0 <= i < |starts| :: starts[i] in g
    ensures |r| == |starts|
    ensures forall i | 0 <= i < |r| :: r[i] == Lcm(LoopLength(g, dirs, starts[i]), |dirs|)
    ensures forall i | 0 <= i < |r| :: r[i] >= 1 && Divides(|dirs|, r[i])
  {
    seq(|starts|, i requires 0 <= i < |starts| => Lcm(LoopLength(g, dirs, starts[i]), |dirs|))
  }

  /** `Graph::count_steps_multiple`, with `keys` the graph's names in the
      order the `HashMap` yields them. The source panics on a name shorter
      than three bytes, on a name reached that is not a node, and, with no
      directions, on the missing position; those are its preconditions
      here. The result is `None` exactly when no name has 'A' as its third
      byte; otherwise it is a positive multiple of the number of
      directions. */
  function CountStepsMultiple(g: Graph, dirs: seq<Direction>, keys: seq<Name>): (r: Option<nat>)
    requires |dirs| > 0 && Closed(g)
    requires forall n | n in keys :: n in g
    requires forall n | n in g :: n in keys
    requires forall n | n in g :: |n| >= 3
    ensures r.None? <==> forall n | n in g :: !IsStart(n)
    ensures r.Some? ==> r.value >= 1 && Divides(|dirs|, r.value)
  {
    var starts := Starts(keys);
    var values := StartValues(g, dirs, starts);
    var r := LcmAll(values);
    if r.Some? then
      assert starts[0] in keys;
      DividesTrans(|dirs|, values[0], r.value);
      r
    else
      r
  }

  /** Every start's loop length divides the result. */
  lemma CountStepsMultipleLoops(g: Graph, dirs: seq<Direction>, keys: seq<Name>, n: Name)
    requires |dirs| > 0 && Closed(g)
    requires forall n | n in keys :: n in g
    requires forall n | n in g :: n in keys
    requires forall n | n in g :: |n| >= 3
    requires n in g && IsStart(n)
    ensures CountStepsMultiple(g, dirs, keys).Some?
    ensures Divides(LoopLength(g, dirs, n), CountStepsMultiple(g, dirs, keys).value)
  {
    var starts := Starts(keys);
    var values := StartValues(g, dirs, starts);
    var r := LcmAll(values).value;
    assert n in starts;
    var i :| 0 <= i < |starts| && starts[i] == n;
    DividesTrans(LoopLength(g, dirs, n), values[i], r);
  }

  /** The result is the least common multiple of the starts' values: any
      common multiple of them is a multiple of it. */
  lemma CountStepsMultipleLeast(g: Graph, dirs: seq<Direction>, keys: seq<Name>, m: nat)
    requires |dirs| > 0 && Closed(g)
    requires forall n | n in keys :: n in g
    requires forall n | n in g :: n in keys
    requires forall n | n in g :: |n| >= 3
    requires exists n | n in g :: IsStart(n)
    requires forall n | n in g && IsStart(n) :: Divides(Lcm(LoopLength(g, dirs, n), |dirs|), m)
    ensures CountStepsMultiple(g, dirs, keys).Some?
    ensures Divides(CountStepsMultiple(g, dirs, keys).value, m)
  {
    var starts := Starts(keys);
    var values := StartValues(g, dirs, starts);
    forall i | 0 <= i < |values| ensures Divides(values[i], m) {
      assert starts[i] in keys;
    }
    LcmAllLeast(values, m);
  }
}
