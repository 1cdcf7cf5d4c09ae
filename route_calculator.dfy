/** The route optimiser: straight-line distance between two locations, the
    walking-time estimate, the permutation generator, and the exhaustive
    search for the cheapest visiting order of the checkpoints between a
    fixed start and end.

    Distances are real numbers. The square root is a parameter `sqrt` of
    the operations that use it (it is the host's square root); where a
    property needs its meaning, `IsSqrt(sqrt)` is required. */
module RouteCalculator {

  import opened Optional
  import opened CampusLocations

  /** `sqrt` is a square root on the non-negative reals: it returns the
      non-negative root, which is zero exactly at zero. */
  ghost predicate IsSqrt(sqrt: real -> real)
  {
    forall x: real :: 0.0 <= x ==>
      0.0 <= sqrt(x) && sqrt(x) * sqrt(x) == x && (sqrt(x) == 0.0 <==> x == 0.0)
  }

  // ---------------------------------------------------------------------
  // Distance and time
  // ---------------------------------------------------------------------

  /** Euclidean distance between two locations. */
  function Distance(sqrt: real -> real, a: Location, b: Location): real
  {
    var dx := b.x - a.x;
    var dy := b.y - a.y;
    sqrt((dx * dx + dy * dy) as real)
  }

  /** Distance does not depend on the direction of travel. */
  lemma DistanceSymmetric(sqrt: real -> real, a: Location, b: Location)
    ensures Distance(sqrt, a, b) == Distance(sqrt, b, a)
  {
    assert (b.x - a.x) * (b.x - a.x) == (a.x - b.x) * (a.x - b.x);
    assert (b.y - a.y) * (b.y - a.y) == (a.y - b.y) * (a.y - b.y);
  }

  /** Distance is non-negative, and zero exactly for the same point. */
  lemma DistanceNonNegative(sqrt: real -> real, a: Location, b: Location)
    requires IsSqrt(sqrt)
    ensures Distance(sqrt, a, b) >= 0.0
    ensures Distance(sqrt, a, b) == 0.0 <==> a.x == b.x && a.y == b.y
  {
    var dx := b.x - a.x;
    var dy := b.y - a.y;
    SquareIsZeroOnlyAtZero(dx);
    SquareIsZeroOnlyAtZero(dy);
    var squared := dx * dx + dy * dy;
    assert squared == 0 <==> dx == 0 && dy == 0;
    assert 0.0 <= squared as real;
  }

  lemma SquareIsZeroOnlyAtZero(v: int)
    ensures v * v >= 0
    ensures v * v == 0 <==> v == 0
  {
    if v > 0 {
      assert v * v >= v;
    } else if v < 0 {
      assert v * v >= -v;
    }
  }

  /** Estimated walking minutes for a distance in map units: half a metre
      per unit, 1.4 metres per second, sixty seconds per minute. */
  function CalculateTime(distance: real): (minutes: real)
    ensures minutes == distance / 168.0
    ensures distance >= 0.0 ==> minutes >= 0.0
    ensures minutes == 0.0 <==> distance == 0.0
  {
    var distanceInMeters := distance * 0.5;
    var timeInSeconds := distanceInMeters / 1.4;
    timeInSeconds / 60.0
  }

  /** A longer distance never takes less time. */
  lemma TimeMonotonic(d1: real, d2: real)
    requires d1 <= d2
    ensures CalculateTime(d1) <= CalculateTime(d2)
  {
  }

  // ---------------------------------------------------------------------
  // Permutations
  // ---------------------------------------------------------------------

  function Factorial(n: nat): (r: nat)
    ensures r >= 1
  {
    if n == 0 then 1 else n * Factorial(n - 1)
  }

  /** `xs` without its element at index `i`; the others keep their order. */
  function Remove<T>(xs: seq<T>, i: nat): (r: seq<T>)
    requires i < |xs|
    ensures |r| == |xs| - 1
    ensures forall j :: 0 <= j < i ==> r[j] == xs[j]
    ensures forall j :: i <= j < |r| ==> r[j] == xs[j + 1]
    ensures multiset(r) + multiset{xs[i]} == multiset(xs)
  {
    assert xs == xs[..i] + [xs[i]] + xs[i + 1..];
    xs[..i] + xs[i + 1..]
  }

  /** Every list of `ps` with `x` put in front, in the order of `ps`. */
  function Prefixed<T>(x: T, ps: seq<seq<T>>): (r: seq<seq<T>>)
    ensures |r| == |ps|
    ensures forall k :: 0 <= k < |ps| ==> r[k] == [x] + ps[k]
  {
    if ps == [] then []
    else Prefixed(x, ps[..|ps| - 1]) + [[x] + ps[|ps| - 1]]
  }

  /** The orderings of `xs` in generation order: a list of length at most
      one is its only ordering; otherwise each element in index order is
      taken as head, followed by every ordering of the rest. */
  function Permutations<T>(xs: seq<T>): (r: seq<seq<T>>)
    ensures |r| == Factorial(|xs|)
    decreases |xs|, 1, 0
  {
    if |xs| <= 1 then [xs] else PermsUpTo(xs, |xs|)
  }

  /** The orderings whose head is taken from an index below `i`, in the
      order they are generated. */
  function PermsUpTo<T>(xs: seq<T>, i: nat): (r: seq<seq<T>>)
    requires 2 <= |xs| && i <= |xs|
    ensures |r| == i * Factorial(|xs| - 1)
    decreases |xs|, 0, i
  {
    if i == 0 then []
    else
      var earlier := PermsUpTo(xs, i - 1);
      var block := HeadBlock(xs, i - 1);
      assert |earlier| + |block| == i * Factorial(|xs| - 1);
      earlier + block
  }

  /** The orderings whose head is the element at index `i`. */
  function HeadBlock<T>(xs: seq<T>, i: nat): (r: seq<seq<T>>)
    requires 2 <= |xs| && i < |xs|
    ensures |r| == Factorial(|xs| - 1)
    decreases |xs|, 0, 0
  {
    Prefixed(xs[i], Permutations(Remove(xs, i)))
  }

  /** `getPermutations`: for each head in index order, every ordering of
      the rest prefixed by that head, appended to an accumulator by two
      nested loops. */
  method GetPermutations<T>(xs: seq<T>) returns (result: seq<seq<T>>)
    ensures result == Permutations(xs)
    decreases |xs|
  {
    if |xs| <= 1 {
      return [xs];
    }
    result := [];
    for i := 0 to |xs|
      invariant result == PermsUpTo(xs, i)
    {
      var current := xs[i];
      var remaining := xs[..i] + xs[i + 1..];
      var remainingPermutations := GetPermutations(remaining);
      ghost var before := result;
      for j := 0 to |remainingPermutations|
        invariant result == before + Prefixed(current, remainingPermutations[..j])
      {
        assert remainingPermutations[..j + 1][..j] == remainingPermutations[..j];
        result := result + [[current] + remainingPermutations[j]];
      }
      assert remainingPermutations[..|remainingPermutations|] == remainingPermutations;
    }
  }

  /** Every generated list is a reordering of the input. */
  lemma {:induction false} PermutationsAreReorderings<T>(xs: seq<T>, p: seq<T>)
    requires p in Permutations(xs)
    ensures multiset(p) == multiset(xs)
    decreases |xs|, 1
  {
    if |xs| >= 2 {
      PermsUpToAreReorderings(xs, |xs|, p);
    }
  }

  lemma {:induction false} PermsUpToAreReorderings<T>(xs: seq<T>, i: nat, p: seq<T>)
    requires 2 <= |xs| && i <= |xs|
    requires p in PermsUpTo(xs, i)
    ensures multiset(p) == multiset(xs)
    decreases |xs|, 0, i
  {
    if i > 0 {
      var block := HeadBlock(xs, i - 1);
      if p in block {
        var rest := Remove(xs, i - 1);
        var k :| 0 <= k < |block| && block[k] == p;
        PermutationsAreReorderings(rest, Permutations(rest)[k]);
      } else {
        PermsUpToAreReorderings(xs, i - 1, p);
      }
    }
  }

  /** The generator is complete: every reordering of the input is listed. */
  lemma {:induction false} PermutationsAreComplete<T>(xs: seq<T>, p: seq<T>)
    requires multiset(p) == multiset(xs)
    ensures p in Permutations(xs)
    decreases |xs|
  {
    assert |p| == |multiset(p)| == |xs|;
    if |xs| == 1 {
      assert p[0] in multiset(xs);
      assert p == [p[0]] && xs == [xs[0]];
    } else if |xs| >= 2 {
      assert p[0] in multiset(xs);
      var i :| 0 <= i < |xs| && xs[i] == p[0];
      var rest := Remove(xs, i);
      TailIsReorderingOfRest(xs, i, p);
      PermutationsAreComplete(rest, p[1..]);
      var k :| 0 <= k < |Permutations(rest)| && Permutations(rest)[k] == p[1..];
      assert HeadBlock(xs, i)[k] == p;
      PermsUpToContains(xs, |xs|, i, p);
    }
  }

  lemma TailIsReorderingOfRest<T>(xs: seq<T>, i: nat, p: seq<T>)
    requires multiset(p) == multiset(xs)
    requires i < |xs| && |p| >= 1 && xs[i] == p[0]
    ensures multiset(p[1..]) == multiset(Remove(xs, i))
  {
    assert p == [p[0]] + p[1..];
    calc {
      multiset(p[1..]);
      multiset(p) - multiset{p[0]};
      multiset(xs) - multiset{xs[i]};
      multiset(Remove(xs, i));
    }
  }

  /** A list whose head comes from index `i` is among the lists whose head
      comes from any index below `j > i`. */
  lemma {:induction false} PermsUpToContains<T>(xs: seq<T>, j: nat, i: nat, p: seq<T>)
    requires 2 <= |xs| && i < j <= |xs|
    requires p in HeadBlock(xs, i)
    ensures p in PermsUpTo(xs, j)
    decreases j
  {
    if i < j - 1 {
      PermsUpToContains(xs, j - 1, i, p);
    }
  }

  /** The first generated ordering is the input itself: the first head is
      the first element, and the rest keeps its order. */
  lemma {:induction false} FirstPermutationIsInput<T>(xs: seq<T>)
    ensures Permutations(xs)[0] == xs
  {
    if |xs| >= 2 {
      var rest := Remove(xs, 0);
      assert rest == xs[1..];
      FirstPermutationIsInput(rest);
      PermsUpToStartsWithFirstBlock(xs, |xs|);
      assert HeadBlock(xs, 0)[0] == [xs[0]] + Permutations(rest)[0];
      assert xs == [xs[0]] + xs[1..];
    }
  }

  lemma {:induction false} PermsUpToStartsWithFirstBlock<T>(xs: seq<T>, i: nat)
    requires 2 <= |xs| && 1 <= i <= |xs|
    ensures PermsUpTo(xs, i)[0] == HeadBlock(xs, 0)[0]
  {
    if i > 1 {
      PermsUpToStartsWithFirstBlock(xs, i - 1);
    } else {
      assert PermsUpTo(xs, 0) == [];
    }
  }

  // ---------------------------------------------------------------------
  // Path length and the optimal route
  // ---------------------------------------------------------------------

  /** Every name is a key of the location map. */
  predicate AllKnown(locationMap: map<string, Location>, names: seq<string>)
  {
    forall n :: n in names ==> n in locationMap
  }

  /** Total length of a path: the sum of the distances between consecutive
      stops, added from the front. */
  function PathDistance(sqrt: real -> real, locationMap: map<string, Location>, path: seq<string>): real
    requires AllKnown(locationMap, path)
  {
    if |path| < 2 then 0.0
    else
      PathDistance(sqrt, locationMap, path[..|path| - 1])
      + Distance(sqrt, locationMap[path[|path| - 2]], locationMap[path[|path| - 1]])
  }

  /** A path is never shorter than zero. */
  lemma {:induction false} PathDistanceNonNegative(sqrt: real -> real, locationMap: map<string, Location>, path: seq<string>)
    requires IsSqrt(sqrt)
    requires AllKnown(locationMap, path)
    ensures PathDistance(sqrt, locationMap, path) >= 0.0
  {
    if |path| >= 2 {
      PathDistanceNonNegative(sqrt, locationMap, path[..|path| - 1]);
      DistanceNonNegative(sqrt, locationMap[path[|path| - 2]], locationMap[path[|path| - 1]]);
    }
  }

  /** The path that visits the checkpoints of `perm` in order. */
  function Candidate(start: string, end: string, perm: seq<string>): (path: seq<string>)
    ensures |path| == |perm| + 2 && path[0] == start && path[|path| - 1] == end
    ensures path[1..|path| - 1] == perm
    ensures forall n :: n in path <==> n == start || n in perm || n == end
  {
    [start] + perm + [end]
  }

  /** The length of the path that visits the checkpoints of `perm` in order. */
  function CandidateDistance(sqrt: real -> real, locationMap: map<string, Location>,
                             start: string, end: string, perm: seq<string>): real
    requires start in locationMap && end in locationMap && AllKnown(locationMap, perm)
  {
    PathDistance(sqrt, locationMap, Candidate(start, end, perm))
  }

  /** Every ordering in `perms` consists of known names. */
  predicate AllKnownOrderings(locationMap: map<string, Location>, perms: seq<seq<string>>)
  {
    forall k :: 0 <= k < |perms| ==> AllKnown(locationMap, perms[k])
  }

  /** The length of each candidate path, in the order of `perms`. */
  function Costs(sqrt: real -> real, locationMap: map<string, Location>,
                 start: string, end: string, perms: seq<seq<string>>): (costs: seq<real>)
    requires start in locationMap && end in locationMap && AllKnownOrderings(locationMap, perms)
    ensures |costs| == |perms|
    ensures forall j :: 0 <= j < |perms| ==>
              costs[j] == CandidateDistance(sqrt, locationMap, start, end, perms[j])
  {
    if perms == [] then []
    else
      var prefix := perms[..|perms| - 1];
      assert forall j :: 0 <= j < |prefix| ==> prefix[j] == perms[j];
      Costs(sqrt, locationMap, start, end, prefix)
      + [CandidateDistance(sqrt, locationMap, start, end, perms[|perms| - 1])]
  }

  /** Index `k` holds the first least value of `costs`: nothing is smaller,
      and everything before it is strictly larger. */
  predicate IsFirstMinimum(costs: seq<real>, k: int)
  {
    && 0 <= k < |costs|
    && (forall j :: 0 <= j < |costs| ==> costs[k] <= costs[j])
    && (forall j :: 0 <= j < k ==> costs[k] < costs[j])
  }

  /** A chosen path with its length. */
  datatype RouteResult = RouteResult(path: seq<string>, distance: real)

  /** The best candidate among `perms`, scanning them in order and replacing
      the current best only by a strictly shorter one; `None` before any
      candidate has been seen. */
  function BestAmong(sqrt: real -> real, locationMap: map<string, Location>,
                     start: string, end: string, perms: seq<seq<string>>): (best: Option<RouteResult>)
    requires start in locationMap && end in locationMap && AllKnownOrderings(locationMap, perms)
    ensures best.None? <==> perms == []
  {
    if perms == [] then None
    else
      var prefix := perms[..|perms| - 1];
      assert forall j :: 0 <= j < |prefix| ==> prefix[j] == perms[j];
      var previous := BestAmong(sqrt, locationMap, start, end, prefix);
      var route := Candidate(start, end, perms[|perms| - 1]);
      var d := PathDistance(sqrt, locationMap, route);
      if previous.None? || d < previous.value.distance then Some(RouteResult(route, d))
      else previous
  }

  /** Appending one value to a sequence moves its first minimum to the new
      value exactly when the new value is strictly smaller. */
  lemma ExtendFirstMinimum(costs: seq<real>, k: int)
    requires |costs| >= 2
    requires IsFirstMinimum(costs[..|costs| - 1], k)
    ensures costs[|costs| - 1] < costs[k] ==> IsFirstMinimum(costs, |costs| - 1)
    ensures costs[k] <= costs[|costs| - 1] ==> IsFirstMinimum(costs, k)
  {
    var prefix := costs[..|costs| - 1];
    assert forall j :: 0 <= j < |prefix| ==> prefix[j] == costs[j];
  }

  /** The first index of least value, found by a left-to-right scan that
      moves only to a strictly smaller value. */
  function FirstMinimumIndex(costs: seq<real>): (k: nat)
    requires costs != []
    ensures IsFirstMinimum(costs, k)
  {
    if |costs| == 1 then 0
    else
      var previous := FirstMinimumIndex(costs[..|costs| - 1]);
      ExtendFirstMinimum(costs, previous);
      if costs[|costs| - 1] < costs[previous] then |costs| - 1 else previous
  }

  /** At most one index is a first minimum. */
  lemma FirstMinimumIsUnique(costs: seq<real>, k1: int, k2: int)
    requires IsFirstMinimum(costs, k1) && IsFirstMinimum(costs, k2)
    ensures k1 == k2
  {
    assert costs[k1] <= costs[k2] && costs[k2] <= costs[k1];
  }

  /** The scan keeps the candidate at the first index of least length,
      together with that length. */
  lemma {:induction false} BestAmongIsFirstMinimum(sqrt: real -> real, locationMap: map<string, Location>,
                                                  start: string, end: string, perms: seq<seq<string>>)
    requires start in locationMap && end in locationMap && AllKnownOrderings(locationMap, perms)
    requires perms != []
    ensures var costs := Costs(sqrt, locationMap, start, end, perms);
      var k := FirstMinimumIndex(costs);
      BestAmong(sqrt, locationMap, start, end, perms) == Some(RouteResult(Candidate(start, end, perms[k]), costs[k]))
  {
    var n := |perms|;
    var costs := Costs(sqrt, locationMap, start, end, perms);
    var prefix := perms[..n - 1];
    assert AllKnownOrderings(locationMap, prefix) by {
      assert forall j :: 0 <= j < |prefix| ==> prefix[j] == perms[j];
    }
    var last := CandidateDistance(sqrt, locationMap, start, end, perms[n - 1]);
    assert costs[n - 1] == last;
    if n == 1 {
      assert prefix == [];
      assert FirstMinimumIndex(costs) == 0;
      assert BestAmong(sqrt, locationMap, start, end, perms) == Some(RouteResult(Candidate(start, end, perms[0]), last));
    } else {
      BestAmongIsFirstMinimum(sqrt, locationMap, start, end, prefix);
      var prefixCosts := Costs(sqrt, locationMap, start, end, prefix);
      assert costs[..n - 1] == prefixCosts;
      var k := FirstMinimumIndex(prefixCosts);
      assert prefix[k] == perms[k] && prefixCosts[k] == costs[k];
      assert FirstMinimumIndex(costs) == if last < costs[k] then n - 1 else k;
      assert BestAmong(sqrt, locationMap, start, end, prefix) == Some(RouteResult(Candidate(start, end, perms[k]), costs[k]));
      assert BestAmong(sqrt, locationMap, start, end, perms)
          == if last < costs[k] then Some(RouteResult(Candidate(start, end, perms[n - 1]), last))
             else Some(RouteResult(Candidate(start, end, perms[k]), costs[k]));
    }
  }

  /** Every reordering of known checkpoints consists of known names. */
  lemma ReorderingIsKnown(locationMap: map<string, Location>, checkpoints: seq<string>, p: seq<string>)
    requires AllKnown(locationMap, checkpoints)
    requires multiset(p) == multiset(checkpoints)
    ensures AllKnown(locationMap, p)
  {
    forall n | n in p ensures n in locationMap {
      assert n in multiset(p);
    }
  }

  /** Every generated ordering of known checkpoints consists of known names. */
  lemma PermutationsAreKnown(locationMap: map<string, Location>, checkpoints: seq<string>)
    requires AllKnown(locationMap, checkpoints)
    ensures AllKnownOrderings(locationMap, Permutations(checkpoints))
  {
    var perms := Permutations(checkpoints);
    forall k | 0 <= k < |perms| ensures AllKnown(locationMap, perms[k]) {
      PermutationsAreReorderings(checkpoints, perms[k]);
      ReorderingIsKnown(locationMap, checkpoints, perms[k]);
    }
  }

  /** The route the optimiser returns: the direct path when there are no
      checkpoints, otherwise the first shortest candidate over all orderings
      in generation order. */
  function OptimalRoute(sqrt: real -> real, locationMap: map<string, Location>,
                        start: string, end: string, checkpoints: seq<string>): RouteResult
    requires start in locationMap && end in locationMap && AllKnown(locationMap, checkpoints)
  {
    if checkpoints == [] then
      RouteResult([start, end], Distance(sqrt, locationMap[start], locationMap[end]))
    else
      PermutationsAreKnown(locationMap, checkpoints);
      BestAmong(sqrt, locationMap, start, end, Permutations(checkpoints)).value
  }

  /** One more stop adds the distance of one more leg. */
  lemma PathDistanceStep(sqrt: real -> real, locationMap: map<string, Location>, path: seq<string>, i: nat)
    requires AllKnown(locationMap, path) && i + 1 < |path|
    ensures AllKnown(locationMap, path[..i + 1]) && AllKnown(locationMap, path[..i + 2])
    ensures PathDistance(sqrt, locationMap, path[..i + 2])
         == PathDistance(sqrt, locationMap, path[..i + 1])
            + Distance(sqrt, locationMap[path[i]], locationMap[path[i + 1]])
  {
    assert path[..i + 2][..i + 1] == path[..i + 1];
  }

  /** One more ordering scanned: the best so far is replaced only by a
      strictly shorter candidate. */
  lemma BestAmongStep(sqrt: real -> real, locationMap: map<string, Location>,
                      start: string, end: string, perms: seq<seq<string>>, n: nat)
    requires start in locationMap && end in locationMap && AllKnownOrderings(locationMap, perms)
    requires n < |perms|
    ensures AllKnownOrderings(locationMap, perms[..n]) && AllKnownOrderings(locationMap, perms[..n + 1])
    ensures var previous := BestAmong(sqrt, locationMap, start, end, perms[..n]);
      var d := CandidateDistance(sqrt, locationMap, start, end, perms[n]);
      BestAmong(sqrt, locationMap, start, end, perms[..n + 1])
        == if previous.None? || d < previous.value.distance
           then Some(RouteResult(Candidate(start, end, perms[n]), d))
           else previous
  {
    assert perms[..n + 1][..n] == perms[..n];
  }

  /** The optimiser with its loops: every generated ordering is scored by
      summing consecutive distances along `[start, ...perm, end]`, and the
      first strictly best one is kept. */
  method CalculateOptimalRoute(sqrt: real -> real, start: string, end: string,
                               checkpoints: seq<string>, locationMap: map<string, Location>)
    returns (path: seq<string>, distance: real)
    requires start in locationMap && end in locationMap && AllKnown(locationMap, checkpoints)
    ensures RouteResult(path, distance) == OptimalRoute(sqrt, locationMap, start, end, checkpoints)
  {
    if |checkpoints| == 0 {
      distance := Distance(sqrt, locationMap[start], locationMap[end]);
      path := [start, end];
      return;
    }

    var bestRoute: seq<string> := [];
    var bestDistance: Option<real> := None;

    var permutations := GetPermutations(checkpoints);
    PermutationsAreKnown(locationMap, checkpoints);

    for n := 0 to |permutations|
      invariant AllKnownOrderings(locationMap, permutations[..n])
      invariant bestDistance.None? <==> n == 0
      invariant n > 0 ==> BestAmong(sqrt, locationMap, start, end, permutations[..n])
                            == Some(RouteResult(bestRoute, bestDistance.value))
    {
      var perm := permutations[n];
      var route := [start] + perm + [end];
      assert route == Candidate(start, end, perm);
      var totalDistance := 0.0;
      for i := 0 to |route| - 1
        invariant AllKnown(locationMap, route[..i + 1])
        invariant totalDistance == PathDistance(sqrt, locationMap, route[..i + 1])
      {
        PathDistanceStep(sqrt, locationMap, route, i);
        totalDistance := totalDistance
          + Distance(sqrt, locationMap[route[i]], locationMap[route[i + 1]]);
      }
      assert route[..|route|] == route;
      BestAmongStep(sqrt, locationMap, start, end, permutations, n);
      if bestDistance.None? || totalDistance < bestDistance.value {
        bestDistance := Some(totalDistance);
        bestRoute := route;
      }
    }
    assert permutations[..|permutations|] == permutations;
    path := bestRoute;
    distance := bestDistance.value;
  }

  // ---------------------------------------------------------------------
  // Properties of the optimal route
  // ---------------------------------------------------------------------

  /** No checkpoints: the direct path and its single leg. */
  lemma OptimalRouteDirect(sqrt: real -> real, locationMap: map<string, Location>, start: string, end: string)
    requires start in locationMap && end in locationMap
    ensures OptimalRoute(sqrt, locationMap, start, end, []).path == [start, end]
    ensures OptimalRoute(sqrt, locationMap, start, end, []).distance
         == Distance(sqrt, locationMap[start], locationMap[end])
  {
  }

  /** One checkpoint: the only ordering, scored over its two legs. */
  lemma OptimalRouteSingle(sqrt: real -> real, locationMap: map<string, Location>, start: string, end: string, c: string)
    requires start in locationMap && end in locationMap && c in locationMap
    ensures OptimalRoute(sqrt, locationMap, start, end, [c]).path == [start, c, end]
    ensures OptimalRoute(sqrt, locationMap, start, end, [c]).distance
         == Distance(sqrt, locationMap[start], locationMap[c]) + Distance(sqrt, locationMap[c], locationMap[end])
  {
    var path := [start, c, end];
    assert Permutations([c]) == [[c]];
    assert Candidate(start, end, [c]) == path;
    assert [[c]][..0] == [];
    PathDistanceStep(sqrt, locationMap, path, 0);
    PathDistanceStep(sqrt, locationMap, path, 1);
    assert path[..1] == [start] && path[..3] == path;
  }

  /** With checkpoints, the route is the candidate of some generated
      ordering `perms[k]`, scored by its own length, and `k` is the first
      index of least length. */
  lemma OptimalRouteChoice(sqrt: real -> real, locationMap: map<string, Location>,
                           start: string, end: string, checkpoints: seq<string>)
    returns (k: nat)
    requires start in locationMap && end in locationMap && AllKnown(locationMap, checkpoints)
    requires checkpoints != []
    ensures AllKnownOrderings(locationMap, Permutations(checkpoints))
    ensures k < |Permutations(checkpoints)|
    ensures multiset(Permutations(checkpoints)[k]) == multiset(checkpoints)
    ensures IsFirstMinimum(Costs(sqrt, locationMap, start, end, Permutations(checkpoints)), k)
    ensures OptimalRoute(sqrt, locationMap, start, end, checkpoints)
         == RouteResult(Candidate(start, end, Permutations(checkpoints)[k]),
                        CandidateDistance(sqrt, locationMap, start, end, Permutations(checkpoints)[k]))
  {
    var perms := Permutations(checkpoints);
    OptimalRouteFirstBest(sqrt, locationMap, start, end, checkpoints);
    var costs := Costs(sqrt, locationMap, start, end, perms);
    k := FirstMinimumIndex(costs);
    PermutationsAreReorderings(checkpoints, perms[k]);
  }

  /** The route starts at `start`, ends at `end`, visits a reordering of the
      checkpoints in between, and its distance is the length of its path. */
  lemma OptimalRouteShape(sqrt: real -> real, locationMap: map<string, Location>,
                          start: string, end: string, checkpoints: seq<string>)
    requires start in locationMap && end in locationMap && AllKnown(locationMap, checkpoints)
    ensures var r := OptimalRoute(sqrt, locationMap, start, end, checkpoints);
      && |r.path| == |checkpoints| + 2
      && r.path[0] == start && r.path[|r.path| - 1] == end
      && multiset(r.path[1..|r.path| - 1]) == multiset(checkpoints)
      && AllKnown(locationMap, r.path)
      && r.distance == PathDistance(sqrt, locationMap, r.path)
  {
    if checkpoints == [] {
      assert [start, end][..1] == [start];
    } else {
      var k := OptimalRouteChoice(sqrt, locationMap, start, end, checkpoints);
      var perm := Permutations(checkpoints)[k];
      assert |perm| == |multiset(perm)| == |multiset(checkpoints)| == |checkpoints|;
    }
  }

  /** The route is a global minimum: no ordering of the checkpoints gives a
      shorter path. */
  lemma OptimalRouteIsMinimal(sqrt: real -> real, locationMap: map<string, Location>,
                              start: string, end: string, checkpoints: seq<string>, p: seq<string>)
    requires start in locationMap && end in locationMap && AllKnown(locationMap, checkpoints)
    requires multiset(p) == multiset(checkpoints)
    ensures AllKnown(locationMap, p)
    ensures OptimalRoute(sqrt, locationMap, start, end, checkpoints).distance
         <= CandidateDistance(sqrt, locationMap, start, end, p)
  {
    ReorderingIsKnown(locationMap, checkpoints, p);
    if checkpoints == [] {
      assert |p| == |multiset(p)| == 0;
      assert Candidate(start, end, p) == [start, end];
      PathDistanceStep(sqrt, locationMap, [start, end], 0);
      assert [start, end][..2] == [start, end];
    } else {
      var k := OptimalRouteChoice(sqrt, locationMap, start, end, checkpoints);
      PermutationsAreComplete(checkpoints, p);
      var perms := Permutations(checkpoints);
      var j :| 0 <= j < |perms| && perms[j] == p;
      var costs := Costs(sqrt, locationMap, start, end, perms);
      assert costs[k] <= costs[j];
    }
  }

  /** `r` is a shortest route from `start` to `end` through the
      checkpoints: it starts and ends there, visits exactly a reordering of
      the checkpoints in between, its distance is its own length, and no
      reordering of the checkpoints gives a shorter path. */
  ghost predicate IsShortestRoute(sqrt: real -> real, locationMap: map<string, Location>,
                                  start: string, end: string, checkpoints: seq<string>, r: RouteResult)
  {
    && start in locationMap && end in locationMap && AllKnown(locationMap, checkpoints)
    && |r.path| == |checkpoints| + 2
    && r.path[0] == start && r.path[|r.path| - 1] == end
    && multiset(r.path[1..|r.path| - 1]) == multiset(checkpoints)
    && AllKnown(locationMap, r.path)
    && r.distance == PathDistance(sqrt, locationMap, r.path)
    && (forall p :: multiset(p) == multiset(checkpoints) && AllKnown(locationMap, p) ==>
          r.distance <= CandidateDistance(sqrt, locationMap, start, end, p))
  }

  /** The optimiser's answer is a shortest route. */
  lemma OptimalRouteIsShortest(sqrt: real -> real, locationMap: map<string, Location>,
                               start: string, end: string, checkpoints: seq<string>)
    requires start in locationMap && end in locationMap && AllKnown(locationMap, checkpoints)
    ensures IsShortestRoute(sqrt, locationMap, start, end, checkpoints,
                            OptimalRoute(sqrt, locationMap, start, end, checkpoints))
  {
    OptimalRouteShape(sqrt, locationMap, start, end, checkpoints);
    forall p | multiset(p) == multiset(checkpoints) && AllKnown(locationMap, p)
      ensures OptimalRoute(sqrt, locationMap, start, end, checkpoints).distance
           <= CandidateDistance(sqrt, locationMap, start, end, p)
    {
      OptimalRouteIsMinimal(sqrt, locationMap, start, end, checkpoints, p);
    }
  }

  /** Ties go to the earliest ordering: the returned route is the candidate
      at the first generated index of least length, and that length. */
  lemma OptimalRouteFirstBest(sqrt: real -> real, locationMap: map<string, Location>,
                              start: string, end: string, checkpoints: seq<string>)
    requires start in locationMap && end in locationMap && AllKnown(locationMap, checkpoints)
    requires checkpoints != []
    ensures AllKnownOrderings(locationMap, Permutations(checkpoints))
    ensures var perms := Permutations(checkpoints);
      var costs := Costs(sqrt, locationMap, start, end, perms);
      var k := FirstMinimumIndex(costs);
      OptimalRoute(sqrt, locationMap, start, end, checkpoints)
        == RouteResult(Candidate(start, end, perms[k]), costs[k])
  {
    PermutationsAreKnown(locationMap, checkpoints);
    BestAmongIsFirstMinimum(sqrt, locationMap, start, end, Permutations(checkpoints));
  }

  /** When the given order is already as short as any reordering (in
      particular when all orderings tie), the given order is returned. */
  lemma OptimalRouteKeepsInputOrder(sqrt: real -> real, locationMap: map<string, Location>,
                                    start: string, end: string, checkpoints: seq<string>)
    requires start in locationMap && end in locationMap && AllKnown(locationMap, checkpoints)
    requires forall p :: multiset(p) == multiset(checkpoints) && AllKnown(locationMap, p) ==>
               CandidateDistance(sqrt, locationMap, start, end, checkpoints)
               <= CandidateDistance(sqrt, locationMap, start, end, p)
    ensures OptimalRoute(sqrt, locationMap, start, end, checkpoints).path == Candidate(start, end, checkpoints)
  {
    if checkpoints != [] {
      var perms := Permutations(checkpoints);
      OptimalRouteFirstBest(sqrt, locationMap, start, end, checkpoints);
      var costs := Costs(sqrt, locationMap, start, end, perms);
      var k := FirstMinimumIndex(costs);
      FirstPermutationIsInput(checkpoints);
      PermutationsAreReorderings(checkpoints, perms[k]);
      assert costs[0] <= costs[k];
    }
  }

  /** With a genuine square root the optimal distance is never negative. */
  lemma OptimalRouteNonNegative(sqrt: real -> real, locationMap: map<string, Location>,
                                start: string, end: string, checkpoints: seq<string>)
    requires IsSqrt(sqrt)
    requires start in locationMap && end in locationMap && AllKnown(locationMap, checkpoints)
    ensures OptimalRoute(sqrt, locationMap, start, end, checkpoints).distance >= 0.0
  {
    OptimalRouteShape(sqrt, locationMap, start, end, checkpoints);
    PathDistanceNonNegative(sqrt, locationMap, OptimalRoute(sqrt, locationMap, start, end, checkpoints).path);
  }
}
