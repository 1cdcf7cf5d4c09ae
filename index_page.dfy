/** The route-planning page: the selection state (start, end, checkpoints)
    and the last computed result (route, distance, time), changed by the
    page's handlers. A name counts as unset when it is absent or empty,
    which is how the page tests `!start` and `!end`. */
module IndexPage {

  import opened Optional
  import opened CampusLocations
  import opened RouteCalculator

  /** A selected name that the page treats as "not chosen yet". */
  predicate Unset(o: Option<string>)
  {
    o.None? || o.value == ""
  }

  /** No name occurs twice. */
  predicate NoDuplicates(xs: seq<string>)
  {
    forall i, j :: 0 <= i < j < |xs| ==> xs[i] != xs[j]
  }

  // ---------------------------------------------------------------------
  // List operations used by the handlers
  // ---------------------------------------------------------------------

  /** `xs` with every name of `excluded` filtered out, keeping the order of
      the rest. */
  function Without(xs: seq<string>, excluded: set<string>): (r: seq<string>)
    ensures |r| <= |xs|
    ensures forall n :: n in r <==> n in xs && n !in excluded
  {
    if xs == [] then []
    else
      var last := xs[|xs| - 1];
      assert xs == xs[..|xs| - 1] + [last];
      Without(xs[..|xs| - 1], excluded) + (if last in excluded then [] else [last])
  }

  /** Filtering distributes over concatenation, so it keeps relative order. */
  lemma {:induction false} WithoutAppend(a: seq<string>, b: seq<string>, excluded: set<string>)
    ensures Without(a + b, excluded) == Without(a, excluded) + Without(b, excluded)
  {
    if b == [] {
      assert a + b == a;
    } else {
      var prefix := b[..|b| - 1];
      var last := b[|b| - 1];
      assert (a + b)[..|a + b| - 1] == a + prefix;
      assert (a + b)[|a + b| - 1] == last;
      WithoutAppend(a, prefix, excluded);
    }
  }

  /** Filtering out names that do not occur changes nothing. */
  lemma {:induction false} WithoutNothingExcluded(xs: seq<string>, excluded: set<string>)
    requires forall n :: n in xs ==> n !in excluded
    ensures Without(xs, excluded) == xs
  {
    if xs != [] {
      var prefix := xs[..|xs| - 1];
      assert forall n :: n in prefix ==> n in xs;
      WithoutNothingExcluded(prefix, excluded);
      assert xs == prefix + [xs[|xs| - 1]];
    }
  }

  /** Appending a name that is not yet present keeps a list duplicate-free. */
  lemma AppendNoDuplicates(xs: seq<string>, n: string)
    requires NoDuplicates(xs) && n !in xs
    ensures NoDuplicates(xs + [n])
  {
    var ys := xs + [n];
    forall i, j | 0 <= i < j < |ys| ensures ys[i] != ys[j] {
      if j == |xs| {
        assert ys[i] == xs[i];
      } else {
        assert ys[i] == xs[i] && ys[j] == xs[j];
      }
    }
  }

  /** Filtering keeps a duplicate-free list duplicate-free. */
  lemma {:induction false} WithoutNoDuplicates(xs: seq<string>, excluded: set<string>)
    requires NoDuplicates(xs)
    ensures NoDuplicates(Without(xs, excluded))
  {
    if xs != [] {
      var prefix := xs[..|xs| - 1];
      var last := xs[|xs| - 1];
      assert NoDuplicates(prefix);
      WithoutNoDuplicates(prefix, excluded);
      if last !in excluded {
        assert forall i :: 0 <= i < |prefix| ==> prefix[i] == xs[i] != last;
        AppendNoDuplicates(Without(prefix, excluded), last);
      }
    }
  }

  /** The checkpoint list after clicking `location` on the map: a present
      location is removed wherever it occurs, an absent one is appended. */
  function Toggled(checkpoints: seq<string>, location: string): (r: seq<string>)
    ensures location in r <==> location !in checkpoints
    ensures forall n :: n != location ==> (n in r <==> n in checkpoints)
    ensures location !in checkpoints ==>
      |r| == |checkpoints| + 1 && r[..|checkpoints|] == checkpoints && r[|checkpoints|] == location
  {
    if location in checkpoints then Without(checkpoints, {location})
    else checkpoints + [location]
  }

  /** Clicking an absent location twice gives back the original list. */
  lemma ToggleTwiceRestores(checkpoints: seq<string>, location: string)
    requires location !in checkpoints
    ensures Toggled(Toggled(checkpoints, location), location) == checkpoints
  {
    WithoutAppend(checkpoints, [location], {location});
    WithoutNothingExcluded(checkpoints, {location});
    assert Without([location], {location}) == Without([], {location}) + [];
  }

  /** Toggling keeps a duplicate-free list duplicate-free. */
  lemma ToggledNoDuplicates(checkpoints: seq<string>, location: string)
    requires NoDuplicates(checkpoints)
    ensures NoDuplicates(Toggled(checkpoints, location))
  {
    if location in checkpoints {
      WithoutNoDuplicates(checkpoints, {location});
    } else {
      AppendNoDuplicates(checkpoints, location);
    }
  }

  /** The registry can resolve every name the optimiser will look up. */
  predicate Resolvable(start: string, end: string, checkpoints: seq<string>)
  {
    start in Locations && end in Locations && AllKnown(Locations, checkpoints)
  }

  // ---------------------------------------------------------------------
  // The page state and its handlers
  // ---------------------------------------------------------------------

  class RoutePlanner {
    var start: Option<string>
    var end: Option<string>
    var checkpoints: seq<string>
    var route: Option<seq<string>>
    var distance: Option<real>
    var time: Option<real>

    /** The checkpoint list has no repeats; a result is either wholly
        present or wholly absent; a present route has at least two stops,
        all of them registry names, and its time is the estimate for its
        distance. */
    ghost predicate Valid()
      reads this
    {
      && NoDuplicates(checkpoints)
      && (route.Some? <==> distance.Some?)
      && (distance.Some? <==> time.Some?)
      && (route.Some? ==> |route.value| >= 2 && AllKnown(Locations, route.value))
      && (distance.Some? && time.Some? ==> time.value == CalculateTime(distance.value))
    }

    /** The page as first shown: nothing selected, no result. */
    constructor ()
      ensures Valid()
      ensures start == None && end == None && checkpoints == []
      ensures route == None && distance == None && time == None
    {
      start := None;
      end := None;
      checkpoints := [];
      route := None;
      distance := None;
      time := None;
    }

    /** A click on the map: fills the start, then the end (never the start
        again), and afterwards toggles the clicked location as a checkpoint
        unless it is the start or the end. The result is not touched. */
    method HandleLocationSelect(location: string)
      requires Valid()
      modifies this
      ensures Valid()
      ensures route == old(route) && distance == old(distance) && time == old(time)
      ensures Unset(old(start)) ==>
        start == Some(location) && end == old(end) && checkpoints == old(checkpoints)
      ensures !Unset(old(start)) && Unset(old(end)) ==>
        && start == old(start) && checkpoints == old(checkpoints)
        && (location == old(start).value ==> end == old(end))
        && (location != old(start).value ==> end == Some(location))
      ensures !Unset(old(start)) && Unset(old(end)) && !Unset(end) ==> end.value != start.value
      ensures !Unset(old(start)) && !Unset(old(end)) ==>
        && start == old(start) && end == old(end)
        && (location == old(start).value || location == old(end).value ==> checkpoints == old(checkpoints))
        && (location != old(start).value && location != old(end).value ==>
              checkpoints == Toggled(old(checkpoints), location))
    {
      if Unset(start) {
        start := Some(location);
        return;
      }
      if Unset(end) {
        if location == start.value {
          return;
        }
        end := Some(location);
        return;
      }
      if location == start.value || location == end.value {
        return;
      }
      ToggledNoDuplicates(checkpoints, location);
      if location in checkpoints {
        checkpoints := Without(checkpoints, {location});
      } else {
        checkpoints := checkpoints + [location];
      }
    }

    /** A checkbox of the checkpoint list: checking adds the location at
        the end if it is absent, unchecking removes it if present. */
    method HandleCheckpointToggle(location: string, checked: bool)
      requires Valid()
      modifies this
      ensures Valid()
      ensures start == old(start) && end == old(end)
      ensures route == old(route) && distance == old(distance) && time == old(time)
      ensures checked ==> location in checkpoints
      ensures !checked ==> location !in checkpoints
      ensures forall n :: n != location ==> (n in checkpoints <==> n in old(checkpoints))
      ensures checked && location !in old(checkpoints) ==> checkpoints == old(checkpoints) + [location]
      ensures !checked && location in old(checkpoints) ==> checkpoints == Without(old(checkpoints), {location})
      ensures (checked <==> location in old(checkpoints)) ==> checkpoints == old(checkpoints)
    {
      if checked && location !in checkpoints {
        AppendNoDuplicates(checkpoints, location);
        checkpoints := checkpoints + [location];
      } else if !checked && location in checkpoints {
        WithoutNoDuplicates(checkpoints, {location});
        checkpoints := Without(checkpoints, {location});
      }
    }

    /** The "find route" button. Without both endpoints nothing changes.
        Otherwise the checkpoints other than the endpoints, in their order,
        go to the optimiser; if the registry cannot resolve a name the
        computation fails and nothing changes; else the path, its distance
        and the walking time are stored. The stored route runs from start
        to end through a reordering of the filtered checkpoints, and no
        reordering of them is shorter. */
    method FindRoute(sqrt: real -> real)
      requires Valid()
      modifies this
      ensures Valid()
      ensures start == old(start) && end == old(end) && checkpoints == old(checkpoints)
      ensures Unset(old(start)) || Unset(old(end)) ==>
        route == old(route) && distance == old(distance) && time == old(time)
      ensures !Unset(old(start)) && !Unset(old(end))
              && !Resolvable(start.value, end.value, Without(checkpoints, {start.value, end.value})) ==>
        route == old(route) && distance == old(distance) && time == old(time)
      ensures !Unset(old(start)) && !Unset(old(end))
              && Resolvable(start.value, end.value, Without(checkpoints, {start.value, end.value})) ==>
        var valid := Without(checkpoints, {start.value, end.value});
        var best := OptimalRoute(sqrt, Locations, start.value, end.value, valid);
        && route == Some(best.path)
        && distance == Some(best.distance)
        && time == Some(CalculateTime(best.distance))
        && IsShortestRoute(sqrt, Locations, start.value, end.value, valid, best)
    {
      if Unset(start) || Unset(end) {
        return;
      }
      var s := start.value;
      var e := end.value;
      var valid := Without(checkpoints, {s, e});
      if !Resolvable(s, e, valid) {
        return;
      }
      var path, routeDistance := CalculateOptimalRoute(sqrt, s, e, valid, Locations);
      OptimalRouteIsShortest(sqrt, Locations, s, e, valid);
      var routeTime := CalculateTime(routeDistance);
      route := Some(path);
      distance := Some(routeDistance);
      time := Some(routeTime);
    }

    /** The "clear" button: back to the initial state. */
    method ClearRoute()
      modifies this
      ensures Valid()
      ensures start == None && end == None && checkpoints == []
      ensures route == None && distance == None && time == None
    {
      start := None;
      end := None;
      checkpoints := [];
      route := None;
      distance := None;
      time := None;
    }

    /** The start dropdown writes the start directly. */
    method SetStart(name: Option<string>)
      requires Valid()
      modifies this
      ensures Valid()
      ensures start == name && end == old(end) && checkpoints == old(checkpoints)
      ensures route == old(route) && distance == old(distance) && time == old(time)
    {
      start := name;
    }

    /** The end dropdown writes the end directly. */
    method SetEnd(name: Option<string>)
      requires Valid()
      modifies this
      ensures Valid()
      ensures end == name && start == old(start) && checkpoints == old(checkpoints)
      ensures route == old(route) && distance == old(distance) && time == old(time)
    {
      end := name;
    }

    /** The "export" button's guard: it proceeds only with a route of at
        least two stops, and changes nothing either way. In a valid state
        that is exactly when a route has been found. */
    method ExportRoute() returns (exported: bool)
      ensures exported <==> route.Some? && |route.value| >= 2
      ensures Valid() ==> (exported <==> route.Some?)
    {
      exported := !(route.None? || |route.value| < 2);
    }
  }
}
