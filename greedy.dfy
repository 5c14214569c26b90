/** `GreedyTSP`: the nearest-neighbour tour builder. */
module Greedy {
  import opened JavaInt
  import opened Distances
  import opened Tours

  /** `c` is the city the nearest-neighbour scan picks from `from`: unvisited,
      closer than `Integer.MAX_VALUE`, no farther than any other unvisited
      city, and strictly nearer than every unvisited city of lower index. */
  predicate IsNearest(dm: DistanceMatrix, from: int, c: int, visited: seq<bool>)
    requires dm.Valid() && 0 <= from < dm.size && |visited| == dm.size
  {
    0 <= c < dm.size && !visited[c] && (dm.GetDistance(from, c) as int) < INT_MAX &&
    (forall u :: 0 <= u < dm.size && !visited[u] ==> dm.GetDistance(from, c) <= dm.GetDistance(from, u)) &&
    (forall u :: 0 <= u < c && !visited[u] ==> dm.GetDistance(from, c) < dm.GetDistance(from, u))
  }

  /** The scan is deterministic: at most one city is the nearest. */
  lemma NearestUnique(dm: DistanceMatrix, from: int, c1: int, c2: int, visited: seq<bool>)
    requires dm.Valid() && 0 <= from < dm.size && |visited| == dm.size
    requires IsNearest(dm, from, c1, visited) && IsNearest(dm, from, c2, visited)
    ensures c1 == c2
  {
  }

  /** Every unvisited city is at distance `Integer.MAX_VALUE` from `from`
      (vacuously so when none is left). */
  predicate NoneReachable(dm: DistanceMatrix, from: int, visited: seq<bool>)
    requires dm.Valid() && 0 <= from < dm.size && |visited| == dm.size
  {
    forall u :: 0 <= u < dm.size && !visited[u] ==> dm.GetDistance(from, u) as int == INT_MAX
  }

  /** `path` is what the greedy loop has built: it starts at city 0 and every
      later city is the nearest unvisited one from its predecessor. */
  predicate IsGreedyPath(dm: DistanceMatrix, path: seq<int>)
    requires dm.Valid()
  {
    if |path| <= 1 then path == [0] && dm.size >= 1
    else
      var prefix := path[..|path| - 1];
      IsGreedyPath(dm, prefix) && |path| <= dm.size && 0 <= prefix[|prefix| - 1] < dm.size &&
      IsNearest(dm, prefix[|prefix| - 1], path[|path| - 1], Flags(prefix, dm.size))
  }

  /** The greedy builder is deterministic: there is only one nearest-neighbour
      path of each length. */
  lemma {:induction false} GreedyPathUnique(dm: DistanceMatrix, p1: seq<int>, p2: seq<int>)
    requires dm.Valid() && IsGreedyPath(dm, p1) && IsGreedyPath(dm, p2) && |p1| == |p2|
    ensures p1 == p2
  {
    if |p1| > 1 {
      var n := |p1|;
      var prefix := p1[..n - 1];
      GreedyPathUnique(dm, prefix, p2[..n - 1]);
      NearestUnique(dm, prefix[n - 2], p1[n - 1], p2[n - 1], Flags(prefix, dm.size));
      assert p1 == prefix + [p1[n - 1]] && p2 == p2[..n - 1] + [p2[n - 1]];
    }
  }

  /** Every entry of the matrix is below `Integer.MAX_VALUE`. */
  predicate AllBelowMax(dm: DistanceMatrix)
    requires dm.Valid()
  {
    forall a, b :: 0 <= a < dm.size && 0 <= b < dm.size ==> (dm.GetDistance(a, b) as int) < INT_MAX
  }

  /** The nearest-neighbour path stays within the cities and never visits a
      city twice. */
  lemma {:induction false} GreedyPathIsSimple(dm: DistanceMatrix, path: seq<int>)
    requires dm.Valid() && IsGreedyPath(dm, path)
    ensures 1 <= |path| <= dm.size && path[0] == 0
    ensures InRange(path, dm.size) && Distinct(path)
  {
    if |path| > 1 {
      var prefix := path[..|path| - 1];
      GreedyPathIsSimple(dm, prefix);
      var last := path[|path| - 1];
      assert !Flags(prefix, dm.size)[last];
      assert path == prefix + [last];
    }
  }

  /** Moving to the nearest unvisited city extends a greedy path. */
  lemma GreedyPathExtend(dm: DistanceMatrix, path: seq<int>, next: int)
    requires dm.Valid() && IsGreedyPath(dm, path) && |path| < dm.size
    requires IsNearest(dm, path[|path| - 1], next, Flags(path, dm.size))
    ensures IsGreedyPath(dm, path + [next])
  {
    assert (path + [next])[..|path|] == path;
  }

  /** A greedy path through all `n` cities, closed by a return to city 0, is a
      tour. */
  lemma GreedyPathCloses(dm: DistanceMatrix, path: seq<int>)
    requires dm.Valid() && IsGreedyPath(dm, path) && |path| == dm.size
    ensures IsTour(path + [0], dm.size)
    ensures (path + [0])[..dm.size] == path
  {
    GreedyPathIsSimple(dm, path);
    Pigeonhole(path, dm.size);
    assert (path + [0])[..dm.size] == path;
  }

  /** The scan can come back empty-handed before the tour is complete only if
      some entry of the matrix is `Integer.MAX_VALUE`. */
  lemma StuckOnlyAtMaxValue(dm: DistanceMatrix, path: seq<int>)
    requires dm.Valid() && IsGreedyPath(dm, path) && |path| < dm.size
    requires NoneReachable(dm, path[|path| - 1], Flags(path, dm.size))
    ensures !AllBelowMax(dm)
  {
    GreedyPathIsSimple(dm, path);
    Pigeonhole(path, dm.size);
    var c :| 0 <= c < dm.size && c !in path;
    assert !Flags(path, dm.size)[c];
  }

  /** One step of the nearest-neighbour walk keeps every fact the loop tracks. */
  lemma Advance(dm: DistanceMatrix, path: seq<int>, next: int)
    requires dm.Valid() && IsGreedyPath(dm, path) && |path| < dm.size && InRange(path, dm.size)
    requires IsNearest(dm, path[|path| - 1], next, Flags(path, dm.size))
    ensures IsGreedyPath(dm, path + [next]) && InRange(path + [next], dm.size)
    ensures Flags(path, dm.size)[next := true] == Flags(path + [next], dm.size)
    ensures dm.RouteCost(path + [next]) == dm.RouteCost(path) + dm.GetDistance(path[|path| - 1], next) as int
  {
    dm.RouteCostExtend(path, next);
    FlagsExtend(path, dm.size, next);
    GreedyPathExtend(dm, path, next);
  }

  /** `findNearestUnvisitedCity`: a linear scan with a strict `<`, so the
      lowest index wins ties; -1 when no unvisited city is below
      `Integer.MAX_VALUE`. */
  method FindNearestUnvisitedCity(currentCity: int, visited: array<bool>, dm: DistanceMatrix)
    returns (nearestCity: int)
    requires dm.Valid() && 0 <= currentCity < dm.size && visited.Length == dm.size
    ensures nearestCity == -1 <==> NoneReachable(dm, currentCity, visited[..])
    ensures nearestCity != -1 ==> IsNearest(dm, currentCity, nearestCity, visited[..])
  {
    nearestCity := -1;
    var minDistance: int32 := INT_MAX as int32;
    var city := 0;
    while city < visited.Length
      invariant 0 <= city <= visited.Length
      invariant nearestCity == -1 ==> minDistance as int == INT_MAX
      invariant nearestCity == -1 ==>
        forall u :: 0 <= u < city && !visited[u] ==> dm.GetDistance(currentCity, u) as int == INT_MAX
      invariant nearestCity != -1 ==>
        0 <= nearestCity < city && !visited[nearestCity] &&
        minDistance == dm.GetDistance(currentCity, nearestCity) && (minDistance as int) < INT_MAX
      invariant forall u :: 0 <= u < city && !visited[u] ==> minDistance <= dm.GetDistance(currentCity, u)
      invariant nearestCity != -1 ==>
        forall u :: 0 <= u < nearestCity && !visited[u] ==> minDistance < dm.GetDistance(currentCity, u)
    {
      if !visited[city] {
        var distance := dm.GetDistance(currentCity, city);
        if distance < minDistance {
          minDistance := distance;
          nearestCity := city;
        }
      }
      city := city + 1;
    }
  }

  /** One pass of the loop in `solve`: find the nearest unvisited city from
      the last city of `path`, mark it visited and record it as stop `i`. */
  method VisitNearest(dm: DistanceMatrix, visited: array<bool>, route: array<int>, i: nat, currentCity: int, ghost path: seq<int>)
    returns (nextCity: int)
    requires dm.Valid() && visited.Length == dm.size && route.Length == dm.size + 1
    requires 1 <= i == |path| < dm.size && route[..i] == path && InRange(path, dm.size) && currentCity == path[i - 1]
    requires visited[..] == Flags(path, dm.size)
    modifies visited, route
    ensures nextCity == -1 ==> NoneReachable(dm, path[i - 1], Flags(path, dm.size))
    ensures nextCity != -1 ==>
      IsNearest(dm, path[i - 1], nextCity, Flags(path, dm.size)) &&
      route[..i + 1] == path + [nextCity] && visited[..] == Flags(path + [nextCity], dm.size)
  {
    nextCity := FindNearestUnvisitedCity(currentCity, visited, dm);
    if nextCity != -1 {
      FlagsExtend(path, dm.size, nextCity);
      visited[nextCity] := true;
      route[i] := nextCity;
    }
  }

  /** The loop of `solve`: from city 0, visit the nearest unvisited city
      `size - 1` times, summing the edge costs; stops early when the scan
      finds nothing. */
  method Walk(dm: DistanceMatrix, visited: array<bool>, route: array<int>)
    returns (stuck: bool, currentCity: int, totalDistance: int, ghost path: seq<int>)
    requires dm.Valid() && dm.size >= 1 && visited.Length == dm.size && route.Length == dm.size + 1
    requires route[..1] == [0] && visited[..] == Flags([0], dm.size)
    modifies visited, route
    ensures IsGreedyPath(dm, path) && InRange(path, dm.size) && |path| <= dm.size
    ensures stuck ==> |path| < dm.size && NoneReachable(dm, path[|path| - 1], Flags(path, dm.size))
    ensures !stuck ==>
      |path| == dm.size && route[..dm.size] == path && currentCity == path[dm.size - 1] &&
      totalDistance == dm.RouteCost(path)
  {
    var size := dm.size;
    totalDistance := 0;
    currentCity := 0;
    path := [0];
    for i := 1 to size
      invariant |path| == i && route[..i] == path
      invariant IsGreedyPath(dm, path) && InRange(path, size)
      invariant currentCity == path[i - 1] && 0 <= currentCity < size
      invariant visited[..] == Flags(path, size)
      invariant totalDistance == dm.RouteCost(path)
    {
      var nextCity := VisitNearest(dm, visited, route, i, currentCity, path);
      if nextCity == -1 {
        return true, currentCity, totalDistance, path;
      }
      Advance(dm, path, nextCity);
      totalDistance := totalDistance + dm.GetDistance(currentCity, nextCity) as int;
      currentCity := nextCity;
      path := path + [nextCity];
    }
    stuck := false;
  }

  /** `GreedyTSP.solve`: start at city 0, repeatedly move to the nearest
      unvisited city, then return to city 0, summing the costs in an `int`. */
  method Solve(distanceMatrix: DistanceMatrix) returns (outcome: Outcome<Result>, ghost path: seq<int>)
    requires distanceMatrix.Valid()
    ensures outcome.Done? ==>
      IsGreedyPath(distanceMatrix, path) && |path| == distanceMatrix.size &&
      IsTour(path + [0], distanceMatrix.size) &&
      outcome.value == Result(path + [0], Wrap(distanceMatrix.RouteCost(path + [0])))
    ensures outcome.IndexOutOfBounds? ==>
      distanceMatrix.size == 0 ||
      (IsGreedyPath(distanceMatrix, path) && |path| < distanceMatrix.size &&
       NoneReachable(distanceMatrix, path[|path| - 1], Flags(path, distanceMatrix.size)))
    ensures distanceMatrix.size >= 1 && AllBelowMax(distanceMatrix) ==> outcome.Done?
  {
    var size := distanceMatrix.GetSize();
    assert size == distanceMatrix.size;
    if size == 0 {
      // `visited[0] = true` on an empty array
      return IndexOutOfBounds, [];
    }
    var visited := new bool[size](_ => false);
    var route := new int[size + 1];
    visited[0] := true;
    route[0] := 0;
    var stuck, currentCity, totalDistance;
    stuck, currentCity, totalDistance, path := Walk(distanceMatrix, visited, route);
    if stuck {
      // `visited[-1] = true`
      StuckOnlyAtMaxValue(distanceMatrix, path);
      return IndexOutOfBounds, path;
    }
    GreedyPathCloses(distanceMatrix, path);
    var result := CloseTour(distanceMatrix, route, path, currentCity, totalDistance);
    outcome := Done(result);
  }
}
