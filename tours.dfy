/** The value both solvers produce, and what makes a route a closed tour. */
module Tours {
  import opened JavaInt
  import opened Distances

  /** Java's `null` for a reference that may be absent. */
  datatype Option<T> = None | Some(value: T)

  /** A call that either returns a value or ends in the
      `ArrayIndexOutOfBoundsException` the code throws. */
  datatype Outcome<T> = Done(value: T) | IndexOutOfBounds

  /** `Result`: a route and its total distance. Its getters `getRoute()` and
      `getTotalDistance()` are the destructors `route` and `totalDistance`. */
  datatype Result = Result(route: seq<int>, totalDistance: int32)

  predicate Distinct(s: seq<int>) {
    forall j, k :: 0 <= j < k < |s| ==> s[j] != s[k]
  }

  /** A closed Hamiltonian circuit over cities `0..n-1` from and back to city 0:
      `n + 1` entries, the first `n` a permutation of `0..n-1`, the last 0. */
  predicate IsTour(route: seq<int>, n: nat) {
    n >= 1 && |route| == n + 1 && route[0] == 0 && route[n] == 0 &&
    InRange(route, n) && Distinct(route[..n]) &&
    forall c :: 0 <= c < n ==> c in route[..n]
  }

  /** The `visited` flags after the cities of `path` have been visited. */
  function Flags(path: seq<int>, n: nat): seq<bool> {
    seq(n, c => c in path)
  }

  /** Marking `city` visited gives the flags of the extended path. */
  lemma FlagsExtend(path: seq<int>, n: nat, city: int)
    requires 0 <= city < n
    ensures Flags(path, n)[city := true] == Flags(path + [city], n)
  {
  }

  /** The end of both solvers: `route[n] = 0` and the cost of the edge back
      to city 0 added to the running total; the result is the closed route
      and its `int` total. */
  method CloseTour(dm: DistanceMatrix, route: array<int>, ghost path: seq<int>, currentCity: int, totalDistance: int)
    returns (result: Result)
    requires dm.Valid() && 1 <= |path| == dm.size && InRange(path, dm.size)
    requires route.Length == dm.size + 1 && route[..dm.size] == path && currentCity == path[dm.size - 1]
    requires totalDistance == dm.RouteCost(path)
    modifies route
    ensures InRange(path + [0], dm.size)
    ensures result == Result(path + [0], Wrap(dm.RouteCost(path + [0])))
  {
    dm.RouteCostExtend(path, 0);
    route[dm.size] := 0;
    assert route[..] == route[..dm.size] + [route[dm.size]];
    var total := totalDistance + dm.GetDistance(currentCity, 0) as int;
    result := Result(route[..], Wrap(total));
  }

  /** The set of cities `0..n-1`. */
  function Cities(n: nat): set<int> {
    if n == 0 then {} else Cities(n - 1) + {n - 1}
  }

  lemma {:induction false} CitiesExactly(n: nat)
    ensures |Cities(n)| == n
    ensures forall c :: c in Cities(n) <==> 0 <= c < n
  {
    if n > 0 {
      CitiesExactly(n - 1);
    }
  }

  lemma {:induction false} DistinctCardinality(s: seq<int>)
    requires Distinct(s)
    ensures |set x | x in s| == |s|
  {
    if s != [] {
      var init := s[..|s| - 1];
      DistinctCardinality(init);
      assert (set x | x in s) == (set x | x in init) + {s[|s| - 1]};
      assert s[|s| - 1] !in init;
    }
  }

  /** Pigeonhole: fewer than `n` distinct cities of `0..n-1` leave one
      unvisited, and exactly `n` of them visit every city. */
  lemma Pigeonhole(path: seq<int>, n: nat)
    requires InRange(path, n) && Distinct(path)
    ensures |path| <= n
    ensures |path| < n ==> exists c :: 0 <= c < n && c !in path
    ensures |path| == n ==> forall c :: 0 <= c < n ==> c in path
  {
    var visited := set x | x in path;
    DistinctCardinality(path);
    CitiesExactly(n);
    assert visited <= Cities(n);
    var rest := Cities(n) - visited;
    assert Cities(n) == visited + rest;
    assert |Cities(n)| == |visited| + |rest|;
    if |path| < n {
      if forall c :: 0 <= c < n ==> c in path {
        assert false;
      }
    }
    if |path| == n {
      assert rest == {};
      forall c | 0 <= c < n ensures c in path {
        assert c in Cities(n);
      }
    }
  }
}
