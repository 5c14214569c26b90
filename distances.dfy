/** The read-only table of travel costs shared by both solvers. */
module Distances {
  import opened JavaInt

  /** Every entry of `s` is a city index below `n`. */
  predicate InRange(s: seq<int>, n: nat) {
    forall k :: 0 <= k < |s| ==> 0 <= s[k] < n
  }

  /** `DistanceMatrix`: the caller's `int[][]` together with the size it
      declares. Neither is checked by the program. */
  datatype DistanceMatrix = DistanceMatrix(matrix: seq<seq<int32>>, size: nat) {

    /** The caller's promise: `size` rows of `size` entries each. */
    predicate Valid() {
      |matrix| == size && forall i :: 0 <= i < size ==> |matrix[i]| == size
    }

    /** `getDistance(from, to)`: the cost of travelling from `from` to `to`. */
    function GetDistance(from: int, to: int): int32
      requires Valid() && 0 <= from < size && 0 <= to < size
    {
      matrix[from][to]
    }

    /** `getSize()`: the size the caller declared, which is the number of
        rows of a well-formed table. */
    function GetSize(): (n: nat)
      ensures Valid() ==> n == |matrix|
    {
      size
    }

    /** The costs of leaving city `from`, indexed by destination. */
    function Row(from: int): seq<int32>
      requires Valid() && 0 <= from < size
    {
      matrix[from]
    }

    /** The exact (unbounded) cost of following `route` city by city: the sum
        of the cost of every consecutive pair. */
    function RouteCost(route: seq<int>): int
      requires Valid()
      requires InRange(route, size)
    {
      if |route| < 2 then 0
      else RouteCost(route[..|route| - 1])
           + GetDistance(route[|route| - 2], route[|route| - 1]) as int
    }

    /** The value a Java `int` accumulator holds after `totalDistance += ...`
        over every consecutive pair of `route`: each addition wraps. Wrapping
        after every addition gives the exact cost wrapped once. */
    function IntRouteCost(route: seq<int>): (r: int32)
      requires Valid() && InRange(route, size)
      ensures r == Wrap(RouteCost(route))
    {
      if |route| < 2 then 0
      else
        var prefix := route[..|route| - 1];
        var d := GetDistance(route[|route| - 2], route[|route| - 1]) as int;
        WrapAdd(RouteCost(prefix), d);
        Wrap(IntRouteCost(prefix) as int + d)
    }

    /** A two-city route costs the one edge `getDistance` reads. */
    lemma EdgeCost(from: int, to: int)
      requires Valid() && 0 <= from < size && 0 <= to < size
      ensures RouteCost([from, to]) == GetDistance(from, to) as int
    {
      assert [from, to][..1] == [from];
    }

    /** Extending a route by one city adds exactly the cost of the new edge. */
    lemma RouteCostExtend(route: seq<int>, city: int)
      requires Valid() && |route| >= 1 && 0 <= city < size
      requires InRange(route, size)
      ensures InRange(route + [city], size)
      ensures RouteCost(route + [city])
              == RouteCost(route) + GetDistance(route[|route| - 1], city) as int
    {
      assert (route + [city])[..|route|] == route;
    }
  }
}
