/** What `updatePheromones` adds to each cell of the pheromone matrix: every
    ant's route lays `1.0 / totalDistance` on both directions of each of its
    edges. */
module Pheromones {
  import opened JavaInt
  import opened Tours

  /** `1.0 / solution.getTotalDistance()` over the reals; a total of 0, for
      which Java's `double` division yields `Infinity`, deposits nothing. */
  function Deposit(totalDistance: int32): (d: real)
    ensures totalDistance > 0 ==> d > 0.0
    ensures totalDistance == 0 ==> d == 0.0
    ensures d * (totalDistance as real) == (if totalDistance == 0 then 0.0 else 1.0)
  {
    if totalDistance == 0 then 0.0 else 1.0 / (totalDistance as real)
  }

  /** What the two writes for the edge `a -> b` add to cell `(i, j)`:
      `[a][b] += d` and then `[b][a] += d` (both land on the same cell when
      `a == b`). */
  function EdgeShare(a: int, b: int, d: real, i: int, j: int): real {
    (if a == i && b == j then d else 0.0) + (if b == i && a == j then d else 0.0)
  }

  /** The number of edges the inner loop walks: `route.length - 1` of them,
      none for an empty route. */
  function EdgeCount(route: seq<int>): nat {
    if |route| == 0 then 0 else |route| - 1
  }

  /** What the first `m` edges of `route` add to cell `(i, j)`. */
  function RouteDeposit(route: seq<int>, m: nat, d: real, i: int, j: int): real
    requires m <= EdgeCount(route)
  {
    if m == 0 then 0.0
    else RouteDeposit(route, m - 1, d, i, j) + EdgeShare(route[m - 1], route[m], d, i, j)
  }

  /** What all of `solutions`, in order, add to cell `(i, j)`. */
  function TotalDeposit(solutions: seq<Result>, i: int, j: int): real {
    if solutions == [] then 0.0
    else
      var last := solutions[|solutions| - 1];
      TotalDeposit(solutions[..|solutions| - 1], i, j)
      + RouteDeposit(last.route, EdgeCount(last.route), Deposit(last.totalDistance), i, j)
  }

  /** Each route deposits the same amount on `(i, j)` as on `(j, i)`. */
  lemma {:induction false} RouteDepositSymmetric(route: seq<int>, m: nat, d: real, i: int, j: int)
    requires m <= EdgeCount(route)
    ensures RouteDeposit(route, m, d, i, j) == RouteDeposit(route, m, d, j, i)
  {
    if m > 0 {
      RouteDepositSymmetric(route, m - 1, d, i, j);
    }
  }

  /** The whole deposit phase treats `(i, j)` and `(j, i)` alike. */
  lemma {:induction false} TotalDepositSymmetric(solutions: seq<Result>, i: int, j: int)
    ensures TotalDeposit(solutions, i, j) == TotalDeposit(solutions, j, i)
  {
    if solutions != [] {
      var last := solutions[|solutions| - 1];
      TotalDepositSymmetric(solutions[..|solutions| - 1], i, j);
      RouteDepositSymmetric(last.route, EdgeCount(last.route), Deposit(last.totalDistance), i, j);
    }
  }

  /** Routes with non-negative totals never take pheromone away. */
  lemma {:induction false} TotalDepositNonNegative(solutions: seq<Result>, i: int, j: int)
    requires forall s :: s in solutions ==> s.totalDistance >= 0
    ensures TotalDeposit(solutions, i, j) >= 0.0
  {
    if solutions != [] {
      var last := solutions[|solutions| - 1];
      TotalDepositNonNegative(solutions[..|solutions| - 1], i, j);
      RouteDepositNonNegative(last.route, EdgeCount(last.route), Deposit(last.totalDistance), i, j);
    }
  }

  lemma {:induction false} RouteDepositNonNegative(route: seq<int>, m: nat, d: real, i: int, j: int)
    requires m <= EdgeCount(route) && d >= 0.0
    ensures RouteDeposit(route, m, d, i, j) >= 0.0
  {
    if m > 0 {
      RouteDepositNonNegative(route, m - 1, d, i, j);
    }
  }
}
