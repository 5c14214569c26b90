/** `AntColonyOptimization`: ants build tours city by city, choosing each
    next city by a roulette-wheel draw over pheromone-weighted
    probabilities; after every round the pheromones evaporate and each
    ant's tour deposits on its edges; the cheapest tour seen is kept. */
module AntColony {
  import opened JavaInt
  import opened Distances
  import opened Tours
  import opened AntSelection
  import opened Pheromones

  /** How often `for (int k = 0; k < n; k++)` runs: never for a negative
      `n`. */
  function Count(n: int): nat {
    if n < 0 then 0 else n
  }

  /** How many candidates `rounds` rounds of `perRound` ants produce, counted
      round by round. */
  function Examined(rounds: nat, perRound: nat): nat {
    if rounds == 0 then 0 else Examined(rounds - 1, perRound) + perRound
  }

  lemma {:induction false} ExaminedIsProduct(rounds: nat, perRound: nat)
    ensures Examined(rounds, perRound) == rounds * perRound
  {
    if rounds > 0 {
      ExaminedIsProduct(rounds - 1, perRound);
    }
  }

  /** Every round's solutions, one round after the other: the order in which
      `solve` looks at them. */
  function Concat(rounds: seq<seq<Result>>): seq<Result>
  {
    if rounds == [] then [] else Concat(rounds[..|rounds| - 1]) + rounds[|rounds| - 1]
  }

  /** Two `n × n` matrices with the same entries are the same matrix. */
  lemma MatrixExtensional(a: seq<seq<real>>, b: seq<seq<real>>, n: nat)
    requires |a| == n && |b| == n
    requires forall i :: 0 <= i < n ==> |a[i]| == n && |b[i]| == n
    requires forall i, j :: 0 <= i < n && 0 <= j < n ==> a[i][j] == b[i][j]
    ensures a == b
  {
    forall i | 0 <= i < n
      ensures a[i] == b[i]
    {
      assert forall j :: 0 <= j < n ==> a[i][j] == b[i][j];
    }
  }

  /** The value `bestResult` holds after `solve` has looked at `candidates`
      in order: the first one, replaced by any later one that is strictly
      cheaper; `None` is Java's `null`. */
  function BestOf(candidates: seq<Result>): Option<Result> {
    if candidates == [] then None
    else
      var best := BestOf(candidates[..|candidates| - 1]);
      var s := candidates[|candidates| - 1];
      if best == None || s.totalDistance < best.value.totalDistance then Some(s) else best
  }

  /** Candidate `k` has the minimum total distance, and every candidate
      before it costs strictly more. */
  predicate EarliestMinimum(candidates: seq<Result>, k: int) {
    0 <= k < |candidates| &&
    (forall j :: 0 <= j < |candidates| ==> candidates[k].totalDistance <= candidates[j].totalDistance) &&
    (forall j :: 0 <= j < k ==> candidates[j].totalDistance > candidates[k].totalDistance)
  }

  /** Appending a candidate keeps the earliest minimum unless the new one
      is strictly cheaper, in which case the new one is it. */
  lemma EarliestMinimumExtend(candidates: seq<Result>, k: int, s: Result)
    requires EarliestMinimum(candidates, k)
    ensures s.totalDistance < candidates[k].totalDistance ==> EarliestMinimum(candidates + [s], |candidates|)
    ensures s.totalDistance >= candidates[k].totalDistance ==> EarliestMinimum(candidates + [s], k)
  {
    var extended := candidates + [s];
    assert forall j :: 0 <= j < |candidates| ==> extended[j] == candidates[j];
  }

  /** `BestOf` is `null` exactly for no candidates, and otherwise an
      earliest candidate of minimum total distance. */
  lemma {:induction false} BestOfFindsEarliestMinimum(candidates: seq<Result>)
    ensures BestOf(candidates).None? <==> candidates == []
    ensures BestOf(candidates).Some? ==>
      exists k :: EarliestMinimum(candidates, k) && BestOf(candidates).value == candidates[k]
  {
    if candidates != [] {
      var n := |candidates|;
      var init := candidates[..n - 1];
      var s := candidates[n - 1];
      assert candidates == init + [s];
      BestOfFindsEarliestMinimum(init);
      if init == [] {
        assert EarliestMinimum(candidates, 0);
      } else {
        var k :| EarliestMinimum(init, k) && BestOf(init).value == init[k];
        EarliestMinimumExtend(init, k, s);
      }
    }
  }

  /** There is only one earliest minimum. */
  lemma EarliestMinimumUnique(candidates: seq<Result>, k1: int, k2: int)
    requires EarliestMinimum(candidates, k1) && EarliestMinimum(candidates, k2)
    ensures k1 == k2
  {
    assert candidates[k1].totalDistance <= candidates[k2].totalDistance;
    assert candidates[k2].totalDistance <= candidates[k1].totalDistance;
  }

  /** So `solve`'s answer is the earliest candidate of minimum total
      distance, whichever index that is. */
  lemma BestOfIsEarliestMinimum(candidates: seq<Result>, k: int)
    requires EarliestMinimum(candidates, k)
    ensures BestOf(candidates) == Some(candidates[k])
  {
    BestOfFindsEarliestMinimum(candidates);
    var k' :| EarliestMinimum(candidates, k') && BestOf(candidates).value == candidates[k'];
    EarliestMinimumUnique(candidates, k, k');
  }

  /** Looking at one more candidate is one more step of the fold. */
  lemma BestOfExtend(candidates: seq<Result>, s: Result)
    ensures BestOf(candidates + [s]) ==
      var best := BestOf(candidates);
      if best == None || s.totalDistance < best.value.totalDistance then Some(s) else best
  {
    assert (candidates + [s])[..|candidates|] == candidates;
  }

  /** What every ant hands back: a tour whose total is the `int` sum of its
      edges. */
  predicate IsAntResult(dm: DistanceMatrix, r: Result)
    requires dm.Valid()
  {
    IsTour(r.route, dm.size) && r.totalDistance == Wrap(dm.RouteCost(r.route))
  }

  /** The inner loop of `solve`: look at one round's solutions in order,
      keeping the first of any strictly cheaper one. */
  method KeepBest(bestResult: Option<Result>, ghost seen: seq<Result>, antSolutions: seq<Result>)
    returns (best: Option<Result>)
    requires bestResult == BestOf(seen)
    ensures best == BestOf(seen + antSolutions)
  {
    best := bestResult;
    assert seen + antSolutions[..0] == seen;
    for k := 0 to |antSolutions|
      invariant best == BestOf(seen + antSolutions[..k])
    {
      var solution := antSolutions[k];
      BestOfExtend(seen + antSolutions[..k], solution);
      assert seen + antSolutions[..k + 1] == seen + antSolutions[..k] + [solution];
      if best == None || solution.totalDistance < best.value.totalDistance {
        best := Some(solution);
      }
    }
    assert antSolutions[..|antSolutions|] == antSolutions;
  }

  class AntColonyOptimization {
    const distanceMatrix: DistanceMatrix
    const numAnts: int
    const numIterations: int
    /** `pheromones[i][j]`: the trail on the edge `i -> j`, as a `real`. */
    const pheromones: array2<real>
    const evaporationRate: real := 0.5
    /** The weighting and normalisation in `chooseNextCity` (`Math.pow` of the
        pheromone to `alpha` = 1.0 times `Math.pow` of the inverse distance
        to `beta` = 2.0, divided by the total): from the current city's
        pheromone row, its distance row and the visited flags to one
        probability per city. */
    const probabilitiesOf: (seq<real>, seq<int32>, seq<bool>) -> seq<real>
    /** The values `Math.random()` returns, in order. */
    const randomDraw: nat -> real
    /** How many values have been drawn so far. */
    var draws: nat

    predicate Symmetric()
      reads pheromones
    {
      forall i, j ::
        (0 <= i < pheromones.Length0 && i < pheromones.Length1 &&
         0 <= j < pheromones.Length0 && j < pheromones.Length1) ==> pheromones[i, j] == pheromones[j, i]
    }

    /** The matrix is `size × size` over a well-formed distance table. */
    predicate Shaped() {
      distanceMatrix.Valid() &&
      pheromones.Length0 == distanceMatrix.size && pheromones.Length1 == distanceMatrix.size
    }

    /** The weighting yields one probability per city. */
    ghost predicate ProbabilitiesFit() {
      forall ph, d, v :: |probabilitiesOf(ph, d, v)| == |v|
    }

    ghost predicate Valid()
      reads pheromones
    {
      Shaped() && Symmetric() && ProbabilitiesFit()
    }

    /** The constructor: fixed parameters, and a `size × size` pheromone
        matrix filled with 1.0. */
    constructor (distanceMatrix: DistanceMatrix, numAnts: int, numIterations: int,
                 probabilitiesOf: (seq<real>, seq<int32>, seq<bool>) -> seq<real>,
                 randomDraw: nat -> real)
      requires distanceMatrix.Valid()
      requires forall ph, d, v :: |probabilitiesOf(ph, d, v)| == |v|
      ensures Valid() && fresh(pheromones) && draws == 0
      ensures this.distanceMatrix == distanceMatrix && this.numAnts == numAnts &&
        this.numIterations == numIterations
      ensures this.probabilitiesOf == probabilitiesOf && this.randomDraw == randomDraw
      ensures forall i, j :: 0 <= i < distanceMatrix.size && 0 <= j < distanceMatrix.size ==>
        pheromones[i, j] == 1.0
    {
      this.distanceMatrix := distanceMatrix;
      this.numAnts := numAnts;
      this.numIterations := numIterations;
      this.probabilitiesOf := probabilitiesOf;
      this.randomDraw := randomDraw;
      var n := distanceMatrix.GetSize();
      pheromones := new real[n, n];
      draws := 0;
      new;
      for i := 0 to n
        invariant forall r, c :: 0 <= r < i && 0 <= c < n ==> pheromones[r, c] == 1.0
        modifies pheromones
      {
        for j := 0 to n
          modifies pheromones
          invariant forall r, c :: 0 <= r < i && 0 <= c < n ==> pheromones[r, c] == 1.0
          invariant forall c :: 0 <= c < j ==> pheromones[i, c] == 1.0
        {
          pheromones[i, j] := 1.0;
        }
      }
    }

    /** `pheromones[from]` */
    function PheromoneRow(from: int): (row: seq<real>)
      reads pheromones
      requires Shaped() && 0 <= from < distanceMatrix.size
      ensures |row| == distanceMatrix.size
      ensures forall j :: 0 <= j < |row| ==> row[j] == pheromones[from, j]
    {
      seq(distanceMatrix.size, j reads pheromones requires 0 <= j < distanceMatrix.size => pheromones[from, j])
    }

    /** `t` has `size` rows of `size` entries. */
    predicate IsSquare(t: seq<seq<real>>) {
      |t| == distanceMatrix.size && forall i :: 0 <= i < |t| ==> |t[i]| == distanceMatrix.size
    }

    /** The whole pheromone matrix as a value: the trails one ant walks
        over, since nothing changes them while the ants of a round build
        their tours. */
    function Trails(): (trails: seq<seq<real>>)
      reads pheromones
      requires Shaped()
      ensures IsSquare(trails)
      ensures forall i, j :: 0 <= i < distanceMatrix.size && 0 <= j < distanceMatrix.size ==>
        trails[i][j] == pheromones[i, j]
    {
      seq(distanceMatrix.size, i reads pheromones requires 0 <= i < distanceMatrix.size => PheromoneRow(i))
    }

    /** The trails `updatePheromones(solutions)` leaves behind when it starts
        from `trails`: every entry evaporated, plus what the solutions
        deposit on it. */
    function Updated(trails: seq<seq<real>>, solutions: seq<Result>): (next: seq<seq<real>>)
      requires IsSquare(trails)
      ensures IsSquare(next)
    {
      seq(distanceMatrix.size, i requires 0 <= i < distanceMatrix.size =>
        seq(distanceMatrix.size, j requires 0 <= j < distanceMatrix.size =>
          trails[i][j] * (1.0 - evaporationRate) + TotalDeposit(solutions, i, j)))
    }

    /** Trails that are all positive stay positive through an update whose
        solutions have non-negative totals: evaporation halves an entry and
        the deposits never take anything away. */
    lemma UpdatedStaysPositive(trails: seq<seq<real>>, solutions: seq<Result>)
      requires IsSquare(trails)
      requires forall i, j :: 0 <= i < distanceMatrix.size && 0 <= j < distanceMatrix.size ==> trails[i][j] > 0.0
      requires forall s :: s in solutions ==> s.totalDistance >= 0
      ensures forall i, j :: 0 <= i < distanceMatrix.size && 0 <= j < distanceMatrix.size ==>
        Updated(trails, solutions)[i][j] > 0.0
    {
      forall i, j | 0 <= i < distanceMatrix.size && 0 <= j < distanceMatrix.size
        ensures Updated(trails, solutions)[i][j] > 0.0
      {
        TotalDepositNonNegative(solutions, i, j);
      }
    }

    /** The `probabilities` array `chooseNextCity` walks over, for the
        trails `trails`. */
    function Probabilities(trails: seq<seq<real>>, from: int, visited: seq<bool>): (p: seq<real>)
      requires distanceMatrix.Valid() && ProbabilitiesFit()
      requires 0 <= from < distanceMatrix.size && |trails| == distanceMatrix.size
      ensures |p| == |visited|
    {
      probabilitiesOf(trails[from], distanceMatrix.Row(from), visited)
    }

    /** `chooseNextCity`: draw one random value and make the roulette-wheel
        selection over this city's probabilities. */
    method ChooseNextCity(currentCity: int, visited: array<bool>) returns (choice: Choice)
      requires Valid() && 0 <= currentCity < distanceMatrix.size && visited.Length == distanceMatrix.size
      modifies this
      ensures draws == old(draws) + 1
      ensures IsSelection(visited[..], Probabilities(Trails(), currentCity, visited[..]), randomDraw(old(draws)), choice)
      ensures choice.IllegalState? <==> AllVisited(visited[..])
      ensures choice.Next? ==> 0 <= choice.city < visited.Length && !visited[choice.city]
    {
      var probabilities := probabilitiesOf(PheromoneRow(currentCity), distanceMatrix.Row(currentCity), visited[..]);
      assert Trails()[currentCity] == PheromoneRow(currentCity);
      var rand := randomDraw(draws);
      draws := draws + 1;
      choice := SelectCity(visited, probabilities, rand);
    }

    /** `path` is what an ant has walked over `trails`, drawing its random
        values from `firstDraw` on: it starts at city 0 and every later city
        is the selection made with the next draw. */
    predicate IsAntPath(trails: seq<seq<real>>, path: seq<int>, firstDraw: nat)
      requires distanceMatrix.Valid() && ProbabilitiesFit() && |trails| == distanceMatrix.size
    {
      if |path| <= 1 then path == [0] && distanceMatrix.size >= 1
      else
        var prefix := path[..|path| - 1];
        var from := prefix[|prefix| - 1];
        IsAntPath(trails, prefix, firstDraw) && |path| <= distanceMatrix.size && 0 <= from < distanceMatrix.size &&
        IsSelection(Flags(prefix, distanceMatrix.size),
                    Probabilities(trails, from, Flags(prefix, distanceMatrix.size)),
                    randomDraw(firstDraw + |prefix| - 1), Next(path[|path| - 1]))
    }

    /** How many values one ant draws: one per city after the first. */
    function AntDraws(): nat {
      Count(distanceMatrix.size - 1)
    }

    /** How many values one round of `numAnts` ants draws. */
    function RoundDraws(): nat {
      Examined(Count(numAnts), AntDraws())
    }

    /** `r` is the result of an ant that walks over `trails` drawing its
        random values from `firstDraw` on: a tour whose first `size` stops
        are that ant's path, with the `int` sum of its edges. */
    predicate IsAntSolution(trails: seq<seq<real>>, firstDraw: nat, r: Result)
      requires distanceMatrix.Valid() && ProbabilitiesFit() && |trails| == distanceMatrix.size
    {
      IsTour(r.route, distanceMatrix.size) && IsAntPath(trails, r.route[..distanceMatrix.size], firstDraw) &&
      r.totalDistance == Wrap(distanceMatrix.RouteCost(r.route))
    }

    /** `solutions` are the results of ants that walk over `trails` one
        after the other, the first drawing from `firstDraw` on and each later
        one right after the ants before it. */
    predicate AntsFrom(trails: seq<seq<real>>, firstDraw: nat, solutions: seq<Result>)
      requires distanceMatrix.Valid() && ProbabilitiesFit() && |trails| == distanceMatrix.size
    {
      solutions == [] ||
      (AntsFrom(trails, firstDraw, solutions[..|solutions| - 1]) &&
       IsAntSolution(trails, firstDraw + Examined(|solutions| - 1, AntDraws()), solutions[|solutions| - 1]))
    }

    /** `solutions` is one round over `trails`: `numAnts` ants, one after the
        other. */
    predicate IsRound(trails: seq<seq<real>>, firstDraw: nat, solutions: seq<Result>)
      requires distanceMatrix.Valid() && ProbabilitiesFit() && |trails| == distanceMatrix.size
    {
      |solutions| == Count(numAnts) && AntsFrom(trails, firstDraw, solutions)
    }

    /** One more ant, drawing right after the ants before it, extends the
        ants. */
    lemma RoundGrows(trails: seq<seq<real>>, firstDraw: nat, solutions: seq<Result>, next: nat, r: Result)
      requires distanceMatrix.Valid() && ProbabilitiesFit() && |trails| == distanceMatrix.size
      requires AntsFrom(trails, firstDraw, solutions) && next == firstDraw + Examined(|solutions|, AntDraws())
      requires IsAntSolution(trails, next, r)
      ensures AntsFrom(trails, firstDraw, solutions + [r])
    {
      assert (solutions + [r])[..|solutions|] == solutions;
    }

    /** Ant `k` of a run of ants draws its values right after the `k` ants
        before it, `size - 1` values each. */
    lemma {:induction false} AntsFromEach(trails: seq<seq<real>>, firstDraw: nat, solutions: seq<Result>, k: nat)
      requires distanceMatrix.Valid() && ProbabilitiesFit() && |trails| == distanceMatrix.size
      requires AntsFrom(trails, firstDraw, solutions) && k < |solutions|
      ensures IsAntSolution(trails, firstDraw + Examined(k, AntDraws()), solutions[k])
    {
      var n := |solutions|;
      if k < n - 1 {
        var earlier := solutions[..n - 1];
        AntsFromEach(trails, firstDraw, earlier, k);
        assert earlier[k] == solutions[k];
      }
    }

    /** Every ant of a run of ants hands back a tour with its `int` sum. */
    lemma {:induction false} AntsAreResults(trails: seq<seq<real>>, firstDraw: nat, solutions: seq<Result>)
      requires distanceMatrix.Valid() && ProbabilitiesFit() && |trails| == distanceMatrix.size
      requires AntsFrom(trails, firstDraw, solutions)
      ensures forall r :: r in solutions ==> IsAntResult(distanceMatrix, r)
    {
      if solutions != [] {
        var n := |solutions|;
        AntsAreResults(trails, firstDraw, solutions[..n - 1]);
        assert solutions == solutions[..n - 1] + [solutions[n - 1]];
      }
    }

    /** An ant never leaves the cities and never revisits one. */
    lemma {:induction false} AntPathIsSimple(trails: seq<seq<real>>, path: seq<int>, firstDraw: nat)
      requires distanceMatrix.Valid() && ProbabilitiesFit() && |trails| == distanceMatrix.size
      requires IsAntPath(trails, path, firstDraw)
      ensures 1 <= |path| <= distanceMatrix.size && path[0] == 0
      ensures InRange(path, distanceMatrix.size) && Distinct(path)
    {
      if |path| > 1 {
        var prefix := path[..|path| - 1];
        AntPathIsSimple(trails, prefix, firstDraw);
        var last := path[|path| - 1];
        assert !Flags(prefix, distanceMatrix.size)[last];
        assert path == prefix + [last];
      }
    }

    /** Until an ant has been everywhere, some city is still open to it. */
    lemma AntPathLeavesUnvisited(trails: seq<seq<real>>, path: seq<int>, firstDraw: nat)
      requires distanceMatrix.Valid() && ProbabilitiesFit() && |trails| == distanceMatrix.size
      requires IsAntPath(trails, path, firstDraw) && |path| < distanceMatrix.size
      ensures InRange(path, distanceMatrix.size) && !AllVisited(Flags(path, distanceMatrix.size))
    {
      AntPathIsSimple(trails, path, firstDraw);
      Pigeonhole(path, distanceMatrix.size);
      var c :| 0 <= c < distanceMatrix.size && c !in path;
      assert !Flags(path, distanceMatrix.size)[c];
    }

    /** Moving to the selected city extends an ant's path by one edge. */
    lemma AntAdvance(trails: seq<seq<real>>, path: seq<int>, firstDraw: nat, next: int)
      requires distanceMatrix.Valid() && ProbabilitiesFit() && |trails| == distanceMatrix.size
      requires IsAntPath(trails, path, firstDraw) && |path| < distanceMatrix.size
      requires InRange(path, distanceMatrix.size)
      requires IsSelection(Flags(path, distanceMatrix.size),
                           Probabilities(trails, path[|path| - 1], Flags(path, distanceMatrix.size)),
                           randomDraw(firstDraw + |path| - 1), Next(next))
      ensures IsAntPath(trails, path + [next], firstDraw) && InRange(path + [next], distanceMatrix.size)
      ensures distanceMatrix.RouteCost(path + [next])
              == distanceMatrix.RouteCost(path) + distanceMatrix.GetDistance(path[|path| - 1], next) as int
    {
      distanceMatrix.RouteCostExtend(path, next);
      assert (path + [next])[..|path|] == path;
    }

    /** An ant path through all cities, closed by a return to city 0, is a
        tour. */
    lemma AntPathCloses(trails: seq<seq<real>>, path: seq<int>, firstDraw: nat)
      requires distanceMatrix.Valid() && ProbabilitiesFit() && |trails| == distanceMatrix.size
      requires IsAntPath(trails, path, firstDraw) && |path| == distanceMatrix.size
      ensures IsTour(path + [0], distanceMatrix.size)
      ensures (path + [0])[..distanceMatrix.size] == path
    {
      AntPathIsSimple(trails, path, firstDraw);
      Pigeonhole(path, distanceMatrix.size);
      assert (path + [0])[..distanceMatrix.size] == path;
    }

    /** One pass of the loop in `constructSingleAntSolution`: choose the next
        city, record it as stop `i` and mark it visited. */
    method VisitChosen(ghost trails: seq<seq<real>>, visited: array<bool>, route: array<int>, i: nat,
                       currentCity: int, ghost path: seq<int>)
      returns (nextCity: int)
      requires Valid() && trails == Trails() && visited.Length == distanceMatrix.size && route.Length == distanceMatrix.size + 1
      requires 1 <= i == |path| < distanceMatrix.size && route[..i] == path
      requires InRange(path, distanceMatrix.size) && currentCity == path[i - 1]
      requires visited[..] == Flags(path, distanceMatrix.size) && !AllVisited(visited[..])
      modifies this, visited, route
      ensures draws == old(draws) + 1
      ensures IsSelection(Flags(path, distanceMatrix.size),
                          Probabilities(trails, currentCity, Flags(path, distanceMatrix.size)),
                          randomDraw(old(draws)), Next(nextCity))
      ensures route[..i + 1] == path + [nextCity]
      ensures visited[..] == Flags(path + [nextCity], distanceMatrix.size)
    {
      var choice := ChooseNextCity(currentCity, visited);
      assert Trails() == trails;
      nextCity := choice.city;
      FlagsExtend(path, distanceMatrix.size, nextCity);
      route[i] := nextCity;
      visited[nextCity] := true;
    }

    /** The loop of `constructSingleAntSolution`: from city 0, move `size - 1`
        times to the chosen city, summing the edge costs. */
    method AntWalk(ghost trails: seq<seq<real>>, visited: array<bool>, route: array<int>)
      returns (currentCity: int, totalDistance: int, ghost path: seq<int>)
      requires Valid() && trails == Trails() && distanceMatrix.size >= 1
      requires visited.Length == distanceMatrix.size && route.Length == distanceMatrix.size + 1
      requires route[..1] == [0] && visited[..] == Flags([0], distanceMatrix.size)
      modifies this, visited, route
      ensures draws == old(draws) + distanceMatrix.size - 1
      ensures IsAntPath(trails, path, old(draws)) && |path| == distanceMatrix.size
      ensures route[..distanceMatrix.size] == path && currentCity == path[distanceMatrix.size - 1]
      ensures InRange(path, distanceMatrix.size) && totalDistance == distanceMatrix.RouteCost(path)
    {
      var size := distanceMatrix.size;
      ghost var firstDraw := draws;
      totalDistance := 0;
      currentCity := 0;
      path := [0];
      for i := 1 to size
        invariant |path| == i && route[..i] == path && draws == firstDraw + i - 1
        invariant Trails() == trails && IsAntPath(trails, path, firstDraw) && InRange(path, size)
        invariant currentCity == path[i - 1] && 0 <= currentCity < size
        invariant visited[..] == Flags(path, size)
        invariant totalDistance == distanceMatrix.RouteCost(path)
      {
        AntPathLeavesUnvisited(trails, path, firstDraw);
        var nextCity := VisitChosen(trails, visited, route, i, currentCity, path);
        AntAdvance(trails, path, firstDraw, nextCity);
        totalDistance := totalDistance + distanceMatrix.GetDistance(currentCity, nextCity) as int;
        currentCity := nextCity;
        path := path + [nextCity];
      }
    }

    /** `constructSingleAntSolution`: one ant's closed tour and its `int`
        cost; with no cities, `visited[0] = true` throws. */
    method ConstructSingleAntSolution() returns (outcome: Outcome<Result>, ghost path: seq<int>)
      requires Valid()
      modifies this
      ensures outcome.IndexOutOfBounds? <==> distanceMatrix.size == 0
      ensures outcome.IndexOutOfBounds? ==> draws == old(draws)
      ensures outcome.Done? ==>
        IsAntSolution(old(Trails()), old(draws), outcome.value) && outcome.value.route == path + [0] &&
        draws == old(draws) + AntDraws()
    {
      ghost var trails := Trails();
      var size := distanceMatrix.GetSize();
      var visited := new bool[size](_ => false);
      var route := new int[size + 1];
      route[0] := 0;
      if size == 0 {
        // `visited[0] = true` on an empty array
        return IndexOutOfBounds, [];
      }
      visited[0] := true;
      var currentCity, totalDistance;
      currentCity, totalDistance, path := AntWalk(trails, visited, route);
      AntPathCloses(trails, path, old(draws));
      var result := CloseTour(distanceMatrix, route, path, currentCity, totalDistance);
      outcome := Done(result);
    }

    /** `constructAntSolutions`: one result per ant, in order, each ant
        drawing its values right after the ant before it. */
    method ConstructAntSolutions() returns (outcome: Outcome<seq<Result>>)
      requires Valid()
      modifies this
      ensures outcome.IndexOutOfBounds? <==> distanceMatrix.size == 0 && numAnts >= 1
      ensures outcome.Done? ==>
        IsRound(old(Trails()), old(draws), outcome.value) && draws == old(draws) + RoundDraws()
    {
      ghost var trails := Trails();
      var solutions: seq<Result> := [];
      var ant := 0;
      while ant < numAnts
        invariant 0 <= ant == |solutions| <= Count(numAnts)
        invariant ant > 0 ==> distanceMatrix.size >= 1
        invariant Trails() == trails && draws == old(draws) + Examined(ant, AntDraws())
        invariant AntsFrom(trails, old(draws), solutions)
        decreases numAnts - ant
      {
        ghost var start := draws;
        var single, path := ConstructSingleAntSolution();
        if single.IndexOutOfBounds? {
          return IndexOutOfBounds;
        }
        RoundGrows(trails, old(draws), solutions, start, single.value);
        solutions := solutions + [single.value];
        ant := ant + 1;
      }
      outcome := Done(solutions);
    }

    /** The evaporation loops of `updatePheromones`: every entry times
        `1 - evaporationRate`. */
    method Evaporate()
      requires Shaped()
      modifies pheromones
      ensures forall i, j :: 0 <= i < pheromones.Length0 && 0 <= j < pheromones.Length1 ==>
        pheromones[i, j] == old(pheromones[i, j]) * (1.0 - evaporationRate)
    {
      for i := 0 to pheromones.Length0
        invariant forall r, c :: 0 <= r < pheromones.Length0 && 0 <= c < pheromones.Length1 ==>
          pheromones[r, c] == if r < i then old(pheromones[r, c]) * (1.0 - evaporationRate) else old(pheromones[r, c])
      {
        for j := 0 to pheromones.Length1
          invariant forall r, c :: 0 <= r < pheromones.Length0 && 0 <= c < pheromones.Length1 ==>
            pheromones[r, c] == if r < i || (r == i && c < j) then old(pheromones[r, c]) * (1.0 - evaporationRate)
                                else old(pheromones[r, c])
        {
          pheromones[i, j] := pheromones[i, j] * (1.0 - evaporationRate);
        }
      }
    }

    /** The two writes for the edge `a -> b`. */
    method DepositEdge(a: int, b: int, pheromoneDeposit: real)
      requires Shaped() && 0 <= a < distanceMatrix.size && 0 <= b < distanceMatrix.size
      modifies pheromones
      ensures forall i, j :: 0 <= i < pheromones.Length0 && 0 <= j < pheromones.Length1 ==>
        pheromones[i, j] == old(pheromones[i, j]) + EdgeShare(a, b, pheromoneDeposit, i, j)
    {
      pheromones[a, b] := pheromones[a, b] + pheromoneDeposit;
      pheromones[b, a] := pheromones[b, a] + pheromoneDeposit;
    }

    /** The inner deposit loop for one solution's route. */
    method DepositRoute(route: seq<int>, pheromoneDeposit: real)
      requires Shaped() && InRange(route, distanceMatrix.size)
      modifies pheromones
      ensures forall i, j :: 0 <= i < pheromones.Length0 && 0 <= j < pheromones.Length1 ==>
        pheromones[i, j] == old(pheromones[i, j]) + RouteDeposit(route, EdgeCount(route), pheromoneDeposit, i, j)
    {
      var k := 0;
      while k < |route| - 1
        invariant 0 <= k <= EdgeCount(route)
        invariant forall i, j :: 0 <= i < pheromones.Length0 && 0 <= j < pheromones.Length1 ==>
          pheromones[i, j] == old(pheromones[i, j]) + RouteDeposit(route, k, pheromoneDeposit, i, j)
      {
        DepositEdge(route[k], route[k + 1], pheromoneDeposit);
        k := k + 1;
      }
    }

    /** The deposit loop of `updatePheromones`: every solution in order adds
        its deposit along its route. */
    method DepositAll(solutions: seq<Result>)
      requires Shaped()
      requires forall s :: s in solutions ==> InRange(s.route, distanceMatrix.size)
      modifies pheromones
      ensures forall i, j :: 0 <= i < pheromones.Length0 && 0 <= j < pheromones.Length1 ==>
        pheromones[i, j] == old(pheromones[i, j]) + TotalDeposit(solutions, i, j)
    {
      for s := 0 to |solutions|
        invariant forall i, j :: 0 <= i < pheromones.Length0 && 0 <= j < pheromones.Length1 ==>
          pheromones[i, j] == old(pheromones[i, j]) + TotalDeposit(solutions[..s], i, j)
      {
        var solution := solutions[s];
        assert solutions[..s + 1][..s] == solutions[..s];
        DepositRoute(solution.route, Deposit(solution.totalDistance));
      }
      assert solutions[..|solutions|] == solutions;
    }

    /** `updatePheromones`: evaporate, then let every solution deposit
        `1.0 / totalDistance` on both directions of each of its edges. */
    method UpdatePheromones(solutions: seq<Result>)
      requires Valid()
      requires forall s :: s in solutions ==> InRange(s.route, distanceMatrix.size)
      modifies pheromones
      ensures Valid()
      ensures forall i, j :: 0 <= i < distanceMatrix.size && 0 <= j < distanceMatrix.size ==>
        pheromones[i, j] == old(pheromones[i, j]) * (1.0 - evaporationRate) + TotalDeposit(solutions, i, j)
      ensures Trails() == Updated(old(Trails()), solutions)
    {
      ghost var before := Trails();
      Evaporate();
      DepositAll(solutions);
      forall i, j | 0 <= i < distanceMatrix.size && 0 <= j < distanceMatrix.size
        ensures pheromones[i, j] == pheromones[j, i]
      {
        TotalDepositSymmetric(solutions, i, j);
      }
      TrailsUpdated(before, solutions);
    }

    /** A matrix holding, entry by entry, the update of `before` holds
        `Updated(before, solutions)`. */
    lemma TrailsUpdated(before: seq<seq<real>>, solutions: seq<Result>)
      requires Shaped() && IsSquare(before)
      requires forall i, j :: 0 <= i < distanceMatrix.size && 0 <= j < distanceMatrix.size ==>
        pheromones[i, j] == before[i][j] * (1.0 - evaporationRate) + TotalDeposit(solutions, i, j)
      ensures Trails() == Updated(before, solutions)
    {
      MatrixExtensional(Trails(), Updated(before, solutions), distanceMatrix.size);
    }

    /** The trails `rounds` leave behind when their pheromone updates are
        applied to `start` one round after the other. */
    function TrailsAfter(start: seq<seq<real>>, rounds: seq<seq<Result>>): (trails: seq<seq<real>>)
      requires IsSquare(start)
      ensures IsSquare(trails)
    {
      if rounds == [] then start
      else Updated(TrailsAfter(start, rounds[..|rounds| - 1]), rounds[|rounds| - 1])
    }

    /** Positive trails stay positive after any number of rounds whose
        solutions all have non-negative totals. */
    lemma {:induction false} TrailsAfterStaysPositive(start: seq<seq<real>>, rounds: seq<seq<Result>>)
      requires IsSquare(start)
      requires forall i, j :: 0 <= i < distanceMatrix.size && 0 <= j < distanceMatrix.size ==> start[i][j] > 0.0
      requires forall s :: s in Concat(rounds) ==> s.totalDistance >= 0
      ensures forall i, j :: 0 <= i < distanceMatrix.size && 0 <= j < distanceMatrix.size ==>
        TrailsAfter(start, rounds)[i][j] > 0.0
    {
      if rounds != [] {
        var n := |rounds|;
        var earlier, last := rounds[..n - 1], rounds[n - 1];
        assert Concat(rounds) == Concat(earlier) + last;
        TrailsAfterStaysPositive(start, earlier);
        UpdatedStaysPositive(TrailsAfter(start, earlier), last);
      }
    }

    /** The non-negative totals above are needed: two cities at distance
        `Integer.MAX_VALUE` each way give the tour `[0, 1, 0]` the `int`
        total -2, and one such solution turns the trail `[0][1]` from 1.0
        into 0.5 - 1.0 = -0.5. */
    lemma NegativeTotalTurnsTrailNegative()
      requires distanceMatrix == DistanceMatrix([[0, INT_MAX as int32], [INT_MAX as int32, 0]], 2)
      ensures distanceMatrix.IntRouteCost([0, 1, 0]) == -2
      ensures Updated([[1.0, 1.0], [1.0, 1.0]], [Result([0, 1, 0], -2)])[0][1] == -0.5
    {
      var route := [0, 1, 0];
      assert distanceMatrix.GetDistance(0, 1) as int == INT_MAX && distanceMatrix.GetDistance(1, 0) as int == INT_MAX;
      distanceMatrix.RouteCostExtend([0], 1);
      distanceMatrix.RouteCostExtend([0, 1], 0);
      assert [0] + [1] == [0, 1] && [0, 1] + [0] == route;
      assert distanceMatrix.RouteCost(route) == 2 * INT_MAX;
      assert Wrap(2 * INT_MAX) == Wrap(2 * INT_MAX - 0x1_0000_0000);
    }

    /** `rounds` are rounds of ants run one after the other on the trails
        `start`, from the draw `firstDraw` on: round `r` walks over the trails
        the `r` rounds before it left, drawing right after them. */
    predicate RoundsFrom(start: seq<seq<real>>, firstDraw: nat, rounds: seq<seq<Result>>)
      requires distanceMatrix.Valid() && ProbabilitiesFit() && IsSquare(start)
    {
      rounds == [] ||
      (var n := |rounds|;
       RoundsFrom(start, firstDraw, rounds[..n - 1]) &&
       IsRound(TrailsAfter(start, rounds[..n - 1]), firstDraw + Examined(n - 1, RoundDraws()), rounds[n - 1]))
    }

    /** One more round, run on the trails the rounds before it left and
        drawing right after them, extends the rounds. */
    lemma RoundsGrow(start: seq<seq<real>>, firstDraw: nat, rounds: seq<seq<Result>>, next: nat, round: seq<Result>)
      requires distanceMatrix.Valid() && ProbabilitiesFit() && IsSquare(start)
      requires RoundsFrom(start, firstDraw, rounds) && next == firstDraw + Examined(|rounds|, RoundDraws())
      requires IsRound(TrailsAfter(start, rounds), next, round)
      ensures RoundsFrom(start, firstDraw, rounds + [round])
      ensures TrailsAfter(start, rounds + [round]) == Updated(TrailsAfter(start, rounds), round)
    {
      assert (rounds + [round])[..|rounds|] == rounds;
    }

    /** Round `r` draws its values right after the `r` rounds before it, over
        the trails they left. */
    lemma {:induction false} RoundsFromEach(start: seq<seq<real>>, firstDraw: nat, rounds: seq<seq<Result>>, r: nat)
      requires distanceMatrix.Valid() && ProbabilitiesFit() && IsSquare(start)
      requires RoundsFrom(start, firstDraw, rounds) && r < |rounds|
      ensures IsRound(TrailsAfter(start, rounds[..r]), firstDraw + Examined(r, RoundDraws()), rounds[r])
    {
      var n := |rounds|;
      var earlier := rounds[..n - 1];
      if r < n - 1 {
        RoundsFromEach(start, firstDraw, earlier, r);
        assert earlier[..r] == rounds[..r] && earlier[r] == rounds[r];
      } else {
        assert rounds[..r] == earlier;
      }
    }

    /** One pass of the loop in `solve`: a round of ants over the current
        trails, then the pheromone update with their solutions. After the
        rounds `rounds` run on `start`, the new round extends them. */
    method RunRound(ghost start: seq<seq<real>>, ghost firstDraw: nat, ghost rounds: seq<seq<Result>>)
      returns (outcome: Outcome<seq<Result>>)
      requires Valid() && IsSquare(start) && RoundsFrom(start, firstDraw, rounds)
      requires Trails() == TrailsAfter(start, rounds) && draws == firstDraw + Examined(|rounds|, RoundDraws())
      modifies this, pheromones
      ensures Valid()
      ensures outcome.IndexOutOfBounds? <==> distanceMatrix.size == 0 && numAnts >= 1
      ensures outcome.Done? ==>
        |outcome.value| == Count(numAnts) && RoundsFrom(start, firstDraw, rounds + [outcome.value]) &&
        Trails() == TrailsAfter(start, rounds + [outcome.value]) &&
        draws == firstDraw + Examined(|rounds| + 1, RoundDraws())
    {
      ghost var trails := Trails();
      outcome := ConstructAntSolutions();
      if outcome.Done? {
        AntsAreResults(trails, old(draws), outcome.value);
        UpdatePheromones(outcome.value);
        RoundsGrow(start, firstDraw, rounds, old(draws), outcome.value);
      }
    }

    /** Every solution of every round is a tour with its `int` sum. */
    lemma {:induction false} RoundsAreResults(start: seq<seq<real>>, firstDraw: nat, rounds: seq<seq<Result>>)
      requires distanceMatrix.Valid() && ProbabilitiesFit() && IsSquare(start)
      requires RoundsFrom(start, firstDraw, rounds)
      ensures forall r :: r in Concat(rounds) ==> IsAntResult(distanceMatrix, r)
    {
      if rounds != [] {
        var n := |rounds|;
        var earlier, last := rounds[..n - 1], rounds[n - 1];
        RoundsAreResults(start, firstDraw, earlier);
        AntsAreResults(TrailsAfter(start, earlier), firstDraw + Examined(n - 1, RoundDraws()), last);
        assert Concat(rounds) == Concat(earlier) + last;
      }
    }

    /** `solve`: `numIterations` rounds of `numAnts` ants each, updating the
        pheromones after every round and keeping the best result seen.
        `rounds[r]` holds the solutions of round `r`. */
    method Solve() returns (outcome: Outcome<Option<Result>>, ghost candidates: seq<Result>, ghost rounds: seq<seq<Result>>)
      requires Valid()
      modifies this, pheromones
      ensures Valid()
      ensures outcome.IndexOutOfBounds? <==> distanceMatrix.size == 0 && numAnts >= 1 && numIterations >= 1
      ensures outcome.Done? ==>
        |rounds| == Count(numIterations) && RoundsFrom(old(Trails()), old(draws), rounds) &&
        Trails() == TrailsAfter(old(Trails()), rounds) &&
        draws == old(draws) + Count(numIterations) * RoundDraws()
      ensures outcome.Done? ==>
        candidates == Concat(rounds) && |candidates| == Count(numIterations) * Count(numAnts) &&
        (forall r :: r in candidates ==> IsAntResult(distanceMatrix, r)) &&
        outcome.value == BestOf(candidates)
    {
      ghost var start := Trails();
      var bestResult: Option<Result> := None;
      candidates := [];
      rounds := [];
      var iteration := 0;
      while iteration < numIterations
        invariant Valid()
        invariant 0 <= iteration <= Count(numIterations) && |rounds| == iteration
        invariant RoundsFrom(start, old(draws), rounds) && Trails() == TrailsAfter(start, rounds)
        invariant draws == old(draws) + Examined(iteration, RoundDraws())
        invariant candidates == Concat(rounds) && |candidates| == Examined(iteration, Count(numAnts))
        invariant iteration > 0 ==> !(distanceMatrix.size == 0 && numAnts >= 1)
        invariant bestResult == BestOf(candidates)
        decreases numIterations - iteration
      {
        var antSolutions := RunRound(start, old(draws), rounds);
        if antSolutions.IndexOutOfBounds? {
          return IndexOutOfBounds, candidates, rounds;
        }
        bestResult := KeepBest(bestResult, candidates, antSolutions.value);
        candidates := candidates + antSolutions.value;
        rounds := rounds + [antSolutions.value];
        iteration := iteration + 1;
      }
      ExaminedIsProduct(iteration, Count(numAnts));
      ExaminedIsProduct(iteration, RoundDraws());
      RoundsAreResults(start, old(draws), rounds);
      outcome := Done(bestResult);
    }
  }
}
