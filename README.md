# Travelling salesman: greedy and ant-colony tour builders

This project models `TravelingSalesmanProblem.java` in Dafny. The program
holds two heuristics for the travelling salesman problem over an integer
distance table.

- **Distances.** `DistanceMatrix` is the caller's `int[][]` with its declared
  size. `GetDistance` and `GetSize` are its two accessors.
- **Shared values.** `Result` (lines 230-246) holds a route and its `int`
  total. It is the datatype `Tours.Result`: its constructor is the datatype
  constructor and its getters are the destructors `route` and
  `totalDistance`.
- **Greedy builder.** `GreedyTSP` starts at city 0. At each step it moves to
  the nearest unvisited city, found by a linear scan with a strict `<`. It
  then returns to city 0 and sums the edge costs in a Java `int`.
- **Ant colony.** `AntColonyOptimization` keeps a `size × size` pheromone
  matrix, filled with 1.0 by the constructor.
  - In every round, `numAnts` ants each build a tour. Each next city is
    chosen by a roulette-wheel walk over per-city probabilities, using one
    random draw.
  - After the round, the pheromones evaporate by half. Each tour then
    deposits `1.0 / totalDistance` on both directions of each of its edges.
  - `solve` keeps the earliest result of minimum total: the kept result is
    replaced only when a later one is strictly cheaper.

## How the model is built

The code changes state step by step, and the model does the same. The
`visited` and `route` arrays stay `array`s. The pheromone matrix is an
`array2<real>` field of the `AntColonyOptimization` class. Every loop is a
`while` or `for` loop with invariants.

Each method is proved against a specification written as functions:

- `IsGreedyPath` and `IsAntPath` state what each step chose.
- `RouteCost` is the exact sum of a route's edges.
- `IsTour` is a closed Hamiltonian circuit from city 0.
- `IsSelection` describes the roulette-wheel walk and its fallback.
- `IsAntSolution` is what one ant hands back after walking over given
  trails from a given draw. `AntsFrom` and `IsRound` chain ants, each
  drawing right after the one before it.
- `Trails()` is the pheromone field, the `array2`, read as a value (a
  sequence of rows, `PheromoneRow` being one of them). `UpdatePheromones`,
  `RunRound` and `solve` state the new pheromones through it.
- `TotalDeposit` is what a round adds to one cell. `Updated` is the whole
  matrix after one round's update, and `TrailsAfter` after several rounds.
- `RoundsFrom` chains rounds, each over the trails the rounds before it
  left.
- `BestOf` is the best-keeping fold, and `Concat` lists the candidates
  round by round.

The split of the loops into helper methods (`Walk`, `VisitNearest`,
`AntWalk`, `VisitChosen`, `CloseTour`, `KeepBest`, `RunRound`,
`Evaporate`, `DepositAll`, `DepositRoute`, `DepositEdge`) follows the loop
structure of the Java methods. `RunRound` is one pass of `solve`'s loop
before the best-keeping scan. Ghost out-parameters (`path`, `rounds`,
`candidates`) name what the methods built, so that their contracts can
state it.

**`int` totals.** Java's `int` is the newtype `int32`. Each `+=` on
`totalDistance` wraps around in two's complement.

- The methods sum the edge costs exactly and wrap the sum once, with
  `Wrap`, when they build the `Result`.
- `IntRouteCost` is the Java result, a running `int` that wraps after every
  addition. Its contract proves that it ends at the same value.

**Exceptions.** The two exceptions the builders can hit are modelled as
results.

- `Outcome.IndexOutOfBounds` covers the `ArrayIndexOutOfBoundsException`.
  It happens on an empty table (`visited[0]`), or in the greedy builder when
  the scan returns -1 (`visited[-1]`).
- `Choice.IllegalState` is `chooseNextCity`'s `IllegalStateException`.

**Injected inputs.**

- `probabilitiesOf` stands for the weighting and normalisation of lines
  167-184. The model assumes only that it gives one value per city.
- `randomDraw` is the sequence of values `Math.random()` returns. The
  `draws` counter says how many have been used.

Pheromone values are `real` numbers.

**Positive trails.** The trails start at 1.0 and evaporation only halves
them, so they stay positive as long as no deposit is negative.
`TrailsAfterStaysPositive` proves this for any number of rounds whose
solutions have non-negative totals. The hypothesis is needed, because the
total is a wrapped `int`: with both distances between two cities equal to
`Integer.MAX_VALUE`, the tour `[0, 1, 0]` has the total -2, and one such
solution turns the trail from city 0 to city 1 from 1.0 into
0.5 - 1.0 = -0.5 (`NegativeTotalTurnsTrailNegative`). The model keeps this
behaviour of the code as written.

## Model

| member | source | states |
|---|---|---|
| JavaInt.Wrap | TTCSN_nhom1/src/tsp/TravelingSalesmanProblem.java:58 | the `int` value of an exact sum; a sum that fits in 32 bits is unchanged |
| JavaInt.WrapCongruent | TTCSN_nhom1/src/tsp/TravelingSalesmanProblem.java:58 | the wrapped value differs from the exact sum by a multiple of 2^32 |
| JavaInt.CongruentInt32Equal | TTCSN_nhom1/src/tsp/TravelingSalesmanProblem.java:58 | two `int` values that agree modulo 2^32 are equal, so the wrapped value is the unique two's-complement result |
| JavaInt.WrapAdd | TTCSN_nhom1/src/tsp/TravelingSalesmanProblem.java:58-64 | adding to an already wrapped total and wrapping again equals wrapping the exact sum |
| Distances.DistanceMatrix.GetSize | TTCSN_nhom1/src/tsp/TravelingSalesmanProblem.java:26-28 | the declared size, which for a well-formed table is its number of rows |
| Distances.DistanceMatrix.EdgeCost | TTCSN_nhom1/src/tsp/TravelingSalesmanProblem.java:22-24 | the cost of the two-city route `[from, to]` is the entry `getDistance(from, to)` reads |
| Distances.DistanceMatrix.IntRouteCost | TTCSN_nhom1/src/tsp/TravelingSalesmanProblem.java:54-64 | an `int` total updated by `+=` edge by edge ends at the exact edge sum wrapped once |
| Distances.DistanceMatrix.RouteCostExtend | TTCSN_nhom1/src/tsp/TravelingSalesmanProblem.java:58 | one more city adds exactly the cost of the new edge, and the route stays within the cities |
| Tours.FlagsExtend | TTCSN_nhom1/src/tsp/TravelingSalesmanProblem.java:56 | setting `visited[city]` gives exactly the flags of the path extended by `city` |
| Tours.Pigeonhole | TTCSN_nhom1/src/tsp/TravelingSalesmanProblem.java:54-57 | fewer than `n` distinct cities leave some city unvisited; exactly `n` of them visit every city |
| Tours.CloseTour | TTCSN_nhom1/src/tsp/TravelingSalesmanProblem.java:63-66 | writing `route[size] = 0` and adding the edge back to city 0 gives the closed route and the `int` value of its edge sum |
| Greedy.FindNearestUnvisitedCity | TTCSN_nhom1/src/tsp/TravelingSalesmanProblem.java:69-84 | returns -1 exactly when every unvisited city is at `Integer.MAX_VALUE`; otherwise returns an unvisited city at minimum distance that is strictly nearer than every unvisited city of lower index |
| Greedy.NearestUnique | TTCSN_nhom1/src/tsp/TravelingSalesmanProblem.java:69-84 | the scan is deterministic: at most one city is the nearest unvisited city |
| Greedy.GreedyPathUnique | TTCSN_nhom1/src/tsp/TravelingSalesmanProblem.java:43-84 | there is only one nearest-neighbour path of each length, so the greedy builder is deterministic |
| Greedy.GreedyPathIsSimple | TTCSN_nhom1/src/tsp/TravelingSalesmanProblem.java:50-57 | a nearest-neighbour path starts at city 0, has at most `size` cities, all in range and none repeated |
| Greedy.GreedyPathExtend | TTCSN_nhom1/src/tsp/TravelingSalesmanProblem.java:55-57 | moving to the nearest unvisited city extends a nearest-neighbour path |
| Greedy.Advance | TTCSN_nhom1/src/tsp/TravelingSalesmanProblem.java:55-59 | one step keeps the path a nearest-neighbour path, updates the flags by one city and adds one edge to the cost |
| Greedy.GreedyPathCloses | TTCSN_nhom1/src/tsp/TravelingSalesmanProblem.java:63 | a nearest-neighbour path through all cities, closed at city 0, is a Hamiltonian circuit |
| Greedy.StuckOnlyAtMaxValue | TTCSN_nhom1/src/tsp/TravelingSalesmanProblem.java:55-56 | the scan can find nothing before the tour is complete only if some distance is `Integer.MAX_VALUE` |
| Greedy.VisitNearest | TTCSN_nhom1/src/tsp/TravelingSalesmanProblem.java:55-57 | either reports that no city is reachable, or marks the nearest city visited and records it as the next stop |
| Greedy.Walk | TTCSN_nhom1/src/tsp/TravelingSalesmanProblem.java:54-60 | the loop builds a nearest-neighbour path of all `size` cities whose exact cost is the running total, or stops where no unvisited city is reachable |
| Greedy.Solve | TTCSN_nhom1/src/tsp/TravelingSalesmanProblem.java:43-67 | the route has `size + 1` entries, starts and ends at 0, visits every city once and is the nearest-neighbour path; the total is the `int` value of its edge sum; the `ArrayIndexOutOfBoundsException` happens only for an empty table or an unreachable city, and never when every distance is below `Integer.MAX_VALUE` |
| AntSelection.SelectCity | TTCSN_nhom1/src/tsp/TravelingSalesmanProblem.java:186-205 | returns the first unvisited city at which the running sum reaches the draw; if none, the lowest-index unvisited city; throws exactly when every city is visited; never returns a visited city |
| AntSelection.SelectionUnique | TTCSN_nhom1/src/tsp/TravelingSalesmanProblem.java:189-205 | the walk, fallback and exception together determine exactly one answer |
| AntSelection.CumulativeMonotone | TTCSN_nhom1/src/tsp/TravelingSalesmanProblem.java:188-191 | with non-negative probabilities the running sum never decreases |
| AntSelection.ReachedBelow | TTCSN_nhom1/src/tsp/TravelingSalesmanProblem.java:189-196 | if the draw is at most the running sum after some unvisited city, the walk stops at or before it |
| AntSelection.FallbackOnlyPastTotal | TTCSN_nhom1/src/tsp/TravelingSalesmanProblem.java:198-203 | with non-negative probabilities, the fallback is used exactly when every city is visited or the draw exceeds the total probability of the unvisited cities |
| Pheromones.Deposit | TTCSN_nhom1/src/tsp/TravelingSalesmanProblem.java:219 | the deposit is the reciprocal of a non-zero total, and positive for a positive total |
| Pheromones.RouteDepositSymmetric | TTCSN_nhom1/src/tsp/TravelingSalesmanProblem.java:221-224 | a route deposits the same amount on `[i][j]` as on `[j][i]` |
| Pheromones.TotalDepositSymmetric | TTCSN_nhom1/src/tsp/TravelingSalesmanProblem.java:217-225 | a whole round deposits the same amount on `[i][j]` as on `[j][i]` |
| Pheromones.RouteDepositNonNegative | TTCSN_nhom1/src/tsp/TravelingSalesmanProblem.java:221-224 | a non-negative deposit never lowers a cell |
| Pheromones.TotalDepositNonNegative | TTCSN_nhom1/src/tsp/TravelingSalesmanProblem.java:217-225 | routes with non-negative totals never take pheromone away |
| AntColony.ExaminedIsProduct | TTCSN_nhom1/src/tsp/TravelingSalesmanProblem.java:115-135 | `numIterations` rounds of `numAnts` ants examine their product of candidates |
| AntColony.EarliestMinimumExtend | TTCSN_nhom1/src/tsp/TravelingSalesmanProblem.java:121-122 | a later candidate becomes the earliest minimum exactly when it is strictly cheaper |
| AntColony.BestOfFindsEarliestMinimum | TTCSN_nhom1/src/tsp/TravelingSalesmanProblem.java:112-128 | the kept result is `null` exactly when there are no candidates; otherwise it is an earliest candidate of minimum total |
| AntColony.EarliestMinimumUnique | TTCSN_nhom1/src/tsp/TravelingSalesmanProblem.java:120-124 | there is only one earliest minimum |
| AntColony.BestOfIsEarliestMinimum | TTCSN_nhom1/src/tsp/TravelingSalesmanProblem.java:112-128 | the kept result is the earliest minimum, whichever index it has |
| AntColony.BestOfExtend | TTCSN_nhom1/src/tsp/TravelingSalesmanProblem.java:121-122 | looking at one more candidate replaces the kept result exactly when it is `null` or the candidate is strictly cheaper |
| AntColony.KeepBest | TTCSN_nhom1/src/tsp/TravelingSalesmanProblem.java:120-124 | after one round's solutions, the kept result is the fold over every candidate seen so far |
| AntColony.AntColonyOptimization.constructor | TTCSN_nhom1/src/tsp/TravelingSalesmanProblem.java:97-110 | the parameters are stored, and the pheromone matrix is a new `size × size` matrix of 1.0, symmetric |
| AntColony.AntColonyOptimization.Probabilities | TTCSN_nhom1/src/tsp/TravelingSalesmanProblem.java:167-184 | one probability per city |
| AntColony.AntColonyOptimization.ChooseNextCity | TTCSN_nhom1/src/tsp/TravelingSalesmanProblem.java:166-206 | uses exactly one draw and makes the roulette-wheel selection over this city's probabilities; never returns a visited city; throws exactly when every city is visited |
| AntColony.AntColonyOptimization.AntPathIsSimple | TTCSN_nhom1/src/tsp/TravelingSalesmanProblem.java:147-157 | an ant's path starts at city 0, has at most `size` cities, all in range and none repeated |
| AntColony.AntColonyOptimization.AntPathLeavesUnvisited | TTCSN_nhom1/src/tsp/TravelingSalesmanProblem.java:151-152 | until the ant has visited every city some city is unvisited, so `chooseNextCity` never throws inside the loop |
| AntColony.AntColonyOptimization.AntAdvance | TTCSN_nhom1/src/tsp/TravelingSalesmanProblem.java:152-156 | moving to the selected city extends the ant's path and adds one edge to its cost |
| AntColony.AntColonyOptimization.AntPathCloses | TTCSN_nhom1/src/tsp/TravelingSalesmanProblem.java:160 | an ant path through all cities, closed at city 0, is a Hamiltonian circuit |
| AntColony.AntColonyOptimization.VisitChosen | TTCSN_nhom1/src/tsp/TravelingSalesmanProblem.java:152-154 | the next stop is the selection made with the next draw, recorded in `route` and marked in `visited` |
| AntColony.AntColonyOptimization.AntWalk | TTCSN_nhom1/src/tsp/TravelingSalesmanProblem.java:151-157 | the loop uses `size - 1` draws and builds an ant's path through all cities whose exact cost is the running total |
| AntColony.AntColonyOptimization.ConstructSingleAntSolution | TTCSN_nhom1/src/tsp/TravelingSalesmanProblem.java:140-164 | for any probabilities and draws, the result is the ant's walk over the current trails from the current draw: a closed Hamiltonian circuit from city 0 whose first `size` stops are the ant's path and whose total is the `int` value of its edge sum; it uses `size - 1` draws; the only exception is the empty table |
| AntColony.AntColonyOptimization.RoundGrows | TTCSN_nhom1/src/tsp/TravelingSalesmanProblem.java:133-135 | adding the result of an ant that draws right after the ants before it extends the run of ants |
| AntColony.AntColonyOptimization.AntsFromEach | TTCSN_nhom1/src/tsp/TravelingSalesmanProblem.java:130-138 | ant `k` of a round walks over the same trails and draws its values right after the `k` ants before it, `size - 1` each |
| AntColony.AntColonyOptimization.AntsAreResults | TTCSN_nhom1/src/tsp/TravelingSalesmanProblem.java:140-164 | every ant's result is a tour with its `int` edge sum |
| AntColony.AntColonyOptimization.ConstructAntSolutions | TTCSN_nhom1/src/tsp/TravelingSalesmanProblem.java:130-138 | exactly `numAnts` results (none for a non-positive count), result `k` being the walk of ant `k` over the unchanged trails, drawing right after the ants before it; `draws` grows by `numAnts × (size - 1)`; throws exactly when an ant runs on an empty table |
| AntColony.AntColonyOptimization.Evaporate | TTCSN_nhom1/src/tsp/TravelingSalesmanProblem.java:210-214 | every entry is multiplied by `1 - evaporationRate` |
| AntColony.AntColonyOptimization.DepositEdge | TTCSN_nhom1/src/tsp/TravelingSalesmanProblem.java:222-223 | the deposit is added to `[a][b]` and to `[b][a]`, and nothing else changes |
| AntColony.AntColonyOptimization.DepositRoute | TTCSN_nhom1/src/tsp/TravelingSalesmanProblem.java:221-224 | every cell grows by what the route's edges deposit on it |
| AntColony.AntColonyOptimization.DepositAll | TTCSN_nhom1/src/tsp/TravelingSalesmanProblem.java:217-225 | every cell grows by what all the solutions' routes deposit on it |
| AntColony.AntColonyOptimization.UpdatePheromones | TTCSN_nhom1/src/tsp/TravelingSalesmanProblem.java:208-226 | every cell becomes its evaporated value plus the round's deposit on it, so the trails become `Updated(old trails, solutions)`; the matrix stays symmetric |
| AntColony.AntColonyOptimization.UpdatedStaysPositive | TTCSN_nhom1/src/tsp/TravelingSalesmanProblem.java:208-226 | positive trails stay positive through an update by solutions with non-negative totals |
| AntColony.AntColonyOptimization.NegativeTotalTurnsTrailNegative | TTCSN_nhom1/src/tsp/TravelingSalesmanProblem.java:219-223 | with both distances between two cities equal to `Integer.MAX_VALUE`, the `int` total of the tour `[0, 1, 0]` (summed as in lines 155-161) wraps to -2, and one update with that solution makes the trail `[0][1]` negative (-0.5) |
| AntColony.AntColonyOptimization.TrailsUpdated | TTCSN_nhom1/src/tsp/TravelingSalesmanProblem.java:208-226 | a matrix that holds the update of the old trails entry by entry equals `Updated` of them |
| AntColony.AntColonyOptimization.RunRound | TTCSN_nhom1/src/tsp/TravelingSalesmanProblem.java:115-117 | one pass of the loop: a round of `numAnts` ants over the current trails, drawing right after the earlier rounds, then the pheromone update with their solutions |
| AntColony.AntColonyOptimization.RoundsGrow | TTCSN_nhom1/src/tsp/TravelingSalesmanProblem.java:115-117 | a round run on the trails the earlier rounds left, drawing right after them, extends the rounds, and its update gives the next trails |
| AntColony.AntColonyOptimization.RoundsFromEach | TTCSN_nhom1/src/tsp/TravelingSalesmanProblem.java:115-125 | round `r` walks over the trails the `r` rounds before it left and draws right after them |
| AntColony.AntColonyOptimization.TrailsAfterStaysPositive | TTCSN_nhom1/src/tsp/TravelingSalesmanProblem.java:115-117 | positive trails stay positive after any number of rounds of updates, as long as every solution of every round has a non-negative total |
| AntColony.AntColonyOptimization.RoundsAreResults | TTCSN_nhom1/src/tsp/TravelingSalesmanProblem.java:115-125 | every solution of every round is a tour with its `int` edge sum |
| AntColony.AntColonyOptimization.Solve | TTCSN_nhom1/src/tsp/TravelingSalesmanProblem.java:112-128 | runs `numIterations` rounds one after the other, round `r` walking over the trails the updates of the rounds before it left; the final trails are all those updates applied in order; `draws` grows by `numIterations × numAnts × (size - 1)`; looks at the `numIterations × numAnts` candidates round by round, all tours with their `int` edge sums, and returns the result of the best-keeping fold over them (`null` when there are none); the pheromones stay symmetric; throws exactly when an ant runs on an empty table |

## Left out

- `printMatrix` and `printRoute` (lines 31-38 and 248-256) are console output and are not modelled.
- `Math.random()` is not modelled. The draws are the injected sequence `randomDraw`, and `draws` counts how many were used.
- The `Math.pow` weighting and the normalisation (lines 167-184) are not modelled. They are the injected function `probabilitiesOf`, which is only assumed to give one value per city.
- Because of this, the model does not capture that the probabilities sum to 1. `FallbackOnlyPastTotal` states when the fallback scan is reached for any non-negative probabilities.
- `double` arithmetic on the pheromones (rounding, underflow, NaN, `Infinity`) is modelled with exact `real` numbers.
- SelectCity: the running sum `cumulativeProbability` is an exact `real`, not a rounded `double`, so the model and Java can pick different cities. For example, with probabilities 0.1, 0.2 and 0.7 and the draw 0.30000000000000004, Java's sum after the second city rounds to 0.30000000000000004, which reaches the draw, so Java picks city 1; the exact sum 0.3 is below the draw, so the model picks city 2. A rounded total that ends below the draw is also why Java needs its fallback scan; over exact reals `FallbackOnlyPastTotal` shows that the scan is reached only past the total.
- Deposit (Pheromones.Deposit): for a total of 0, Java's `1.0 / 0` is `Infinity`. The model deposits 0.0 in that case.
- The distance table is assumed to have `size` rows of `size` entries (`DistanceMatrix.Valid`). The program never checks this. For a shorter table, `getDistance` would throw.
- A negative `size` (Java's `NegativeArraySizeException`) is excluded by the type `nat`.
- `alpha` and `beta` are not stored as fields. Their only use is inside the injected weighting.
- `Result` holds its route array by reference in Java and by value in the model. No array is written after it is returned, so this makes no observable difference.
- The input to the selection walk is a sequence of probabilities (`SelectCity`), not a freshly allocated array.
