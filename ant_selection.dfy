/** The roulette-wheel walk at the end of `chooseNextCity`: given the
    probability of every city and one random draw, pick the first unvisited
    city at which the running sum of probabilities reaches the draw, falling
    back to the lowest-index unvisited city. */
module AntSelection {

  /** What `chooseNextCity` ends with: a city, or the `IllegalStateException`
      it throws when no unvisited city is left. */
  datatype Choice = Next(city: int) | IllegalState

  /** The value of `cumulativeProbability` once the walk has passed cities
      `0..k-1`: the sum of the probabilities of the unvisited ones. */
  function Cumulative(visited: seq<bool>, p: seq<real>, k: nat): real
    requires |p| == |visited| && k <= |visited|
  {
    if k == 0 then 0.0
    else Cumulative(visited, p, k - 1) + (if visited[k - 1] then 0.0 else p[k - 1])
  }

  /** City `c` is unvisited and the running sum, once `c`'s probability is
      added, is at least the draw (`rand <= cumulativeProbability`). */
  predicate Reaches(visited: seq<bool>, p: seq<real>, rand: real, c: int)
    requires |p| == |visited| && 0 <= c < |visited|
  {
    !visited[c] && rand <= Cumulative(visited, p, c + 1)
  }

  predicate AllVisited(visited: seq<bool>) {
    forall j :: 0 <= j < |visited| ==> visited[j]
  }

  /** The choice the walk and its fallback make: the first city the running
      sum reaches; if there is none, the lowest-index unvisited city; if
      there is none either, `IllegalState`. */
  predicate IsSelection(visited: seq<bool>, p: seq<real>, rand: real, choice: Choice)
    requires |p| == |visited|
  {
    match choice
    case Next(c) =>
      0 <= c < |visited| && !visited[c] &&
      ((Reaches(visited, p, rand, c) && forall j :: 0 <= j < c ==> !Reaches(visited, p, rand, j)) ||
       ((forall j :: 0 <= j < |visited| ==> !Reaches(visited, p, rand, j)) &&
        forall j :: 0 <= j < c ==> visited[j]))
    case IllegalState => AllVisited(visited)
  }

  /** The selection at the end of `chooseNextCity`: the cumulative walk,
      then the fallback scan, then the exception. */
  method SelectCity(visited: array<bool>, probabilities: seq<real>, rand: real) returns (choice: Choice)
    requires |probabilities| == visited.Length
    ensures IsSelection(visited[..], probabilities, rand, choice)
    ensures choice.IllegalState? <==> AllVisited(visited[..])
    ensures choice.Next? ==> 0 <= choice.city < visited.Length && !visited[choice.city]
  {
    var cumulativeProbability := 0.0;
    for city := 0 to |probabilities|
      invariant cumulativeProbability == Cumulative(visited[..], probabilities, city)
      invariant forall j :: 0 <= j < city ==> !Reaches(visited[..], probabilities, rand, j)
    {
      if !visited[city] {
        cumulativeProbability := cumulativeProbability + probabilities[city];
        if rand <= cumulativeProbability {
          return Next(city);
        }
      }
    }

    for city := 0 to visited.Length
      invariant forall j :: 0 <= j < city ==> visited[j]
    {
      if !visited[city] {
        return Next(city);
      }
    }

    return IllegalState;
  }

  /** The walk, its fallback and the exception leave no room for a second
      answer: the selection is a function of its inputs. */
  lemma SelectionUnique(visited: seq<bool>, p: seq<real>, rand: real, a: Choice, b: Choice)
    requires |p| == |visited|
    requires IsSelection(visited, p, rand, a) && IsSelection(visited, p, rand, b)
    ensures a == b
  {
  }

  /** With non-negative probabilities the running sum never decreases. */
  lemma {:induction false} CumulativeMonotone(visited: seq<bool>, p: seq<real>, k: nat, m: nat)
    requires |p| == |visited| && k <= m <= |visited|
    requires forall j :: 0 <= j < |p| ==> p[j] >= 0.0
    ensures Cumulative(visited, p, k) <= Cumulative(visited, p, m)
    decreases m - k
  {
    if k < m {
      CumulativeMonotone(visited, p, k, m - 1);
    }
  }

  /** If some city below `m` is unvisited and the draw is at most the
      running sum after `m` cities, the walk stops at one of them. */
  lemma {:induction false} ReachedBelow(visited: seq<bool>, p: seq<real>, rand: real, m: nat)
    requires |p| == |visited| && m <= |visited|
    requires exists j :: 0 <= j < m && !visited[j]
    requires rand <= Cumulative(visited, p, m)
    ensures exists c :: 0 <= c < m && Reaches(visited, p, rand, c)
  {
    if visited[m - 1] {
      ReachedBelow(visited, p, rand, m - 1);
    } else {
      assert Reaches(visited, p, rand, m - 1);
    }
  }

  /** Over exact reals, with non-negative probabilities the fallback scan is
      used exactly when every city is visited or the draw exceeds the total
      probability of the unvisited cities; so for probabilities normalised
      to sum to 1 and a draw from `[0, 1)` it is never used. With `double`
      sums that round below the draw it can be. */
  lemma FallbackOnlyPastTotal(visited: seq<bool>, p: seq<real>, rand: real)
    requires |p| == |visited|
    requires forall j :: 0 <= j < |p| ==> p[j] >= 0.0
    ensures (forall c :: 0 <= c < |visited| ==> !Reaches(visited, p, rand, c))
            <==> (AllVisited(visited) || rand > Cumulative(visited, p, |visited|))
  {
    var n := |visited|;
    if exists c :: 0 <= c < n && Reaches(visited, p, rand, c) {
      var c :| 0 <= c < n && Reaches(visited, p, rand, c);
      CumulativeMonotone(visited, p, c + 1, n);
    }
    if !AllVisited(visited) && rand <= Cumulative(visited, p, n) {
      ReachedBelow(visited, p, rand, n);
    }
  }
}
