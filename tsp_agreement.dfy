/** The two travelling-salesman solvers of the catalogue side by side: the depth-first
    search of `ExponentialTime`, which grows round trips from city 0 along positive entries
    only, and the brute force of `FactorialTime`, which prices every ordering of the cities.
    Where every two different cities are joined by a positive distance, their contracts
    leave room for one answer only. */
module TspAgreement {
  import opened Seqs
  import opened Tours
  import Java

  /** Every two different cities are joined by a road. */
  predicate AllRoads(graph: seq<seq<int>>) {
    forall u, v :: 0 <= u < |graph| && 0 <= v < |graph| && u != v ==> Road(graph, u, v)
  }

  /** With roads between all different cities, an ordering of all of them, started at the
      position that holds city 0, is a round trip from city 0 of the same cost. */
  lemma TourFromArrangement(graph: seq<seq<int>>, q: seq<int>) returns (t: seq<int>)
    requires |graph| >= 2 && Complete(graph) && AllRoads(graph) && IsArrangement(q, |graph|)
    ensures IsTour(graph, t) && q != [] && Walk(graph, q + [q[0]])
    ensures TourCost(graph, t) == TourCost(graph, q)
  {
    var n := |graph|;
    ArrangementWalks(graph, q);
    assert 0 in multiset(Range(n)) by {
      assert Range(n)[0] == 0;
    }
    assert 0 in multiset(q);
    var k :| 0 <= k < |q| && q[k] == 0;
    RotateTour(graph, q, k);
    RotateCities(q, k);
    t := Rotate(q, k);
    ArrangementIsDistinctInRange(t, n);
    var w := t + [t[0]];
    forall i | 0 < i < |w| ensures Road(graph, w[i - 1], w[i]) {
      if i < |t| {
        assert w[i - 1] == t[i - 1] && w[i] == t[i];
      } else {
        assert w[i - 1] == t[n - 1] && w[i] == t[0];
      }
    }
  }

  /** A minimum over round trips from city 0 and a minimum over all orderings, each
      starting from `Integer.MAX_VALUE`, are one and the same number: what
      `ExponentialTime.solveTSP` and `FactorialTime.solveTSP` promise determines the result. */
  lemma SolversAgree(graph: seq<seq<int>>, byTours: int, byOrderings: int)
    requires |graph| >= 2 && Complete(graph) && AllRoads(graph)
    requires forall t :: IsTour(graph, t) ==> byTours <= TourCost(graph, t)
    requires byTours == Java.IntMax || exists t :: IsTour(graph, t) && byTours == TourCost(graph, t)
    requires byTours <= Java.IntMax
    requires forall q :: IsArrangement(q, |graph|) ==> byOrderings <= ArrangementCost(graph, q)
    requires byOrderings == Java.IntMax || exists q :: IsArrangement(q, |graph|) && byOrderings == ArrangementCost(graph, q)
    requires byOrderings <= Java.IntMax
    ensures byTours == byOrderings
  {
    if byTours != Java.IntMax {
      var t :| IsTour(graph, t) && byTours == TourCost(graph, t);
      assert byOrderings <= ArrangementCost(graph, t);
    }
    if byOrderings != Java.IntMax {
      var q :| IsArrangement(q, |graph|) && byOrderings == ArrangementCost(graph, q);
      var t := TourFromArrangement(graph, q);
    }
  }
}
