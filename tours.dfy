/** Weighted directed graphs given as cost matrices, walks through them and the cost of
    a round trip: the vocabulary shared by the two travelling-salesman solvers. */
module Tours {
  import opened Seqs

  /** The matrix has an entry graph[u][v]. */
  predicate Edge(graph: seq<seq<int>>, u: int, v: int) {
    0 <= u < |graph| && 0 <= v < |graph[u]|
  }

  /** The entry graph[u][v] exists and is a road, a cost above zero. */
  predicate Road(graph: seq<seq<int>>, u: int, v: int) {
    Edge(graph, u, v) && graph[u][v] > 0
  }

  /** Every step of the walk p reads an entry of the matrix. */
  predicate Walk(graph: seq<seq<int>>, p: seq<int>) {
    forall k :: 0 < k < |p| ==> Edge(graph, p[k - 1], p[k])
  }

  /** Every step of the walk p follows a road. */
  predicate RoadWalk(graph: seq<seq<int>>, p: seq<int>) {
    forall k :: 0 < k < |p| ==> Road(graph, p[k - 1], p[k])
  }

  /** The matrix has an entry for every ordered pair of different cities, and for the
      city's own loop when there is a single city: exactly the entries that round trips
      through all the cities read. */
  predicate Complete(graph: seq<seq<int>>) {
    forall u, v :: 0 <= u < |graph| && 0 <= v < |graph| && (u != v || |graph| == 1) ==> Edge(graph, u, v)
  }

  /** The sum of the step costs along a walk. */
  function PathCost(graph: seq<seq<int>>, p: seq<int>): int
    requires Walk(graph, p)
    decreases |p|
  {
    if |p| <= 1 then 0
    else
      var k := |p| - 1;
      assert Edge(graph, p[k - 1], p[k]);
      PathCost(graph, p[..k]) + graph[p[k - 1]][p[k]]
  }

  /** The first m cities of a walk are a walk. */
  lemma WalkPrefix(graph: seq<seq<int>>, p: seq<int>, m: int)
    requires Walk(graph, p) && 0 <= m <= |p|
    ensures Walk(graph, p[..m])
  {
    var w := p[..m];
    forall k | 0 < k < m ensures Edge(graph, w[k - 1], w[k]) {
      assert w[k - 1] == p[k - 1] && w[k] == p[k];
    }
  }

  /** The cost of the round trip that visits the cities of p in order and returns to the first. */
  function TourCost(graph: seq<seq<int>>, p: seq<int>): int
    requires p != [] && Walk(graph, p + [p[0]])
  {
    PathCost(graph, p + [p[0]])
  }

  /** A round trip from city 0 through every city once, along roads only: a Hamiltonian
      cycle of the graph of positive entries, written from its start at city 0. */
  predicate IsTour(graph: seq<seq<int>>, t: seq<int>) {
    IsArrangement(t, |graph|) && t != [] && t[0] == 0 && RoadWalk(graph, t + [t[0]])
  }

  /** A walk with its first city dropped is still a walk. */
  lemma WalkTail(graph: seq<seq<int>>, x: int, p: seq<int>)
    requires p != [] && Walk(graph, [x] + p)
    ensures Edge(graph, x, p[0]) && Walk(graph, p)
  {
    var w := [x] + p;
    assert w[0] == x && w[1] == p[0];
    forall k | 0 < k < |p| ensures Edge(graph, p[k - 1], p[k]) {
      assert p[k - 1] == w[k] && p[k] == w[k + 1];
    }
  }

  /** The cost of a walk splits after its first step. */
  lemma {:induction false} PathCostCons(graph: seq<seq<int>>, x: int, p: seq<int>)
    requires p != [] && Walk(graph, [x] + p)
    ensures Edge(graph, x, p[0]) && Walk(graph, p)
    ensures PathCost(graph, [x] + p) == graph[x][p[0]] + PathCost(graph, p)
    decreases |p|
  {
    WalkTail(graph, x, p);
    var n := |p|;
    var w := [x] + p;
    if n > 1 {
      var init := p[..n - 1];
      assert w[..n] == [x] + init;
      assert w[n - 1] == p[n - 2] && w[n] == p[n - 1];
      PathCostCons(graph, x, init);
      var last := graph[p[n - 2]][p[n - 1]];
      assert PathCost(graph, w) == PathCost(graph, w[..n]) + last;
      assert PathCost(graph, p) == PathCost(graph, init) + last;
    } else {
      assert w == [x, p[0]] && w[..1] == [x];
    }
  }

  /** Every ordering of all the cities of a complete matrix is a round trip the matrix
      can price. */
  lemma ArrangementWalks(graph: seq<seq<int>>, q: seq<int>)
    requires Complete(graph) && IsArrangement(q, |graph|) && |graph| >= 1
    ensures q != [] && Walk(graph, q + [q[0]])
  {
    ArrangementIsDistinctInRange(q, |graph|);
    var w := q + [q[0]];
    forall k | 0 < k < |w| ensures Edge(graph, w[k - 1], w[k]) {
      if k < |q| {
        assert w[k - 1] == q[k - 1] && w[k] == q[k];
      } else {
        assert w[k - 1] == q[|q| - 1] && w[k] == q[0];
      }
      assert w[k - 1] != w[k] || |graph| == 1;
    }
  }

  /** The cost of the round trip through an ordering of all the cities of a complete matrix. */
  function ArrangementCost(graph: seq<seq<int>>, q: seq<int>): int
    requires Complete(graph) && |graph| >= 1 && IsArrangement(q, |graph|)
  {
    ArrangementWalks(graph, q);
    TourCost(graph, q)
  }

  /** q with its first k cities moved to the end: the same round trip, started elsewhere. */
  function Rotate(q: seq<int>, k: int): seq<int>
    requires 0 <= k <= |q|
  {
    q[k..] + q[..k]
  }

  /** Starting a round trip one city later changes neither what it reads nor its cost. */
  lemma RotateOnce(graph: seq<seq<int>>, q: seq<int>)
    requires |q| >= 1 && Walk(graph, q + [q[0]])
    ensures Rotate(q, 1) != [] && Walk(graph, Rotate(q, 1) + [Rotate(q, 1)[0]])
    ensures TourCost(graph, Rotate(q, 1)) == TourCost(graph, q)
  {
    var r := Rotate(q, 1);
    if |q| == 1 {
      assert r == q;
    } else {
      var w := q + [q[0]];
      var tail := q[1..] + [q[0]];
      assert w == [q[0]] + tail;
      PathCostCons(graph, q[0], tail);
      var v := r + [r[0]];
      assert r == tail && r[0] == q[1] && v[..|v| - 1] == tail;
      forall k | 0 < k < |v| ensures Edge(graph, v[k - 1], v[k]) {
        if k < |v| - 1 {
          assert v[k - 1] == w[k] && v[k] == w[k + 1];
        } else {
          assert v[k - 1] == w[0] && v[k] == w[1];
        }
      }
    }
  }

  /** Starting a round trip k cities later changes neither what it reads nor its cost. */
  lemma {:induction false} RotateTour(graph: seq<seq<int>>, q: seq<int>, k: int)
    requires 0 <= k < |q| && Walk(graph, q + [q[0]])
    ensures Rotate(q, k) != [] && Walk(graph, Rotate(q, k) + [Rotate(q, k)[0]])
    ensures TourCost(graph, Rotate(q, k)) == TourCost(graph, q)
    decreases k
  {
    if k > 0 {
      RotateTour(graph, q, k - 1);
      RotateOnce(graph, Rotate(q, k - 1));
      RotateAgain(q, k);
    } else {
      assert Rotate(q, 0) == q;
    }
  }

  lemma RotateAgain(q: seq<int>, k: int)
    requires 0 < k < |q|
    ensures Rotate(Rotate(q, k - 1), 1) == Rotate(q, k)
  {
    var r := Rotate(q, k - 1);
    assert r == [q[k - 1]] + q[k..] + q[..k - 1];
    assert q[..k] == q[..k - 1] + [q[k - 1]];
  }

  /** A rotation visits the same cities, and starts at the k-th. */
  lemma RotateCities(q: seq<int>, k: int)
    requires 0 <= k < |q|
    ensures multiset(Rotate(q, k)) == multiset(q) && Rotate(q, k)[0] == q[k]
  {
    assert q == q[..k] + q[k..];
  }
}
