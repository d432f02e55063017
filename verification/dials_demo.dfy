/** The demonstration run of `dials.py` on its six-node graph, and a graph
    whose weight exceeds `max_weight` far enough to make the source fail. */
module DialsDemo {
  import opened Paths
  import opened BucketQueue
  import opened Dials
  import opened DialsCorrect

  /** The demonstration graph: an undirected weighted graph on the nodes
      `0..5`, each edge listed from both ends. */
  const DemoGraph: AdjList := [
    [(1, 2), (2, 4)],
    [(0, 2), (2, 1), (3, 7)],
    [(0, 4), (1, 1), (3, 3), (4, 1)],
    [(1, 7), (2, 3), (4, 2), (5, 5)],
    [(2, 1), (3, 2), (5, 1)],
    [(3, 5), (4, 1)]
  ]

  /** The shortest-path distances from node 0. */
  const DemoDist: seq<nat> := [0, 2, 3, 6, 4, 5]

  lemma DemoFeasible()
    ensures Feasible(Adj(DemoGraph, 6), Labels(DemoDist))
  {
    var adj: map<nat, seq<(nat, nat)>> := Adj(DemoGraph, 6);
    var L: map<nat, Dist> := Labels(DemoDist);
    forall u: nat, i: int | u in adj && 0 <= i < |adj[u]| && Get(L, u).Fin?
      ensures Le(Get(L, adj[u][i].0), Add(Get(L, u), adj[u][i].1))
    {
      assert u < 6 && adj[u] == DemoGraph[u];
      assert Get(L, u) == Fin(DemoDist[u]);
      assert adj[u][i].0 < 6 && Get(L, adj[u][i].0) == Fin(DemoDist[adj[u][i].0]);
    }
  }

  /** The walk 0-1-2-4 and its one-edge extensions to 3 and 5. */
  function DemoWalk(v: nat): seq<Edge<nat>>
  {
    var w4 := [Edge(0, 1, 2), Edge(1, 2, 1), Edge(2, 4, 1)];
    if v == 0 then [] else if v == 1 then w4[..1] else if v == 2 then w4[..2]
    else if v == 3 then w4 + [Edge(4, 3, 2)] else if v == 4 then w4 else w4 + [Edge(4, 5, 1)]
  }

  lemma DemoEdges()
    ensures var adj := Adj(DemoGraph, 6);
      && HasEdge(adj, Edge(0, 1, 2)) && HasEdge(adj, Edge(1, 2, 1)) && HasEdge(adj, Edge(2, 4, 1))
      && HasEdge(adj, Edge(4, 3, 2)) && HasEdge(adj, Edge(4, 5, 1))
  {
    var adj: map<nat, seq<(nat, nat)>> := Adj(DemoGraph, 6);
    assert adj[0][0] == (1, 2);
    assert adj[1][1] == (2, 1);
    assert adj[2][3] == (4, 1);
    assert adj[4][1] == (3, 2);
    assert adj[4][2] == (5, 1);
  }

  lemma DemoWalks()
    ensures forall v: nat :: v < 6 ==> IsWalk(Adj(DemoGraph, 6), 0, v, DemoWalk(v)) && Weight(DemoWalk(v)) == DemoDist[v]
  {
    var adj: map<nat, seq<(nat, nat)>> := Adj(DemoGraph, 6);
    var e01, e12, e24, e43, e45 := Edge(0, 1, 2), Edge(1, 2, 1), Edge(2, 4, 1), Edge(4, 3, 2), Edge(4, 5, 1);
    var w1, w2, w4 := [e01], [e01, e12], [e01, e12, e24];
    var w3, w5 := w4 + [e43], w4 + [e45];
    DemoEdges();
    assert IsWalk(adj, 0, 0, []) && Weight<nat>([]) == 0;
    assert IsWalk(adj, 0, 1, w1) && Weight(w1) == 2 by {
      WalkExtend(adj, 0, [], e01);
      assert [] + [e01] == w1;
    }
    assert IsWalk(adj, 0, 2, w2) && Weight(w2) == 3 by {
      WalkExtend(adj, 0, w1, e12);
      assert w1 + [e12] == w2;
    }
    assert IsWalk(adj, 0, 4, w4) && Weight(w4) == 4 by {
      WalkExtend(adj, 0, w2, e24);
      assert w2 + [e24] == w4;
    }
    assert IsWalk(adj, 0, 3, w3) && Weight(w3) == 6 by {
      WalkExtend(adj, 0, w4, e43);
    }
    assert IsWalk(adj, 0, 5, w5) && Weight(w5) == 5 by {
      WalkExtend(adj, 0, w4, e45);
    }
    forall v: nat | v < 6
      ensures IsWalk(adj, 0, v, DemoWalk(v)) && Weight(DemoWalk(v)) == DemoDist[v]
    {
      if v == 1 {
        assert DemoWalk(1) == w1;
      } else if v == 2 {
        assert DemoWalk(2) == w2;
      }
    }
  }

  /** Each listed distance is the weight of a walk from node 0. */
  lemma DemoRealized()
    ensures Realized(Adj(DemoGraph, 6), 0, Labels(DemoDist))
  {
    var adj: map<nat, seq<(nat, nat)>> := Adj(DemoGraph, 6);
    var L: map<nat, Dist> := Labels(DemoDist);
    DemoWalks();
    forall v | v in L && L[v].Fin?
      ensures exists es: seq<Edge<nat>> :: IsWalk(adj, 0, v, es) && Weight(es) == L[v].n
    {
      assert IsWalk(adj, 0, v, DemoWalk(v));
    }
  }

  /** Every node of the demonstration graph is at the distance listed in
      `DemoDist`. */
  lemma DemoShortest()
    ensures forall v: nat :: v < 6 ==> IsShortest<nat>(Adj(DemoGraph, 6), 0, v, DemoDist[v])
  {
    DemoFeasible();
    DemoRealized();
    LabelsShortest(DemoGraph, 6, 0, DemoDist);
  }

  /** The demonstration passes `max_weight = 5` although two edges weigh 7;
      the 31 buckets still hold every distance it reaches. */
  lemma DemoFits()
    ensures !WeightsBounded(DemoGraph, 6, 5)
    ensures Fits(DemoGraph, 6, 0, Capacity(6, 5))
  {
    assert DemoGraph[1][2].1 == 7;
    var adj: map<nat, seq<(nat, nat)>> := Adj(DemoGraph, 6);
    DemoShortest();
    forall u: nat, d: nat, i: nat | u < 6 && IsShortest<nat>(adj, 0, u, d) && i < |DemoGraph[u]|
      ensures d + DemoGraph[u][i].1 < Capacity(6, 5)
    {
      ShortestUnique(adj, 0, u, d, DemoDist[u]);
      assert DemoGraph[u][i].1 <= 7;
    }
  }

  /** The demonstration run returns `[0, 2, 3, 6, 4, 5]`. */
  lemma DemoRun()
    ensures DialAlgorithm(DemoGraph, 6, 0, 5) == Ok(DemoDist)
  {
    DemoFits();
    DemoShortest();
    DialResultUnique(DemoGraph, 6, 0, 5, DemoDist);
  }

  /** With `max_weight = 1` the two buckets of a two-node graph cannot hold
      the distance 3 of its edge: the source raises `IndexError` on
      `buckets[3]`. */
  lemma OverweightFails()
    ensures DialAlgorithm([[(1, 3)], []], 2, 0, 1) == Err(BucketIndexOutOfRange(3))
  {
    var graph: AdjList := [[(1, 3)], []];
    var st0 := InitialState(2, 0, 1);
    assert st0 == State([0, INF], [[0], [], []], 0, Scanning);
    var st1 := State([0, INF], [[], [], []], 0, Relaxing(0, 0));
    assert Shape(graph, 2, 0, st0);
    StepPop(graph, 2, 0, st0);
    assert st0.buckets[0][1..] == [] && st0.buckets[0 := []] == [[], [], []];
    assert Step(graph, 2, 0, st0) == Ok(st1);
    assert Step(graph, 2, 0, st1) == Err(BucketIndexOutOfRange(3));
    assert Run(graph, 2, 0, st1) == Err(BucketIndexOutOfRange(3));
  }
}
