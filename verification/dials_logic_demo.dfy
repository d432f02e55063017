/** The four-node example of the instrumented engine: edges `A->B` (2),
    `A->C` (4), `B->C` (1), `B->D` (7) and `C->D` (3), started at `A`. */
module DialsLogicDemo {
  import opened Paths
  import opened Graphs
  import opened BucketQueue
  import opened DialsLogic
  import opened DialsLogicTrace
  import opened DialsLogicCorrect

  function ExampleGraph(): Graph
  {
    var g := AddEdge(NewGraph(), "A", "B", 2);
    var g := AddEdge(g, "A", "C", 4);
    var g := AddEdge(g, "B", "C", 1);
    var g := AddEdge(g, "B", "D", 7);
    AddEdge(g, "C", "D", 3)
  }

  /** The shortest-path distances from `A`. */
  const Expected: map<string, Dist> := map["A" := Fin(0), "B" := Fin(2), "C" := Fin(3), "D" := Fin(6)]

  // ---- The graph after each `add_edge` call.

  const G1: Graph := Graph({"A", "B"}, map["A" := [("B", 2)]], 2)

  lemma Built1()
    ensures AddEdge(NewGraph(), "A", "B", 2) == G1
  {
    var g := AddEdge(NewGraph(), "A", "B", 2);
    assert g.nodes == G1.nodes && g.maxWeight == G1.maxWeight;
    assert g.adj.Keys == G1.adj.Keys;
    assert g.adj["A"] == G1.adj["A"];
  }

  const G2: Graph := Graph({"A", "B", "C"}, map["A" := [("B", 2), ("C", 4)]], 4)

  lemma Built2()
    ensures AddEdge(G1, "A", "C", 4) == G2
  {
    var g := AddEdge(G1, "A", "C", 4);
    assert g.nodes == G2.nodes && g.maxWeight == G2.maxWeight;
    assert g.adj.Keys == G2.adj.Keys;
    assert g.adj["A"] == G2.adj["A"];
  }

  const G3: Graph := Graph({"A", "B", "C"}, map["A" := [("B", 2), ("C", 4)], "B" := [("C", 1)]], 4)

  lemma Built3()
    ensures AddEdge(G2, "B", "C", 1) == G3
  {
    var g := AddEdge(G2, "B", "C", 1);
    assert g.nodes == G3.nodes && g.maxWeight == G3.maxWeight;
    assert g.adj.Keys == G3.adj.Keys;
    assert g.adj["A"] == G3.adj["A"];
    assert g.adj["B"] == G3.adj["B"];
  }

  const G4: Graph := Graph({"A", "B", "C", "D"}, map["A" := [("B", 2), ("C", 4)], "B" := [("C", 1), ("D", 7)]], 7)

  lemma Built4()
    ensures AddEdge(G3, "B", "D", 7) == G4
  {
    var g := AddEdge(G3, "B", "D", 7);
    assert g.nodes == G4.nodes && g.maxWeight == G4.maxWeight;
    assert g.adj.Keys == G4.adj.Keys;
    assert g.adj["A"] == G4.adj["A"];
    assert g.adj["B"] == G4.adj["B"];
  }

  const G5: Graph := Graph({"A", "B", "C", "D"}, map["A" := [("B", 2), ("C", 4)], "B" := [("C", 1), ("D", 7)], "C" := [("D", 3)]], 7)

  lemma Built5()
    ensures AddEdge(G4, "C", "D", 3) == G5
  {
    var g := AddEdge(G4, "C", "D", 3);
    assert g.nodes == G5.nodes && g.maxWeight == G5.maxWeight;
    assert g.adj.Keys == G5.adj.Keys;
    assert g.adj["A"] == G5.adj["A"];
    assert g.adj["B"] == G5.adj["B"];
    assert g.adj["C"] == G5.adj["C"];
  }

  lemma ExampleBuilt()
    ensures ExampleGraph() == G5
    ensures WellFormed(G5)
  {
    Built1();
    Built2();
    Built3();
    Built4();
    Built5();
  }

  lemma ExampleWalks()
    ensures Realized(G5.adj, "A", Expected)
  {
    var adj: map<string, seq<(string, nat)>> := G5.adj;
    var eAB, eBC, eCD := Edge("A", "B", 2), Edge("B", "C", 1), Edge("C", "D", 3);
    assert HasEdge(adj, eAB) && HasEdge(adj, eBC) && HasEdge(adj, eCD) by {
      assert adj["A"][0] == ("B", 2) && adj["B"][0] == ("C", 1) && adj["C"][0] == ("D", 3);
    }
    var wA: seq<Edge<string>> := [];
    assert IsWalk(adj, "A", "A", wA) && Weight(wA) == 0;
    assert IsWalk(adj, "A", "B", [eAB]) && Weight([eAB]) == 2 by {
      WalkExtend(adj, "A", wA, eAB);
      assert wA + [eAB] == [eAB];
    }
    assert IsWalk(adj, "A", "C", [eAB, eBC]) && Weight([eAB, eBC]) == 3 by {
      WalkExtend(adj, "A", [eAB], eBC);
      assert [eAB] + [eBC] == [eAB, eBC];
    }
    assert IsWalk(adj, "A", "D", [eAB, eBC, eCD]) && Weight([eAB, eBC, eCD]) == 6 by {
      WalkExtend(adj, "A", [eAB, eBC], eCD);
      assert [eAB, eBC] + [eCD] == [eAB, eBC, eCD];
    }
  }

  lemma ExampleFeasible()
    ensures Feasible(G5.adj, Expected)
  {
    var adj: map<string, seq<(string, nat)>> := G5.adj;
    forall u: string, i: int | u in adj && 0 <= i < |adj[u]| && Get(Expected, u).Fin?
      ensures Le(Get(Expected, adj[u][i].0), Add(Get(Expected, u), adj[u][i].1))
    {
      assert u == "A" || u == "B" || u == "C";
      if u == "A" {
        assert i == 0 || i == 1;
      } else if u == "B" {
        assert i == 0 || i == 1;
      } else {
        assert i == 0;
      }
    }
  }

  /** Each expected label is the shortest-path distance from `A`. */
  lemma ExampleShortest()
    ensures forall v :: v in Expected ==> Correct(G5.adj, "A", v, Expected[v])
  {
    ExampleWalks();
    ExampleFeasible();
    FeasibleIsCorrect(G5.adj, "A", Expected);
  }

  /** The final snapshot of the example (the graph `G5` that the five
      `add_edge` calls build) holds `A = 0`, `B = 2`, `C = 3` (through `B`)
      and `D = 6` (through `B` and `C`). */
  lemma ExampleFinal()
    ensures ComputeTrace(G5, "A").Ok?
    ensures var t := ComputeTrace(G5, "A").value;
      |t| > 0 && t[|t| - 1].distances == Expected
  {
    ExampleShortest();
    ExampleBuilt();
    assert Expected.Keys == G5.nodes + {"A"};
    TraceResult(G5, "A", Expected);
  }
}
