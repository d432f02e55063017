/** The graph that the instrumented engine runs on: a set of string nodes, an
    append-only adjacency map from a node to its ordered `(neighbor, weight)`
    entries, and the largest weight ever added. */
module Graphs {
  import opened Lex

  datatype Graph = Graph(nodes: set<string>, adj: map<string, seq<(string, nat)>>, maxWeight: nat)

  /** What every graph built through the operations below satisfies: every
      adjacency key and every neighbor is a node, and `maxWeight` bounds
      every stored weight. */
  predicate WellFormed(g: Graph)
  {
    && (forall u :: u in g.adj ==> u in g.nodes)
    && (forall u, i :: u in g.adj && 0 <= i < |g.adj[u]| ==>
          g.adj[u][i].0 in g.nodes && g.adj[u][i].1 <= g.maxWeight)
  }

  /** The outgoing entries of `u` in insertion order; a node without a key
      has none. */
  function Neighbors(g: Graph, u: string): seq<(string, nat)>
  {
    if u in g.adj then g.adj[u] else []
  }

  function NewGraph(): (g: Graph)
    ensures g.nodes == {} && g.adj == map[] && g.maxWeight == 0
    ensures WellFormed(g)
  {
    Graph({}, map[], 0)
  }

  /** Adds a node; the empty name is ignored. */
  function AddNode(g: Graph, name: string): (r: Graph)
    ensures name != "" ==> r.nodes == g.nodes + {name}
    ensures name == "" ==> r == g
    ensures r.adj == g.adj && r.maxWeight == g.maxWeight
    ensures WellFormed(g) ==> WellFormed(r)
  {
    if name != "" then g.(nodes := g.nodes + {name}) else g
  }

  lemma AddNodeIdempotent(g: Graph, name: string)
    ensures AddNode(AddNode(g, name), name) == AddNode(g, name)
  {
  }

  /** Adds the directed edge `u -> v` of weight `w`, adding both endpoints as
      nodes; an empty endpoint name makes it a no-op. */
  function AddEdge(g: Graph, u: string, v: string, w: nat): (r: Graph)
    ensures u == "" || v == "" ==> r == g
    ensures u != "" && v != "" ==>
      && r.nodes == g.nodes + {u, v}
      && Neighbors(r, u) == Neighbors(g, u) + [(v, w)]
      && (forall x :: x != u ==> Neighbors(r, x) == Neighbors(g, x))
      && r.maxWeight >= w && r.maxWeight >= g.maxWeight
      && (r.maxWeight == w || r.maxWeight == g.maxWeight)
    ensures WellFormed(g) ==> WellFormed(r)
  {
    if u != "" && v != "" then
      var entries := Neighbors(g, u) + [(v, w)];
      Graph(g.nodes + {u, v}, g.adj[u := entries], if w > g.maxWeight then w else g.maxWeight)
    else g
  }

  /** The nodes in increasing lexicographic order. */
  function GetNodes(g: Graph): (r: seq<string>)
    ensures StrictlySorted(r)
    ensures forall x :: x in r <==> x in g.nodes
    ensures |r| == |g.nodes|
  {
    Sort(g.nodes)
  }
}
