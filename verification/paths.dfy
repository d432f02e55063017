/** Distances, walks and shortest-path distances over a weighted adjacency
    map. Both engines are judged against these definitions. */
module Paths {

  /** A tentative distance: a finite non-negative integer, or the "infinite"
      sentinel that the engines use for a node not reached yet. */
  datatype Dist = Fin(n: nat) | Inf

  /** `a <= b`, with `Inf` above every finite distance. */
  predicate Le(a: Dist, b: Dist)
  {
    b.Inf? || (a.Fin? && a.n <= b.n)
  }

  /** `a < b`; nothing is below `Inf` except finite distances. */
  predicate Lt(a: Dist, b: Dist)
  {
    a.Fin? && (b.Inf? || a.n < b.n)
  }

  /** `d + w`, where the infinite sentinel absorbs any weight. */
  function Add(d: Dist, w: nat): Dist
  {
    if d.Fin? then Fin(d.n + w) else Inf
  }

  /** Lookup that reads a missing key as `Inf`. */
  function Get<N>(m: map<N, Dist>, v: N): Dist
  {
    if v in m then m[v] else Inf
  }

  datatype Edge<N> = Edge(src: N, dst: N, w: nat)

  ghost predicate HasEdge<N>(adj: map<N, seq<(N, nat)>>, e: Edge<N>)
  {
    e.src in adj && (e.dst, e.w) in adj[e.src]
  }

  /** `es` is a walk from `s` to `t` along edges of `adj`. */
  ghost predicate IsWalk<N>(adj: map<N, seq<(N, nat)>>, s: N, t: N, es: seq<Edge<N>>)
    decreases |es|
  {
    if |es| == 0 then s == t
    else
      && HasEdge(adj, es[|es| - 1])
      && es[|es| - 1].dst == t
      && IsWalk(adj, s, es[|es| - 1].src, es[..|es| - 1])
  }

  function Weight<N>(es: seq<Edge<N>>): nat
    decreases |es|
  {
    if |es| == 0 then 0 else Weight(es[..|es| - 1]) + es[|es| - 1].w
  }

  ghost predicate Reachable<N(!new)>(adj: map<N, seq<(N, nat)>>, s: N, t: N)
  {
    exists es :: IsWalk(adj, s, t, es)
  }

  /** `d` is the least weight of a walk from `s` to `t`. */
  ghost predicate IsShortest<N(!new)>(adj: map<N, seq<(N, nat)>>, s: N, t: N, d: nat)
  {
    && (exists es :: IsWalk(adj, s, t, es) && Weight(es) == d)
    && (forall es :: IsWalk(adj, s, t, es) ==> d <= Weight(es))
  }

  /** `dd` is the shortest-path distance from `s` to `t`, and `Inf` exactly
      when `t` cannot be reached. */
  ghost predicate Correct<N(!new)>(adj: map<N, seq<(N, nat)>>, s: N, t: N, dd: Dist)
  {
    if dd.Fin? then IsShortest(adj, s, t, dd.n) else !Reachable(adj, s, t)
  }

  /** No edge leaving a finitely-labelled node can still be relaxed. */
  ghost predicate Feasible<N>(adj: map<N, seq<(N, nat)>>, dist: map<N, Dist>)
  {
    forall u, i :: u in adj && 0 <= i < |adj[u]| && Get(dist, u).Fin? ==>
      Le(Get(dist, adj[u][i].0), Add(Get(dist, u), adj[u][i].1))
  }

  /** Every finite label is the weight of some walk from `s`. */
  ghost predicate Realized<N(!new)>(adj: map<N, seq<(N, nat)>>, s: N, dist: map<N, Dist>)
  {
    forall v :: v in dist && dist[v].Fin? ==>
      exists es :: IsWalk(adj, s, v, es) && Weight(es) == dist[v].n
  }

  lemma WalkExtend<N>(adj: map<N, seq<(N, nat)>>, s: N, es: seq<Edge<N>>, e: Edge<N>)
    requires IsWalk(adj, s, e.src, es) && HasEdge(adj, e)
    ensures IsWalk(adj, s, e.dst, es + [e])
    ensures Weight(es + [e]) == Weight(es) + e.w
  {
    assert (es + [e])[..|es|] == es;
  }

  lemma ShortestUnique<N(!new)>(adj: map<N, seq<(N, nat)>>, s: N, t: N, d1: nat, d2: nat)
    requires IsShortest(adj, s, t, d1) && IsShortest(adj, s, t, d2)
    ensures d1 == d2
  {
    var e1 :| IsWalk(adj, s, t, e1) && Weight(e1) == d1;
    var e2 :| IsWalk(adj, s, t, e2) && Weight(e2) == d2;
  }

  /** A feasible labelling with the source at 0 is a lower bound on the
      weight of every walk from the source. */
  lemma {:induction false} FeasibleBound<N>(adj: map<N, seq<(N, nat)>>, dist: map<N, Dist>, s: N, t: N, es: seq<Edge<N>>)
    requires Get(dist, s) == Fin(0) && Feasible(adj, dist)
    requires IsWalk(adj, s, t, es)
    ensures Le(Get(dist, t), Fin(Weight(es)))
    decreases |es|
  {
    if |es| > 0 {
      var e := es[|es| - 1];
      FeasibleBound(adj, dist, s, e.src, es[..|es| - 1]);
      var i :| 0 <= i < |adj[e.src]| && adj[e.src][i] == (e.dst, e.w);
      assert Le(Get(dist, adj[e.src][i].0), Add(Get(dist, e.src), adj[e.src][i].1));
    }
  }

  /** A feasible, realized labelling with the source at 0 is exactly the
      shortest-path distance, `Inf` marking the unreachable nodes. */
  lemma FeasibleIsCorrect<N(!new)>(adj: map<N, seq<(N, nat)>>, s: N, dist: map<N, Dist>)
    requires Get(dist, s) == Fin(0) && Feasible(adj, dist) && Realized(adj, s, dist)
    ensures forall v :: v in dist ==> Correct(adj, s, v, dist[v])
  {
    forall v | v in dist
      ensures Correct(adj, s, v, dist[v])
    {
      forall es | IsWalk(adj, s, v, es)
        ensures Le(dist[v], Fin(Weight(es)))
      {
        FeasibleBound(adj, dist, s, v, es);
      }
    }
  }

  /** At most one distance is correct for a node. */
  lemma CorrectUnique<N(!new)>(adj: map<N, seq<(N, nat)>>, s: N, t: N, d1: Dist, d2: Dist)
    requires Correct(adj, s, t, d1) && Correct(adj, s, t, d2)
    ensures d1 == d2
  {
    if d1.Fin? && d2.Fin? {
      ShortestUnique(adj, s, t, d1.n, d2.n);
    }
  }

  // ---- Shortest distances are bounded: a shortest walk can be made simple.

  /** The node reached after the first `i` edges of `es`. */
  function NodeAt<N>(s: N, es: seq<Edge<N>>, i: nat): N
    requires i <= |es|
  {
    if i == 0 then s else es[i - 1].dst
  }

  lemma {:induction false} WalkEdges<N>(adj: map<N, seq<(N, nat)>>, s: N, t: N, es: seq<Edge<N>>)
    requires IsWalk(adj, s, t, es)
    ensures forall j :: 0 <= j < |es| ==> HasEdge(adj, es[j])
    decreases |es|
  {
    if |es| > 0 {
      WalkEdges(adj, s, es[|es| - 1].src, es[..|es| - 1]);
    }
  }

  /** A non-empty walk leaves its source along an edge of `adj`. */
  lemma {:induction false} WalkStart<N>(adj: map<N, seq<(N, nat)>>, s: N, t: N, es: seq<Edge<N>>)
    requires IsWalk(adj, s, t, es) && |es| > 0
    ensures es[0].src == s && HasEdge(adj, es[0])
    decreases |es|
  {
    if |es| > 1 {
      var pre := es[..|es| - 1];
      WalkStart(adj, s, es[|es| - 1].src, pre);
      assert pre[0] == es[0];
    }
  }

  lemma {:induction false} WalkPrefix<N>(adj: map<N, seq<(N, nat)>>, s: N, t: N, es: seq<Edge<N>>, i: nat)
    requires IsWalk(adj, s, t, es) && i <= |es|
    ensures IsWalk(adj, s, NodeAt(s, es, i), es[..i])
    decreases |es|
  {
    if i < |es| {
      var pre := es[..|es| - 1];
      WalkPrefix(adj, s, es[|es| - 1].src, pre, i);
      assert pre[..i] == es[..i];
    } else {
      assert es[..i] == es;
    }
  }

  lemma {:induction false} WalkSuffix<N>(adj: map<N, seq<(N, nat)>>, s: N, t: N, es: seq<Edge<N>>, i: nat)
    requires IsWalk(adj, s, t, es) && i <= |es|
    ensures IsWalk(adj, NodeAt(s, es, i), t, es[i..])
    decreases |es|
  {
    if i < |es| {
      var e := es[|es| - 1];
      var pre := es[..|es| - 1];
      WalkSuffix(adj, s, e.src, pre, i);
      assert NodeAt(s, pre, i) == NodeAt(s, es, i);
      WalkExtend(adj, NodeAt(s, es, i), pre[i..], e);
      assert pre[i..] + [e] == es[i..];
    }
  }

  lemma {:induction false} WalkConcat<N>(adj: map<N, seq<(N, nat)>>, s: N, m: N, t: N, a: seq<Edge<N>>, b: seq<Edge<N>>)
    requires IsWalk(adj, s, m, a) && IsWalk(adj, m, t, b)
    ensures IsWalk(adj, s, t, a + b)
    decreases |b|
  {
    if |b| == 0 {
      assert a + b == a;
    } else {
      var e := b[|b| - 1];
      var pre := b[..|b| - 1];
      WalkConcat(adj, s, m, e.src, a, pre);
      WalkExtend(adj, s, a + pre, e);
      assert (a + pre) + [e] == a + b;
    }
  }

  lemma {:induction false} WeightConcat<N>(a: seq<Edge<N>>, b: seq<Edge<N>>)
    ensures Weight(a + b) == Weight(a) + Weight(b)
    decreases |b|
  {
    if |b| == 0 {
      assert a + b == a;
    } else {
      var pre := b[..|b| - 1];
      WeightConcat(a, pre);
      assert (a + b)[..|a + b| - 1] == a + pre;
    }
  }

  lemma {:induction false} WeightAtMost<N>(adj: map<N, seq<(N, nat)>>, s: N, t: N, es: seq<Edge<N>>, maxW: nat)
    requires IsWalk(adj, s, t, es)
    requires forall u, i :: u in adj && 0 <= i < |adj[u]| ==> adj[u][i].1 <= maxW
    ensures Weight(es) <= |es| * maxW
    decreases |es|
  {
    if |es| > 0 {
      var e := es[|es| - 1];
      WeightAtMost(adj, s, e.src, es[..|es| - 1], maxW);
      var i :| 0 <= i < |adj[e.src]| && adj[e.src][i] == (e.dst, e.w);
      assert e.w <= maxW;
      assert (|es| - 1) * maxW + maxW == |es| * maxW;
    }
  }

  function Elems<N>(q: seq<N>): set<N>
  {
    set x | x in q
  }

  lemma {:induction false} DistinctCard<N>(q: seq<N>)
    requires forall i, j :: 0 <= i < j < |q| ==> q[i] != q[j]
    ensures |Elems(q)| == |q|
    decreases |q|
  {
    if |q| > 0 {
      var rest := q[1..];
      DistinctCard(rest);
      assert Elems(q) == {q[0]} + Elems(rest);
      assert q[0] !in Elems(rest);
    }
  }

  lemma SubsetCard<N>(a: set<N>, b: set<N>)
    requires a <= b
    ensures |a| <= |b|
  {
    assert b == a + (b - a);
  }

  /** A walk with at least as many edges as there are nodes visits some node
      twice. */
  lemma Pigeonhole<N>(adj: map<N, seq<(N, nat)>>, nodes: set<N>, s: N, t: N, es: seq<Edge<N>>)
    requires IsWalk(adj, s, t, es) && s in nodes
    requires forall u, i :: u in adj && 0 <= i < |adj[u]| ==> adj[u][i].0 in nodes
    requires |es| >= |nodes|
    ensures exists i, j :: 0 <= i < j <= |es| && NodeAt(s, es, i) == NodeAt(s, es, j)
  {
    WalkEdges(adj, s, t, es);
    var q := seq(|es| + 1, i requires 0 <= i <= |es| => NodeAt(s, es, i));
    forall x | x in Elems(q)
      ensures x in nodes
    {
      var k :| 0 <= k < |q| && q[k] == x;
      if k > 0 {
        var e := es[k - 1];
        assert HasEdge(adj, e);
        var i :| 0 <= i < |adj[e.src]| && adj[e.src][i] == (e.dst, e.w);
      }
    }
    SubsetCard(Elems(q), nodes);
    if forall i, j :: 0 <= i < j < |q| ==> q[i] != q[j] {
      DistinctCard(q);
      assert false;
    }
    var i, j :| 0 <= i < j < |q| && q[i] == q[j];
    assert NodeAt(s, es, i) == NodeAt(s, es, j);
  }

  /** Removing the closed sub-walk between two visits of the same node
      keeps a walk between the same endpoints and does not add weight. */
  lemma CutCycle<N>(adj: map<N, seq<(N, nat)>>, s: N, t: N, es: seq<Edge<N>>, i: nat, j: nat)
    requires IsWalk(adj, s, t, es)
    requires i < j <= |es| && NodeAt(s, es, i) == NodeAt(s, es, j)
    ensures IsWalk(adj, s, t, es[..i] + es[j..])
    ensures Weight(es[..i] + es[j..]) <= Weight(es)
    ensures |es[..i] + es[j..]| < |es|
  {
    var pre, mid, post := es[..i], es[i..j], es[j..];
    assert IsWalk(adj, s, t, pre + post) by {
      WalkPrefix(adj, s, t, es, i);
      WalkSuffix(adj, s, t, es, j);
      WalkConcat(adj, s, NodeAt(s, es, i), t, pre, post);
    }
    assert Weight(pre + post) <= Weight(es) by {
      assert pre + (mid + post) == es;
      WeightConcat(pre, post);
      WeightConcat(mid, post);
      WeightConcat(pre, mid + post);
    }
  }

  /** Cutting out the cycles of a walk gives a walk of at most the same
      weight with fewer edges than there are nodes. */
  lemma {:induction false} ShortCut<N(!new)>(adj: map<N, seq<(N, nat)>>, nodes: set<N>, s: N, t: N, es: seq<Edge<N>>)
    requires IsWalk(adj, s, t, es) && s in nodes
    requires forall u, i :: u in adj && 0 <= i < |adj[u]| ==> adj[u][i].0 in nodes
    ensures exists cut :: IsWalk(adj, s, t, cut) && Weight(cut) <= Weight(es) && |cut| < |nodes|
    decreases |es|
  {
    if |es| >= |nodes| {
      Pigeonhole(adj, nodes, s, t, es);
      var i, j :| 0 <= i < j <= |es| && NodeAt(s, es, i) == NodeAt(s, es, j);
      CutCycle(adj, s, t, es, i, j);
      ShortCut(adj, nodes, s, t, es[..i] + es[j..]);
    } else {
      assert IsWalk(adj, s, t, es) && Weight(es) <= Weight(es) && |es| < |nodes|;
    }
  }

  /** With every weight at most `maxW`, a shortest distance is at most
      `(|nodes| - 1) * maxW`: the bound the bucket array is sized from. */
  lemma ShortestBound<N(!new)>(adj: map<N, seq<(N, nat)>>, nodes: set<N>, s: N, t: N, d: nat, maxW: nat)
    requires s in nodes
    requires forall u, i :: u in adj && 0 <= i < |adj[u]| ==> adj[u][i].0 in nodes && adj[u][i].1 <= maxW
    requires IsShortest(adj, s, t, d)
    ensures d <= (|nodes| - 1) * maxW
  {
    var es :| IsWalk(adj, s, t, es) && Weight(es) == d;
    ShortCut(adj, nodes, s, t, es);
    var cut :| IsWalk(adj, s, t, cut) && Weight(cut) <= Weight(es) && |cut| < |nodes|;
    WeightAtMost(adj, s, t, cut, maxW);
    MulMono(|cut|, |nodes| - 1, maxW);
  }

  lemma MulMono(a: nat, b: nat, c: nat)
    requires a <= b
    ensures a * c <= b * c
  {
  }
}
