/** Correctness of the instrumented engine: on a well-formed graph every
    bucket index it computes is in range, each node it processes already
    holds its shortest-path distance, and the final snapshot holds the
    shortest-path distance of every node (`Inf` for the unreachable ones). */
module DialsLogicCorrect {
  import opened Paths
  import opened Graphs
  import opened BucketQueue
  import opened DialsLogic
  import opened DialsLogicTrace

  /** The first `k` adjacency entries of `u` cannot lower any label. */
  predicate RelaxedUpTo(g: Graph, dist: map<string, Dist>, u: string, k: nat)
    requires u in dist && k <= |Neighbors(g, u)|
  {
    forall i :: 0 <= i < k ==>
      Le(Get(dist, Neighbors(g, u)[i].0), Add(dist[u], Neighbors(g, u)[i].1))
  }

  /** Every shortest distance plus the weight of an edge leaving that node is
      a valid bucket index. */
  ghost predicate Fits(g: Graph, start: string)
  {
    forall u, d: nat, i :: u in g.adj && IsShortest(g.adj, start, u, d) && 0 <= i < |g.adj[u]| ==>
      d + g.adj[u][i].1 < Capacity(g)
  }

  // ---- The pieces of the invariant. `P` is the set of processed nodes.

  /** A bucket entry is never below its node's label (it may be above: a
      stale entry). */
  predicate Entered(st: State)
  {
    forall j, x :: 0 <= j < |st.buckets| && x in st.buckets[j] ==>
      x in st.dist && st.dist[x].Fin? && st.dist[x].n <= j
  }

  /** The buckets the scan has passed are empty. */
  predicate Passed(st: State)
  {
    forall j :: 0 <= j < st.idx && j < |st.buckets| ==> st.buckets[j] == []
  }

  /** A processed node has a label no higher than the scan index and no entry
      left at that label. */
  predicate DoneOk(st: State, P: set<string>)
  {
    forall p :: p in P ==>
      && p in st.dist && st.dist[p].Fin?
      && st.dist[p].n <= st.idx && st.dist[p].n < |st.buckets|
      && p !in st.buckets[st.dist[p].n]
  }

  /** An unprocessed node with a finite label has an entry at that label. */
  predicate Live(st: State, P: set<string>)
  {
    forall v :: v in st.dist && st.dist[v].Fin? && v !in P ==>
      st.dist[v].n < |st.buckets| && v in st.buckets[st.dist[v].n]
  }

  /** A node has at most one entry at its current label. */
  predicate Once(st: State)
  {
    forall v :: v in st.dist && st.dist[v].Fin? && st.dist[v].n < |st.buckets| ==>
      multiset(st.buckets[st.dist[v].n])[v] <= 1
  }

  /** Every processed node other than the one being relaxed has had all its
      edges relaxed. */
  predicate Settled(g: Graph, st: State, P: set<string>)
  {
    forall p :: p in P && p in st.dist && !(st.phase.Relaxing? && st.phase.u == p) ==>
      RelaxedUpTo(g, st.dist, p, |Neighbors(g, p)|)
  }

  /** The node being relaxed is processed, sits at the scan index, and has
      had its first `k` edges relaxed. */
  predicate PhaseOk(g: Graph, st: State, P: set<string>)
  {
    st.phase.Relaxing? ==>
      && st.phase.u in P
      && st.phase.u in st.dist
      && st.dist[st.phase.u] == Fin(st.idx)
      && st.phase.k <= |Neighbors(g, st.phase.u)|
      && RelaxedUpTo(g, st.dist, st.phase.u, st.phase.k)
  }

  /** Processed nodes hold their shortest-path distance. */
  ghost predicate Final(g: Graph, start: string, st: State, P: set<string>)
  {
    forall p :: p in P ==> p in st.dist && st.dist[p].Fin? && IsShortest(g.adj, start, p, st.dist[p].n)
  }

  ghost predicate Inv(g: Graph, start: string, st: State, P: set<string>)
  {
    && Shape(g, start, st)
    && st.dist[start] == Fin(0)
    && Entered(st)
    && Passed(st)
    && DoneOk(st, P)
    && Live(st, P)
    && Once(st)
    && Settled(g, st, P)
    && PhaseOk(g, st, P)
    && Final(g, start, st, P)
    && Realized(g.adj, start, st.dist)
  }

  lemma InvIntro(g: Graph, start: string, st: State, P: set<string>)
    requires Shape(g, start, st) && st.dist[start] == Fin(0)
    requires Entered(st) && Passed(st) && DoneOk(st, P) && Live(st, P) && Once(st)
    requires Settled(g, st, P) && PhaseOk(g, st, P) && Final(g, start, st, P) && Realized(g.adj, start, st.dist)
    ensures Inv(g, start, st, P)
  {
  }

  /** The bucket array is large enough for every graph built by the graph
      operations: the sizing argument of the source's comment. */
  lemma WellFormedFits(g: Graph, start: string)
    requires WellFormed(g)
    ensures Fits(g, start)
  {
    forall u, d: nat, i | u in g.adj && IsShortest(g.adj, start, u, d) && 0 <= i < |g.adj[u]|
      ensures d + g.adj[u][i].1 < Capacity(g)
    {
      var es :| IsWalk(g.adj, start, u, es) && Weight(es) == d;
      if start !in g.nodes {
        assert u != start;
        WalkStart(g.adj, start, u, es);
        assert false;
      }
      ShortestBound(g.adj, g.nodes, start, u, d, g.maxWeight);
      var n, m := |g.nodes|, g.maxWeight;
      assert (n - 1) * m + m == n * m;
    }
  }

  /** A state with the start alone at 0 and alone in bucket 0, all other
      labels `Inf` and all other buckets empty, satisfies the invariant. */
  lemma InitialInv(g: Graph, start: string, st: State)
    requires Shape(g, start, st)
    requires st.idx == 0 && st.phase.Scanning?
    requires st.dist[start] == Fin(0) && forall v :: v in st.dist && v != start ==> st.dist[v] == Inf
    requires st.buckets[0] == [start] && forall j :: 1 <= j < |st.buckets| ==> st.buckets[j] == []
    ensures Inv(g, start, st, {})
  {
    assert Entered(st);
    assert Live(st, {});
    assert Once(st) by {
      assert multiset(st.buckets[0])[start] == 1;
    }
    assert Realized(g.adj, start, st.dist) by {
      assert IsWalk(g.adj, start, start, []) && Weight<string>([]) == 0;
    }
    InvIntro(g, start, st, {});
  }

  lemma InitInv(g: Graph, start: string)
    requires WellFormed(g)
    ensures Inv(g, start, InitialState(g, start), {})
  {
    var st := InitialState(g, start);
    InitialShape(g, start);
    InitialInv(g, start, st);
  }

  // ---- The scan has passed every walk weight below `idx`.

  /** While scanning, every walk from the start to an unprocessed node weighs
      at least the scan index. */
  lemma {:induction false} ClaimWalk(g: Graph, start: string, st: State, P: set<string>, t: string, es: seq<Edge<string>>)
    requires Shape(g, start, st) && st.dist[start] == Fin(0) && st.phase.Scanning?
    requires Passed(st) && Live(st, P) && Settled(g, st, P) && Final(g, start, st, P)
    requires IsWalk(g.adj, start, t, es) && t in st.dist && t !in P
    ensures st.idx <= Weight(es)
    decreases |es|
  {
    if |es| == 0 {
      assert t == start && start in st.buckets[0];
    } else {
      var e := es[|es| - 1];
      var pre := es[..|es| - 1];
      assert e.src in g.adj && (e.dst, e.w) in g.adj[e.src];
      var i :| 0 <= i < |g.adj[e.src]| && g.adj[e.src][i] == (e.dst, e.w);
      assert e.src in g.nodes;
      if e.src !in P {
        ClaimWalk(g, start, st, P, e.src, pre);
      } else {
        var d := st.dist[e.src].n;
        assert d <= Weight(pre) by {
          assert IsShortest(g.adj, start, e.src, d);
        }
        assert Le(st.dist[t], Fin(d + e.w)) by {
          assert RelaxedUpTo(g, st.dist, e.src, |Neighbors(g, e.src)|);
          assert Neighbors(g, e.src)[i] == (t, e.w);
        }
        assert t in st.buckets[st.dist[t].n];
      }
    }
  }

  // ---- One step keeps the invariant, branch by branch.

  /** The processed set after one step: it grows by the popped node when the
      pop is not stale. */
  ghost function NextDone(g: Graph, start: string, st: State, P: set<string>): set<string>
    requires Shape(g, start, st)
  {
    if st.phase.Scanning? && st.idx < |st.buckets| && st.buckets[st.idx] != []
       && !Lt(st.dist[st.buckets[st.idx][0]], Fin(st.idx))
    then P + {st.buckets[st.idx][0]}
    else P
  }

  lemma SkipInv(g: Graph, start: string, st: State, P: set<string>)
    requires Inv(g, start, st, P) && st.phase.Scanning? && st.idx < |st.buckets| && st.buckets[st.idx] == []
    ensures Inv(g, start, st.(idx := st.idx + 1), P)
  {
  }

  /** Popping the front of the current bucket keeps the bucket invariants,
      when the popped node `u` is either stale or joins the processed set. */
  lemma PopBuckets(st: State, P: set<string>, P': set<string>)
    requires st.phase.Scanning? && st.idx < |st.buckets| && st.buckets[st.idx] != []
    requires Entered(st) && Passed(st) && DoneOk(st, P) && Live(st, P) && Once(st)
    requires var u := st.buckets[st.idx][0];
      || (P' == P && Lt(st.dist[u], Fin(st.idx)))
      || (P' == P + {u} && st.dist[u] == Fin(st.idx))
    ensures var st' := st.(buckets := st.buckets[st.idx := st.buckets[st.idx][1..]]);
      Entered(st') && Passed(st') && DoneOk(st', P') && Live(st', P') && Once(st')
  {
    var b := st.buckets[st.idx];
    var st' := st.(buckets := st.buckets[st.idx := b[1..]]);
    PopKeeps(st, b, st');
    assert b[0] in st.buckets[st.idx];
    PopLive(st, P, P', b, st');
    PopDoneOk(st, P, P', b, st');
  }

  /** Taking the front entry of the current bucket keeps the pieces that do
      not depend on the processed set. */
  lemma PopKeeps(st: State, b: seq<string>, st': State)
    requires st.idx < |st.buckets| && b == st.buckets[st.idx] && b != []
    requires Entered(st) && Passed(st) && Once(st)
    requires st' == st.(buckets := st.buckets[st.idx := b[1..]])
    ensures Entered(st') && Passed(st') && Once(st')
  {
    assert forall x :: x in b[1..] ==> x in b;
    assert b == [b[0]] + b[1..];
    assert forall x :: multiset(b[1..])[x] <= multiset(b)[x];
  }

  lemma PopLive(st: State, P: set<string>, P': set<string>, b: seq<string>, st': State)
    requires st.idx < |st.buckets| && b == st.buckets[st.idx] && b != []
    requires Live(st, P) && b[0] in st.dist
    requires (P' == P && Lt(st.dist[b[0]], Fin(st.idx))) || (P' == P + {b[0]} && st.dist[b[0]] == Fin(st.idx))
    requires st' == st.(buckets := st.buckets[st.idx := b[1..]])
    ensures Live(st', P')
  {
    assert b == [b[0]] + b[1..];
    forall v | v in st'.dist && st'.dist[v].Fin? && v !in P'
      ensures st'.dist[v].n < |st'.buckets| && v in st'.buckets[st'.dist[v].n]
    {
      var j := st.dist[v].n;
      assert v in st.buckets[j];
      if j == st.idx {
        assert v in b;
        if v != b[0] {
          assert v in b[1..];
        }
      }
    }
  }

  lemma PopDoneOk(st: State, P: set<string>, P': set<string>, b: seq<string>, st': State)
    requires st.phase.Scanning? && st.idx < |st.buckets| && b == st.buckets[st.idx] && b != []
    requires DoneOk(st, P) && Once(st) && b[0] in st.dist
    requires (P' == P && Lt(st.dist[b[0]], Fin(st.idx))) || (P' == P + {b[0]} && st.dist[b[0]] == Fin(st.idx))
    requires st' == st.(buckets := st.buckets[st.idx := b[1..]])
    ensures DoneOk(st', P')
  {
    var u := b[0];
    assert b == [u] + b[1..];
    forall p | p in P'
      ensures p in st'.dist && st'.dist[p].Fin?
      ensures st'.dist[p].n <= st'.idx && st'.dist[p].n < |st'.buckets|
      ensures p !in st'.buckets[st'.dist[p].n]
    {
      if p in P {
        var j := st.dist[p].n;
        if j == st.idx {
          assert forall x :: x in b[1..] ==> x in b;
        }
      } else {
        assert p == u && st.dist[u] == Fin(st.idx);
        assert multiset(b)[u] == multiset(b[1..])[u] + 1;
        assert u !in b[1..];
      }
    }
  }

  lemma StalePopInv(g: Graph, start: string, st: State, P: set<string>)
    requires Inv(g, start, st, P) && st.phase.Scanning? && st.idx < |st.buckets| && st.buckets[st.idx] != []
    requires Lt(st.dist[st.buckets[st.idx][0]], Fin(st.idx))
    ensures Inv(g, start, st.(buckets := st.buckets[st.idx := st.buckets[st.idx][1..]]), P)
  {
    PopBuckets(st, P, P);
  }

  /** A node popped without being stale holds its shortest-path distance. */
  lemma FreshPopShortest(g: Graph, start: string, st: State, P: set<string>)
    requires Inv(g, start, st, P) && st.phase.Scanning? && st.idx < |st.buckets| && st.buckets[st.idx] != []
    requires !Lt(st.dist[st.buckets[st.idx][0]], Fin(st.idx))
    ensures var u := st.buckets[st.idx][0];
      && u !in P
      && st.dist[u] == Fin(st.idx)
      && IsShortest(g.adj, start, u, st.idx)
  {
    var b := st.buckets[st.idx];
    var u := b[0];
    assert u in b;
    assert st.dist[u] == Fin(st.idx);
    assert u !in P;
    forall es | IsWalk(g.adj, start, u, es)
      ensures st.idx <= Weight(es)
    {
      ClaimWalk(g, start, st, P, u, es);
    }
  }

  /** The phase-dependent pieces after a fresh pop: `u` joins the processed
      set with its shortest distance and no edge relaxed yet. */
  lemma FreshPopPaths(g: Graph, start: string, st: State, P: set<string>, u: string, st': State)
    requires Shape(g, start, st) && st.phase.Scanning? && st.idx < |st.buckets|
    requires Settled(g, st, P) && Final(g, start, st, P) && Realized(g.adj, start, st.dist)
    requires u in st.buckets[st.idx] && u !in P && st.dist[u] == Fin(st.idx) && IsShortest(g.adj, start, u, st.idx)
    requires st'.dist == st.dist && st'.idx == st.idx && |st'.buckets| == |st.buckets|
    requires forall j, x :: 0 <= j < |st'.buckets| && x in st'.buckets[j] ==> x in st.buckets[j]
    requires st'.phase == Relaxing(u, 0)
    ensures Shape(g, start, st') && Settled(g, st', P + {u}) && PhaseOk(g, st', P + {u})
    ensures Final(g, start, st', P + {u}) && Realized(g.adj, start, st'.dist)
  {
  }

  lemma FreshPopInv(g: Graph, start: string, st: State, P: set<string>)
    requires Inv(g, start, st, P) && st.phase.Scanning? && st.idx < |st.buckets| && st.buckets[st.idx] != []
    requires !Lt(st.dist[st.buckets[st.idx][0]], Fin(st.idx))
    ensures var u := st.buckets[st.idx][0];
      Inv(g, start, st.(buckets := st.buckets[st.idx := st.buckets[st.idx][1..]], phase := Relaxing(u, 0)), P + {u})
  {
    var b := st.buckets[st.idx];
    var u := b[0];
    var P' := P + {u};
    var popped := st.(buckets := st.buckets[st.idx := b[1..]]);
    var st' := popped.(phase := Relaxing(u, 0));
    FreshPopShortest(g, start, st, P);
    assert Entered(st') && Passed(st') && DoneOk(st', P') && Live(st', P') && Once(st') by {
      PopBuckets(st, P, P');
    }
    assert Shape(g, start, st') && Settled(g, st', P') && PhaseOk(g, st', P') && Final(g, start, st', P') && Realized(g.adj, start, st'.dist) by {
      assert u in b;
      assert forall j, x :: 0 <= j < |st'.buckets| && x in st'.buckets[j] ==> x in st.buckets[j] by {
        assert forall x :: x in b[1..] ==> x in b;
      }
      FreshPopPaths(g, start, st, P, u, st');
    }
    InvIntro(g, start, st', P');
  }

  lemma DoneRelaxingInv(g: Graph, start: string, st: State, P: set<string>)
    requires Inv(g, start, st, P) && st.phase.Relaxing? && st.phase.k == |Neighbors(g, st.phase.u)|
    ensures Inv(g, start, st.(phase := Scanning), P)
  {
  }

  /** A step that changes only the phase keeps every invariant piece that
      does not mention the phase. */
  lemma KeepPieces(g: Graph, start: string, st: State, P: set<string>, st': State)
    requires Inv(g, start, st, P)
    requires st'.dist == st.dist && st'.buckets == st.buckets && st'.idx == st.idx
    ensures st'.dist[start] == Fin(0)
    ensures Entered(st') && Passed(st') && DoneOk(st', P) && Live(st', P) && Once(st')
    ensures Final(g, start, st', P) && Realized(g.adj, start, st'.dist)
  {
  }

  /** Moving past an adjacency entry that does not improve its target keeps
      the phase-dependent invariant pieces. */
  lemma NoRelaxPhase(g: Graph, start: string, st: State, P: set<string>, st': State)
    requires Inv(g, start, st, P) && st.phase.Relaxing? && st.phase.k < |Neighbors(g, st.phase.u)|
    requires var (u, k) := (st.phase.u, st.phase.k);
      !Lt(Add(st.dist[u], Neighbors(g, u)[k].1), st.dist[Neighbors(g, u)[k].0])
    requires st' == st.(phase := Relaxing(st.phase.u, st.phase.k + 1))
    ensures Shape(g, start, st') && Settled(g, st', P) && PhaseOk(g, st', P)
  {
    var (u, k) := (st.phase.u, st.phase.k);
    assert Neighbors(g, u)[k].0 in g.nodes;
    assert RelaxedUpTo(g, st.dist, u, k + 1);
  }

  lemma NoRelaxInv(g: Graph, start: string, st: State, P: set<string>, st': State)
    requires Inv(g, start, st, P) && st.phase.Relaxing? && st.phase.k < |Neighbors(g, st.phase.u)|
    requires var (u, k) := (st.phase.u, st.phase.k);
      !Lt(Add(st.dist[u], Neighbors(g, u)[k].1), st.dist[Neighbors(g, u)[k].0])
    requires st' == st.(phase := Relaxing(st.phase.u, st.phase.k + 1))
    ensures Inv(g, start, st', P)
  {
    NoRelaxPhase(g, start, st, P, st');
    KeepPieces(g, start, st, P, st');
    InvIntro(g, start, st', P);
  }

  /** The node an edge of the current node can improve is neither that node,
      nor processed, nor the start. */
  lemma RelaxTarget(g: Graph, start: string, st: State, P: set<string>, u: string, k: nat, v: string, w: nat)
    requires Shape(g, start, st) && st.dist[start] == Fin(0) && DoneOk(st, P) && PhaseOk(g, st, P)
    requires st.phase == Relaxing(u, k) && k < |Neighbors(g, u)| && Neighbors(g, u)[k] == (v, w)
    requires Lt(Fin(st.idx + w), st.dist[v])
    ensures v in g.nodes && v in st.dist && u in st.dist && v != u && v !in P && v != start
  {
    assert u in g.adj && g.adj[u][k] == (v, w);
  }

  /** The node an edge of the current node can improve is neither that node,
      nor processed, nor the start, and its new label is a valid bucket. */
  lemma RelaxFacts(g: Graph, start: string, st: State, P: set<string>, u: string, k: nat, v: string, w: nat)
    returns (walk: seq<Edge<string>>)
    requires Inv(g, start, st, P) && st.phase == Relaxing(u, k)
    requires k < |Neighbors(g, u)| && Neighbors(g, u)[k] == (v, w)
    requires Lt(Fin(st.idx + w), st.dist[v])
    ensures v in g.nodes && v in st.dist && u in st.dist && v != u && v !in P && v != start
    ensures st.idx + w < |st.buckets|
    ensures IsWalk(g.adj, start, v, walk) && Weight(walk) == st.idx + w
  {
    assert u in g.adj && g.adj[u][k] == (v, w);
    var e := Edge(u, v, w);
    assert HasEdge(g.adj, e);
    var es :| IsWalk(g.adj, start, u, es) && Weight(es) == st.idx;
    WalkExtend(g.adj, start, es, e);
    walk := es + [e];
    assert IsShortest(g.adj, start, u, st.idx);
    WellFormedFits(g, start);
  }

  /** Lowering `v` to `c` and appending it to bucket `c` keeps the bucket
      invariants. */
  lemma RelaxBuckets(st: State, P: set<string>, v: string, c: nat, st': State)
    requires Entered(st) && Passed(st) && DoneOk(st, P) && Live(st, P) && Once(st)
    requires v in st.dist && v !in P && st.idx <= c < |st.buckets| && Lt(Fin(c), st.dist[v])
    requires st'.dist == st.dist[v := Fin(c)] && st'.buckets == st.buckets[c := st.buckets[c] + [v]] && st'.idx == st.idx
    ensures Entered(st') && Passed(st') && DoneOk(st', P) && Live(st', P) && Once(st')
  {
    RelaxEntered(st, v, c, st');
    RelaxPassed(st, v, c, st');
    RelaxDoneOk(st, P, v, c, st');
    RelaxLive(st, P, v, c, st');
    RelaxOnce(st, v, c, st');
  }

  lemma RelaxEntered(st: State, v: string, c: nat, st': State)
    requires Entered(st) && v in st.dist && c < |st.buckets| && Lt(Fin(c), st.dist[v])
    requires st'.dist == st.dist[v := Fin(c)] && st'.buckets == st.buckets[c := st.buckets[c] + [v]]
    ensures Entered(st')
  {
    forall j, x | 0 <= j < |st'.buckets| && x in st'.buckets[j]
      ensures x in st'.dist && st'.dist[x].Fin? && st'.dist[x].n <= j
    {
      if j == c {
        assert st'.buckets[c] == st.buckets[c] + [v];
      }
      if x != v || j != c {
        assert x in st.buckets[j];
        assert x in st.dist && st.dist[x].Fin? && st.dist[x].n <= j;
        if x != v {
          assert st'.dist[x] == st.dist[x];
        }
      }
    }
  }

  lemma RelaxPassed(st: State, v: string, c: nat, st': State)
    requires Passed(st) && st.idx <= c < |st.buckets|
    requires st'.buckets == st.buckets[c := st.buckets[c] + [v]] && st'.idx == st.idx
    ensures Passed(st')
  {
  }

  lemma RelaxDoneOk(st: State, P: set<string>, v: string, c: nat, st': State)
    requires DoneOk(st, P) && v !in P && c < |st.buckets|
    requires st'.dist == st.dist[v := Fin(c)] && st'.buckets == st.buckets[c := st.buckets[c] + [v]] && st'.idx == st.idx
    ensures DoneOk(st', P)
  {
    forall p | p in P
      ensures p in st'.dist && st'.dist[p].Fin?
      ensures st'.dist[p].n <= st'.idx && st'.dist[p].n < |st'.buckets|
      ensures p !in st'.buckets[st'.dist[p].n]
    {
      assert p != v && st'.dist[p] == st.dist[p];
      if st.dist[p].n == c {
        assert st'.buckets[c] == st.buckets[c] + [v];
      }
    }
  }

  lemma RelaxLive(st: State, P: set<string>, v: string, c: nat, st': State)
    requires Live(st, P) && c < |st.buckets|
    requires st'.dist == st.dist[v := Fin(c)] && st'.buckets == st.buckets[c := st.buckets[c] + [v]]
    ensures Live(st', P)
  {
    forall x | x in st'.dist && st'.dist[x].Fin? && x !in P
      ensures st'.dist[x].n < |st'.buckets| && x in st'.buckets[st'.dist[x].n]
    {
      if x == v {
        assert st'.buckets[c] == st.buckets[c] + [v];
      } else {
        var j := st.dist[x].n;
        assert x in st.buckets[j];
        if j == c {
          assert st'.buckets[c] == st.buckets[c] + [v];
        }
      }
    }
  }

  lemma RelaxOnce(st: State, v: string, c: nat, st': State)
    requires Once(st) && Entered(st) && v in st.dist && c < |st.buckets| && Lt(Fin(c), st.dist[v])
    requires st'.dist == st.dist[v := Fin(c)] && st'.buckets == st.buckets[c := st.buckets[c] + [v]]
    ensures Once(st')
  {
    assert v !in st.buckets[c];
    forall x | x in st'.dist && st'.dist[x].Fin? && st'.dist[x].n < |st'.buckets|
      ensures multiset(st'.buckets[st'.dist[x].n])[x] <= 1
    {
      var j := st'.dist[x].n;
      if j == c {
        assert multiset(st'.buckets[c]) == multiset(st.buckets[c]) + multiset{v};
        if x != v {
          assert st'.dist[x] == st.dist[x];
        }
      }
    }
  }

  /** Lowering a label that is not below the current one keeps every
      relaxation fact. */
  lemma RelaxedUpToLower(g: Graph, dist: map<string, Dist>, p: string, k: nat, v: string, c: nat)
    requires p in dist && k <= |Neighbors(g, p)| && v in dist && v != p && Lt(Fin(c), dist[v])
    requires RelaxedUpTo(g, dist, p, k)
    ensures RelaxedUpTo(g, dist[v := Fin(c)], p, k)
  {
  }

  /** Lowering `v`, the `k`-th neighbor of the current node `u`, to
      `c = idx + w` keeps the path invariants and moves the phase on. */
  lemma RelaxPaths(g: Graph, start: string, st: State, P: set<string>, u: string, k: nat, v: string, w: nat, walk: seq<Edge<string>>, st': State)
    requires st.phase == Relaxing(u, k) && k < |Neighbors(g, u)| && Neighbors(g, u)[k] == (v, w)
    requires Settled(g, st, P) && PhaseOk(g, st, P) && Final(g, start, st, P) && Realized(g.adj, start, st.dist)
    requires v in st.dist && v !in P && v != u && Lt(Fin(st.idx + w), st.dist[v])
    requires IsWalk(g.adj, start, v, walk) && Weight(walk) == st.idx + w
    requires st'.dist == st.dist[v := Fin(st.idx + w)] && st'.idx == st.idx && st'.phase == Relaxing(u, k + 1)
    ensures Settled(g, st', P) && PhaseOk(g, st', P) && Final(g, start, st', P) && Realized(g.adj, start, st'.dist)
  {
    var c := st.idx + w;
    forall p | p in P && p in st'.dist && p != u
      ensures RelaxedUpTo(g, st'.dist, p, |Neighbors(g, p)|)
    {
      RelaxedUpToLower(g, st.dist, p, |Neighbors(g, p)|, v, c);
    }
    assert Settled(g, st', P);
    RelaxedUpToLower(g, st.dist, u, k, v, c);
    assert RelaxedUpTo(g, st'.dist, u, k + 1);
    assert PhaseOk(g, st', P);
    assert Final(g, start, st', P);
    assert Realized(g.adj, start, st'.dist);
  }

  lemma RelaxShape(g: Graph, start: string, st: State, v: string, c: nat, st': State)
    requires Shape(g, start, st) && st.phase.Relaxing? && st.phase.k < |Neighbors(g, st.phase.u)|
    requires v in st.dist && v != start && st.phase.u != v && c < |st.buckets|
    requires st'.dist == st.dist[v := Fin(c)] && st'.buckets == st.buckets[c := st.buckets[c] + [v]]
    requires st'.idx == st.idx && st'.phase == Relaxing(st.phase.u, st.phase.k + 1)
    ensures Shape(g, start, st') && st'.dist[start] == st.dist[start]
  {
    assert forall j, x :: 0 <= j < |st'.buckets| && x in st'.buckets[j] ==> x == v || x in st.buckets[j];
  }

  /** `st'` is `st` after the `k`-th entry `(v, w)` of the current node `u`
      lowered `v`. */
  predicate Moves(g: Graph, st: State, u: string, k: nat, v: string, w: nat, st': State)
  {
    && st.phase == Relaxing(u, k)
    && k < |Neighbors(g, u)| && Neighbors(g, u)[k] == (v, w)
    && v in st.dist && Lt(Fin(st.idx + w), st.dist[v]) && st.idx + w < |st.buckets|
    && st'.dist == st.dist[v := Fin(st.idx + w)] && st'.buckets == st.buckets[st.idx + w := st.buckets[st.idx + w] + [v]]
    && st'.idx == st.idx && st'.phase == Relaxing(u, k + 1)
  }

  /** The hypotheses shared by the relaxation lemmas. */
  ghost predicate Relaxes(g: Graph, start: string, st: State, P: set<string>, u: string, k: nat, v: string, w: nat, st': State)
  {
    Inv(g, start, st, P) && Moves(g, st, u, k, v, w, st')
  }

  lemma RelaxBucketsInv(g: Graph, start: string, st: State, P: set<string>, u: string, k: nat, v: string, w: nat, st': State)
    requires Moves(g, st, u, k, v, w, st')
    requires Entered(st) && Passed(st) && DoneOk(st, P) && Live(st, P) && Once(st)
    ensures Entered(st') && Passed(st') && DoneOk(st', P) && Live(st', P) && Once(st')
  {
    NotDone(st, P, v, st.idx + w);
    RelaxBuckets(st, P, v, st.idx + w, st');
  }

  /** A node whose label is above the scan index has not been processed. */
  lemma NotDone(st: State, P: set<string>, v: string, c: nat)
    requires DoneOk(st, P) && v in st.dist && st.idx <= c && Lt(Fin(c), st.dist[v])
    ensures v !in P
  {
  }

  lemma RelaxPathsInv(g: Graph, start: string, st: State, P: set<string>, u: string, k: nat, v: string, w: nat, st': State)
    requires Relaxes(g, start, st, P, u, k, v, w, st')
    ensures Settled(g, st', P) && PhaseOk(g, st', P) && Final(g, start, st', P) && Realized(g.adj, start, st'.dist)
  {
    var walk := RelaxFacts(g, start, st, P, u, k, v, w);
    assert Settled(g, st, P) && PhaseOk(g, st, P) && Final(g, start, st, P) && Realized(g.adj, start, st.dist);
    RelaxPaths(g, start, st, P, u, k, v, w, walk, st');
  }

  lemma RelaxShapeInv(g: Graph, start: string, st: State, P: set<string>, u: string, k: nat, v: string, w: nat, st': State)
    requires Moves(g, st, u, k, v, w, st')
    requires Shape(g, start, st) && st.dist[start] == Fin(0) && DoneOk(st, P) && PhaseOk(g, st, P)
    ensures Shape(g, start, st') && st'.dist[start] == Fin(0)
  {
    RelaxTarget(g, start, st, P, u, k, v, w);
    RelaxShape(g, start, st, v, st.idx + w, st');
  }

  lemma RelaxInv(g: Graph, start: string, st: State, P: set<string>, u: string, k: nat, v: string, w: nat, st': State)
    requires Relaxes(g, start, st, P, u, k, v, w, st')
    ensures Inv(g, start, st', P)
  {
    assert Moves(g, st, u, k, v, w, st');
    assert Shape(g, start, st) && st.dist[start] == Fin(0) && PhaseOk(g, st, P);
    assert Entered(st) && Passed(st) && DoneOk(st, P) && Live(st, P) && Once(st);
    RelaxBucketsInv(g, start, st, P, u, k, v, w, st');
    RelaxPathsInv(g, start, st, P, u, k, v, w, st');
    RelaxShapeInv(g, start, st, P, u, k, v, w, st');
    InvIntro(g, start, st', P);
  }

  /** Every node a snapshot reports as processed holds its shortest-path
      distance, which is the bucket it was taken from. */
  ghost predicate ProcessShortest(g: Graph, start: string, t: seq<Snapshot>)
  {
    forall i :: 0 <= i < |t| && t[i].event.Process? ==> IsShortest(g.adj, start, t[i].event.u, t[i].event.bucket)
  }

  lemma ScanStepInv(g: Graph, start: string, st: State, P: set<string>)
    requires Inv(g, start, st, P) && !Finished(st) && st.phase.Scanning?
    ensures Step(g, start, st).Ok?
    ensures Inv(g, start, Step(g, start, st).value.0, NextDone(g, start, st, P))
    ensures ProcessShortest(g, start, Step(g, start, st).value.1)
  {
    var b := st.buckets[st.idx];
    if b == [] {
      SkipInv(g, start, st, P);
      StepSkip(g, start, st);
    } else {
      StepPop(g, start, st);
      if Lt(st.dist[b[0]], Fin(st.idx)) {
        StalePopInv(g, start, st, P);
      } else {
        FreshPopShortest(g, start, st, P);
        FreshPopInv(g, start, st, P);
      }
    }
  }

  /** The step taken on an adjacency entry that improves its target, read
      off the engine without the invariant in view. */
  lemma ImproveStep(g: Graph, start: string, st: State, u: string, k: nat, v: string, w: nat, st': State)
    requires Shape(g, start, st) && st.phase == Relaxing(u, k)
    requires k < |Neighbors(g, u)| && Neighbors(g, u)[k] == (v, w)
    requires u in st.dist && st.dist[u] == Fin(st.idx) && Lt(Fin(st.idx + w), st.dist[v]) && st.idx + w < |st.buckets|
    requires st' == State(st.dist[v := Fin(st.idx + w)], st.buckets[st.idx + w := st.buckets[st.idx + w] + [v]], st.idx, Relaxing(u, k + 1))
    ensures Step(g, start, st).Ok? && Step(g, start, st).value.0 == st'
    ensures forall i :: 0 <= i < |Step(g, start, st).value.1| ==> !Step(g, start, st).value.1[i].event.Process?
  {
    assert Add(st.dist[u], w) == Fin(st.idx + w);
    StepExamine(g, start, st, u, k, v, w);
  }

  /** The step taken on an adjacency entry that does not improve its target. */
  lemma ExamineStep(g: Graph, start: string, st: State, u: string, k: nat, v: string, w: nat, st': State)
    requires Shape(g, start, st) && st.phase == Relaxing(u, k)
    requires k < |Neighbors(g, u)| && Neighbors(g, u)[k] == (v, w)
    requires !Lt(Add(st.dist[u], w), st.dist[v])
    requires st' == st.(phase := Relaxing(u, k + 1))
    ensures Step(g, start, st).Ok? && Step(g, start, st).value.0 == st'
    ensures forall i :: 0 <= i < |Step(g, start, st).value.1| ==> !Step(g, start, st).value.1[i].event.Process?
  {
    StepExamine(g, start, st, u, k, v, w);
  }

  /** Relaxing an adjacency entry that improves its target. */
  lemma ImproveStepInv(g: Graph, start: string, st: State, P: set<string>, u: string, k: nat, v: string, w: nat)
    requires Inv(g, start, st, P) && st.phase == Relaxing(u, k)
    requires k < |Neighbors(g, u)| && Neighbors(g, u)[k] == (v, w)
    requires Lt(Add(st.dist[u], w), st.dist[v])
    ensures Step(g, start, st).Ok?
    ensures Inv(g, start, Step(g, start, st).value.0, P)
    ensures forall i :: 0 <= i < |Step(g, start, st).value.1| ==> !Step(g, start, st).value.1[i].event.Process?
  {
    assert st.dist[u] == Fin(st.idx) && Add(st.dist[u], w) == Fin(st.idx + w);
    var c := st.idx + w;
    var _ := RelaxFacts(g, start, st, P, u, k, v, w);
    var st' := State(st.dist[v := Fin(c)], st.buckets[c := st.buckets[c] + [v]], st.idx, Relaxing(u, k + 1));
    ImproveStep(g, start, st, u, k, v, w, st');
    RelaxInv(g, start, st, P, u, k, v, w, st');
  }

  /** Examining an adjacency entry that does not improve its target. */
  lemma ExamineStepInv(g: Graph, start: string, st: State, P: set<string>, u: string, k: nat, v: string, w: nat)
    requires Inv(g, start, st, P) && st.phase == Relaxing(u, k)
    requires k < |Neighbors(g, u)| && Neighbors(g, u)[k] == (v, w)
    requires !Lt(Add(st.dist[u], w), st.dist[v])
    ensures Step(g, start, st).Ok?
    ensures Inv(g, start, Step(g, start, st).value.0, P)
    ensures forall i :: 0 <= i < |Step(g, start, st).value.1| ==> !Step(g, start, st).value.1[i].event.Process?
  {
    var st' := st.(phase := Relaxing(u, k + 1));
    ExamineStep(g, start, st, u, k, v, w, st');
    NoRelaxInv(g, start, st, P, st');
  }

  lemma RelaxStepInv(g: Graph, start: string, st: State, P: set<string>)
    requires Inv(g, start, st, P) && st.phase.Relaxing?
    ensures Step(g, start, st).Ok?
    ensures Inv(g, start, Step(g, start, st).value.0, P)
    ensures forall i :: 0 <= i < |Step(g, start, st).value.1| ==> !Step(g, start, st).value.1[i].event.Process?
  {
    var u, k := st.phase.u, st.phase.k;
    if k == |Neighbors(g, u)| {
      DoneRelaxingInv(g, start, st, P);
      StepEndRelaxing(g, start, st, u);
    } else {
      var v, w := Neighbors(g, u)[k].0, Neighbors(g, u)[k].1;
      if Lt(Add(st.dist[u], w), st.dist[v]) {
        ImproveStepInv(g, start, st, P, u, k, v, w);
      } else {
        ExamineStepInv(g, start, st, P, u, k, v, w);
      }
    }
  }

  /** One step under the invariant never stops on a bucket index, keeps the
      invariant, and processes only nodes at their shortest distance. */
  lemma StepInv(g: Graph, start: string, st: State, P: set<string>)
    requires Inv(g, start, st, P) && !Finished(st)
    ensures Step(g, start, st).Ok?
    ensures Inv(g, start, Step(g, start, st).value.0, NextDone(g, start, st, P))
    ensures ProcessShortest(g, start, Step(g, start, st).value.1)
  {
    if st.phase.Scanning? {
      ScanStepInv(g, start, st, P);
    } else {
      RelaxStepInv(g, start, st, P);
    }
  }

  // ---- The whole run.

  /** The last snapshot holds, for every key, the shortest-path distance
      from the start, `Inf` exactly for the nodes the start cannot reach. */
  ghost predicate FinalCorrect(g: Graph, start: string, t: seq<Snapshot>)
  {
    |t| > 0 && AllCorrect(g, start, t[|t| - 1].distances)
  }

  ghost predicate AllCorrect(g: Graph, start: string, dist: map<string, Dist>)
  {
    forall v :: v in dist ==> Correct(g.adj, start, v, dist[v])
  }

  /** Once every bucket is scanned, the labels are the shortest-path
      distances. */
  lemma FinishedCorrect(g: Graph, start: string, st: State, P: set<string>)
    requires Inv(g, start, st, P) && Finished(st)
    ensures forall v :: v in st.dist ==> Correct(g.adj, start, v, st.dist[v])
  {
    forall u, i | u in g.adj && 0 <= i < |g.adj[u]| && Get(st.dist, u).Fin?
      ensures Le(Get(st.dist, g.adj[u][i].0), Add(Get(st.dist, u), g.adj[u][i].1))
    {
      assert u in g.nodes;
      assert RelaxedUpTo(g, st.dist, u, |Neighbors(g, u)|);
    }
    assert Feasible(g.adj, st.dist);
    FeasibleIsCorrect(g.adj, start, st.dist);
  }

  lemma ConcatCorrect(g: Graph, start: string, snaps: seq<Snapshot>, rest: seq<Snapshot>)
    requires ProcessShortest(g, start, snaps)
    requires ProcessShortest(g, start, rest) && FinalCorrect(g, start, rest)
    ensures ProcessShortest(g, start, snaps + rest) && FinalCorrect(g, start, snaps + rest)
  {
    var t := snaps + rest;
    assert forall i :: |snaps| <= i < |t| ==> t[i] == rest[i - |snaps|];
    assert forall i :: 0 <= i < |snaps| ==> t[i] == snaps[i];
  }

  lemma {:induction false} RunCorrect(g: Graph, start: string, st: State, P: set<string>)
    requires Inv(g, start, st, P)
    ensures Run(g, start, st).Ok?
    ensures ProcessShortest(g, start, Run(g, start, st).value)
    ensures FinalCorrect(g, start, Run(g, start, st).value)
    decreases StepCount(g, start, st)
  {
    if Finished(st) {
      FinishedCorrect(g, start, st, P);
      assert Run(g, start, st) == Ok([FinalSnapshot(g, start, st)]);
    } else {
      StepInv(g, start, st, P);
      var (st', snaps) := Step(g, start, st).value;
      RunCorrect(g, start, st', NextDone(g, start, st, P));
      assert Run(g, start, st) == Ok(snaps + Run(g, start, st').value);
      ConcatCorrect(g, start, snaps, Run(g, start, st').value);
    }
  }

  /** On every graph the graph operations can build, the engine never indexes
      past its bucket array; each node it processes is taken from the bucket
      of its shortest-path distance, and the final snapshot holds the
      shortest-path distance of every node, `Inf` for the unreachable ones. */
  lemma TraceCorrect(g: Graph, start: string)
    requires WellFormed(g)
    ensures ComputeTrace(g, start).Ok?
    ensures ProcessShortest(g, start, ComputeTrace(g, start).value)
    ensures FinalCorrect(g, start, ComputeTrace(g, start).value)
  {
    var st := InitialState(g, start);
    InitInv(g, start);
    RunCorrect(g, start, st, {});
    var init := Snap(Init(start), st, Some(start), None);
    var rest := Run(g, start, st).value;
    var t := [init] + rest;
    assert ComputeTrace(g, start).value == t;
    assert forall i :: 1 <= i < |t| ==> t[i] == rest[i - 1];
    assert t[|t| - 1] == rest[|rest| - 1];
  }

  /** The final snapshot is determined by the shortest-path distances: it is
      the one distance table that is correct for every node. */
  lemma TraceResult(g: Graph, start: string, D: map<string, Dist>)
    requires WellFormed(g)
    requires D.Keys == g.nodes + {start}
    requires forall v :: v in D ==> Correct(g.adj, start, v, D[v])
    ensures ComputeTrace(g, start).Ok?
    ensures var t := ComputeTrace(g, start).value;
      |t| > 0 && t[|t| - 1].distances == D
  {
    TraceCorrect(g, start);
    TraceShape(g, start);
    var t := ComputeTrace(g, start).value;
    var last := t[|t| - 1].distances;
    assert last.Keys == D.Keys;
    forall v | v in last
      ensures last[v] == D[v]
    {
      CorrectUnique(g.adj, start, v, last[v], D[v]);
    }
  }
}
