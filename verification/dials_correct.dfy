/** Correctness of the reference engine: when every shortest distance plus
    the weight of an edge leaving that node fits in the bucket array, and
    the array is shorter than `INF`, the engine never fails and returns the
    shortest-path distance of every node, `INF` for the unreachable ones. On
    every graph, each bucket entry sits at its node's current distance. */
module DialsCorrect {
  import opened Paths
  import opened BucketQueue
  import opened Dials

  /** The adjacency lists of the node ids `0..V-1`, as an adjacency map. */
  function Adj(graph: AdjList, V: nat): map<nat, seq<(nat, nat)>>
    requires V <= |graph|
  {
    map u | 0 <= u < V :: graph[u]
  }

  /** A distance of the source read as a `Dist`: `INF` is the infinite one. */
  function ToDist(x: nat): Dist
  {
    if x == INF then Inf else Fin(x)
  }

  function Labels(dist: seq<nat>): map<nat, Dist>
  {
    map v | 0 <= v < |dist| :: ToDist(dist[v])
  }

  /** Every shortest distance plus the weight of an edge leaving that node is
      below `cap`. */
  ghost predicate Fits(graph: AdjList, V: nat, src: nat, cap: nat)
    requires V <= |graph|
  {
    forall u: nat, d: nat, i: nat :: u < V && IsShortest<nat>(Adj(graph, V), src, u, d) && i < |graph[u]| ==>
      d + graph[u][i].1 < cap
  }

  // ---- What `Step` does in each case, stated apart from any invariant.

  lemma StepSkip(graph: AdjList, V: nat, src: nat, st: State)
    requires Shape(graph, V, src, st) && st.phase.Scanning? && st.idx < |st.buckets| && st.buckets[st.idx] == []
    ensures Step(graph, V, src, st) == Ok(st.(idx := st.idx + 1))
  {
  }

  lemma StepPop(graph: AdjList, V: nat, src: nat, st: State)
    requires Shape(graph, V, src, st) && st.phase.Scanning? && st.idx < |st.buckets| && st.buckets[st.idx] != []
    ensures Step(graph, V, src, st) ==
      Ok(st.(buckets := st.buckets[st.idx := st.buckets[st.idx][1..]], phase := Relaxing(st.buckets[st.idx][0], 0)))
  {
  }

  lemma StepEndRelaxing(graph: AdjList, V: nat, src: nat, st: State, u: nat)
    requires Shape(graph, V, src, st) && st.phase.Relaxing? && st.phase.u == u && st.phase.k == |graph[u]|
    ensures Step(graph, V, src, st) == Ok(st.(phase := Scanning))
  {
  }

  /** An adjacency entry that does not improve its target only moves the
      phase on. */
  lemma StepKeeps(graph: AdjList, V: nat, src: nat, st: State, u: nat, k: nat, v: nat, w: nat)
    requires Shape(graph, V, src, st) && st.phase == Relaxing(u, k)
    requires k < |graph[u]| && graph[u][k] == (v, w) && st.dist[v] <= st.dist[u] + w
    ensures Step(graph, V, src, st) == Ok(st.(phase := Relaxing(u, k + 1)))
  {
  }

  lemma StepImproves(graph: AdjList, V: nat, src: nat, st: State, u: nat, k: nat, v: nat, w: nat)
    requires Shape(graph, V, src, st) && st.phase == Relaxing(u, k)
    requires k < |graph[u]| && graph[u][k] == (v, w) && st.dist[u] + w < st.dist[v]
    ensures Step(graph, V, src, st) == RelaxEdge(graph, V, src, st, v, st.dist[u] + w)
  {
  }

  /** `RelaxEdge` fails exactly on a bucket index past the end. */
  lemma RelaxEdgeCases(graph: AdjList, V: nat, src: nat, st: State, v: nat, after: nat)
    requires Shape(graph, V, src, st) && st.phase.Relaxing? && st.phase.k < |graph[st.phase.u]|
    requires v < V && after < st.dist[v]
    ensures (st.dist[v] != INF ==> st.dist[v] < |st.buckets|) && after < |st.buckets| ==>
      RelaxEdge(graph, V, src, st, v, after) ==
        Ok(State(st.dist[v := after], MoveEntry(st.buckets, v, st.dist[v], after), st.idx, Relaxing(st.phase.u, st.phase.k + 1)))
    ensures !((st.dist[v] != INF ==> st.dist[v] < |st.buckets|) && after < |st.buckets|) ==>
      RelaxEdge(graph, V, src, st, v, after).Err?
  {
    var before := st.dist[v];
    if before != INF && before >= |st.buckets| {
    } else if after >= |st.buckets| {
    } else {
      assert RelaxEdge(graph, V, src, st, v, after) ==
        Ok(State(st.dist[v := after], MoveEntry(st.buckets, v, before, after), st.idx, Relaxing(st.phase.u, st.phase.k + 1)));
    }
  }

  /** An improving entry whose old and new buckets both exist moves `v`'s
      entry between them. */
  lemma StepMoves(graph: AdjList, V: nat, src: nat, st: State, u: nat, k: nat, v: nat, w: nat)
    requires Shape(graph, V, src, st) && st.phase == Relaxing(u, k)
    requires k < |graph[u]| && graph[u][k] == (v, w) && st.dist[u] + w < st.dist[v]
    requires (st.dist[v] != INF ==> st.dist[v] < |st.buckets|) && st.dist[u] + w < |st.buckets|
    ensures Step(graph, V, src, st) ==
      Ok(State(st.dist[v := st.dist[u] + w], MoveEntry(st.buckets, v, st.dist[v], st.dist[u] + w), st.idx, Relaxing(u, k + 1)))
  {
    StepImproves(graph, V, src, st, u, k, v, w);
    RelaxEdgeCases(graph, V, src, st, v, st.dist[u] + w);
  }

  /** An improving entry whose old or new bucket is past the end fails. */
  lemma StepOverflows(graph: AdjList, V: nat, src: nat, st: State, u: nat, k: nat, v: nat, w: nat)
    requires Shape(graph, V, src, st) && st.phase == Relaxing(u, k)
    requires k < |graph[u]| && graph[u][k] == (v, w) && st.dist[u] + w < st.dist[v]
    requires !((st.dist[v] != INF ==> st.dist[v] < |st.buckets|) && st.dist[u] + w < |st.buckets|)
    ensures Step(graph, V, src, st).Err?
  {
    StepImproves(graph, V, src, st, u, k, v, w);
    RelaxEdgeCases(graph, V, src, st, v, st.dist[u] + w);
  }

  // ---- Exactness: no stale entries, on every graph.

  /** Every bucket entry sits at its node's current distance. */
  predicate Exact(st: State)
  {
    forall j, x {:trigger x in st.buckets[j]} :: 0 <= j < |st.buckets| && x in st.buckets[j] ==> x < |st.dist| && st.dist[x] == j
  }

  /** A node has at most one entry at its current distance. */
  predicate Once(st: State)
  {
    forall v :: 0 <= v < |st.dist| && st.dist[v] < |st.buckets| ==> multiset(st.buckets[st.dist[v]])[v] <= 1
  }

  lemma PopExact(st: State)
    requires Exact(st) && Once(st) && st.idx < |st.buckets| && st.buckets[st.idx] != []
    ensures var st' := st.(buckets := st.buckets[st.idx := st.buckets[st.idx][1..]]);
      Exact(st') && Once(st')
  {
    var b := st.buckets[st.idx];
    var st' := st.(buckets := st.buckets[st.idx := b[1..]]);
    assert b == [b[0]] + b[1..];
    assert forall x :: x in b[1..] ==> x in b;
    assert forall x :: multiset(b[1..])[x] <= multiset(b)[x];
    forall j, x | 0 <= j < |st'.buckets| && x in st'.buckets[j]
      ensures x < |st'.dist| && st'.dist[x] == j
    {
      assert x in st.buckets[j];
    }
  }

  /** Moving `v` from its current distance to a lower one keeps every entry at
      its node's distance and every node at most once in its bucket. */
  lemma MoveExact(st: State, v: nat, after: nat, st': State)
    requires Exact(st) && Once(st)
    requires v < |st.dist| && after < st.dist[v] && after < |st.buckets|
    requires st.dist[v] != INF ==> st.dist[v] < |st.buckets|
    requires st.dist[v] == INF ==> forall j :: 0 <= j < |st.buckets| ==> v !in st.buckets[j]
    requires st'.dist == st.dist[v := after] && st'.buckets == MoveEntry(st.buckets, v, st.dist[v], after)
    ensures Exact(st') && Once(st') && OthersKept(st, v, st') && v in st'.buckets[after]
  {
    var before := st.dist[v];
    var b := st.buckets;
    var r := st'.buckets;
    forall j, x | 0 <= j < |b| && x != v
      ensures multiset(r[j])[x] == multiset(b[j])[x]
    {
    }
    forall j | 0 <= j < |b| && j != after
      ensures v !in r[j]
    {
      if before != INF && j == before {
        assert multiset(b[j])[v] <= 1;
        assert multiset(r[j])[v] == 0;
      } else {
        assert multiset(r[j])[v] == multiset(b[j])[v];
        assert v !in b[j];
      }
    }
    assert v !in b[after];
    assert multiset(r[after])[v] == 1;
    forall j, x | 0 <= j < |r| && x in r[j]
      ensures x < |st'.dist| && st'.dist[x] == j
    {
      assert multiset(r[j])[x] > 0;
      if x != v {
        assert multiset(r[j])[x] == multiset(b[j])[x];
        assert x in b[j];
      }
    }
    assert Exact(st');
    forall x | 0 <= x < |st'.dist| && st'.dist[x] < |r|
      ensures multiset(r[st'.dist[x]])[x] <= 1
    {
      if x != v {
        assert multiset(r[st.dist[x]])[x] == multiset(b[st.dist[x]])[x];
      }
    }
  }

  lemma PopStepExact(graph: AdjList, V: nat, src: nat, st: State)
    requires Shape(graph, V, src, st) && st.phase.Scanning? && st.idx < |st.buckets| && st.buckets[st.idx] != []
    requires Exact(st) && Once(st)
    ensures Step(graph, V, src, st).Ok? && Exact(Step(graph, V, src, st).value) && Once(Step(graph, V, src, st).value)
  {
    StepPop(graph, V, src, st);
    PopExact(st);
  }

  lemma EdgeStepExact(graph: AdjList, V: nat, src: nat, st: State, u: nat, k: nat, v: nat, w: nat)
    requires Shape(graph, V, src, st) && st.phase == Relaxing(u, k)
    requires k < |graph[u]| && graph[u][k] == (v, w)
    requires Exact(st) && Once(st) && |st.buckets| <= INF
    ensures Step(graph, V, src, st).Ok? ==> Exact(Step(graph, V, src, st).value) && Once(Step(graph, V, src, st).value)
  {
    var after := st.dist[u] + w;
    if st.dist[v] <= after {
      KeptExact(graph, V, src, st, u, k, v, w);
    } else if (st.dist[v] != INF ==> st.dist[v] < |st.buckets|) && after < |st.buckets| {
      ImprovedExact(graph, V, src, st, u, k, v, w);
    } else {
      StepOverflows(graph, V, src, st, u, k, v, w);
    }
  }

  /** An edge that does not improve its target leaves the buckets alone. */
  lemma KeptExact(graph: AdjList, V: nat, src: nat, st: State, u: nat, k: nat, v: nat, w: nat)
    requires Shape(graph, V, src, st) && st.phase == Relaxing(u, k)
    requires k < |graph[u]| && graph[u][k] == (v, w)
    requires Exact(st) && Once(st) && st.dist[v] <= st.dist[u] + w
    ensures Step(graph, V, src, st).Ok? && Exact(Step(graph, V, src, st).value) && Once(Step(graph, V, src, st).value)
  {
    var nx := st.(phase := Relaxing(u, k + 1));
    assert Step(graph, V, src, st) == Ok(nx) by {
      StepKeeps(graph, V, src, st, u, k, v, w);
    }
    assert Exact(nx) && Once(nx);
  }

  /** An edge that improves its target moves its one entry. */
  lemma ImprovedExact(graph: AdjList, V: nat, src: nat, st: State, u: nat, k: nat, v: nat, w: nat)
    requires Shape(graph, V, src, st) && st.phase == Relaxing(u, k)
    requires k < |graph[u]| && graph[u][k] == (v, w)
    requires Exact(st) && Once(st) && |st.buckets| <= INF
    requires st.dist[u] + w < st.dist[v] && st.dist[u] + w < |st.buckets|
    requires st.dist[v] != INF ==> st.dist[v] < |st.buckets|
    ensures Step(graph, V, src, st).Ok? && Exact(Step(graph, V, src, st).value) && Once(Step(graph, V, src, st).value)
  {
    var after := st.dist[u] + w;
    var nx := State(st.dist[v := after], MoveEntry(st.buckets, v, st.dist[v], after), st.idx, Relaxing(u, k + 1));
    assert Step(graph, V, src, st) == Ok(nx) by {
      StepMoves(graph, V, src, st, u, k, v, w);
    }
    assert st.dist[v] == INF ==> forall j :: 0 <= j < |st.buckets| ==> v !in st.buckets[j];
    MoveExact(st, v, after, nx);
  }

  /** Every step keeps each bucket entry at its node's current distance, so
      the buckets never hold a stale entry. */
  lemma StepExact(graph: AdjList, V: nat, src: nat, st: State)
    requires Shape(graph, V, src, st) && !Finished(st) && Exact(st) && Once(st)
    requires |st.buckets| <= INF
    ensures Step(graph, V, src, st).Ok? ==> Exact(Step(graph, V, src, st).value) && Once(Step(graph, V, src, st).value)
  {
    match st.phase
    case Scanning =>
      if st.buckets[st.idx] == [] {
        StepSkip(graph, V, src, st);
      } else {
        PopStepExact(graph, V, src, st);
      }
    case Relaxing(u, k) =>
      if k == |graph[u]| {
        StepEndRelaxing(graph, V, src, st, u);
      } else {
        EdgeStepExact(graph, V, src, st, u, k, graph[u][k].0, graph[u][k].1);
      }
  }

  /** `dist'` is `st.dist` with the target of the edge being relaxed lowered
      to the current node's distance plus the edge's weight, which was below
      the target's distance. */
  predicate LowersTarget(graph: AdjList, st: State, dist': seq<nat>)
  {
    && st.phase.Relaxing?
    && st.phase.u < |graph| && st.phase.k < |graph[st.phase.u]|
    && st.phase.u < |st.dist| && graph[st.phase.u][st.phase.k].0 < |st.dist|
    && st.dist[st.phase.u] + graph[st.phase.u][st.phase.k].1 < st.dist[graph[st.phase.u][st.phase.k].0]
    && dist' == st.dist[graph[st.phase.u][st.phase.k].0 := st.dist[st.phase.u] + graph[st.phase.u][st.phase.k].1]
  }

  /** A step never raises a distance nor moves the scan index back; it
      changes at most one distance, and only to the current node's distance
      plus the weight of the edge being relaxed, when that is lower. */
  lemma StepLowers(graph: AdjList, V: nat, src: nat, st: State)
    requires Shape(graph, V, src, st) && !Finished(st) && Step(graph, V, src, st).Ok?
    ensures var st' := Step(graph, V, src, st).value;
      && st'.idx >= st.idx
      && |st'.dist| == |st.dist|
      && (forall v :: 0 <= v < |st.dist| ==> st'.dist[v] <= st.dist[v])
      && (st'.dist == st.dist || LowersTarget(graph, st, st'.dist))
  {
  }

  // ---- The invariant of the scan. `P` is the set of nodes taken from a
  // ---- bucket so far.

  /** The first `k` edges of `u` cannot lower any distance. */
  predicate RelaxedUpTo(graph: AdjList, dist: seq<nat>, u: nat, k: nat)
    requires u < |graph| && u < |dist| && k <= |graph[u]|
  {
    forall i :: 0 <= i < k ==> graph[u][i].0 < |dist| && dist[graph[u][i].0] <= dist[u] + graph[u][i].1
  }

  /** The buckets the scan has passed are empty. */
  predicate Passed(st: State)
  {
    forall j :: 0 <= j < st.idx && j < |st.buckets| ==> st.buckets[j] == []
  }

  /** A node taken from a bucket has a distance no higher than the scan index
      and no entry left. */
  predicate DoneOk(st: State, P: set<nat>)
  {
    forall p :: p in P ==>
      && p < |st.dist| && st.dist[p] <= st.idx && st.dist[p] < |st.buckets|
      && p !in st.buckets[st.dist[p]]
  }

  /** A reached node not yet taken has an entry at its distance. */
  predicate Live(st: State, P: set<nat>)
  {
    forall v :: 0 <= v < |st.dist| && st.dist[v] != INF && v !in P ==>
      st.dist[v] < |st.buckets| && v in st.buckets[st.dist[v]]
  }

  /** Every node taken, other than the one being relaxed, has had all its
      edges relaxed. */
  predicate Settled(graph: AdjList, st: State, P: set<nat>)
  {
    forall p :: p in P && p < |graph| && p < |st.dist| && !(st.phase.Relaxing? && st.phase.u == p) ==>
      RelaxedUpTo(graph, st.dist, p, |graph[p]|)
  }

  /** The node being relaxed was taken at the scan index and has had its
      first `k` edges relaxed. */
  predicate PhaseOk(graph: AdjList, st: State, P: set<nat>)
  {
    st.phase.Relaxing? ==>
      && st.phase.u in P
      && st.phase.u < |graph| && st.phase.u < |st.dist|
      && st.dist[st.phase.u] == st.idx
      && st.phase.k <= |graph[st.phase.u]|
      && RelaxedUpTo(graph, st.dist, st.phase.u, st.phase.k)
  }

  /** Nodes taken from a bucket hold their shortest-path distance. */
  ghost predicate Final(graph: AdjList, V: nat, src: nat, st: State, P: set<nat>)
    requires V <= |graph|
  {
    forall p: nat :: p in P ==> p < |st.dist| && st.dist[p] != INF && IsShortest<nat>(Adj(graph, V), src, p, st.dist[p])
  }

  /** Every distance other than `INF` is the weight of a walk from `src`. */
  ghost predicate Reached(graph: AdjList, V: nat, src: nat, dist: seq<nat>)
    requires V <= |graph|
  {
    forall v: nat :: v < |dist| && dist[v] != INF ==>
      exists es: seq<Edge<nat>> :: IsWalk(Adj(graph, V), src, v, es) && Weight(es) == dist[v]
  }

  ghost predicate Inv(graph: AdjList, V: nat, src: nat, st: State, P: set<nat>)
  {
    && Shape(graph, V, src, st)
    && |st.buckets| <= INF
    && Fits(graph, V, src, |st.buckets|)
    && st.dist[src] == 0
    && Exact(st) && Once(st) && Passed(st) && DoneOk(st, P) && Live(st, P)
    && Settled(graph, st, P) && PhaseOk(graph, st, P)
    && Final(graph, V, src, st, P) && Reached(graph, V, src, st.dist)
  }

  lemma InvIntro(graph: AdjList, V: nat, src: nat, st: State, P: set<nat>)
    requires Shape(graph, V, src, st) && |st.buckets| <= INF && Fits(graph, V, src, |st.buckets|) && st.dist[src] == 0
    requires Exact(st) && Once(st) && Passed(st) && DoneOk(st, P) && Live(st, P)
    requires Settled(graph, st, P) && PhaseOk(graph, st, P)
    requires Final(graph, V, src, st, P) && Reached(graph, V, src, st.dist)
    ensures Inv(graph, V, src, st, P)
  {
  }

  lemma InitInv(graph: AdjList, V: nat, src: nat, maxWeight: nat)
    requires ValidInput(graph, V, src) && maxWeight * V < INF
    requires Fits(graph, V, src, Capacity(V, maxWeight))
    ensures var st := InitialState(V, src, maxWeight);
      && |st.dist| == V && st.dist[src] == 0
      && (forall v :: 0 <= v < V && v != src ==> st.dist[v] == INF)
      && |st.buckets| == Capacity(V, maxWeight)
      && st.buckets[0] == [src]
      && (forall j :: 0 < j < |st.buckets| ==> st.buckets[j] == [])
      && st.idx == 0 && st.phase == Scanning
    ensures Inv(graph, V, src, InitialState(V, src, maxWeight), {})
  {
    var st := InitialState(V, src, maxWeight);
    assert IsWalk(Adj(graph, V), src, src, []) && Weight<nat>([]) == 0;
    assert st.buckets[0] == [src];
    assert multiset(st.buckets[0])[src] == 1;
    assert Shape(graph, V, src, st);
    assert Exact(st);
    assert Once(st);
    assert Live(st, {});
    forall v | 0 <= v < |st.dist| && st.dist[v] != INF
      ensures exists es: seq<Edge<nat>> :: IsWalk(Adj(graph, V), src, v, es) && Weight(es) == st.dist[v]
    {
      assert v == src;
      assert IsWalk(Adj(graph, V), src, v, []);
    }
    InvIntro(graph, V, src, st, {});
  }

  /** While scanning, a walk that reaches a node not yet taken along an edge
      leaving a taken node weighs at least the scan index. */
  lemma ClaimEdge(graph: AdjList, V: nat, src: nat, st: State, P: set<nat>, x: nat, i: nat, pre: seq<Edge<nat>>)
    requires ValidInput(graph, V, src) && |st.dist| == V && st.idx <= |st.buckets| <= INF && st.phase.Scanning?
    requires Passed(st) && Live(st, P) && Settled(graph, st, P) && Final(graph, V, src, st, P)
    requires x in P && x < V && i < |graph[x]| && graph[x][i].0 !in P
    requires IsWalk(Adj(graph, V), src, x, pre)
    ensures st.idx <= Weight(pre) + graph[x][i].1
  {
    var (t, w) := graph[x][i];
    assert Final(graph, V, src, st, P);
    assert x < |st.dist| && st.dist[x] != INF;
    assert IsShortest<nat>(Adj(graph, V), src, x, st.dist[x]);
    assert st.dist[x] <= Weight(pre);
    assert RelaxedUpTo(graph, st.dist, x, |graph[x]|);
    assert st.dist[t] <= st.dist[x] + w;
    if st.dist[t] != INF {
      assert t in st.buckets[st.dist[t]];
    }
  }

  /** While scanning, every walk from `src` to a node not yet taken weighs at
      least the scan index. */
  lemma {:induction false} ClaimWalk(graph: AdjList, V: nat, src: nat, st: State, P: set<nat>, t: nat, es: seq<Edge<nat>>)
    requires Inv(graph, V, src, st, P) && st.phase.Scanning?
    requires IsWalk(Adj(graph, V), src, t, es) && t < V && t !in P
    ensures st.idx <= Weight(es)
    decreases |es|
  {
    var adj := Adj(graph, V);
    if |es| == 0 {
      assert t == src && src in st.buckets[0];
    } else {
      var e := es[|es| - 1];
      var pre := es[..|es| - 1];
      assert IsWalk(adj, src, e.src, pre);
      assert e.src in adj && (e.dst, e.w) in adj[e.src];
      var i :| 0 <= i < |graph[e.src]| && graph[e.src][i] == (e.dst, e.w);
      if e.src !in P {
        ClaimWalk(graph, V, src, st, P, e.src, pre);
      } else {
        ClaimEdge(graph, V, src, st, P, e.src, i, pre);
      }
    }
  }

  // ---- One step keeps the invariant, branch by branch.

  lemma SkipInv(graph: AdjList, V: nat, src: nat, st: State, P: set<nat>)
    requires Inv(graph, V, src, st, P) && st.phase.Scanning? && st.idx < |st.buckets| && st.buckets[st.idx] == []
    ensures Inv(graph, V, src, st.(idx := st.idx + 1), P)
  {
  }

  /** The node at the front of the current bucket is at the scan index, not
      yet taken, and holds its shortest-path distance. */
  lemma PopShortest(graph: AdjList, V: nat, src: nat, st: State, P: set<nat>)
    requires Inv(graph, V, src, st, P) && st.phase.Scanning? && st.idx < |st.buckets| && st.buckets[st.idx] != []
    ensures var u := st.buckets[st.idx][0];
      && u < V && u !in P
      && st.dist[u] == st.idx
      && IsShortest<nat>(Adj(graph, V), src, u, st.idx)
  {
    var b := st.buckets[st.idx];
    var u := b[0];
    assert u in st.buckets[st.idx];
    assert st.dist[u] == st.idx && st.dist[u] != INF;
    assert u !in P;
    forall es | IsWalk(Adj(graph, V), src, u, es)
      ensures st.idx <= Weight(es)
    {
      ClaimWalk(graph, V, src, st, P, u, es);
    }
  }

  lemma PopBuckets(st: State, P: set<nat>)
    requires st.phase.Scanning? && st.idx < |st.buckets| && st.buckets[st.idx] != []
    requires Exact(st) && Once(st) && Passed(st) && DoneOk(st, P) && Live(st, P)
    requires st.buckets[st.idx][0] !in P
    ensures var st' := st.(buckets := st.buckets[st.idx := st.buckets[st.idx][1..]]);
      var P' := P + {st.buckets[st.idx][0]};
      Exact(st') && Once(st') && Passed(st') && DoneOk(st', P') && Live(st', P')
  {
    var b := st.buckets[st.idx];
    var st' := st.(buckets := st.buckets[st.idx := b[1..]]);
    PopExact(st);
    PopLive(st, P, b, st');
    PopDoneOk(st, P, b, st');
  }

  lemma PopLive(st: State, P: set<nat>, b: seq<nat>, st': State)
    requires st.idx < |st.buckets| && b == st.buckets[st.idx] && b != []
    requires Live(st, P)
    requires st' == st.(buckets := st.buckets[st.idx := b[1..]])
    ensures Live(st', P + {b[0]})
  {
    assert b == [b[0]] + b[1..];
    forall v | 0 <= v < |st'.dist| && st'.dist[v] != INF && v !in P + {b[0]}
      ensures st'.dist[v] < |st'.buckets| && v in st'.buckets[st'.dist[v]]
    {
      var j := st.dist[v];
      assert v in st.buckets[j];
      if j == st.idx {
        assert v in b[1..];
      }
    }
  }

  lemma PopDoneOk(st: State, P: set<nat>, b: seq<nat>, st': State)
    requires st.idx < |st.buckets| && b == st.buckets[st.idx] && b != []
    requires Exact(st) && Once(st) && DoneOk(st, P)
    requires st' == st.(buckets := st.buckets[st.idx := b[1..]])
    ensures DoneOk(st', P + {b[0]})
  {
    var u := b[0];
    assert b == [u] + b[1..];
    assert u in st.buckets[st.idx];
    forall p | p in P + {u}
      ensures p < |st'.dist| && st'.dist[p] <= st'.idx && st'.dist[p] < |st'.buckets|
      ensures p !in st'.buckets[st'.dist[p]]
    {
      if p in P {
        if st.dist[p] == st.idx {
          assert forall x :: x in b[1..] ==> x in b;
        }
      } else {
        assert st.dist[u] == st.idx;
        assert multiset(b)[u] == multiset(b[1..])[u] + 1;
        assert u !in b[1..];
      }
    }
  }

  lemma PopInv(graph: AdjList, V: nat, src: nat, st: State, P: set<nat>)
    requires Inv(graph, V, src, st, P) && st.phase.Scanning? && st.idx < |st.buckets| && st.buckets[st.idx] != []
    ensures var u := st.buckets[st.idx][0];
      Inv(graph, V, src, st.(buckets := st.buckets[st.idx := st.buckets[st.idx][1..]], phase := Relaxing(u, 0)), P + {u})
  {
    var b := st.buckets[st.idx];
    var u := b[0];
    var P' := P + {u};
    var st' := st.(buckets := st.buckets[st.idx := b[1..]], phase := Relaxing(u, 0));
    PopShortest(graph, V, src, st, P);
    PopBuckets(st, P);
    PopPaths(graph, V, src, st, P, u, st');
    InvIntro(graph, V, src, st', P');
  }

  /** Taking `u`, which holds its shortest distance, keeps the path pieces of
      the invariant with `u` added to the processed set. */
  lemma PopPaths(graph: AdjList, V: nat, src: nat, st: State, P: set<nat>, u: nat, st': State)
    requires Inv(graph, V, src, st, P) && st.phase.Scanning? && st.idx < |st.buckets|
    requires u < V && u !in P && st.dist[u] == st.idx && IsShortest<nat>(Adj(graph, V), src, u, st.idx)
    requires st'.dist == st.dist && st'.idx == st.idx && |st'.buckets| == |st.buckets| && st'.phase == Relaxing(u, 0)
    requires forall j, x :: 0 <= j < |st'.buckets| && x in st'.buckets[j] ==> x in st.buckets[j]
    ensures Shape(graph, V, src, st') && |st'.buckets| <= INF && Fits(graph, V, src, |st'.buckets|) && st'.dist[src] == 0
    ensures Settled(graph, st', P + {u}) && PhaseOk(graph, st', P + {u})
    ensures Final(graph, V, src, st', P + {u}) && Reached(graph, V, src, st'.dist)
  {
  }

  lemma DoneRelaxingInv(graph: AdjList, V: nat, src: nat, st: State, P: set<nat>)
    requires Inv(graph, V, src, st, P) && st.phase.Relaxing? && st.phase.k == |graph[st.phase.u]|
    ensures Inv(graph, V, src, st.(phase := Scanning), P)
  {
  }

  lemma NoRelaxInv(graph: AdjList, V: nat, src: nat, st: State, P: set<nat>, u: nat, k: nat, v: nat, w: nat)
    requires Inv(graph, V, src, st, P) && st.phase == Relaxing(u, k)
    requires k < |graph[u]| && graph[u][k] == (v, w)
    requires st.dist[v] <= st.dist[u] + w
    ensures Inv(graph, V, src, st.(phase := Relaxing(u, k + 1)), P)
  {
    var st' := st.(phase := Relaxing(u, k + 1));
    NoRelaxPhase(graph, V, src, st, P, u, k, v, w, st');
    KeepPieces(graph, V, src, st, P, st');
    InvIntro(graph, V, src, st', P);
  }

  lemma NoRelaxPhase(graph: AdjList, V: nat, src: nat, st: State, P: set<nat>, u: nat, k: nat, v: nat, w: nat, st': State)
    requires Inv(graph, V, src, st, P) && st.phase == Relaxing(u, k)
    requires k < |graph[u]| && graph[u][k] == (v, w)
    requires st.dist[v] <= st.dist[u] + w
    requires st' == st.(phase := Relaxing(u, k + 1))
    ensures Shape(graph, V, src, st') && Settled(graph, st', P) && PhaseOk(graph, st', P)
  {
    assert RelaxedUpTo(graph, st.dist, u, k + 1);
  }

  /** A move of the phase alone keeps every piece of the invariant that is
      about distances and buckets. */
  lemma KeepPieces(graph: AdjList, V: nat, src: nat, st: State, P: set<nat>, st': State)
    requires Inv(graph, V, src, st, P)
    requires st'.dist == st.dist && st'.buckets == st.buckets && st'.idx == st.idx
    ensures |st'.buckets| <= INF && Fits(graph, V, src, |st'.buckets|) && st'.dist[src] == 0
    ensures Exact(st') && Once(st') && Passed(st') && DoneOk(st', P) && Live(st', P)
    ensures Final(graph, V, src, st', P) && Reached(graph, V, src, st'.dist)
  {
  }


  /** The target of an edge that lowers a distance is neither the current
      node, nor taken, nor `src`. */
  lemma RelaxTarget(graph: AdjList, V: nat, src: nat, st: State, P: set<nat>, u: nat, k: nat, v: nat, w: nat)
    requires Shape(graph, V, src, st) && st.dist[src] == 0 && DoneOk(st, P) && PhaseOk(graph, st, P)
    requires st.phase == Relaxing(u, k) && k < |graph[u]| && graph[u][k] == (v, w)
    requires st.dist[u] + w < st.dist[v]
    ensures st.dist[u] == st.idx
    ensures v != u && v !in P && v != src
  {
  }

  /** The target of an edge that lowers a distance is neither the current
      node, nor taken, nor `src`; its old and new distances are valid bucket
      indices, and a walk of the new weight reaches it. */
  lemma RelaxFacts(graph: AdjList, V: nat, src: nat, st: State, P: set<nat>, u: nat, k: nat, v: nat, w: nat)
    requires Inv(graph, V, src, st, P) && st.phase == Relaxing(u, k)
    requires k < |graph[u]| && graph[u][k] == (v, w)
    requires st.dist[u] + w < st.dist[v]
    ensures st.dist[u] == st.idx
    ensures v != u && v !in P && v != src
    ensures st.idx + w < |st.buckets|
    ensures st.dist[v] != INF ==> st.dist[v] < |st.buckets|
    ensures exists es: seq<Edge<nat>> :: IsWalk(Adj(graph, V), src, v, es) && Weight(es) == st.idx + w
  {
    var adj := Adj(graph, V);
    assert u in adj && adj[u][k] == (v, w);
    var e := Edge(u, v, w);
    assert HasEdge(adj, e);
    assert IsShortest<nat>(adj, src, u, st.idx);
    var es: seq<Edge<nat>> :| IsWalk(adj, src, u, es) && Weight(es) == st.idx;
    WalkExtend(adj, src, es, e);
  }

  /** Moving `v` down to `after` keeps the bucket invariants. */
  lemma RelaxBuckets(st: State, P: set<nat>, v: nat, after: nat, st': State)
    requires Exact(st) && Once(st) && Passed(st) && DoneOk(st, P) && Live(st, P)
    requires |st.buckets| <= INF
    requires v < |st.dist| && v !in P && st.idx <= after < |st.buckets| && after < st.dist[v]
    requires st.dist[v] != INF ==> st.dist[v] < |st.buckets|
    requires st'.dist == st.dist[v := after] && st'.buckets == MoveEntry(st.buckets, v, st.dist[v], after) && st'.idx == st.idx
    ensures Exact(st') && Once(st') && Passed(st') && DoneOk(st', P) && Live(st', P)
  {
    MoveExact(st, v, after, st');
    MovePassed(st, v, after, st');
    MoveDoneOk(st, P, v, after, st');
    MoveLive(st, P, v, after, st');
  }

  /** Entries of nodes other than `v` keep their counts when `v` moves. */
  ghost predicate OthersKept(st: State, v: nat, st': State)
  {
    |st'.buckets| == |st.buckets|
    && forall j, x :: 0 <= j < |st.buckets| && x != v ==> multiset(st'.buckets[j])[x] == multiset(st.buckets[j])[x]
  }

  lemma MovePassed(st: State, v: nat, after: nat, st': State)
    requires Passed(st) && v < |st.dist| && st.idx <= after < st.dist[v]
    requires st'.idx == st.idx && st'.dist == st.dist[v := after] && OthersKept(st, v, st') && Exact(st')
    ensures Passed(st')
  {
    forall j | 0 <= j < st.idx && j < |st'.buckets|
      ensures st'.buckets[j] == []
    {
      assert v !in st'.buckets[j];
      assert multiset(st'.buckets[j]) == multiset(st.buckets[j]);
      assert |st'.buckets[j]| == |multiset(st'.buckets[j])|;
    }
  }

  lemma MoveDoneOk(st: State, P: set<nat>, v: nat, after: nat, st': State)
    requires DoneOk(st, P) && v !in P && v < |st.dist|
    requires st'.idx == st.idx && st'.dist == st.dist[v := after] && OthersKept(st, v, st')
    ensures DoneOk(st', P)
  {
    forall p | p in P
      ensures p < |st'.dist| && st'.dist[p] <= st'.idx && st'.dist[p] < |st'.buckets|
      ensures p !in st'.buckets[st'.dist[p]]
    {
      assert multiset(st'.buckets[st.dist[p]])[p] == multiset(st.buckets[st.dist[p]])[p];
    }
  }

  lemma MoveLive(st: State, P: set<nat>, v: nat, after: nat, st': State)
    requires Live(st, P) && v < |st.dist|
    requires st'.dist == st.dist[v := after] && OthersKept(st, v, st') && after < |st'.buckets| && v in st'.buckets[after]
    ensures Live(st', P)
  {
    forall x | 0 <= x < |st'.dist| && st'.dist[x] != INF && x !in P
      ensures st'.dist[x] < |st'.buckets| && x in st'.buckets[st'.dist[x]]
    {
      if x != v {
        assert multiset(st'.buckets[st.dist[x]])[x] == multiset(st.buckets[st.dist[x]])[x];
      }
    }
  }


  /** Lowering `v` keeps every relaxation fact of a node other than `v`. */
  lemma RelaxedUpToLower(graph: AdjList, dist: seq<nat>, p: nat, k: nat, v: nat, after: nat)
    requires p < |graph| && p < |dist| && k <= |graph[p]| && v < |dist| && v != p && after < dist[v]
    requires RelaxedUpTo(graph, dist, p, k)
    ensures RelaxedUpTo(graph, dist[v := after], p, k)
  {
  }

  lemma RelaxPaths(graph: AdjList, V: nat, src: nat, st: State, P: set<nat>, u: nat, k: nat, v: nat, after: nat)
    requires V <= |graph| && |st.dist| == V && u < V && v < V
    requires st.phase == Relaxing(u, k) && k < |graph[u]| && graph[u][k].0 == v
    requires after == st.dist[u] + graph[u][k].1 && after < st.dist[v] && after != INF
    requires Settled(graph, st, P) && PhaseOk(graph, st, P) && Final(graph, V, src, st, P) && Reached(graph, V, src, st.dist)
    requires v !in P && v != u
    requires after < |st.buckets| && (st.dist[v] != INF ==> st.dist[v] < |st.buckets|)
    requires exists es: seq<Edge<nat>> :: IsWalk(Adj(graph, V), src, v, es) && Weight(es) == after
    ensures var st' := State(st.dist[v := after], MoveEntry(st.buckets, v, st.dist[v], after), st.idx, Relaxing(u, k + 1));
      Settled(graph, st', P) && PhaseOk(graph, st', P) && Final(graph, V, src, st', P) && Reached(graph, V, src, st'.dist)
  {
    var st' := State(st.dist[v := after], MoveEntry(st.buckets, v, st.dist[v], after), st.idx, Relaxing(u, k + 1));
    RelaxSettled(graph, V, src, st, P, u, k, v, after, st');
    RelaxFinal(graph, V, src, st, P, v, after, st'.dist);
    RelaxReached(graph, V, src, st.dist, v, after, st'.dist);
  }

  lemma RelaxSettled(graph: AdjList, V: nat, src: nat, st: State, P: set<nat>, u: nat, k: nat, v: nat, after: nat, st': State)
    requires V <= |graph| && |st.dist| == V && u < V && v < V
    requires st.phase == Relaxing(u, k) && k < |graph[u]| && graph[u][k].0 == v
    requires after == st.dist[u] + graph[u][k].1 && after < st.dist[v]
    requires Settled(graph, st, P) && PhaseOk(graph, st, P) && v !in P && v != u
    requires st'.dist == st.dist[v := after] && st'.idx == st.idx && st'.phase == Relaxing(u, k + 1)
    ensures Settled(graph, st', P) && PhaseOk(graph, st', P)
  {
    forall p | p in P && p < |graph| && p < |st'.dist| && p != u
      ensures RelaxedUpTo(graph, st'.dist, p, |graph[p]|)
    {
      RelaxedUpToLower(graph, st.dist, p, |graph[p]|, v, after);
    }
    RelaxedUpToLower(graph, st.dist, u, k, v, after);
    assert RelaxedUpTo(graph, st'.dist, u, k + 1);
  }

  lemma RelaxFinal(graph: AdjList, V: nat, src: nat, st: State, P: set<nat>, v: nat, after: nat, dist': seq<nat>)
    requires V <= |graph| && |st.dist| == V && v < V && v !in P
    requires Final(graph, V, src, st, P)
    requires dist' == st.dist[v := after]
    ensures Final(graph, V, src, st.(dist := dist'), P)
  {
  }

  lemma RelaxReached(graph: AdjList, V: nat, src: nat, dist: seq<nat>, v: nat, after: nat, dist': seq<nat>)
    requires V <= |graph| && v < |dist| && Reached(graph, V, src, dist)
    requires exists es: seq<Edge<nat>> :: IsWalk(Adj(graph, V), src, v, es) && Weight(es) == after
    requires dist' == dist[v := after]
    ensures Reached(graph, V, src, dist')
  {
  }

  lemma RelaxShape(graph: AdjList, V: nat, src: nat, st: State, u: nat, k: nat, v: nat, after: nat)
    requires Shape(graph, V, src, st) && st.phase == Relaxing(u, k) && k < |graph[u]|
    requires v < V && after < |st.buckets| && (st.dist[v] != INF ==> st.dist[v] < |st.buckets|)
    ensures Shape(graph, V, src, State(st.dist[v := after], MoveEntry(st.buckets, v, st.dist[v], after), st.idx, Relaxing(u, k + 1)))
  {
  }

  /** `st'` is the state after the `k`-th edge `(v, w)` of `u` lowers `v`. */
  predicate Moves(graph: AdjList, st: State, u: nat, k: nat, v: nat, w: nat, st': State)
  {
    && st.phase == Relaxing(u, k)
    && u < |graph| && u < |st.dist| && k < |graph[u]| && graph[u][k] == (v, w) && v < |st.dist|
    && st.dist[u] + w < st.dist[v]
    && (st.dist[v] != INF ==> st.dist[v] < |st.buckets|) && st.dist[u] + w < |st.buckets|
    && st' == State(st.dist[v := st.dist[u] + w], MoveEntry(st.buckets, v, st.dist[v], st.dist[u] + w), st.idx, Relaxing(u, k + 1))
  }

  /** The hypotheses shared by the relaxation lemmas. */
  ghost predicate Relaxes(graph: AdjList, V: nat, src: nat, st: State, P: set<nat>, u: nat, k: nat, v: nat, w: nat, st': State)
  {
    Inv(graph, V, src, st, P) && Moves(graph, st, u, k, v, w, st')
  }

  lemma RelaxBucketsInv(graph: AdjList, st: State, P: set<nat>, u: nat, k: nat, v: nat, w: nat, st': State)
    requires Moves(graph, st, u, k, v, w, st') && st.dist[u] == st.idx
    requires Exact(st) && Once(st) && Passed(st) && DoneOk(st, P) && Live(st, P) && |st.buckets| <= INF
    ensures Exact(st') && Once(st') && Passed(st') && DoneOk(st', P) && Live(st', P)
  {
    assert v !in P;
    RelaxBuckets(st, P, v, st.dist[u] + w, st');
  }

  lemma RelaxPathsInv(graph: AdjList, V: nat, src: nat, st: State, P: set<nat>, u: nat, k: nat, v: nat, w: nat, st': State)
    requires Relaxes(graph, V, src, st, P, u, k, v, w, st')
    ensures Settled(graph, st', P) && PhaseOk(graph, st', P) && Final(graph, V, src, st', P) && Reached(graph, V, src, st'.dist)
  {
    RelaxFacts(graph, V, src, st, P, u, k, v, w);
    RelaxPaths(graph, V, src, st, P, u, k, v, st.dist[u] + w);
  }

  lemma RelaxShapeInv(graph: AdjList, V: nat, src: nat, st: State, P: set<nat>, u: nat, k: nat, v: nat, w: nat, st': State)
    requires Relaxes(graph, V, src, st, P, u, k, v, w, st')
    ensures Shape(graph, V, src, st') && |st'.buckets| <= INF && Fits(graph, V, src, |st'.buckets|) && st'.dist[src] == 0
  {
    RelaxTarget(graph, V, src, st, P, u, k, v, w);
    RelaxShape(graph, V, src, st, u, k, v, st.dist[u] + w);
  }

  lemma RelaxInv(graph: AdjList, V: nat, src: nat, st: State, P: set<nat>, u: nat, k: nat, v: nat, w: nat)
    requires Inv(graph, V, src, st, P) && st.phase == Relaxing(u, k)
    requires k < |graph[u]| && graph[u][k] == (v, w)
    requires st.dist[u] + w < st.dist[v]
    ensures st.dist[v] != INF ==> st.dist[v] < |st.buckets|
    ensures st.dist[u] + w < |st.buckets|
    ensures Inv(graph, V, src, State(st.dist[v := st.dist[u] + w], MoveEntry(st.buckets, v, st.dist[v], st.dist[u] + w), st.idx, Relaxing(u, k + 1)), P)
  {
    RelaxFacts(graph, V, src, st, P, u, k, v, w);
    var st' := State(st.dist[v := st.dist[u] + w], MoveEntry(st.buckets, v, st.dist[v], st.dist[u] + w), st.idx, Relaxing(u, k + 1));
    assert Relaxes(graph, V, src, st, P, u, k, v, w, st');
    assert st.dist[u] == st.idx && Exact(st) && Once(st) && Passed(st) && DoneOk(st, P) && Live(st, P);
    RelaxBucketsInv(graph, st, P, u, k, v, w, st');
    RelaxPathsInv(graph, V, src, st, P, u, k, v, w, st');
    RelaxShapeInv(graph, V, src, st, P, u, k, v, w, st');
    InvIntro(graph, V, src, st', P);
  }

  /** The nodes taken after one step: the front of the current bucket when
      the step takes it. */
  function NextDone(st: State, P: set<nat>): set<nat>
  {
    if st.phase.Scanning? && st.idx < |st.buckets| && st.buckets[st.idx] != [] then P + {st.buckets[st.idx][0]} else P
  }

  lemma ScanStepInv(graph: AdjList, V: nat, src: nat, st: State, P: set<nat>)
    requires Inv(graph, V, src, st, P) && !Finished(st) && st.phase.Scanning?
    ensures Step(graph, V, src, st).Ok?
    ensures Inv(graph, V, src, Step(graph, V, src, st).value, NextDone(st, P))
  {
    if st.buckets[st.idx] == [] {
      SkipInv(graph, V, src, st, P);
      StepSkip(graph, V, src, st);
    } else {
      PopInv(graph, V, src, st, P);
      StepPop(graph, V, src, st);
    }
  }

  lemma RelaxStepInv(graph: AdjList, V: nat, src: nat, st: State, P: set<nat>)
    requires Inv(graph, V, src, st, P) && st.phase.Relaxing?
    ensures Step(graph, V, src, st).Ok?
    ensures Inv(graph, V, src, Step(graph, V, src, st).value, P)
  {
    var u, k := st.phase.u, st.phase.k;
    if k == |graph[u]| {
      DoneRelaxingInv(graph, V, src, st, P);
      StepEndRelaxing(graph, V, src, st, u);
    } else {
      var v, w := graph[u][k].0, graph[u][k].1;
      if st.dist[u] + w < st.dist[v] {
        RelaxInv(graph, V, src, st, P, u, k, v, w);
        StepMoves(graph, V, src, st, u, k, v, w);
      } else {
        NoRelaxInv(graph, V, src, st, P, u, k, v, w);
        StepKeeps(graph, V, src, st, u, k, v, w);
      }
    }
  }

  /** Under the invariant a step never fails on a bucket index and keeps the
      invariant. */
  lemma StepInv(graph: AdjList, V: nat, src: nat, st: State, P: set<nat>)
    requires Inv(graph, V, src, st, P) && !Finished(st)
    ensures Step(graph, V, src, st).Ok?
    ensures Inv(graph, V, src, Step(graph, V, src, st).value, NextDone(st, P))
  {
    if st.phase.Scanning? {
      ScanStepInv(graph, V, src, st, P);
    } else {
      RelaxStepInv(graph, V, src, st, P);
    }
  }

  // ---- The whole run.

  /** Every entry of `dist`, read with `INF` as infinity, is the
      shortest-path distance from `src`. */
  ghost predicate AllCorrect(graph: AdjList, V: nat, src: nat, dist: seq<nat>)
    requires V <= |graph|
  {
    forall v: nat :: v < |dist| ==> Correct(Adj(graph, V), src, v, ToDist(dist[v]))
  }

  /** Once every bucket is scanned, no edge can lower a distance, so the
      distances are the shortest ones. */
  lemma FinishedCorrect(graph: AdjList, V: nat, src: nat, st: State, P: set<nat>)
    requires Inv(graph, V, src, st, P) && Finished(st)
    ensures AllCorrect(graph, V, src, st.dist)
  {
    var adj: map<nat, seq<(nat, nat)>> := Adj(graph, V);
    var L: map<nat, Dist> := Labels(st.dist);
    forall u: nat, i: int | u in adj && 0 <= i < |adj[u]| && Get(L, u).Fin?
      ensures Le(Get(L, adj[u][i].0), Add(Get(L, u), adj[u][i].1))
    {
      assert u < V && st.dist[u] != INF;
      assert IsShortest<nat>(adj, src, u, st.dist[u]);
      assert RelaxedUpTo(graph, st.dist, u, |graph[u]|);
      var x, w := graph[u][i].0, graph[u][i].1;
      assert st.dist[u] + w < |st.buckets|;
      assert st.dist[x] <= st.dist[u] + w;
    }
    assert Feasible(adj, L);
    forall v | v in L && L[v].Fin?
      ensures exists es: seq<Edge<nat>> :: IsWalk(adj, src, v, es) && Weight(es) == L[v].n
    {
      assert st.dist[v] != INF;
    }
    assert Realized(adj, src, L);
    assert Get(L, src) == Fin(0);
    FeasibleIsCorrect(adj, src, L);
    forall v: nat | v < |st.dist|
      ensures Correct(adj, src, v, ToDist(st.dist[v]))
    {
      assert v in L;
    }
  }

  lemma {:induction false} RunCorrect(graph: AdjList, V: nat, src: nat, st: State, P: set<nat>)
    requires Inv(graph, V, src, st, P)
    ensures Run(graph, V, src, st).Ok?
    ensures |Run(graph, V, src, st).value| == V
    ensures AllCorrect(graph, V, src, Run(graph, V, src, st).value)
    decreases StepCount(graph, V, src, st)
  {
    if Finished(st) {
      FinishedCorrect(graph, V, src, st, P);
    } else {
      StepInv(graph, V, src, st, P);
      RunCorrect(graph, V, src, Step(graph, V, src, st).value, NextDone(st, P));
    }
  }

  /** `dial_algorithm` returns `V` distances, each the shortest-path distance
      from `src` (`INF` exactly for the unreachable nodes), whenever every
      shortest distance plus an edge weight fits in the bucket array and the
      array is shorter than `INF`. */
  lemma DialCorrect(graph: AdjList, V: nat, src: nat, maxWeight: nat)
    requires ValidInput(graph, V, src) && maxWeight * V < INF
    requires Fits(graph, V, src, Capacity(V, maxWeight))
    ensures DialAlgorithm(graph, V, src, maxWeight).Ok?
    ensures |DialAlgorithm(graph, V, src, maxWeight).value| == V
    ensures AllCorrect(graph, V, src, DialAlgorithm(graph, V, src, maxWeight).value)
  {
    InitInv(graph, V, src, maxWeight);
    RunCorrect(graph, V, src, InitialState(V, src, maxWeight), {});
  }

  // ---- Weights bounded by `max_weight`.

  /** The node ids `0..n-1`. */
  function Range(n: nat): (r: set<nat>)
    ensures forall x: nat :: x in r <==> x < n
    ensures |r| == n
  {
    if n == 0 then {} else Range(n - 1) + {n - 1}
  }

  /** Every weight is at most `max_weight`. */
  predicate WeightsBounded(graph: AdjList, V: nat, maxWeight: nat)
    requires V <= |graph|
  {
    forall u, i :: 0 <= u < V && 0 <= i < |graph[u]| ==> graph[u][i].1 <= maxWeight
  }

  /** With every weight at most `max_weight`, a shortest path has at most
      `V - 1` edges, so a shortest distance plus one more edge is at most
      `max_weight * V`, the last bucket. */
  lemma WeightsFit(graph: AdjList, V: nat, src: nat, maxWeight: nat)
    requires ValidInput(graph, V, src) && WeightsBounded(graph, V, maxWeight)
    ensures Fits(graph, V, src, Capacity(V, maxWeight))
  {
    var adj, nodes := Adj(graph, V), Range(V);
    forall u: nat, d: nat, i: nat | u < V && IsShortest<nat>(adj, src, u, d) && i < |graph[u]|
      ensures d + graph[u][i].1 < Capacity(V, maxWeight)
    {
      ShortestBound(adj, nodes, src, u, d, maxWeight);
      assert d + graph[u][i].1 <= (V - 1) * maxWeight + maxWeight;
    }
  }

  /** The same result stated with the bound the source's callers pass: every
      weight at most `max_weight`. */
  lemma DialCorrectBounded(graph: AdjList, V: nat, src: nat, maxWeight: nat)
    requires ValidInput(graph, V, src) && WeightsBounded(graph, V, maxWeight) && maxWeight * V < INF
    ensures DialAlgorithm(graph, V, src, maxWeight).Ok?
    ensures |DialAlgorithm(graph, V, src, maxWeight).value| == V
    ensures AllCorrect(graph, V, src, DialAlgorithm(graph, V, src, maxWeight).value)
  {
    WeightsFit(graph, V, src, maxWeight);
    DialCorrect(graph, V, src, maxWeight);
  }

  /** A feasible, realized listing with `src` at 0 and no `INF` lists the
      shortest-path distances. */
  lemma LabelsShortest(graph: AdjList, V: nat, src: nat, D: seq<nat>)
    requires V <= |graph| && |D| == V && src < V && D[src] == 0
    requires forall v :: 0 <= v < V ==> D[v] != INF
    requires Feasible(Adj(graph, V), Labels(D)) && Realized(Adj(graph, V), src, Labels(D))
    ensures forall v: nat :: v < V ==> IsShortest<nat>(Adj(graph, V), src, v, D[v])
  {
    var adj: map<nat, seq<(nat, nat)>> := Adj(graph, V);
    var L: map<nat, Dist> := Labels(D);
    assert Get(L, src) == Fin(0);
    FeasibleIsCorrect(adj, src, L);
    forall v: nat | v < V
      ensures IsShortest<nat>(adj, src, v, D[v])
    {
      assert v in L && L[v] == Fin(D[v]);
    }
  }

  /** When every node is reachable, the result is determined by the
      shortest-path distances alone: it is the listing `D` of them. */
  lemma DialResultUnique(graph: AdjList, V: nat, src: nat, maxWeight: nat, D: seq<nat>)
    requires ValidInput(graph, V, src) && maxWeight * V < INF
    requires Fits(graph, V, src, Capacity(V, maxWeight))
    requires |D| == V && forall v: nat :: v < V ==> IsShortest<nat>(Adj(graph, V), src, v, D[v])
    ensures DialAlgorithm(graph, V, src, maxWeight) == Ok(D)
  {
    var adj: map<nat, seq<(nat, nat)>> := Adj(graph, V);
    DialCorrect(graph, V, src, maxWeight);
    var r := DialAlgorithm(graph, V, src, maxWeight).value;
    forall v: nat | v < V
      ensures r[v] == D[v]
    {
      assert Correct(adj, src, v, ToDist(r[v]));
      assert IsShortest<nat>(adj, src, v, D[v]);
      if r[v] != INF {
        ShortestUnique(adj, src, v, r[v], D[v]);
      }
    }
    assert r == D;
  }
}
