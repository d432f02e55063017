/** The reference engine of `dials.py`: Dial's algorithm over integer node
    ids `0..V-1`, with the "infinite" distance written as the integer `INF`.
    When a node's distance improves, its entry in the old bucket is removed
    before it is appended to the new one, so no stale entries ever exist. */
module Dials {
  import opened BucketQueue

  /** The integer standing for "not reached". */
  const INF: nat := 999999999

  /** `graph[u]` lists the `(v, w)` pairs of the edges leaving `u`. */
  type AdjList = seq<seq<(nat, nat)>>

  /** Where the engine is: looking for the next non-empty bucket, or
      relaxing the `k`-th edge of the node `u` it took from a bucket. */
  datatype Phase = Scanning | Relaxing(u: nat, k: nat)

  datatype State = State(dist: seq<nat>, buckets: seq<seq<nat>>, idx: nat, phase: Phase)

  /** What the source needs of its arguments to index `dist` and `graph`
      without error: the source and every edge target are node ids, and
      every node id has an adjacency list. */
  predicate ValidInput(graph: AdjList, V: nat, src: nat)
  {
    && V <= |graph|
    && src < V
    && forall u, i :: 0 <= u < V && 0 <= i < |graph[u]| ==> graph[u][i].0 < V
  }

  /** Number of buckets: `max_weight * V + 1`. */
  function Capacity(V: nat, maxWeight: nat): nat
  {
    maxWeight * V + 1
  }

  /** What every state of a run satisfies, whatever the graph's distances. */
  predicate Shape(graph: AdjList, V: nat, src: nat, st: State)
  {
    && ValidInput(graph, V, src)
    && |st.dist| == V
    && st.idx <= |st.buckets|
    && (forall j, x :: 0 <= j < |st.buckets| && x in st.buckets[j] ==> x < V)
    && (st.phase.Relaxing? ==>
          && st.phase.u < V
          && st.phase.k <= |graph[st.phase.u]|
          && st.idx < |st.buckets|)
  }

  predicate Finished(st: State)
  {
    st.phase.Scanning? && st.idx == |st.buckets|
  }

  // ---- Termination measure.

  /** The (node, value) pairs a node's distance may still be lowered to
      without leaving the bucket array. Every relaxation removes one. */
  function Pot(dist: seq<nat>, cap: nat): set<(nat, nat)>
  {
    set v, d | 0 <= v < |dist| && 0 <= d < cap && d < dist[v] :: (v, d)
  }

  function Rank(graph: AdjList, phase: Phase): nat
  {
    match phase
    case Scanning => 0
    case Relaxing(u, k) => if u < |graph| && k <= |graph[u]| then |graph[u]| - k + 1 else 0
  }

  /** `st'` is strictly below `st` in the lexicographic order of
      (`Pot`, bucket entries, buckets left to scan, `Rank`). */
  predicate Progress(graph: AdjList, st': State, st: State)
  {
    var p', p := Pot(st'.dist, |st'.buckets|), Pot(st.dist, |st.buckets|);
    var e', e := Entries(st'.buckets), Entries(st.buckets);
    var s', s := |st'.buckets| - st'.idx, |st.buckets| - st.idx;
    p' < p || (p' == p && (e' < e || (e' == e && (s' < s || (s' == s && Rank(graph, st'.phase) < Rank(graph, st.phase))))))
  }

  lemma PotDrop(dist: seq<nat>, cap: nat, v: nat, n: nat)
    requires v < |dist| && n < cap && n < dist[v]
    ensures Pot(dist[v := n], cap) < Pot(dist, cap)
  {
    var dist' := dist[v := n];
    forall p | p in Pot(dist', cap)
      ensures p in Pot(dist, cap)
    {
      var x, d := p.0, p.1;
      assert x < |dist| && d < dist[x];
    }
    assert (v, n) in Pot(dist, cap);
    assert (v, n) !in Pot(dist', cap);
  }

  // ---- One step of the scan loop.

  /** One action of the scan loop: move past an empty bucket, take the front
      node of the current bucket, or relax one edge of the node taken. */
  function Step(graph: AdjList, V: nat, src: nat, st: State): (r: Result<State>)
    requires Shape(graph, V, src, st) && !Finished(st)
    ensures r.Ok? ==> Shape(graph, V, src, r.value) && |r.value.buckets| == |st.buckets|
  {
    match st.phase
    case Scanning =>
      var b := st.buckets[st.idx];
      if b == [] then Ok(st.(idx := st.idx + 1))
      else
        var popped := st.buckets[st.idx := b[1..]];
        assert forall j, x :: 0 <= j < |popped| && x in popped[j] ==> x in st.buckets[j];
        assert b[0] in st.buckets[st.idx];
        Ok(st.(buckets := popped, phase := Relaxing(b[0], 0)))
    case Relaxing(u, k) =>
      if k == |graph[u]| then Ok(st.(phase := Scanning))
      else
        var v, w := graph[u][k].0, graph[u][k].1;
        if st.dist[v] > st.dist[u] + w then RelaxEdge(graph, V, src, st, v, st.dist[u] + w)
        else Ok(st.(phase := Relaxing(u, k + 1)))
  }

  /** The bucket array after `v`'s first entry in bucket `before` is taken
      out, or unchanged when `before` is `INF`. */
  function TakeOut(b: seq<seq<nat>>, v: nat, before: nat): (r: seq<seq<nat>>)
    requires before != INF ==> before < |b|
    ensures |r| == |b|
    ensures forall j :: 0 <= j < |b| && !(before != INF && j == before) ==> r[j] == b[j]
    ensures before != INF ==> r[before] == RemoveFirst(b[before], v)
    ensures before != INF ==> multiset(r[before]) == multiset(b[before]) - multiset{v}
    ensures forall j, x :: 0 <= j < |r| && x in r[j] ==> x in b[j]
  {
    if before == INF then b else b[before := RemoveFirst(b[before], v)]
  }

  /** The bucket array after `v` moves from bucket `before` to bucket
      `after`: its first entry in `before` is taken out unless `before` is
      `INF`, then it is appended to `after`. */
  function MoveEntry(b: seq<seq<nat>>, v: nat, before: nat, after: nat): (r: seq<seq<nat>>)
    requires after < |b| && (before != INF ==> before < |b|)
    ensures |r| == |b|
    ensures forall j :: 0 <= j < |b| && j != after && !(before != INF && j == before) ==> r[j] == b[j]
    ensures before != INF && before != after ==> multiset(r[before]) == multiset(b[before]) - multiset{v}
    ensures multiset(r[after]) ==
      (if before != INF && after == before then multiset(b[after]) - multiset{v} else multiset(b[after])) + multiset{v}
    ensures |r[after]| > 0 && r[after][|r[after]| - 1] == v
    ensures r[after] == (if before != INF && before == after then RemoveFirst(b[after], v) else b[after]) + [v]
    ensures before != INF && before != after ==> r[before] == RemoveFirst(b[before], v)
    ensures forall j, x :: 0 <= j < |r| && x in r[j] ==> x == v || x in b[j]
  {
    var b1 := TakeOut(b, v, before);
    var r := b1[after := b1[after] + [v]];
    assert multiset(r[after]) == multiset(b1[after]) + multiset{v};
    r
  }

  /** Lowers `v` to `after` while relaxing the current edge, failing on the
      first bucket index past the end. */
  function RelaxEdge(graph: AdjList, V: nat, src: nat, st: State, v: nat, after: nat): (r: Result<State>)
    requires Shape(graph, V, src, st) && st.phase.Relaxing? && st.phase.k < |graph[st.phase.u]|
    requires v < V && after < st.dist[v]
    ensures r.Ok? ==> Shape(graph, V, src, r.value) && |r.value.buckets| == |st.buckets|
  {
    var before := st.dist[v];
    if before != INF && before >= |st.buckets| then Err(BucketIndexOutOfRange(before))
    else if after >= |st.buckets| then Err(BucketIndexOutOfRange(after))
    else
      Ok(State(st.dist[v := after], MoveEntry(st.buckets, v, before, after), st.idx, Relaxing(st.phase.u, st.phase.k + 1)))
  }

  /** Every step goes strictly down the termination measure of `Run`. */
  lemma StepProgress(graph: AdjList, V: nat, src: nat, st: State)
    requires Shape(graph, V, src, st) && !Finished(st) && Step(graph, V, src, st).Ok?
    ensures Progress(graph, Step(graph, V, src, st).value, st)
  {
    match st.phase
    case Scanning =>
      var b := st.buckets[st.idx];
      if b != [] {
        EntriesUpdate(st.buckets, st.idx, b[1..]);
      }
    case Relaxing(u, k) =>
      if k < |graph[u]| {
        var v, w := graph[u][k].0, graph[u][k].1;
        if st.dist[v] > st.dist[u] + w {
          PotDrop(st.dist, |st.buckets|, v, st.dist[u] + w);
        }
      }
  }

  /** The distances left when the scan passes the last bucket. */
  function Run(graph: AdjList, V: nat, src: nat, st: State): Result<seq<nat>>
    requires Shape(graph, V, src, st)
    decreases Pot(st.dist, |st.buckets|), Entries(st.buckets), |st.buckets| - st.idx, Rank(graph, st.phase)
  {
    if Finished(st) then Ok(st.dist)
    else
      var r := Step(graph, V, src, st);
      if r.Err? then Err(r.error)
      else
        StepProgress(graph, V, src, st);
        Run(graph, V, src, r.value)
  }

  /** The number of steps the run takes from `st` before it finishes or
      fails: the measure the proofs about `Run` go down by. */
  function StepCount(graph: AdjList, V: nat, src: nat, st: State): nat
    requires Shape(graph, V, src, st)
    decreases Pot(st.dist, |st.buckets|), Entries(st.buckets), |st.buckets| - st.idx, Rank(graph, st.phase)
  {
    if Finished(st) then 0
    else
      var r := Step(graph, V, src, st);
      if r.Err? then 0
      else
        StepProgress(graph, V, src, st);
        1 + StepCount(graph, V, src, r.value)
  }

  function InitialState(V: nat, src: nat, maxWeight: nat): State
  {
    var dist := seq(V, v => if v == src then 0 else INF);
    var buckets := seq(Capacity(V, maxWeight), i => if i == 0 then [src] else []);
    State(dist, buckets, 0, Scanning)
  }

  /** `dial_algorithm(graph, V, src, max_weight)`: the distance array it
      returns, or the bucket index it would fail on. */
  function DialAlgorithm(graph: AdjList, V: nat, src: nat, maxWeight: nat): Result<seq<nat>>
    requires ValidInput(graph, V, src)
  {
    Run(graph, V, src, InitialState(V, src, maxWeight))
  }
}
