/** The instrumented engine of `dials_logic.py`: Dial's algorithm over a
    `Graph`, leaving stale bucket entries in place and skipping them when
    popped, and recording one snapshot per observable action. The source's
    generator becomes a function returning the whole trace. */
module DialsLogic {
  import opened Paths
  import opened Graphs
  import opened BucketQueue

  datatype Option<T> = None | Some(value: T)

  /** What a snapshot reports, in place of the source's description text. */
  datatype Event =
    | Init(start: string)
    | Process(u: string, bucket: nat)
    | Examine(u: string, v: string, w: nat)
    | Relax(u: string, v: string, w: nat, before: Dist, after: nat)
    | Done(start: string)

  datatype Snapshot = Snapshot(
    event: Event,
    distances: map<string, Dist>,
    buckets: seq<seq<string>>,
    current: Option<string>,
    neighbor: Option<string>,
    path: seq<string>,
    final: bool)

  /** Where the engine is: looking for the next non-empty bucket, or
      examining the `k`-th adjacency entry of the node `u` being processed. */
  datatype Phase = Scanning | Relaxing(u: string, k: nat)

  datatype State = State(dist: map<string, Dist>, buckets: seq<seq<string>>, idx: nat, phase: Phase)

  /** Number of buckets: `len(nodes) * max_weight + 1`. */
  function Capacity(g: Graph): nat
  {
    |g.nodes| * g.maxWeight + 1
  }

  /** The keys of the distance table in insertion order: the sorted nodes,
      then the start node when the graph does not hold it. */
  function KeyOrder(g: Graph, start: string): seq<string>
  {
    GetNodes(g) + if start in g.nodes then [] else [start]
  }

  /** What every state of a run satisfies, whatever the graph's distances. */
  predicate Shape(g: Graph, start: string, st: State)
  {
    && WellFormed(g)
    && |st.buckets| == Capacity(g)
    && st.dist.Keys == g.nodes + {start}
    && st.idx <= |st.buckets|
    && (forall j, x :: 0 <= j < |st.buckets| && x in st.buckets[j] ==> x in st.dist)
    && (st.phase.Relaxing? ==>
          && st.phase.u in st.dist
          && st.phase.k <= |Neighbors(g, st.phase.u)|
          && st.idx < |st.buckets|)
  }

  predicate Finished(st: State)
  {
    st.phase.Scanning? && st.idx == |st.buckets|
  }

  // ---- Termination measure.

  /** The (node, value) pairs a node's label may still be lowered to. Every
      relaxation removes at least one pair. */
  function Pot(dist: map<string, Dist>, cap: nat): set<(string, nat)>
  {
    set v, d | v in dist && 0 <= d < cap && Lt(Fin(d), dist[v]) :: (v, d)
  }

  function Rank(g: Graph, phase: Phase): nat
  {
    match phase
    case Scanning => 0
    case Relaxing(u, k) => if k <= |Neighbors(g, u)| then |Neighbors(g, u)| - k + 1 else 0
  }

  /** `st'` is strictly below `st` in the lexicographic order of
      (`Pot`, bucket entries, buckets left to scan, `Rank`). */
  predicate Progress(g: Graph, st': State, st: State)
  {
    var p', p := Pot(st'.dist, |st'.buckets|), Pot(st.dist, |st.buckets|);
    var e', e := Entries(st'.buckets), Entries(st.buckets);
    var s', s := |st'.buckets| - st'.idx, |st.buckets| - st.idx;
    p' < p || (p' == p && (e' < e || (e' == e && (s' < s || (s' == s && Rank(g, st'.phase) < Rank(g, st.phase))))))
  }

  lemma PotDrop(dist: map<string, Dist>, cap: nat, v: string, n: nat)
    requires v in dist && n < cap && Lt(Fin(n), dist[v])
    ensures Pot(dist[v := Fin(n)], cap) < Pot(dist, cap)
  {
    var dist' := dist[v := Fin(n)];
    forall p | p in Pot(dist', cap)
      ensures p in Pot(dist, cap)
    {
      var x, d := p.0, p.1;
      assert x in dist && Lt(Fin(d), dist[x]);
    }
    assert (v, n) in Pot(dist, cap);
    assert (v, n) !in Pot(dist', cap);
  }

  // ---- One step of the scan loop.

  function Snap(ev: Event, st: State, current: Option<string>, neighbor: Option<string>): Snapshot
  {
    Snapshot(ev, st.dist, st.buckets, current, neighbor, [], false)
  }

  /** One action of the scan loop, with the snapshots it records (none for
      moving past an empty bucket or dropping a stale entry). */
  function Step(g: Graph, start: string, st: State): (r: Result<(State, seq<Snapshot>)>)
    requires Shape(g, start, st) && !Finished(st)
    ensures r.Ok? ==> Shape(g, start, r.value.0)
    ensures r.Ok? ==> forall i :: 0 <= i < |r.value.1| ==>
      && !r.value.1[i].final
      && |r.value.1[i].buckets| == |st.buckets|
      && r.value.1[i].distances.Keys == st.dist.Keys
  {
    match st.phase
    case Scanning =>
      var b := st.buckets[st.idx];
      if b == [] then Ok((st.(idx := st.idx + 1), []))
      else
        var u := b[0];
        var popped := st.buckets[st.idx := b[1..]];
        assert forall j, x :: 0 <= j < |popped| && x in popped[j] ==> x in st.buckets[j];
        if Lt(st.dist[u], Fin(st.idx)) then
          Ok((st.(buckets := popped), []))
        else
          var st' := st.(buckets := popped, phase := Relaxing(u, 0));
          Ok((st', [Snap(Process(u, st.idx), st', Some(u), None)]))
    case Relaxing(u, k) =>
      var es := Neighbors(g, u);
      if k == |es| then Ok((st.(phase := Scanning), []))
      else
        var v, w := es[k].0, es[k].1;
        var examine := Snap(Examine(u, v, w), st, Some(u), Some(v));
        var cand := Add(st.dist[u], w);
        if Lt(cand, st.dist[v]) then
          if cand.n < |st.buckets| then
            var st' := State(st.dist[v := cand], st.buckets[cand.n := st.buckets[cand.n] + [v]], st.idx, Relaxing(u, k + 1));
            Ok((st', [examine, Snap(Relax(u, v, w, st.dist[v], cand.n), st', Some(u), Some(v))]))
          else
            Err(BucketIndexOutOfRange(cand.n))
        else
          Ok((st.(phase := Relaxing(u, k + 1)), [examine]))
  }

  /** Every step goes strictly down the termination measure of `Run`. */
  lemma StepProgress(g: Graph, start: string, st: State)
    requires Shape(g, start, st) && !Finished(st) && Step(g, start, st).Ok?
    ensures Progress(g, Step(g, start, st).value.0, st)
  {
    var st' := Step(g, start, st).value.0;
    match st.phase
    case Scanning =>
      var b := st.buckets[st.idx];
      if b != [] {
        EntriesUpdate(st.buckets, st.idx, b[1..]);
      }
    case Relaxing(u, k) =>
      var es := Neighbors(g, u);
      if k < |es| {
        var v, w := es[k].0, es[k].1;
        var cand := Add(st.dist[u], w);
        if Lt(cand, st.dist[v]) {
          PotDrop(st.dist, |st.buckets|, v, cand.n);
        }
      }
  }

  function FinalSnapshot(g: Graph, start: string, st: State): Snapshot
  {
    Snapshot(Done(start), st.dist, st.buckets, None, None, KeyOrder(g, start), true)
  }

  /** The snapshots from `st` to the end of the run. */
  function Run(g: Graph, start: string, st: State): Result<seq<Snapshot>>
    requires Shape(g, start, st)
    decreases Pot(st.dist, |st.buckets|), Entries(st.buckets), |st.buckets| - st.idx, Rank(g, st.phase)
  {
    if Finished(st) then Ok([FinalSnapshot(g, start, st)])
    else
      var r := Step(g, start, st);
      if r.Err? then Err(r.error)
      else
        StepProgress(g, start, st);
        var rest := Run(g, start, r.value.0);
        if rest.Err? then Err(rest.error) else Ok(r.value.1 + rest.value)
  }

  /** The number of steps the run takes from `st` before it finishes or
      fails: the measure the proofs about `Run` go down by. */
  function StepCount(g: Graph, start: string, st: State): nat
    requires Shape(g, start, st)
    decreases Pot(st.dist, |st.buckets|), Entries(st.buckets), |st.buckets| - st.idx, Rank(g, st.phase)
  {
    if Finished(st) then 0
    else
      var r := Step(g, start, st);
      if r.Err? then 0
      else
        StepProgress(g, start, st);
        1 + StepCount(g, start, r.value.0)
  }

  function InitialState(g: Graph, start: string): State
  {
    var dist := (map v | v in g.nodes :: Inf)[start := Fin(0)];
    var buckets := seq(Capacity(g), i => if i == 0 then [start] else []);
    State(dist, buckets, 0, Scanning)
  }

  /** The whole trace of `dials_algorithm(graph, start_node)`. */
  function ComputeTrace(g: Graph, start: string): Result<seq<Snapshot>>
    requires WellFormed(g)
  {
    var st := InitialState(g, start);
    var init := Snap(Init(start), st, Some(start), None);
    var rest := Run(g, start, st);
    if rest.Err? then Err(rest.error) else Ok([init] + rest.value)
  }
}
