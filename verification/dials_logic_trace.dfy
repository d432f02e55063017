/** Properties of the trace that `DialsLogic.ComputeTrace` records, proved for
    every run that does not stop on an out-of-range bucket index. Whether a
    run ever does, and what the final distances are, is in
    `DialsLogicCorrect`. */
module DialsLogicTrace {
  import opened Paths
  import opened Graphs
  import opened BucketQueue
  import opened DialsLogic

  /** Every snapshot carries a distance table over the same keys and a bucket
      array of the run's fixed size. */
  predicate SizesFixed(g: Graph, start: string, t: seq<Snapshot>)
  {
    forall i :: 0 <= i < |t| ==>
      |t[i].buckets| == Capacity(g) && t[i].distances.Keys == g.nodes + {start}
  }

  /** Exactly the last snapshot is final; it names no current node or
      neighbor and lists every key of the distance table as its path. */
  predicate EndsFinal(g: Graph, start: string, t: seq<Snapshot>)
  {
    && |t| > 0
    && (forall i :: 0 <= i < |t| ==> (t[i].final <==> i == |t| - 1))
    && t[|t| - 1].event == Done(start)
    && t[|t| - 1].current == None
    && t[|t| - 1].neighbor == None
    && t[|t| - 1].path == KeyOrder(g, start)
  }

  /** No label in `a` is above the same node's label in `b`. */
  predicate NoIncrease(a: map<string, Dist>, b: map<string, Dist>)
  {
    forall v :: v in a ==> v in b && Le(a[v], b[v])
  }

  /** Labels only go down along the trace, starting from `d0`. */
  predicate Descending(t: seq<Snapshot>, d0: map<string, Dist>)
  {
    && (|t| > 0 ==> NoIncrease(t[0].distances, d0))
    && (forall i :: 1 <= i < |t| ==> NoIncrease(t[i].distances, t[i - 1].distances))
  }

  /** The relaxation snapshot at `i` comes right after the examination of
      the same edge, lowers exactly the neighbor's label to the current
      node's label plus the weight, and appends the neighbor to that bucket
      without taking it out of any other. */
  predicate RelaxOk(t: seq<Snapshot>, i: nat)
    requires i < |t| && t[i].event.Relax?
  {
    && i > 0
    && t[i - 1].event == Examine(t[i].event.u, t[i].event.v, t[i].event.w)
    && t[i].event.u in t[i - 1].distances && t[i].event.v in t[i - 1].distances
    && t[i].event.before == t[i - 1].distances[t[i].event.v]
    && Add(t[i - 1].distances[t[i].event.u], t[i].event.w) == Fin(t[i].event.after)
    && Lt(Fin(t[i].event.after), t[i].event.before)
    && t[i].distances == t[i - 1].distances[t[i].event.v := Fin(t[i].event.after)]
    && t[i].event.after < |t[i - 1].buckets|
    && t[i].buckets == t[i - 1].buckets[t[i].event.after := t[i - 1].buckets[t[i].event.after] + [t[i].event.v]]
    && t[i].current == Some(t[i].event.u) && t[i].neighbor == Some(t[i].event.v)
  }

  predicate RelaxAfterExamine(t: seq<Snapshot>)
  {
    forall i :: 0 <= i < |t| && t[i].event.Relax? ==> RelaxOk(t, i)
  }

  /** The examination snapshot at `i` is followed by a relaxation exactly
      when the current node's label plus the weight is below the neighbor's
      label. */
  predicate ExamineOk(t: seq<Snapshot>, i: nat)
    requires i < |t| && t[i].event.Examine?
  {
    && t[i].event.u in t[i].distances && t[i].event.v in t[i].distances
    && t[i].current == Some(t[i].event.u) && t[i].neighbor == Some(t[i].event.v)
    && ((i + 1 < |t| && t[i + 1].event.Relax?) <==>
          Lt(Add(t[i].distances[t[i].event.u], t[i].event.w), t[i].distances[t[i].event.v]))
  }

  predicate ExamineDecides(t: seq<Snapshot>)
  {
    forall i :: 0 <= i < |t| && t[i].event.Examine? ==> ExamineOk(t, i)
  }

  /** Processed nodes are never stale, and buckets are processed in
      non-decreasing index order, starting at `idx0`. */
  predicate ProcessInOrder(t: seq<Snapshot>, idx0: nat)
  {
    && (forall i :: 0 <= i < |t| && t[i].event.Process? ==>
          && idx0 <= t[i].event.bucket
          && t[i].event.u in t[i].distances
          && !Lt(t[i].distances[t[i].event.u], Fin(t[i].event.bucket))
          && t[i].current == Some(t[i].event.u) && t[i].neighbor == None)
    && (forall i, j :: 0 <= i < j < |t| && t[i].event.Process? && t[j].event.Process? ==>
          t[i].event.bucket <= t[j].event.bucket)
  }

  /** One step's snapshots followed by the rest of the run. */
  lemma RunUnfold(g: Graph, start: string, st: State)
    requires Shape(g, start, st) && !Finished(st)
    requires Run(g, start, st).Ok?
    ensures Step(g, start, st).Ok?
    ensures Run(g, start, Step(g, start, st).value.0).Ok?
    ensures Run(g, start, st).value == Step(g, start, st).value.1 + Run(g, start, Step(g, start, st).value.0).value
  {
  }

  lemma ConcatSizes(g: Graph, start: string, snaps: seq<Snapshot>, rest: seq<Snapshot>)
    requires forall i :: 0 <= i < |snaps| ==>
      !snaps[i].final && |snaps[i].buckets| == Capacity(g) && snaps[i].distances.Keys == g.nodes + {start}
    requires SizesFixed(g, start, rest) && EndsFinal(g, start, rest)
    ensures SizesFixed(g, start, snaps + rest) && EndsFinal(g, start, snaps + rest)
  {
    var t := snaps + rest;
    assert forall i :: |snaps| <= i < |t| ==> t[i] == rest[i - |snaps|];
  }

  lemma {:induction false} RunSizes(g: Graph, start: string, st: State)
    requires Shape(g, start, st)
    ensures Run(g, start, st).Ok? ==>
      SizesFixed(g, start, Run(g, start, st).value) && EndsFinal(g, start, Run(g, start, st).value)
    decreases StepCount(g, start, st)
  {
    if !Finished(st) && Run(g, start, st).Ok? {
      RunUnfold(g, start, st);
      var st' := Step(g, start, st).value.0;
      RunSizes(g, start, st');
      ConcatSizes(g, start, Step(g, start, st).value.1, Run(g, start, st').value);
    }
  }

  // ---- What a single step records.

  lemma StepDistances(g: Graph, start: string, st: State)
    requires Shape(g, start, st) && !Finished(st) && Step(g, start, st).Ok?
    ensures var (st', snaps) := Step(g, start, st).value;
      && NoIncrease(st'.dist, st.dist)
      && st'.idx >= st.idx
      && (|snaps| > 0 ==> snaps[|snaps| - 1].distances == st'.dist)
      && Descending(snaps, st.dist)
  {
  }

  lemma StepEvents(g: Graph, start: string, st: State)
    requires Shape(g, start, st) && !Finished(st) && Step(g, start, st).Ok?
    ensures var (st', snaps) := Step(g, start, st).value;
      && RelaxAfterExamine(snaps)
      && ExamineDecides(snaps)
      && ProcessInOrder(snaps, st.idx)
      && (forall i :: 0 <= i < |snaps| && snaps[i].event.Process? ==> snaps[i].event.bucket == st.idx)
  {
    var (st', snaps) := Step(g, start, st).value;
    match st.phase
    case Scanning =>
      assert |snaps| <= 1;
      assert forall i :: 0 <= i < |snaps| ==> snaps[i].event.Process?;
    case Relaxing(u, k) =>
      var es := Neighbors(g, u);
      if k < |es| {
        var v, w := es[k].0, es[k].1;
        assert snaps[0].event == Examine(u, v, w);
        assert snaps[0].distances == st.dist;
        if Lt(Add(st.dist[u], w), st.dist[v]) {
          assert |snaps| == 2 && snaps[1].event.Relax?;
          assert RelaxAfterExamine(snaps);
        } else {
          assert |snaps| == 1;
        }
      }
  }

  lemma NoIncreaseTrans(a: map<string, Dist>, b: map<string, Dist>, c: map<string, Dist>)
    requires NoIncrease(a, b) && NoIncrease(b, c)
    ensures NoIncrease(a, c)
  {
  }

  // ---- What `Step` does in each case, stated apart from the invariant.

  lemma StepSkip(g: Graph, start: string, st: State)
    requires Shape(g, start, st) && st.phase.Scanning? && st.idx < |st.buckets| && st.buckets[st.idx] == []
    ensures Step(g, start, st) == Ok((st.(idx := st.idx + 1), []))
  {
  }

  lemma StepPop(g: Graph, start: string, st: State)
    requires Shape(g, start, st) && st.phase.Scanning? && st.idx < |st.buckets| && st.buckets[st.idx] != []
    ensures var b := st.buckets[st.idx];
      var popped := st.(buckets := st.buckets[st.idx := b[1..]]);
      Step(g, start, st) ==
        if Lt(st.dist[b[0]], Fin(st.idx)) then Ok((popped, []))
        else Ok((popped.(phase := Relaxing(b[0], 0)), [Snap(Process(b[0], st.idx), popped.(phase := Relaxing(b[0], 0)), Some(b[0]), None)]))
  {
  }

  lemma StepEndRelaxing(g: Graph, start: string, st: State, u: string)
    requires Shape(g, start, st) && st.phase == Relaxing(u, |Neighbors(g, u)|)
    ensures Step(g, start, st) == Ok((st.(phase := Scanning), []))
  {
  }

  lemma StepExamine(g: Graph, start: string, st: State, u: string, k: nat, v: string, w: nat)
    requires Shape(g, start, st) && st.phase == Relaxing(u, k)
    requires k < |Neighbors(g, u)| && Neighbors(g, u)[k] == (v, w)
    ensures var examine := Snap(Examine(u, v, w), st, Some(u), Some(v));
      var cand := Add(st.dist[u], w);
      && (!Lt(cand, st.dist[v]) ==> Step(g, start, st) == Ok((st.(phase := Relaxing(u, k + 1)), [examine])))
      && (Lt(cand, st.dist[v]) && cand.n < |st.buckets| ==>
            var st' := State(st.dist[v := cand], st.buckets[cand.n := st.buckets[cand.n] + [v]], st.idx, Relaxing(u, k + 1));
            Step(g, start, st) == Ok((st', [examine, Snap(Relax(u, v, w, st.dist[v], cand.n), st', Some(u), Some(v))])))
  {
  }

  /** Taking from a non-empty bucket removes exactly its front entry (FIFO)
      and leaves labels, index and every other bucket alone. The entry is
      dropped without a snapshot exactly when its label is already below the
      bucket index; otherwise one processing snapshot names it. */
  lemma PopEffect(g: Graph, start: string, st: State)
    requires Shape(g, start, st) && st.phase.Scanning? && st.idx < |st.buckets| && st.buckets[st.idx] != []
    ensures Step(g, start, st).Ok?
    ensures var st', snaps, front := Step(g, start, st).value.0, Step(g, start, st).value.1, st.buckets[st.idx][0];
      && st'.buckets == st.buckets[st.idx := st.buckets[st.idx][1..]]
      && st'.dist == st.dist && st'.idx == st.idx
      && |snaps| <= 1
      && (snaps == [] <==> Lt(st.dist[front], Fin(st.idx)))
      && (snaps == [] ==> st'.phase == Scanning)
      && (snaps != [] ==>
            && st'.phase == Relaxing(front, 0)
            && snaps[0].event == Process(front, st.idx)
            && snaps[0].current == Some(front) && snaps[0].neighbor == None)
  {
    StepPop(g, start, st);
  }

  /** Examining the `k`-th adjacency entry `(v, w)` of `u` always records
      the examination first. When `u`'s label plus `w` is strictly below
      `v`'s, only `v`'s label changes, to exactly that value, `v` is
      appended at the end of that bucket, every other bucket is unchanged,
      and a relaxation snapshot follows; a value past the last bucket is
      the error. Otherwise nothing but the position in the list changes. */
  lemma ExamineEffect(g: Graph, start: string, st: State, u: string, k: nat, v: string, w: nat)
    requires Shape(g, start, st) && st.phase == Relaxing(u, k)
    requires k < |Neighbors(g, u)| && Neighbors(g, u)[k] == (v, w)
    ensures var cand := Add(st.dist[u], w);
      Step(g, start, st).Err? <==> Lt(cand, st.dist[v]) && cand.n >= |st.buckets|
    ensures Step(g, start, st).Ok? ==>
      var st', snaps, cand := Step(g, start, st).value.0, Step(g, start, st).value.1, Add(st.dist[u], w);
      && st'.idx == st.idx && st'.phase == Relaxing(u, k + 1)
      && 1 <= |snaps| && snaps[0].event == Examine(u, v, w) && snaps[0].distances == st.dist
      && st'.dist.Keys == st.dist.Keys
      && (forall x :: x in st.dist && x != v ==> st'.dist[x] == st.dist[x])
      && (Lt(cand, st.dist[v]) ==>
            && st'.dist[v] == cand
            && st'.buckets[cand.n] == st.buckets[cand.n] + [v]
            && (forall j :: 0 <= j < |st.buckets| && j != cand.n ==> st'.buckets[j] == st.buckets[j])
            && |snaps| == 2 && snaps[1].event == Relax(u, v, w, st.dist[v], cand.n))
      && (!Lt(cand, st.dist[v]) ==> st'.dist == st.dist && st'.buckets == st.buckets && |snaps| == 1)
  {
    StepExamine(g, start, st, u, k, v, w);
  }

  // ---- Run-level properties, by induction along the run.

  lemma {:induction false} RunDescending(g: Graph, start: string, st: State)
    requires Shape(g, start, st)
    ensures Run(g, start, st).Ok? ==> Descending(Run(g, start, st).value, st.dist)
    decreases StepCount(g, start, st)
  {
    if !Finished(st) && Run(g, start, st).Ok? {
      RunUnfold(g, start, st);
      var (st', snaps) := Step(g, start, st).value;
      StepDistances(g, start, st);
      RunDescending(g, start, st');
      DescendingConcat(snaps, Run(g, start, st').value, st.dist, st'.dist);
    }
  }

  /** A trace that descends from `d0` to `d1`, followed by one that descends
      from `d1`, descends from `d0`. */
  lemma DescendingConcat(snaps: seq<Snapshot>, rest: seq<Snapshot>, d0: map<string, Dist>, d1: map<string, Dist>)
    requires Descending(snaps, d0) && Descending(rest, d1) && NoIncrease(d1, d0)
    requires |snaps| > 0 ==> snaps[|snaps| - 1].distances == d1
    ensures Descending(snaps + rest, d0)
  {
    var t := snaps + rest;
    assert forall i :: |snaps| <= i < |t| ==> t[i] == rest[i - |snaps|];
    if |rest| > 0 && |snaps| == 0 {
      NoIncreaseTrans(rest[0].distances, d1, d0);
    }
  }

  lemma {:induction false} RunEvents(g: Graph, start: string, st: State)
    requires Shape(g, start, st)
    ensures Run(g, start, st).Ok? ==>
      && RelaxAfterExamine(Run(g, start, st).value)
      && ExamineDecides(Run(g, start, st).value)
      && ProcessInOrder(Run(g, start, st).value, st.idx)
    decreases StepCount(g, start, st)
  {
    if !Finished(st) && Run(g, start, st).Ok? {
      RunUnfold(g, start, st);
      var (st', snaps) := Step(g, start, st).value;
      StepDistances(g, start, st);
      StepEvents(g, start, st);
      RunEvents(g, start, st');
      ConcatEvents(snaps, Run(g, start, st').value, st.idx, st'.idx);
    }
  }

  lemma ConcatEvents(snaps: seq<Snapshot>, rest: seq<Snapshot>, idx: nat, idx': nat)
    requires RelaxAfterExamine(snaps) && ExamineDecides(snaps) && ProcessInOrder(snaps, idx)
    requires forall i :: 0 <= i < |snaps| && snaps[i].event.Process? ==> snaps[i].event.bucket == idx
    requires RelaxAfterExamine(rest) && ExamineDecides(rest) && ProcessInOrder(rest, idx')
    requires idx <= idx'
    ensures RelaxAfterExamine(snaps + rest) && ExamineDecides(snaps + rest) && ProcessInOrder(snaps + rest, idx)
  {
    var t := snaps + rest;
    assert forall i :: |snaps| <= i < |t| ==> t[i] == rest[i - |snaps|];
    assert forall i :: 0 <= i < |snaps| ==> t[i] == snaps[i];
    forall i | 0 <= i < |t| && t[i].event.Relax?
      ensures RelaxOk(t, i)
    {
      if i < |snaps| {
        assert RelaxOk(snaps, i);
      } else {
        assert RelaxOk(rest, i - |snaps|);
      }
    }
    forall i | 0 <= i < |t| && t[i].event.Examine?
      ensures ExamineOk(t, i)
    {
      if i < |snaps| {
        assert t[i] == snaps[i];
        assert ExamineOk(snaps, i);
        if i == |snaps| - 1 && |rest| > 0 {
          assert t[i + 1] == rest[0];
          assert !rest[0].event.Relax?;
        } else if i + 1 < |snaps| {
          assert t[i + 1] == snaps[i + 1];
        }
      } else {
        assert t[i] == rest[i - |snaps|];
        assert ExamineOk(rest, i - |snaps|);
        if i + 1 < |t| {
          assert t[i + 1] == rest[i + 1 - |snaps|];
        }
      }
    }
    assert ExamineDecides(t);
  }

  // ---- The whole trace.

  /** The first snapshot: the start at 0, every other node at `Inf`, the
      start alone in bucket 0, and the start as the current node. */
  predicate InitSnapshot(g: Graph, start: string, s: Snapshot)
  {
    && s.event == Init(start)
    && s.distances.Keys == g.nodes + {start}
    && s.distances[start] == Fin(0)
    && (forall v :: v in s.distances && v != start ==> s.distances[v] == Inf)
    && |s.buckets| == Capacity(g)
    && s.buckets[0] == [start]
    && (forall j :: 1 <= j < |s.buckets| ==> s.buckets[j] == [])
    && s.current == Some(start) && s.neighbor == None && !s.final
  }

  lemma InitialShape(g: Graph, start: string)
    requires WellFormed(g)
    ensures Shape(g, start, InitialState(g, start))
    ensures InitSnapshot(g, start, Snap(Init(start), InitialState(g, start), Some(start), None))
  {
    var st := InitialState(g, start);
    InitialTable(g, start, st.dist);
    InitialBuckets(g, start, st.buckets);
  }

  lemma InitialTable(g: Graph, start: string, dist: map<string, Dist>)
    requires dist == (map v | v in g.nodes :: Inf)[start := Fin(0)]
    ensures dist.Keys == g.nodes + {start} && dist[start] == Fin(0)
    ensures forall v :: v in dist && v != start ==> dist[v] == Inf
  {
  }

  lemma InitialBuckets(g: Graph, start: string, b: seq<seq<string>>)
    requires b == seq(Capacity(g), i => if i == 0 then [start] else [])
    ensures |b| == Capacity(g) && b[0] == [start]
    ensures forall j :: 1 <= j < |b| ==> b[j] == []
    ensures forall j, x :: 0 <= j < |b| && x in b[j] ==> x == start
  {
    forall j, x | 0 <= j < |b| && x in b[j]
      ensures x == start
    {
      assert b[j] == if j == 0 then [start] else [];
    }
  }

  // ---- Each processed node examines its adjacency list in order.

  /** The edges examined at the head of `t`, up to the first snapshot that
      is neither an examination nor a relaxation. */
  function Examined(t: seq<Snapshot>): seq<(string, string, nat)>
    decreases |t|
  {
    if |t| == 0 then []
    else match t[0].event
      case Examine(u, v, w) => [(u, v, w)] + Examined(t[1..])
      case Relax(_, _, _, _, _) => Examined(t[1..])
      case _ => []
  }

  /** The adjacency entries of `u` from position `k` on, as examined edges. */
  function Agenda(g: Graph, u: string, k: nat): seq<(string, string, nat)>
    requires k <= |Neighbors(g, u)|
  {
    seq(|Neighbors(g, u)| - k, j requires 0 <= j < |Neighbors(g, u)| - k =>
      (u, Neighbors(g, u)[k + j].0, Neighbors(g, u)[k + j].1))
  }

  lemma AgendaStep(g: Graph, u: string, k: nat)
    requires k < |Neighbors(g, u)|
    ensures Agenda(g, u, k) == [(u, Neighbors(g, u)[k].0, Neighbors(g, u)[k].1)] + Agenda(g, u, k + 1)
  {
    var a, b := Agenda(g, u, k), Agenda(g, u, k + 1);
    assert |a| == |b| + 1;
    forall j | 1 <= j < |a|
      ensures a[j] == b[j - 1]
    {
    }
  }

  /** After every processing snapshot come the examinations of all the
      node's adjacency entries, in adjacency order, each followed by its
      relaxation when there is one. */
  predicate Blocks(g: Graph, t: seq<Snapshot>)
  {
    forall i :: 0 <= i < |t| && t[i].event.Process? ==>
      t[i].event.u in t[i].distances && Examined(t[i + 1..]) == Agenda(g, t[i].event.u, 0)
  }

  lemma ExaminedStop(t: seq<Snapshot>)
    requires |t| > 0 && !t[0].event.Examine? && !t[0].event.Relax?
    ensures Examined(t) == []
  {
  }

  lemma ExaminedExamine(e: Snapshot, r: seq<Snapshot>)
    requires e.event.Examine?
    ensures Examined([e] + r) == [(e.event.u, e.event.v, e.event.w)] + Examined(r)
  {
    assert ([e] + r)[1..] == r;
  }

  lemma ExaminedRelax(e: Snapshot, r: seq<Snapshot>)
    requires e.event.Relax?
    ensures Examined([e] + r) == Examined(r)
  {
    assert ([e] + r)[1..] == r;
  }

  /** A run resumed from a scanning state examines nothing before it
      processes a node or ends. */
  lemma {:induction false} RunScanningOpens(g: Graph, start: string, st: State)
    requires Shape(g, start, st) && st.phase.Scanning?
    ensures Run(g, start, st).Ok? ==> Examined(Run(g, start, st).value) == []
    decreases StepCount(g, start, st)
  {
    if Finished(st) {
      assert Run(g, start, st).value == [FinalSnapshot(g, start, st)];
      ExaminedStop(Run(g, start, st).value);
    } else if Run(g, start, st).Ok? {
      RunUnfold(g, start, st);
      var (st', snaps) := Step(g, start, st).value;
      var rest := Run(g, start, st').value;
      if st.buckets[st.idx] == [] {
        StepSkip(g, start, st);
        assert Run(g, start, st).value == rest;
        RunScanningOpens(g, start, st');
      } else {
        StepPop(g, start, st);
        if snaps == [] {
          assert Run(g, start, st).value == rest;
          RunScanningOpens(g, start, st');
        } else {
          assert snaps[0].event.Process?;
          ExaminedStop(snaps + rest);
        }
      }
    }
  }

  /** The snapshots of one step on the `k`-th entry of `u` add exactly that
      entry to the examined edges. */
  lemma ExaminedStep(g: Graph, start: string, st: State, u: string, k: nat, v: string, w: nat, rest: seq<Snapshot>)
    requires Shape(g, start, st) && st.phase == Relaxing(u, k)
    requires k < |Neighbors(g, u)| && Neighbors(g, u)[k] == (v, w)
    requires Step(g, start, st).Ok?
    ensures Examined(Step(g, start, st).value.1 + rest) == [(u, v, w)] + Examined(rest)
  {
    StepExamine(g, start, st, u, k, v, w);
    var snaps := Step(g, start, st).value.1;
    assert snaps[0].event == Examine(u, v, w);
    if |snaps| == 2 {
      assert snaps + rest == [snaps[0]] + ([snaps[1]] + rest);
      ExaminedRelax(snaps[1], rest);
      ExaminedExamine(snaps[0], [snaps[1]] + rest);
    } else {
      assert snaps + rest == [snaps[0]] + rest;
      ExaminedExamine(snaps[0], rest);
    }
  }

  /** A run resumed while relaxing the `k`-th entry of `u` examines the rest
      of `u`'s entries in order, then nothing more until the next processing
      snapshot. */
  lemma {:induction false} RunRelaxing(g: Graph, start: string, st: State)
    requires Shape(g, start, st) && st.phase.Relaxing?
    ensures Run(g, start, st).Ok? ==> Examined(Run(g, start, st).value) == Agenda(g, st.phase.u, st.phase.k)
    decreases StepCount(g, start, st)
  {
    var u, k := st.phase.u, st.phase.k;
    if Run(g, start, st).Ok? {
      RunUnfold(g, start, st);
      var (st', snaps) := Step(g, start, st).value;
      var rest := Run(g, start, st').value;
      if k == |Neighbors(g, u)| {
        StepEndRelaxing(g, start, st, u);
        assert Run(g, start, st).value == rest;
        RunScanningOpens(g, start, st');
        assert |Agenda(g, u, k)| == 0;
      } else {
        var v, w := Neighbors(g, u)[k].0, Neighbors(g, u)[k].1;
        RunRelaxing(g, start, st');
        ExaminedStep(g, start, st, u, k, v, w, rest);
        AgendaStep(g, u, k);
      }
    }
  }

  lemma {:induction false} RunBlocks(g: Graph, start: string, st: State)
    requires Shape(g, start, st)
    ensures Run(g, start, st).Ok? ==> Blocks(g, Run(g, start, st).value)
    decreases StepCount(g, start, st)
  {
    if Finished(st) {
      assert Run(g, start, st).value == [FinalSnapshot(g, start, st)];
    } else if Run(g, start, st).Ok? {
      RunUnfold(g, start, st);
      var (st', snaps) := Step(g, start, st).value;
      var rest := Run(g, start, st').value;
      RunBlocks(g, start, st');
      var t := snaps + rest;
      if st.phase.Scanning? && st.buckets[st.idx] != [] {
        StepPop(g, start, st);
        if snaps != [] {
          RunRelaxing(g, start, st');
        }
      } else if st.phase.Relaxing? && st.phase.k < |Neighbors(g, st.phase.u)| {
        var u, k := st.phase.u, st.phase.k;
        StepExamine(g, start, st, u, k, Neighbors(g, u)[k].0, Neighbors(g, u)[k].1);
      } else if st.phase.Relaxing? {
        StepEndRelaxing(g, start, st, st.phase.u);
      } else {
        StepSkip(g, start, st);
      }
      BlocksConcat(g, snaps, rest);
    }
  }

  lemma BlocksConcat(g: Graph, snaps: seq<Snapshot>, rest: seq<Snapshot>)
    requires Blocks(g, rest)
    requires forall i :: 0 <= i < |snaps| && snaps[i].event.Process? ==>
      i == 0 && |snaps| == 1 && snaps[0].event.u in snaps[0].distances && Examined(rest) == Agenda(g, snaps[0].event.u, 0)
    ensures Blocks(g, snaps + rest)
  {
    var t := snaps + rest;
    forall i | 0 <= i < |t| && t[i].event.Process?
      ensures t[i].event.u in t[i].distances && Examined(t[i + 1..]) == Agenda(g, t[i].event.u, 0)
    {
      if i < |snaps| {
        assert t[i] == snaps[i];
        assert t[i + 1..] == rest;
      } else {
        assert t[i] == rest[i - |snaps|];
        assert t[i + 1..] == rest[i - |snaps| + 1..];
      }
    }
  }

  /** What every trace the engine completes looks like: it opens with the
      initial snapshot, keeps the sizes fixed, ends with exactly one final
      snapshot, never raises a label, and relaxes exactly after the
      examinations that find an improvement, and
      examines each processed node's adjacency list in order. */
  lemma {:induction false} TraceShape(g: Graph, start: string)
    requires WellFormed(g)
    ensures ComputeTrace(g, start).Ok? ==>
      var t := ComputeTrace(g, start).value;
      && InitSnapshot(g, start, t[0])
      && SizesFixed(g, start, t)
      && EndsFinal(g, start, t)
      && Descending(t, t[0].distances)
      && RelaxAfterExamine(t)
      && ExamineDecides(t)
      && ProcessInOrder(t, 0)
      && Blocks(g, t)
  {
    var st := InitialState(g, start);
    InitialShape(g, start);
    if ComputeTrace(g, start).Ok? {
      var init := Snap(Init(start), st, Some(start), None);
      var rest := Run(g, start, st).value;
      var t := [init] + rest;
      assert ComputeTrace(g, start).value == t;
      RunSizes(g, start, st);
      ConcatSizes(g, start, [init], rest);
      RunDescending(g, start, st);
      assert forall i :: 1 <= i < |t| ==> t[i] == rest[i - 1];
      assert Descending(t, t[0].distances);
      RunEvents(g, start, st);
      ConcatEvents([init], rest, 0, 0);
      RunBlocks(g, start, st);
      BlocksConcat(g, [init], rest);
    }
  }
}
