/** Virtual edges: zero-cost links that worker threads add between the endpoints of skew edges
    (algo/core/model.py, construct_induced_graph and the rules it starts). */
module VirtualEdges {
  import opened Bottlenecks
  import opened Trace
  import opened Deg
  import opened Sorting

  datatype Request = Request(u: Node, v: Node)
  {
    function Ends(): (Name, Name) { (u.Id(), v.Id()) }
    /** A request between nodes the source regards as equal is dropped. */
    predicate IsLoop() { u.Same(v) }
    function Link(): Edge { Edge(u, v, v.timestamp - u.timestamp, 0, Virtual) }
  }

  /** `add_virtual_edge`: existing edges are never replaced. */
  function AddVirtual(edges: Edges, r: Request): Edges {
    if r.IsLoop() || r.Ends() in edges then edges else Put(edges, r.Link())
  }

  function AddAll(edges: Edges, run: seq<Request>): Edges
    decreases |run|
  {
    if run == [] then edges else AddAll(AddVirtual(edges, run[0]), run[1..])
  }

  /** Virtual links cost nothing and replace nothing. */
  lemma {:induction false} VirtualsAreFree(edges: Edges, run: seq<Request>)
    ensures NonNegative(edges) <==> NonNegative(AddAll(edges, run))
    ensures Free(edges) <==> Free(AddAll(edges, run))
    decreases |run|
  {
    if run != [] {
      OneVirtualIsFree(edges, run[0]);
      VirtualsAreFree(AddVirtual(edges, run[0]), run[1..]);
    }
  }

  /** `after` is `before` with free virtual links added. */
  ghost predicate Grown(before: Edges, after: Edges) {
    && (forall k | k in before :: k in after && after[k] == before[k])
    && forall k | k in after && k !in before :: after[k].cost == 0 && after[k].cause == Virtual
  }

  lemma {:induction false} RunGrows(edges: Edges, run: seq<Request>)
    ensures Grown(edges, AddAll(edges, run))
    decreases |run|
  {
    if run != [] {
      RunGrows(AddVirtual(edges, run[0]), run[1..]);
    }
  }

  lemma {:induction false} OneVirtualIsFree(edges: Edges, r: Request)
    ensures NonNegative(edges) <==> NonNegative(AddVirtual(edges, r))
    ensures Free(edges) <==> Free(AddVirtual(edges, r))
  {
    var after := AddVirtual(edges, r);
    assert forall k | k in edges :: k in after && after[k] == edges[k];
    assert forall k | k in after :: k in edges || after[k].cost == 0;
  }

  lemma {:induction false} AddAllAppend(edges: Edges, a: seq<Request>, b: seq<Request>)
    ensures AddAll(edges, a + b) == AddAll(AddAll(edges, a), b)
    decreases |a|
  {
    if a == [] {
      assert a + b == b;
    } else {
      assert (a + b)[1..] == a[1..] + b;
      AddAllAppend(AddVirtual(edges, a[0]), a[1..], b);
    }
  }

  // ---------------------------------------------------------------- runs and interleavings

  /** A name identifies one node. */
  ghost predicate Functional(run: seq<Request>) {
    forall a, b | a in run && b in run && a.Ends() == b.Ends() :: a == b
  }

  /** Closed form of a run: it keeps every edge, and adds the link of each request whose ends are not
      joined yet. */
  lemma {:induction false} AddAllIs(edges: Edges, run: seq<Request>, k: (Name, Name))
    requires Functional(run)
    ensures k in edges ==> k in AddAll(edges, run) && AddAll(edges, run)[k] == edges[k]
    ensures k !in edges ==>
      (k in AddAll(edges, run) <==> exists r | r in run :: !r.IsLoop() && r.Ends() == k)
    ensures k !in edges ==>
      forall r | r in run && !r.IsLoop() && r.Ends() == k :: AddAll(edges, run)[k] == r.Link()
    decreases |run|
  {
    if run != [] {
      var rest := run[1..];
      assert forall r :: r in run <==> r == run[0] || r in rest;
      AddAllIs(AddVirtual(edges, run[0]), rest, k);
    }
  }

  /** Two runs that issue the same requests, in any order and any number of times, build the same graph. */
  lemma {:induction false} RunsAgree(edges: Edges, run: seq<Request>, other: seq<Request>)
    requires Functional(run)
    requires forall r :: r in run <==> r in other
    ensures AddAll(edges, run) == AddAll(edges, other)
  {
    var a, b := AddAll(edges, run), AddAll(edges, other);
    forall k ensures (k in a <==> k in b) && (k in a ==> a[k] == b[k]) {
      AddAllIs(edges, run, k);
      AddAllIs(edges, other, k);
    }
    assert a.Keys == b.Keys;
  }

  function Flatten(threads: seq<seq<Request>>): seq<Request> {
    if threads == [] then [] else threads[0] + Flatten(threads[1..])
  }

  /** Whatever the schedule, worker threads that all finish leave the graph that running them one after
      the other leaves. */
  lemma {:induction false} InterleavingsAgree(edges: Edges, threads: seq<seq<Request>>, run: seq<Request>)
    requires Functional(Flatten(threads))
    requires multiset(run) == multiset(Flatten(threads))
    ensures AddAll(edges, run) == AddAll(edges, Flatten(threads))
  {
    SameElements(run, Flatten(threads));
    RunsAgree(edges, run, Flatten(threads));
  }

  ghost predicate IsNode(nodes: Nodes, n: Node) { n.Id() in nodes && nodes[n.Id()] == n }

  /** What every rule below asks for: a link between two nodes of the graph that goes to a later
      instruction, or into the sink. */
  ghost predicate Admissible(nodes: Nodes, insts: seq<Inst>, r: Request)
    requires insts != []
  {
    IsNode(nodes, r.u) && IsNode(nodes, r.v) && (r.u.seqNo < r.v.seqNo || r.v.Id() == Sink(insts))
  }

  lemma {:induction false} AddVirtualKeepsValid(nodes: Nodes, edges: Edges, insts: seq<Inst>, r: Request)
    requires insts != [] && Valid(nodes, edges, insts) && Admissible(nodes, insts, r)
    ensures Valid(nodes, AddVirtual(edges, r), insts)
  {
    SourceAndSinkBound(nodes, insts, r.u.Id());
    if !r.IsLoop() && r.Ends() !in edges {
      assert r.u.Id().Key() < r.v.Id().Key();
      PutKeepsValid(nodes, edges, insts, r.Link());
    }
  }

  /** Every state of every run of admissible requests is valid: no interleaving, and no thread that dies
      half-way, can create a cycle, a wrong delay or a lost chain. */
  lemma {:induction false} RunKeepsValid(nodes: Nodes, edges: Edges, insts: seq<Inst>, run: seq<Request>, n: nat)
    requires insts != [] && Valid(nodes, edges, insts) && n <= |run|
    requires forall r | r in run :: Admissible(nodes, insts, r)
    ensures Valid(nodes, AddAll(edges, run[..n]), insts)
    decreases |run|
  {
    if n > 0 {
      AddVirtualKeepsValid(nodes, edges, insts, run[0]);
      assert run[..n][0] == run[0] && run[..n][1..] == run[1..][..n - 1];
      RunKeepsValid(nodes, AddVirtual(edges, run[0]), insts, run[1..], n - 1);
    }
  }

  lemma {:induction false} AdmissibleFunctional(nodes: Nodes, insts: seq<Inst>, run: seq<Request>)
    requires insts != []
    requires forall r | r in run :: Admissible(nodes, insts, r)
    ensures Functional(run)
  {
  }

  // ---------------------------------------------------------------- the rules

  function BySeq(e: Edge): real { e.u.seqNo as real }
  function ByTime(e: Edge): real { e.u.timestamp as real }

  predicate Follows(u: Node, v: Node) { u.seqNo > v.seqNo && u.timestamp >= v.timestamp }

  /** First skew edge at or after `from` whose start follows `v`. */
  function Scan(skew: seq<Edge>, from: nat, v: Node): (r: nat)
    requires from <= |skew|
    ensures from <= r <= |skew|
    ensures r < |skew| ==> Follows(skew[r].u, v)
    ensures forall j | from <= j < r :: !Follows(skew[j].u, v)
    decreases |skew| - from
  {
    if from == |skew| || Follows(skew[from].u, v) then from else Scan(skew, from + 1, v)
  }

  function SeqScan(skew: seq<Edge>, idx: nat, v: Node): seq<Request>
    requires idx < |skew|
  {
    var i := Scan(skew, idx + 1, v);
    if i < |skew| then [Request(v, skew[i].u)] else []
  }

  /** Worker `idx` of the seq rule: scan from both ends of its edge. */
  function SeqWorker(skew: seq<Edge>, idx: nat): seq<Request>
    requires idx < |skew|
  {
    SeqScan(skew, idx, skew[idx].u) + SeqScan(skew, idx, skew[idx].v)
  }

  /** Starts at `from` that follow on from the hit: consecutive edges with the same timestamp. */
  function TimeRun(skew: seq<Edge>, from: nat, v: Node, early: int): seq<Request>
    decreases |skew| - from
  {
    if from < |skew| && skew[from].u.seqNo > v.seqNo && early == skew[from].u.timestamp
    then [Request(v, skew[from].u)] + TimeRun(skew, from + 1, v, early)
    else []
  }

  /** One end of a skew edge under the timestamp rule. When nothing is found the second loop still
      looks past the next edge, at the timestamp of `v` itself. */
  function TimeScan(skew: seq<Edge>, idx: nat, v: Node): seq<Request>
    requires idx < |skew|
  {
    if idx + 1 == |skew| then []
    else
      var i := Scan(skew, idx + 1, v);
      if i < |skew| then [Request(v, skew[i].u)] + TimeRun(skew, i + 1, v, skew[i].u.timestamp)
      else TimeRun(skew, idx + 2, v, v.timestamp)
  }

  function TimeWorker(skew: seq<Edge>, idx: nat): seq<Request>
    requires idx < |skew|
  {
    TimeScan(skew, idx, skew[idx].u) + TimeScan(skew, idx, skew[idx].v)
  }

  /** The head of either rule: the first start past the source's instruction. */
  function HeadRequest(skew: seq<Edge>, source: Node): seq<Request> {
    if skew == [] then []
    else if skew[0].u.seqNo > source.seqNo then [Request(source, skew[0].u)]
    else HeadRequest(skew[1..], source)
  }

  /** The tail of the seq rule: from the last edge backwards while the end stays in one instruction. */
  function SeqTail(skew: seq<Edge>, sink: Node, seqNo: nat): seq<Request> {
    if skew == [] || skew[|skew| - 1].v.seqNo != seqNo then []
    else [Request(skew[|skew| - 1].v, sink)] + SeqTail(skew[..|skew| - 1], sink, seqNo)
  }

  /** The tail of the timestamp rule: from the last edge backwards while the end's time is the same. */
  function TimeTail(skew: seq<Edge>, sink: Node, timestamp: int): seq<Request> {
    if skew == [] || skew[|skew| - 1].v.timestamp != timestamp then []
    else [Request(skew[|skew| - 1].v, sink)] + TimeTail(skew[..|skew| - 1], sink, timestamp)
  }

  /** What each of the two rules asks for at the ends of the list. */
  function TimeEnds(skew: seq<Edge>, source: Node, sink: Node): seq<Request> {
    HeadRequest(skew, source) + if skew == [] then [] else TimeTail(skew, sink, skew[|skew| - 1].v.timestamp)
  }

  function SeqEnds(skew: seq<Edge>, source: Node, sink: Node): seq<Request> {
    HeadRequest(skew, source) + if skew == [] then [] else SeqTail(skew, sink, skew[|skew| - 1].v.seqNo)
  }

  /** All threads of the induced graph: one worker per skew edge and rule, and the two rule bodies. */
  function Threads(skew: seq<Edge>, source: Node, sink: Node): seq<seq<Request>> {
    ThreadsOver(SortBy(skew, BySeq), SortBy(skew, ByTime), source, sink)
  }

  function ThreadsOver(bySeq: seq<Edge>, byTime: seq<Edge>, source: Node, sink: Node): (r: seq<seq<Request>>)
    ensures |r| == |byTime| + |bySeq| + 2
  {
    seq(|byTime|, i requires 0 <= i < |byTime| => TimeWorker(byTime, i))
    + seq(|bySeq|, i requires 0 <= i < |bySeq| => SeqWorker(bySeq, i))
    + [TimeEnds(byTime, source, sink), SeqEnds(bySeq, source, sink)]
  }

  /** A schedule decides in which order the threads' requests take effect. It may interleave them in any way
      and lose any of them, but invents none. */
  type Schedule = seq<seq<Request>> -> seq<Request>

  ghost predicate InventsNothing(schedule: Schedule) {
    forall threads, r :: r in schedule(threads) ==> r in Flatten(threads)
  }

  // ---------------------------------------------------------------- every rule is admissible

  ghost predicate AllAdmissible(nodes: Nodes, insts: seq<Inst>, rs: seq<Request>)
    requires insts != []
  {
    forall r | r in rs :: Admissible(nodes, insts, r)
  }

  ghost predicate SkewOk(nodes: Nodes, skew: seq<Edge>) {
    forall e | e in skew :: IsNode(nodes, e.u) && IsNode(nodes, e.v)
  }

  lemma {:induction false} TimeRunAdmissible(nodes: Nodes, insts: seq<Inst>, skew: seq<Edge>, from: nat, v: Node,
      early: int)
    requires insts != [] && SkewOk(nodes, skew) && IsNode(nodes, v)
    ensures AllAdmissible(nodes, insts, TimeRun(skew, from, v, early))
    decreases |skew| - from
  {
    if from < |skew| {
      assert skew[from] in skew;
      TimeRunAdmissible(nodes, insts, skew, from + 1, v, early);
    }
  }

  lemma {:induction false} WorkersAdmissible(nodes: Nodes, insts: seq<Inst>, skew: seq<Edge>, idx: nat)
    requires insts != [] && SkewOk(nodes, skew) && idx < |skew|
    ensures AllAdmissible(nodes, insts, SeqWorker(skew, idx))
    ensures AllAdmissible(nodes, insts, TimeWorker(skew, idx))
  {
    var e := skew[idx];
    assert e in skew;
    ScansAdmissible(nodes, insts, skew, idx, e.u);
    ScansAdmissible(nodes, insts, skew, idx, e.v);
  }

  lemma {:induction false} ScansAdmissible(nodes: Nodes, insts: seq<Inst>, skew: seq<Edge>, idx: nat, v: Node)
    requires insts != [] && SkewOk(nodes, skew) && idx < |skew| && IsNode(nodes, v)
    ensures AllAdmissible(nodes, insts, SeqScan(skew, idx, v))
    ensures AllAdmissible(nodes, insts, TimeScan(skew, idx, v))
  {
    SeqScanAdmissible(nodes, insts, skew, idx, v);
    TimeScanAdmissible(nodes, insts, skew, idx, v);
  }

  lemma {:induction false} SeqScanAdmissible(nodes: Nodes, insts: seq<Inst>, skew: seq<Edge>, idx: nat, v: Node)
    requires insts != [] && SkewOk(nodes, skew) && idx < |skew| && IsNode(nodes, v)
    ensures AllAdmissible(nodes, insts, SeqScan(skew, idx, v))
  {
    var i := Scan(skew, idx + 1, v);
    if i < |skew| {
      assert skew[i] in skew;
    }
  }

  lemma {:induction false} TimeScanAdmissible(nodes: Nodes, insts: seq<Inst>, skew: seq<Edge>, idx: nat, v: Node)
    requires insts != [] && SkewOk(nodes, skew) && idx < |skew| && IsNode(nodes, v)
    ensures AllAdmissible(nodes, insts, TimeScan(skew, idx, v))
  {
    var i := Scan(skew, idx + 1, v);
    if i < |skew| {
      assert skew[i] in skew;
      TimeRunAdmissible(nodes, insts, skew, i + 1, v, skew[i].u.timestamp);
    } else {
      TimeRunAdmissible(nodes, insts, skew, idx + 2, v, v.timestamp);
    }
  }

  lemma {:induction false} HeadAdmissible(nodes: Nodes, insts: seq<Inst>, skew: seq<Edge>, source: Node)
    requires insts != [] && SkewOk(nodes, skew) && IsNode(nodes, source)
    ensures AllAdmissible(nodes, insts, HeadRequest(skew, source))
  {
    if skew != [] {
      assert skew[0] in skew;
      HeadAdmissible(nodes, insts, skew[1..], source);
    }
  }

  lemma {:induction false} TailsAdmissible(nodes: Nodes, insts: seq<Inst>, skew: seq<Edge>, sink: Node, seqNo: nat,
      timestamp: int)
    requires insts != [] && SkewOk(nodes, skew) && IsNode(nodes, sink) && sink.Id() == Sink(insts)
    ensures AllAdmissible(nodes, insts, SeqTail(skew, sink, seqNo))
    ensures AllAdmissible(nodes, insts, TimeTail(skew, sink, timestamp))
  {
    if skew != [] {
      assert skew[|skew| - 1] in skew;
      TailsAdmissible(nodes, insts, skew[..|skew| - 1], sink, seqNo, timestamp);
    }
  }

  lemma {:induction false} FlattenAdmissible(nodes: Nodes, insts: seq<Inst>, threads: seq<seq<Request>>)
    requires insts != []
    requires forall k | 0 <= k < |threads| :: AllAdmissible(nodes, insts, threads[k])
    ensures AllAdmissible(nodes, insts, Flatten(threads))
  {
    if threads != [] {
      FlattenAdmissible(nodes, insts, threads[1..]);
    }
  }

  lemma {:induction false} EndRulesAdmissible(nodes: Nodes, insts: seq<Inst>, skew: seq<Edge>, source: Node, sink: Node)
    requires insts != [] && SkewOk(nodes, skew) && IsNode(nodes, source) && IsNode(nodes, sink)
      && sink.Id() == Sink(insts)
    ensures AllAdmissible(nodes, insts, TimeEnds(skew, source, sink))
      && AllAdmissible(nodes, insts, SeqEnds(skew, source, sink))
  {
    HeadAdmissible(nodes, insts, skew, source);
    if skew != [] {
      TailsAdmissible(nodes, insts, skew, sink, skew[|skew| - 1].v.seqNo, skew[|skew| - 1].v.timestamp);
    }
  }

  lemma {:induction false} SortedSkewOk(nodes: Nodes, skew: seq<Edge>, key: Edge -> real)
    requires SkewOk(nodes, skew)
    ensures SkewOk(nodes, SortBy(skew, key))
  {
    SameElements(SortBy(skew, key), skew);
  }

  /** Everything the threads of the induced graph can ask for is admissible. */
  lemma {:induction false} ThreadsAdmissible(nodes: Nodes, insts: seq<Inst>, skew: seq<Edge>, source: Node, sink: Node)
    requires insts != [] && SkewOk(nodes, skew) && IsNode(nodes, source) && IsNode(nodes, sink)
      && sink.Id() == Sink(insts)
    ensures AllAdmissible(nodes, insts, Flatten(Threads(skew, source, sink)))
  {
    SortedSkewOk(nodes, skew, BySeq);
    SortedSkewOk(nodes, skew, ByTime);
    ThreadsOverAdmissible(nodes, insts, SortBy(skew, BySeq), SortBy(skew, ByTime), source, sink);
  }

  /** The induced graph does not depend on how the threads interleave. */
  lemma {:induction false} InducedGraphAgrees(nodes: Nodes, edges: Edges, insts: seq<Inst>, skew: seq<Edge>,
      source: Node, sink: Node, run: seq<Request>)
    requires insts != [] && SkewOk(nodes, skew) && IsNode(nodes, source) && IsNode(nodes, sink)
      && sink.Id() == Sink(insts)
    requires multiset(run) == multiset(Flatten(Threads(skew, source, sink)))
    ensures AddAll(edges, run) == AddAll(edges, Flatten(Threads(skew, source, sink)))
  {
    var all := Flatten(Threads(skew, source, sink));
    ThreadsAdmissible(nodes, insts, skew, source, sink);
    AdmissibleFunctional(nodes, insts, all);
    InterleavingsAgree(edges, Threads(skew, source, sink), run);
  }

  lemma {:induction false} ThreadsOverAdmissible(nodes: Nodes, insts: seq<Inst>, bySeq: seq<Edge>, byTime: seq<Edge>,
      source: Node, sink: Node)
    requires insts != [] && SkewOk(nodes, bySeq) && SkewOk(nodes, byTime)
    requires IsNode(nodes, source) && IsNode(nodes, sink) && sink.Id() == Sink(insts)
    ensures AllAdmissible(nodes, insts, Flatten(ThreadsOver(bySeq, byTime, source, sink)))
  {
    var threads := ThreadsOver(bySeq, byTime, source, sink);
    forall k | 0 <= k < |threads| ensures AllAdmissible(nodes, insts, threads[k]) {
      ThreadAt(bySeq, byTime, source, sink, k);
      ThreadAdmissible(nodes, insts, bySeq, byTime, source, sink, k);
    }
    FlattenAdmissible(nodes, insts, threads);
  }

  /** One thread by its number. */
  function ThreadOf(bySeq: seq<Edge>, byTime: seq<Edge>, source: Node, sink: Node, k: nat): seq<Request>
    requires k < |byTime| + |bySeq| + 2
  {
    if k < |byTime| then TimeWorker(byTime, k)
    else if k < |byTime| + |bySeq| then SeqWorker(bySeq, k - |byTime|)
    else if k == |byTime| + |bySeq| then TimeEnds(byTime, source, sink)
    else SeqEnds(bySeq, source, sink)
  }

  lemma {:induction false} ThreadAt(bySeq: seq<Edge>, byTime: seq<Edge>, source: Node, sink: Node, k: nat)
    requires k < |byTime| + |bySeq| + 2
    ensures ThreadsOver(bySeq, byTime, source, sink)[k] == ThreadOf(bySeq, byTime, source, sink, k)
  {
  }

  lemma {:induction false} ThreadAdmissible(nodes: Nodes, insts: seq<Inst>, bySeq: seq<Edge>, byTime: seq<Edge>,
      source: Node, sink: Node, k: nat)
    requires insts != [] && SkewOk(nodes, bySeq) && SkewOk(nodes, byTime)
    requires IsNode(nodes, source) && IsNode(nodes, sink) && sink.Id() == Sink(insts)
    requires k < |byTime| + |bySeq| + 2
    ensures AllAdmissible(nodes, insts, ThreadOf(bySeq, byTime, source, sink, k))
  {
    if k < |byTime| {
      WorkersAdmissible(nodes, insts, byTime, k);
    } else if k < |byTime| + |bySeq| {
      WorkersAdmissible(nodes, insts, bySeq, k - |byTime|);
    } else {
      EndRulesAdmissible(nodes, insts, if k == |byTime| + |bySeq| then byTime else bySeq, source, sink);
    }
  }

  /** In seq order, scanning only the suffix behind an edge misses nothing: for either end of the edge it
      finds a start of least seq among all skew edges of the list that are later in seq and not earlier
      in time, and it comes back empty only if there is none anywhere. */
  lemma {:induction false} SeqScanNearest(skew: seq<Edge>, idx: nat, v: Node)
    requires SortedBy(skew, BySeq) && idx < |skew|
    requires forall e | e in skew :: e.u.seqNo < e.v.seqNo
    requires v == skew[idx].u || v == skew[idx].v
    ensures var found := SeqScan(skew, idx, v);
      if found == [] then forall e | e in skew :: !Follows(e.u, v)
      else
        && found[0].u == v && Follows(found[0].v, v)
        && (exists e | e in skew :: e.u == found[0].v)
        && (forall e | e in skew && Follows(e.u, v) :: found[0].v.seqNo <= e.u.seqNo)
  {
  }
}
