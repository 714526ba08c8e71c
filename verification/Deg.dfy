/** The dependence graph as a value: stage nodes, edges keyed by (u, v), and the invariant that
    every construction step keeps (algo/core/model.py). */
module Deg {
  import opened Bottlenecks
  import opened Trace

  datatype Stage =
    | F1 | F2 | Fetch | F2F | Decode | Rename | Dispatch | Issue | DI | Memory | Complete | MP | Commit

  /** Pipeline order of the stages; a merged node takes the place of the first stage it stands for. */
  function Rank(s: Stage): (r: nat)
    ensures r <= 9
    ensures r == 0 <==> s == F1
    ensures r == 9 <==> s == Commit
  {
    match s
    case F1 => 0
    case F2 => 1
    case F2F => 1
    case Fetch => 2
    case Decode => 3
    case Rename => 4
    case Dispatch => 5
    case DI => 5
    case Issue => 6
    case Memory => 7
    case MP => 7
    case Complete => 8
    case Commit => 9
  }

  datatype Name = Name(seqNo: nat, stage: Stage)
  {
    /** (seqNo, Rank(stage)) in lexicographic order, as one number. */
    function Key(): nat { 10 * seqNo + Rank(stage) }
  }

  datatype Node = Node(stage: Stage, timestamp: int, seqNo: nat)
  {
    function Id(): Name { Name(seqNo, stage) }
    /** The source's node equality: it ignores the stage. */
    predicate Same(other: Node) { seqNo == other.seqNo && timestamp == other.timestamp }
  }

  datatype Edge = Edge(u: Node, v: Node, delay: int, cost: int, cause: Bottleneck)
  {
    function Ends(): (Name, Name) { (u.Id(), v.Id()) }
    predicate IsSkew() { u.seqNo != v.seqNo }
  }

  type Nodes = map<Name, Node>
  type Edges = map<(Name, Name), Edge>

  /** `e` is a cross-instruction edge of the graph. */
  predicate IsSkewOf(edges: Edges, e: Edge) { e.IsSkew() && e.Ends() in edges && edges[e.Ends()] == e }

  ghost predicate NonNegative(edges: Edges) { forall k | k in edges :: edges[k].cost >= 0 }

  ghost predicate Free(edges: Edges) { forall k | k in edges :: edges[k].cost == 0 }

  function Put(edges: Edges, e: Edge): Edges { edges[e.Ends() := e] }

  function PutAll(edges: Edges, es: seq<Edge>): Edges
    decreases |es|
  {
    if es == [] then edges else PutAll(Put(edges, es[0]), es[1..])
  }

  function PutNodes(nodes: Nodes, ns: seq<Node>): Nodes
    decreases |ns|
  {
    if ns == [] then nodes else PutNodes(nodes[ns[0].Id() := ns[0]], ns[1..])
  }

  // ---------------------------------------------------------------- stages of one instruction

  const ICACHE_HIT_DELAY := 2
  const DCACHE_HIT_DELAY := 2

  /** Which stage nodes an instruction owns. */
  predicate HasStage(i: Inst, s: Stage) {
    match s
    case F1 => true
    case F2F => i.MergesFetch()
    case F2 => !i.MergesFetch()
    case Fetch => !i.MergesFetch()
    case Decode => true
    case Rename => true
    case DI => i.MergesIssue()
    case Dispatch => !i.MergesIssue()
    case Issue => !i.MergesIssue()
    case MP => i.MergesMemory()
    case Memory => i.IsMem() && !i.MergesMemory()
    case Complete => !i.MergesMemory()
    case Commit => true
  }

  /** The cycle the trace logs for a stage. */
  function Time(i: Inst, s: Stage): int {
    match s
    case F1 => i.fetchCacheLine
    case F2 => i.processCacheCompletion
    case F2F => i.fetch
    case Fetch => i.fetch
    case Decode => i.decode
    case Rename => i.rename
    case Dispatch => i.dispatch
    case DI => i.dispatch
    case Issue => i.issue
    case Memory => i.memory
    case MP => i.memory
    case Complete => i.complete
    case Commit => i.commit
  }

  function StageNode(i: Inst, s: Stage): Node { Node(s, Time(i, s), i.seqNo) }

  /** The stage that follows `s` in the instruction's chain. */
  function Next(i: Inst, s: Stage): (r: Stage)
    requires HasStage(i, s) && s != Commit
    ensures HasStage(i, r) && Rank(s) < Rank(r)
  {
    match s
    case F1 => if i.MergesFetch() then F2F else F2
    case F2 => Fetch
    case F2F => Decode
    case Fetch => Decode
    case Decode => Rename
    case Rename => if i.MergesIssue() then DI else Dispatch
    case Dispatch => Issue
    case DI => if i.MergesMemory() then MP else if i.IsMem() then Memory else Complete
    case Issue => if i.MergesMemory() then MP else if i.IsMem() then Memory else Complete
    case Memory => Complete
    case MP => Commit
    case Complete => Commit
  }

  /** The node that stands for a requested stage once merging is taken into account. */
  function Holder(i: Inst, s: Stage): Stage {
    match s
    case F2 => if i.MergesFetch() then F2F else F2
    case Fetch => if i.MergesFetch() then F2F else Fetch
    case Dispatch => if i.MergesIssue() then DI else Dispatch
    case Issue => if i.MergesIssue() then DI else Issue
    case Memory => if i.MergesMemory() then MP else Memory
    case Complete => if i.MergesMemory() then MP else Complete
    case _ => s
  }

  /** The node list `model` builds. A load's completion node is stamped with completeMemory. */
  function ModelNodes(i: Inst): seq<Node> {
    var at := (s, t) => Node(s, t, i.seqNo);
    [at(F1, i.fetchCacheLine)]
    + (if i.processCacheCompletion == i.fetch then [at(F2F, i.fetch)]
       else [at(F2, i.processCacheCompletion), at(Fetch, i.fetch)])
    + [at(Decode, i.decode), at(Rename, i.rename)]
    + (if i.dispatch == i.issue then [at(DI, i.dispatch)] else [at(Dispatch, i.dispatch), at(Issue, i.issue)])
    + ModelFinish(i)
    + [at(Commit, i.commit)]
  }

  function ModelFinish(i: Inst): seq<Node> {
    if i.IsStore() then [Node(MP, i.memory, i.seqNo)]
    else if i.IsLoad() then
      if i.memory == i.completeMemory then [Node(MP, i.memory, i.seqNo)]
      else [Node(Memory, i.memory, i.seqNo), Node(Complete, i.completeMemory, i.seqNo)]
    else [Node(Complete, i.complete, i.seqNo)]
  }

  function Flow(u: Node, v: Node, delay: int, cause: Bottleneck): Edge { Edge(u, v, delay, 0, cause) }

  function IcacheCause(delay: int): Bottleneck { if delay == ICACHE_HIT_DELAY then Base else IcacheMiss }
  function DcacheCause(delay: int): Bottleneck { if delay == DCACHE_HIT_DELAY then Base else DcacheMiss }

  /** F1 to decode to rename. */
  function FrontEdges(i: Inst): seq<Edge> {
    var f1 := Node(F1, i.fetchCacheLine, i.seqNo);
    var decode := Node(Decode, i.decode, i.seqNo);
    var rename := Node(Rename, i.rename, i.seqNo);
    var delay := i.processCacheCompletion - i.fetchCacheLine;
    (if i.processCacheCompletion == i.fetch then
       var f2f := Node(F2F, i.fetch, i.seqNo);
       [Flow(f1, f2f, delay, IcacheCause(delay)), Flow(f2f, decode, i.decode - i.fetch, Base)]
     else
       var f2 := Node(F2, i.processCacheCompletion, i.seqNo);
       var fetch := Node(Fetch, i.fetch, i.seqNo);
       [Flow(f1, f2, delay, IcacheCause(delay)),
        Flow(f2, fetch, i.fetch - i.processCacheCompletion, Base),
        Flow(fetch, decode, i.decode - i.fetch, Base)])
    + [Flow(decode, rename, i.rename - i.decode, Base)]
  }

  /** Rename to issue. */
  function IssueEdges(i: Inst): seq<Edge> {
    var rename := Node(Rename, i.rename, i.seqNo);
    if i.dispatch == i.issue then
      [Flow(rename, Node(DI, i.dispatch, i.seqNo), i.issue - i.rename, Base)]
    else
      var dispatch := Node(Dispatch, i.dispatch, i.seqNo);
      var issue := Node(Issue, i.issue, i.seqNo);
      [Flow(rename, dispatch, i.dispatch - i.rename, Base), Flow(dispatch, issue, i.issue - i.dispatch, Base)]
  }

  /** Issue to completion. When dispatch and issue differ, the edge between them is listed a second time. */
  function ExecuteEdges(i: Inst): seq<Edge> {
    var di := Node(DI, i.dispatch, i.seqNo);
    var dispatch := Node(Dispatch, i.dispatch, i.seqNo);
    var issue := Node(Issue, i.issue, i.seqNo);
    var again := Flow(dispatch, issue, i.issue - i.dispatch, Base);
    var mp := Node(MP, i.memory, i.seqNo);
    var memory := Node(Memory, i.memory, i.seqNo);
    if i.IsStore() then
      if i.dispatch == i.issue then [Flow(di, mp, i.memory - i.dispatch, Base)]
      else [again, Flow(issue, mp, i.complete - i.issue, Base)]
    else if i.IsLoad() then
      var complete := Node(Complete, i.completeMemory, i.seqNo);
      var access := i.completeMemory - i.memory;
      if i.dispatch == i.issue then
        if i.memory == i.completeMemory then
          [Flow(di, mp, i.complete - i.dispatch, DcacheCause(i.complete - i.dispatch))]
        else
          [Flow(di, memory, i.memory - i.issue, Base), Flow(memory, complete, access, DcacheCause(access))]
      else if i.memory == i.completeMemory then
        [again, Flow(issue, mp, i.completeMemory - i.issue, Base)]
      else
        [again, Flow(issue, memory, i.memory - i.issue, Base), Flow(memory, complete, access, DcacheCause(access))]
    else
      var complete := Node(Complete, i.complete, i.seqNo);
      if i.dispatch == i.issue then [Flow(di, complete, i.complete - i.issue, Base)]
      else [again, Flow(issue, complete, i.complete - i.issue, Base)]
  }

  /** Completion to commit. */
  function CommitEdges(i: Inst): seq<Edge> {
    var mp := Node(MP, i.memory, i.seqNo);
    var commit := Node(Commit, i.commit, i.seqNo);
    if i.IsStore() then [Flow(mp, commit, i.commit - i.complete, Base)]
    else if i.IsLoad() then
      if i.memory == i.completeMemory then [Flow(mp, commit, i.commit - i.complete, Base)]
      else [Flow(Node(Complete, i.completeMemory, i.seqNo), commit, i.commit - i.completeMemory, Base)]
    else [Flow(Node(Complete, i.complete, i.seqNo), commit, i.commit - i.complete, Base)]
  }

  function ModelEdges(i: Inst): seq<Edge> {
    FrontEdges(i) + IssueEdges(i) + ExecuteEdges(i) + CommitEdges(i)
  }

  predicate Exact(e: Edge) { e.delay == e.v.timestamp - e.u.timestamp }

  /** The chain edge out of stage `s`: it spans the exact time to the next stage. */
  function ChainEdge(i: Inst, s: Stage): Edge
    requires HasStage(i, s) && s != Commit
  {
    var u, v := StageNode(i, s), StageNode(i, Next(i, s));
    var delay := v.timestamp - u.timestamp;
    Flow(u, v, delay, ChainCause(i, s, delay))
  }

  /** Only the instruction fetch and the data access can be charged to a cache. A load that issues in a
      cycle of its own and returns at once is charged to Base whatever its latency, because its access
      is the edge out of Issue. */
  function ChainCause(i: Inst, s: Stage, delay: int): Bottleneck {
    if s == F1 then IcacheCause(delay)
    else if s == Memory || (s == DI && i.IsLoad() && i.MergesMemory()) then DcacheCause(delay)
    else Base
  }

  /** The node list holds exactly the stages the instruction owns, each at its logged cycle. */
  lemma {:induction false} ModelNodesExact(i: Inst)
    requires i.WellFormed()
    ensures forall n :: n in ModelNodes(i) <==> HasStage(i, n.stage) && n == StageNode(i, n.stage)
  {
    forall n ensures n in ModelNodes(i) <==> HasStage(i, n.stage) && n == StageNode(i, n.stage) {
      ModelNodeExact(i, n);
    }
  }

  lemma {:induction false} ModelNodeExact(i: Inst, n: Node)
    requires i.WellFormed()
    ensures n in ModelNodes(i) <==> HasStage(i, n.stage) && n == StageNode(i, n.stage)
  {
    assert n in ModelFinish(i) <==> n in FinishNodes(i);
    match n.stage
    case _ =>
  }

  function FinishNodes(i: Inst): seq<Node> {
    if i.MergesMemory() then [StageNode(i, MP)]
    else if i.IsMem() then [StageNode(i, Memory), StageNode(i, Complete)]
    else [StageNode(i, Complete)]
  }

  /** The edge list is exactly the chain: every edge links a stage to the next one. */
  lemma {:induction false} ModelEdgesSound(i: Inst, e: Edge)
    requires i.WellFormed() && e in ModelEdges(i)
    ensures HasStage(i, e.u.stage) && e.u.stage != Commit && e == ChainEdge(i, e.u.stage)
  {
    if e in FrontEdges(i) {
      FrontEdgesSound(i, e);
    } else if e in IssueEdges(i) {
      IssueEdgesSound(i, e);
    } else {
      assert e in ExecuteEdges(i) || e in CommitEdges(i);
      FinishEdgesSound(i, e);
    }
  }

  lemma {:induction false} FrontEdgesSound(i: Inst, e: Edge)
    requires i.WellFormed() && e in FrontEdges(i)
    ensures HasStage(i, e.u.stage) && e.u.stage != Commit && e == ChainEdge(i, e.u.stage)
  {
  }

  lemma {:induction false} IssueEdgesSound(i: Inst, e: Edge)
    requires i.WellFormed() && e in IssueEdges(i)
    ensures HasStage(i, e.u.stage) && e.u.stage != Commit && e == ChainEdge(i, e.u.stage)
  {
  }

  lemma {:induction false} FinishEdgesSound(i: Inst, e: Edge)
    requires i.WellFormed() && (e in ExecuteEdges(i) || e in CommitEdges(i))
    ensures HasStage(i, e.u.stage) && e.u.stage != Commit && e == ChainEdge(i, e.u.stage)
  {
  }

  lemma {:induction false} ModelEdgesComplete(i: Inst, s: Stage)
    requires i.WellFormed() && HasStage(i, s) && s != Commit
    ensures ChainEdge(i, s) in ModelEdges(i)
  {
  }

  /** Every chain edge spans the exact time between its nodes if and only if a merged memory node's
      instruction completes at its memory cycle: the one thing the edge list takes from the trace on trust. */
  lemma {:induction false} ChainDelaysExactIff(i: Inst)
    ensures (forall e | e in ModelEdges(i) :: Exact(e)) <==> (i.MergesMemory() ==> i.complete == i.memory)
  {
    if i.MergesMemory() {
      var e := CommitEdges(i)[0];
      assert e in ModelEdges(i);
      assert Exact(e) <==> i.complete == i.memory;
    }
    if i.MergesMemory() ==> i.complete == i.memory {
      forall e | e in ModelEdges(i) ensures Exact(e) {
        assert e in FrontEdges(i) || e in IssueEdges(i) || e in ExecuteEdges(i) || e in CommitEdges(i);
      }
    }
  }

  /** A load's time in the data cache is charged to the cache if and only if it takes more or less than a hit and is
      an edge of its own: the edge out of Memory, or, for data that return at once, the edge out of a dispatch and
      issue in one cycle. */
  lemma {:induction false} LoadMissChargedIff(i: Inst)
    requires i.WellFormed() && i.IsLoad()
    ensures (exists e | e in ModelEdges(i) :: e.cause == DcacheMiss)
      <==> if i.MergesMemory() then i.MergesIssue() && i.complete - i.dispatch != DCACHE_HIT_DELAY
           else i.completeMemory - i.memory != DCACHE_HIT_DELAY
  {
    if e :| e in ModelEdges(i) && e.cause == DcacheMiss {
      ModelEdgesSound(i, e);
      LoadMissAt(i, e.u.stage);
    }
    var s := if i.MergesMemory() then DI else Memory;
    if HasStage(i, s) {
      ModelEdgesComplete(i, s);
      LoadMissAt(i, s);
    }
  }

  lemma {:induction false} LoadMissAt(i: Inst, s: Stage)
    requires i.WellFormed() && i.IsLoad() && HasStage(i, s) && s != Commit
    ensures ChainEdge(i, s).cause == DcacheMiss
      <==> || (s == Memory && i.completeMemory - i.memory != DCACHE_HIT_DELAY)
           || (s == DI && i.MergesMemory() && i.complete - i.dispatch != DCACHE_HIT_DELAY)
  {
  }

  /** A load of 93 cycles between issue and completion; it issues one cycle after dispatch and its data return at
      once. */
  const LATE_LOAD := Inst(1, "lw", MemRead, 0, 2, 2, 3, 0, 0, 0, 0, 0, 4, 6, 6, 7, 100, 100, 100, 101,
    "rob", "lq", "sq", "iq", "fu", [], 1)

  /** None of them is charged to the data cache. */
  lemma {:induction false} LateLoadUncharged()
    ensures LATE_LOAD.WellFormed() && LATE_LOAD.IsLoad() && LATE_LOAD.complete - LATE_LOAD.issue == 93
    ensures forall e | e in ModelEdges(LATE_LOAD) :: e.cause != DcacheMiss
  {
    LoadMissChargedIff(LATE_LOAD);
  }

  /** A store that completes after its memory cycle breaks an exact delay. */
  lemma {:induction false} LateStoreInexact()
    ensures var i := LATE_LOAD.(opType := MemWrite, complete := 105, completeMemory := 105);
      i.MergesMemory() && exists e | e in ModelEdges(i) :: !Exact(e)
  {
    ChainDelaysExactIff(LATE_LOAD.(opType := MemWrite, complete := 105, completeMemory := 105));
  }

  // ---------------------------------------------------------------- looking up a stage's node

  /** `get_node_via_inst`: try the stage itself, then the merged node that may stand for it. */
  function GetNodeViaInst(nodes: Nodes, i: Inst, s: Stage): Option<Node> {
    if Name(i.seqNo, s) in nodes then Some(nodes[Name(i.seqNo, s)])
    else
      var merged :=
        if s == Fetch || s == F2 then F2F
        else if s == Issue || s == Dispatch then DI
        else if s == Memory || s == Complete then MP
        else s;
      if Name(i.seqNo, merged) in nodes then Some(nodes[Name(i.seqNo, merged)]) else None
  }

  // ---------------------------------------------------------------- the construction invariant

  /** The buffer is front-inserted: it holds seqs n..1 front to back. */
  ghost predicate Numbered(insts: seq<Inst>) {
    forall k | 0 <= k < |insts| :: insts[k].seqNo == |insts| - k
  }

  function InstAt(insts: seq<Inst>, seqNo: nat): Inst
    requires 1 <= seqNo <= |insts|
  {
    insts[|insts| - seqNo]
  }

  ghost predicate TraceOk(insts: seq<Inst>) {
    && Numbered(insts)
    && forall i | i in insts :: i.WellFormed()
  }

  predicate OwnsName(insts: seq<Inst>, n: Name) {
    1 <= n.seqNo <= |insts| && HasStage(InstAt(insts, n.seqNo), n.stage)
  }

  ghost predicate NodesOk(nodes: Nodes, insts: seq<Inst>) {
    && (forall n {:trigger OwnsName(insts, n)} | n in nodes :: OwnsName(insts, n))
    && (forall n {:trigger OwnsName(insts, n)} | OwnsName(insts, n) ::
          n in nodes && nodes[n] == StageNode(InstAt(insts, n.seqNo), n.stage))
  }

  /** What holds of every edge: it joins two nodes of the graph, spans exactly the time between them,
      goes forward in (seq, rank), and costs nothing inside one instruction. */
  ghost predicate EdgeOk(nodes: Nodes, k: (Name, Name), e: Edge) {
    && k.0 in nodes && k.1 in nodes
    && e.u == nodes[k.0] && e.v == nodes[k.1]
    && Exact(e)
    && k.0.Key() < k.1.Key()
    && (e.cost == 0 || (e.cost == e.delay && e.IsSkew()))
  }

  ghost predicate EdgesOk(nodes: Nodes, edges: Edges) {
    forall k {:trigger EdgeOk(nodes, k, edges[k])} | k in edges :: EdgeOk(nodes, k, edges[k])
  }

  /** The edge from a stage to the next one of its instruction is there. */
  ghost predicate Continues(edges: Edges, insts: seq<Inst>, n: Name)
    requires OwnsName(insts, n) && n.stage != Commit
  {
    (n, Name(n.seqNo, Next(InstAt(insts, n.seqNo), n.stage))) in edges
  }

  /** Each instruction's chain is present from F1 to Commit. */
  ghost predicate ChainsOk(edges: Edges, insts: seq<Inst>) {
    forall n: Name {:trigger Continues(edges, insts, n)} | OwnsName(insts, n) && n.stage != Commit ::
      Continues(edges, insts, n)
  }

  ghost predicate Valid(nodes: Nodes, edges: Edges, insts: seq<Inst>) {
    TraceOk(insts) && NodesOk(nodes, insts) && EdgesOk(nodes, edges) && ChainsOk(edges, insts)
  }

  /** Stage lookups resolve merged nodes correctly, and fail only for the memory stage of an instruction
      that does not access memory. The node found carries the cycle logged for the requested stage. */
  lemma {:induction false} LookupResolves(nodes: Nodes, insts: seq<Inst>, i: Inst, s: Stage)
    requires TraceOk(insts) && NodesOk(nodes, insts) && i in insts
    requires !(s == F2F || s == DI || s == MP)
    ensures GetNodeViaInst(nodes, i, s)
         == if s == Memory && !i.IsMem() then None else Some(Node(Holder(i, s), Time(i, s), i.seqNo))
  {
    assert InstAt(insts, i.seqNo) == i;
    forall t: Stage
      ensures Name(i.seqNo, t) in nodes <==> HasStage(i, t)
      ensures HasStage(i, t) ==> nodes[Name(i.seqNo, t)] == StageNode(i, t)
    {
      assert OwnsName(insts, Name(i.seqNo, t)) <==> HasStage(i, t);
    }
  }

  // ---------------------------------------------------------------- keeping the invariant

  lemma {:induction false} PutAllKeeps(nodes: Nodes, edges: Edges, es: seq<Edge>)
    requires EdgesOk(nodes, edges)
    requires forall e | e in es :: EdgeOk(nodes, e.Ends(), e)
    ensures EdgesOk(nodes, PutAll(edges, es))
    ensures forall k | k in edges :: k in PutAll(edges, es)
    ensures forall e | e in es :: e.Ends() in PutAll(edges, es)
    decreases |es|
  {
    if es != [] {
      PutAllKeeps(nodes, Put(edges, es[0]), es[1..]);
    }
  }

  lemma {:induction false} PutNodesIs(nodes: Nodes, ns: seq<Node>, n: Name)
    requires forall a, b | a in ns && b in ns && a.Id() == b.Id() :: a == b
    ensures n in PutNodes(nodes, ns) <==> n in nodes || exists x | x in ns :: x.Id() == n
    ensures forall x | x in ns && x.Id() == n :: PutNodes(nodes, ns)[n] == x
    ensures n in nodes && (forall x | x in ns :: x.Id() != n) ==> PutNodes(nodes, ns)[n] == nodes[n]
    decreases |ns|
  {
    if ns != [] {
      var rest := ns[1..];
      assert forall x :: x in ns <==> x == ns[0] || x in rest;
      PutNodesIs(nodes[ns[0].Id() := ns[0]], rest, n);
    }
  }

  lemma {:induction false} PutModelNodes(nodes: Nodes, i: Inst, n: Name)
    requires i.WellFormed()
    ensures var nodes' := PutNodes(nodes, ModelNodes(i));
      if n.seqNo == i.seqNo && HasStage(i, n.stage) then n in nodes' && nodes'[n] == StageNode(i, n.stage)
      else (n in nodes' <==> n in nodes) && (n in nodes ==> nodes'[n] == nodes[n])
  {
    ModelNodesExact(i);
    PutNodesIs(nodes, ModelNodes(i), n);
    if n.seqNo == i.seqNo && HasStage(i, n.stage) {
      assert StageNode(i, n.stage) in ModelNodes(i);
    }
  }

  /** Adding the next instruction's nodes and chain keeps the invariant. */
  lemma {:induction false} ModelKeepsValid(nodes: Nodes, edges: Edges, insts: seq<Inst>, i: Inst)
    requires Valid(nodes, edges, insts) && i.WellFormed() && i.seqNo == |insts| + 1
    ensures Valid(PutNodes(nodes, ModelNodes(i)), PutAll(edges, ModelEdges(i)), [i] + insts)
  {
    var insts' := [i] + insts;
    var nodes' := PutNodes(nodes, ModelNodes(i));
    var edges' := PutAll(edges, ModelEdges(i));
    assert forall n: nat | 1 <= n <= |insts| :: InstAt(insts', n) == InstAt(insts, n);
    assert InstAt(insts', i.seqNo) == i;
    ModelNodesGrow(nodes, insts, i);
    forall k | k in edges ensures EdgeOk(nodes', k, edges[k]) {
      assert EdgeOk(nodes, k, edges[k]);
    }
    forall e | e in ModelEdges(i) ensures EdgeOk(nodes', e.Ends(), e) {
      ModelEdgesSound(i, e);
      assert OwnsName(insts', e.Ends().0) && OwnsName(insts', e.Ends().1);
    }
    PutAllKeeps(nodes', edges, ModelEdges(i));
    forall n: Name | OwnsName(insts', n) && n.stage != Commit
      ensures Continues(edges', insts', n)
    {
      if n.seqNo == i.seqNo {
        ModelEdgesComplete(i, n.stage);
      } else {
        assert OwnsName(insts, n);
        assert Continues(edges, insts, n);
      }
    }
  }

  lemma {:induction false} ModelNodesGrow(nodes: Nodes, insts: seq<Inst>, i: Inst)
    requires TraceOk(insts) && NodesOk(nodes, insts) && i.WellFormed() && i.seqNo == |insts| + 1
    ensures TraceOk([i] + insts) && NodesOk(PutNodes(nodes, ModelNodes(i)), [i] + insts)
    ensures forall n | n in nodes ::
      n in PutNodes(nodes, ModelNodes(i)) && PutNodes(nodes, ModelNodes(i))[n] == nodes[n]
  {
    var insts' := [i] + insts;
    var nodes' := PutNodes(nodes, ModelNodes(i));
    assert InstAt(insts', i.seqNo) == i;
    forall n: Name
      ensures n in nodes' <==> OwnsName(insts', n)
      ensures n in nodes' ==> nodes'[n] == StageNode(InstAt(insts', n.seqNo), n.stage)
      ensures n in nodes ==> n in nodes' && nodes'[n] == nodes[n]
    {
      PutModelNodes(nodes, i, n);
      assert n in nodes <==> OwnsName(insts, n);
      if 1 <= n.seqNo <= |insts| {
        assert InstAt(insts', n.seqNo) == InstAt(insts, n.seqNo);
      }
    }
  }

  /** Adding any sound edge keeps the invariant, also when it overwrites an edge with the same ends. */
  lemma {:induction false} PutKeepsValid(nodes: Nodes, edges: Edges, insts: seq<Inst>, e: Edge)
    requires Valid(nodes, edges, insts) && EdgeOk(nodes, e.Ends(), e)
    ensures Valid(nodes, Put(edges, e), insts)
  {
    forall n: Name | OwnsName(insts, n) && n.stage != Commit ensures Continues(Put(edges, e), insts, n) {
      assert Continues(edges, insts, n);
    }
  }

  // ---------------------------------------------------------------- source, sink and order

  function Source(insts: seq<Inst>): Name
    requires insts != []
  {
    Name(insts[|insts| - 1].seqNo, F1)
  }

  function Sink(insts: seq<Inst>): Name
    requires insts != []
  {
    Name(insts[0].seqNo, Commit)
  }

  /** The source has the least key of all nodes and the sink the greatest. */
  lemma {:induction false} SourceAndSinkBound(nodes: Nodes, insts: seq<Inst>, n: Name)
    requires insts != [] && TraceOk(insts) && NodesOk(nodes, insts) && n in nodes
    ensures Source(insts) in nodes && Sink(insts) in nodes
    ensures Source(insts).Key() <= n.Key() <= Sink(insts).Key()
    ensures n.Key() == Source(insts).Key() ==> n == Source(insts)
    ensures n.Key() == Sink(insts).Key() ==> n == Sink(insts)
  {
    assert OwnsName(insts, n) && OwnsName(insts, Source(insts)) && OwnsName(insts, Sink(insts));
  }

  /** The source is stamped with the first fetch, the sink with the last commit. */
  lemma {:induction false} EndTimes(nodes: Nodes, insts: seq<Inst>)
    requires insts != [] && TraceOk(insts) && NodesOk(nodes, insts)
    ensures Source(insts) in nodes && nodes[Source(insts)].timestamp == insts[|insts| - 1].fetchCacheLine
    ensures Sink(insts) in nodes && nodes[Sink(insts)].timestamp == insts[0].commit
  {
    assert OwnsName(insts, Source(insts)) && OwnsName(insts, Sink(insts));
  }
}
