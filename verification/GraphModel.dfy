/** The dependence graph object: construction from a trace, virtual edges, critical path and report
    (algo/core/model.py, class Graph; algo/core/deg.py). */
module GraphModel {
  import opened Bottlenecks
  import opened Trace
  import opened Text
  import opened Deg
  import opened Interactions
  import opened VirtualEdges
  import opened LongestPath
  import opened Splicing
  import opened CriticalPath
  import opened Sorting
  import Greedy
  import Report

  function StageText(s: Stage): string {
    match s
    case F1 => "F1" case F2 => "F2" case Fetch => "F" case F2F => "F2/F"
    case Decode => "D" case Rename => "R" case Dispatch => "DS" case Issue => "I" case DI => "D/I"
    case Memory => "M" case Complete => "P" case MP => "M/P" case Commit => "C"
  }

  function NameText(n: Name): string { Digits(n.seqNo) + "-" + StageText(n.stage) }

  predicate NameLess(a: Name, b: Name) { Less(NameText(a), NameText(b)) }

  lemma {:induction false} NamesAreOrdered()
    ensures IsOrder(NameLess)
  {
    forall a: Name, b: Name, c: Name ensures !NameLess(a, a) && (NameLess(a, b) && NameLess(b, c) ==> NameLess(a, c)) {
      LessIsOrder(NameText(a), NameText(b), NameText(c));
    }
  }

  class Graph {
    var nodes: Nodes
    var edges: Edges
    var insts: seq<Inst>
    var bottleneck: Counters
    var criticalPath: Option<seq<Name>>

    /** The graph of the instructions read so far, with a counter for every bottleneck. */
    ghost predicate Ok()
      reads this
    {
      Valid(nodes, edges, insts) && Full(bottleneck)
    }

    /** `inst` has its nodes and chain, but is not yet in the buffer. */
    ghost predicate Pending(inst: Inst)
      reads this
    {
      Valid(nodes, edges, [inst] + insts)
    }

    constructor ()
      ensures Ok() && nodes == map[] && edges == map[] && insts == [] && criticalPath == None
      ensures forall b: Bottleneck :: bottleneck[b] == 0
    {
      nodes, edges, insts, criticalPath := map[], map[], [], None;
      bottleneck := map b: Bottleneck | b in ALL :: 0;
      AllComplete();
    }

    // -------------------------------------------------------------- construction

    method AddNodes(ns: seq<Node>)
      modifies this`nodes
      ensures nodes == PutNodes(old(nodes), ns)
    {
      for i := 0 to |ns|
        invariant PutNodes(nodes, ns[i..]) == PutNodes(old(nodes), ns)
      {
        nodes := nodes[ns[i].Id() := ns[i]];
        assert ns[i..][1..] == ns[i + 1..];
      }
    }

    method AddEdges(es: seq<Edge>)
      modifies this`edges
      ensures edges == PutAll(old(edges), es)
    {
      for i := 0 to |es|
        invariant PutAll(edges, es[i..]) == PutAll(old(edges), es)
      {
        edges := Put(edges, es[i]);
        assert es[i..][1..] == es[i + 1..];
      }
    }

    method Model(inst: Inst)
      requires Ok() && inst.WellFormed() && inst.seqNo == |insts| + 1
      modifies this`nodes, this`edges
      ensures nodes == PutNodes(old(nodes), ModelNodes(inst))
      ensures edges == PutAll(old(edges), ModelEdges(inst))
      ensures Pending(inst)
    {
      ModelKeepsValid(nodes, edges, insts, inst);
      AddNodes(ModelNodes(inst));
      AddEdges(ModelEdges(inst));
    }

    method FindYoungest(p: Inst -> bool) returns (r: Option<Inst>)
      ensures r == Youngest(insts, p)
    {
      for i := 0 to |insts|
        invariant Youngest(insts[i..], p) == Youngest(insts, p)
      {
        if p(insts[i]) {
          return Some(insts[i]);
        }
        assert insts[i..][1..] == insts[i + 1..];
      }
      return None;
    }

    /** The stages dependences are recorded at always have a node. */
    method NodeVia(inst: Inst, i: Inst, s: Stage) returns (n: Node)
      requires Pending(inst) && i in [inst] + insts
      requires IsLinked(s)
      ensures n == Held(i, s)
    {
      HeldIsFound(nodes, edges, [inst] + insts, i, s);
      n := GetNodeViaInst(nodes, i, s).value;
    }

    /** Look both nodes up and record a dependence of `v` on `u`. */
    method Connect(u: Inst, us: Stage, v: Inst, vs: Stage, delay: int, cause: Bottleneck)
      requires Pending(v) && u in insts
      requires IsLinked(us) && IsLinked(vs)
      requires delay == Time(v, vs) - Time(u, us)
      modifies this`edges
      ensures edges == Put(old(edges), Cross(Held(u, us), Held(v, vs), cause))
    {
      var from := NodeVia(v, u, us);
      var to := NodeVia(v, v, vs);
      CrossIs(u, us, v, vs, delay, cause);
      edges := Put(edges, Edge(from, to, delay, delay, cause));
    }

    method ModelMissBpInteraction(inst: Inst)
      requires Pending(inst) && insts != []
      modifies this`edges
      ensures edges == PutIf(old(edges), Dependence(MissBp, insts, inst))
    {
      var prev := insts[0];
      if prev.IsControl() {
        if prev.complete < inst.fetchCacheLine {
          Connect(prev, Complete, inst, F1, inst.fetchCacheLine - prev.complete, BPMiss);
        }
      }
    }

    method ModelRobInteraction(inst: Inst)
      requires Pending(inst)
      modifies this`edges
      ensures edges == PutIf(old(edges), Dependence(Rob, insts, inst))
    {
      if inst.blockFromRob != 0 {
        var s := FindYoungest((s: Inst) => s.rob == inst.rob);
        if s.Some? {
          Connect(s.value, Rename, inst, Rename, inst.rename - s.value.rename, ROB);
        }
      }
    }

    method ModelLqInteraction(inst: Inst)
      requires Pending(inst)
      modifies this`edges
      ensures edges == PutIf(old(edges), Dependence(Lq, insts, inst))
    {
      if inst.blockFromLq != 0 && inst.IsLoad() {
        var s := FindYoungest((s: Inst) => s.lq == inst.lq);
        if s.Some? {
          Connect(s.value, Rename, inst, Rename, inst.rename - s.value.rename, LQ);
        }
      }
    }

    method ModelSqInteraction(inst: Inst)
      requires Pending(inst)
      modifies this`edges
      ensures edges == PutIf(old(edges), Dependence(Sq, insts, inst))
    {
      if inst.blockFromSq != 0 && inst.IsStore() {
        var s := FindYoungest((s: Inst) => s.sq == inst.sq);
        if s.Some? {
          Connect(s.value, Rename, inst, Rename, inst.rename - s.value.rename, SQ);
        }
      }
    }

    method ModelRfInteraction(inst: Inst)
      requires Pending(inst)
      modifies this`edges
      ensures edges == PutIf(old(edges), Dependence(Rf, insts, inst))
    {
      if inst.blockFromRf != 0 {
        var dependency := FindYoungest((s: Inst) => WarDep(inst, s) || WrwDep(inst, s));
        if dependency.Some? && RegisterFile(inst).Some? {
          Connect(dependency.value, Rename, inst, Rename, inst.rename - dependency.value.rename,
            RegisterFile(inst).value);
        }
      }
    }

    method ModelIqInteraction(inst: Inst)
      requires Pending(inst)
      modifies this`edges
      ensures edges == PutIf(old(edges), Dependence(Iq, insts, inst))
    {
      if inst.blockFromIq != 0 {
        var s := FindYoungest((s: Inst) => s.iq == inst.iq);
        if s.Some? {
          Connect(s.value, Rename, inst, Rename, inst.rename - s.value.rename, IQ);
        }
      }
    }

    /** An instruction without an operation class matches occupied units but adds no edge. */
    method ModelFuInteraction(inst: Inst)
      requires Pending(inst)
      modifies this`edges
      ensures edges == PutIf(old(edges), Dependence(Fu, insts, inst))
    {
      if inst.issue > inst.insertReadyList {
        var s := FindYoungest((s: Inst) => HoldsUnit(inst, s));
        if s.Some? && FunctionalUnit(inst).Some? {
          Connect(s.value, Issue, inst, Issue, inst.issue - s.value.issue, FunctionalUnit(inst).value);
        }
      }
    }

    /** The nested search: both loops advance `i`, and the inner one keeps testing the same instruction. */
    method FindProducer(inst: Inst, window: nat) returns (dependency: Option<Inst>)
      ensures dependency == RawSearch(insts, inst, window, 0)
    {
      var t, i := 0, 0;
      dependency := None;
      while i < |insts|
        invariant dependency == None && t == 0
        invariant RawSearch(insts, inst, window, i) == RawSearch(insts, inst, window, 0)
      {
        var s, start := insts[i], i;
        if RawDep(inst, s) {
          var j := 0;
          while j < window && i < |insts|
            invariant i == start + j <= |insts| && j <= window
            invariant dependency == if j > 0 && s.ResultTime() > 0 then Some(s) else None
            invariant t == if j > 0 && s.ResultTime() > 0 then s.ResultTime() else 0
          {
            if RawDep(inst, s) {
              if s.IsLoad() {
                if t < s.completeMemory {
                  t, dependency := s.completeMemory, Some(s);
                }
              } else if t < s.complete {
                t, dependency := s.complete, Some(s);
              }
            }
            j, i := j + 1, i + 1;
          }
        }
        if dependency.Some? {
          return;
        }
        i := i + 1;
      }
    }

    method ModelRawInteraction(inst: Inst)
      requires Pending(inst)
      modifies this`edges
      ensures edges == PutIf(old(edges), Dependence(Raw, insts, inst))
    {
      if inst.insertReadyList > inst.dispatch {
        var dependency := FindProducer(inst, RAW_WINDOW);
        if dependency.Some? {
          var delay := inst.issue - dependency.value.issue;
          if dependency.value.IsLoad() {
            Connect(dependency.value, Issue, inst, Issue, delay, DcacheCause(delay));
          } else {
            Connect(dependency.value, Issue, inst, Issue, delay, RAW);
          }
        }
      }
    }

    method ModelRule(rule: Rule, inst: Inst)
      requires Pending(inst) && insts != []
      modifies this`edges
      ensures edges == PutIf(old(edges), Dependence(rule, insts, inst)) && Pending(inst)
    {
      RuleKeepsValid(rule, nodes, edges, insts, inst);
      match rule
      case MissBp => ModelMissBpInteraction(inst);
      case Rob => ModelRobInteraction(inst);
      case Lq => ModelLqInteraction(inst);
      case Sq => ModelSqInteraction(inst);
      case Rf => ModelRfInteraction(inst);
      case Iq => ModelIqInteraction(inst);
      case Fu => ModelFuInteraction(inst);
      case Raw => ModelRawInteraction(inst);
    }

    method ModelInteraction(inst: Inst)
      requires Pending(inst) && Full(bottleneck)
      modifies this`edges, this`insts
      ensures edges == if old(insts) == [] then old(edges) else Interacted(old(edges), old(insts), inst, RULES)
      ensures insts == [inst] + old(insts) && Ok()
    {
      if insts != [] {
        var i := 0;
        while i < |RULES|
          invariant 0 <= i <= |RULES| && Pending(inst) && insts == old(insts)
          invariant Interacted(edges, insts, inst, RULES[i..]) == Interacted(old(edges), insts, inst, RULES)
        {
          assert RULES[i..][0] == RULES[i] && RULES[i..][1..] == RULES[i + 1..];
          ModelRule(RULES[i], inst);
          i := i + 1;
        }
      }
      insts := [inst] + insts;
    }

    method ReadInstruction(inst: Inst)
      requires Ok() && inst.WellFormed() && inst.seqNo == |insts| + 1
      modifies this`nodes, this`edges, this`insts
      ensures nodes == PutNodes(old(nodes), ModelNodes(inst)) && insts == [inst] + old(insts)
      ensures edges == Read(old(edges), old(insts), inst)
      ensures Ok()
    {
      Model(inst);
      ModelInteraction(inst);
    }

    /** Reading a whole trace, instruction by instruction. */
    method ReadTrace(trace: seq<Inst>)
      requires Ok() && nodes == map[] && edges == map[] && insts == [] && GoodTrace(trace)
      modifies this`nodes, this`edges, this`insts
      ensures nodes == TraceNodes(trace) && edges == TraceEdges(trace) && insts == Buffered(trace)
      ensures Ok()
    {
      for i := 0 to |trace|
        invariant Ok()
        invariant nodes == TraceNodes(trace[..i]) && edges == TraceEdges(trace[..i]) && insts == Buffered(trace[..i])
      {
        TraceGrows(trace, i);
        ReadInstruction(trace[i]);
      }
      assert trace[..|trace|] == trace;
    }

    // -------------------------------------------------------------- virtual edges

    method AddVirtualEdge(u: Node, v: Node)
      modifies this`edges
      ensures edges == AddVirtual(old(edges), Request(u, v))
    {
      if u.Same(v) || (u.Id(), v.Id()) in edges {
        return;
      }
      edges := Put(edges, Edge(u, v, v.timestamp - u.timestamp, 0, Virtual));
    }

    method LinkBySeq(idx: nat, skew: seq<Edge>, v: Node)
      requires idx < |skew|
      modifies this`edges
      ensures edges == AddAll(old(edges), SeqScan(skew, idx, v))
    {
      for i := idx + 1 to |skew|
        invariant edges == old(edges) && Scan(skew, i, v) == Scan(skew, idx + 1, v)
      {
        if skew[i].u.seqNo > v.seqNo && skew[i].u.timestamp >= v.timestamp {
          AddVirtualEdge(v, skew[i].u);
          return;
        }
      }
    }

    method AddVirtualEdgeViaSeqImpl(idx: nat, skew: seq<Edge>)
      requires idx < |skew|
      modifies this`edges
      ensures edges == AddAll(old(edges), SeqWorker(skew, idx))
    {
      AddAllAppend(edges, SeqScan(skew, idx, skew[idx].u), SeqScan(skew, idx, skew[idx].v));
      LinkBySeq(idx, skew, skew[idx].u);
      LinkBySeq(idx, skew, skew[idx].v);
    }

    method LinkByTimestamp(idx: nat, skew: seq<Edge>, v: Node)
      requires idx < |skew|
      modifies this`edges
      ensures edges == AddAll(old(edges), TimeScan(skew, idx, v))
    {
      if idx + 1 < |skew| {
        var from, early := LinkFirst(idx, skew, v);
        var i := from + 1;
        while i < |skew|
          invariant from + 1 <= i
          invariant AddAll(edges, TimeRun(skew, i, v, early)) == AddAll(old(edges), TimeScan(skew, idx, v))
        {
          if skew[i].u.seqNo > v.seqNo && early == skew[i].u.timestamp {
            assert TimeRun(skew, i, v, early)[1..] == TimeRun(skew, i + 1, v, early);
            AddVirtualEdge(v, skew[i].u);
          } else {
            return;
          }
          i := i + 1;
        }
      }
    }

    /** The first loop: link the first later edge, and remember where it was found. */
    method LinkFirst(idx: nat, skew: seq<Edge>, v: Node) returns (from: nat, early: int)
      requires idx + 1 < |skew|
      modifies this`edges
      ensures AddAll(edges, TimeRun(skew, from + 1, v, early)) == AddAll(old(edges), TimeScan(skew, idx, v))
    {
      from, early := idx + 1, v.timestamp;
      var i := idx + 1;
      while i < |skew|
        invariant idx + 1 <= i <= |skew| && edges == old(edges) && from == idx + 1 && early == v.timestamp
        invariant Scan(skew, i, v) == Scan(skew, idx + 1, v)
      {
        if skew[i].u.timestamp >= v.timestamp && skew[i].u.seqNo > v.seqNo {
          AddVirtualEdge(v, skew[i].u);
          from, early := i, skew[i].u.timestamp;
          break;
        }
        i := i + 1;
      }
    }

    method AddVirtualEdgeViaTimestampImpl(idx: nat, skew: seq<Edge>)
      requires idx < |skew|
      modifies this`edges
      ensures edges == AddAll(old(edges), TimeWorker(skew, idx))
    {
      AddAllAppend(edges, TimeScan(skew, idx, skew[idx].u), TimeScan(skew, idx, skew[idx].v));
      LinkByTimestamp(idx, skew, skew[idx].u);
      LinkByTimestamp(idx, skew, skew[idx].v);
    }

    /** The cross-instruction edges, in some order. */
    method SkewEdges() returns (skew: seq<Edge>)
      requires Ok()
      ensures (forall e :: e in skew <==> IsSkewOf(edges, e)) && NoRepeats(skew)
    {
      EdgesKeyed(nodes, edges, insts);
      skew := CollectSkew(edges);
    }

    /** The induced graph. `schedule` is the order in which the threads' requests take effect: it may
        interleave them in any way and lose any of them, but invents none. */
    method ConstructInducedGraph(schedule: Schedule) returns (skew: seq<Edge>)
      requires Ok() && insts != []
      requires InventsNothing(schedule)
      modifies this`edges
      ensures (forall e :: e in skew <==> IsSkewOf(old(edges), e)) && NoRepeats(skew)
      ensures Source(insts) in nodes && Sink(insts) in nodes
      ensures edges == AddAll(old(edges), schedule(Threads(skew, nodes[Source(insts)], nodes[Sink(insts)])))
      ensures Ok()
    {
      skew := SkewEdges();
      ValidBounds(nodes, insts);
      var source, sink := nodes[Source(insts)], nodes[Sink(insts)];
      SkewIsOk(nodes, edges, insts, skew);
      ThreadsAdmissible(nodes, insts, skew, source, sink);
      var run := schedule(Threads(skew, source, sink));
      RunRequests(run);
    }

    method RunRequests(run: seq<Request>)
      requires Ok() && insts != [] && AllAdmissible(nodes, insts, run)
      modifies this`edges
      ensures edges == AddAll(old(edges), run) && Ok()
    {
      RunKeepsValid(nodes, edges, insts, run, |run|);
      assert run[..|run|] == run;
      for i := 0 to |run|
        invariant AddAll(edges, run[i..]) == AddAll(old(edges), run)
      {
        AddVirtualEdge(run[i].u, run[i].v);
        assert run[i..][1..] == run[i + 1..];
      }
    }

    // -------------------------------------------------------------- critical path

    /** The longest path, spliced to source and sink, over any topological order. */
    method LongestPathImpl(order: seq<Name>) returns (r: Option<seq<Name>>, lo: nat, hi: nat)
      requires Ok() && insts != [] && IsTopological(order, nodes, edges)
      modifies this`edges
      ensures Valid(nodes, edges, insts)
      ensures LongestOutcome(nodes, old(edges), edges, insts, r, lo, hi)
      ensures r.Some? ==> Joins(edges, r.value, Source(insts), Sink(insts))
    {
      NamesAreOrdered();
      var after;
      r, after, lo, hi := FindCriticalPath(nodes, edges, insts, order, NameLess);
      if r.Some? {
        assert Shows(Course, nodes, edges, after, insts, r.value, lo, hi);
      }
      edges := after;
    }

    /** Charge every edge of a path to its bottleneck. */
    method ChargePath(path: seq<Name>)
      requires EdgesOk(nodes, edges) && Full(bottleneck) && IsPath(edges, path) && path[0] in nodes
      modifies this`bottleneck
      ensures Full(bottleneck) && Accounts(nodes, edges, path, old(bottleneck), bottleneck)
    {
      NothingCharged(nodes, edges, path, bottleneck);
      for i := 0 to |path| - 1
        invariant Full(bottleneck) && Accounts(nodes, edges, path[..i + 1], old(bottleneck), bottleneck)
      {
        var edge := edges[(path[i], path[i + 1])];
        ChargeOneMore(nodes, edges, path, i, old(bottleneck), bottleneck);
        bottleneck := bottleneck[edge.cause := bottleneck[edge.cause] + edge.delay];
      }
      assert path[..|path|] == path;
    }

    /** The critical path is found, kept and charged. With no path the source raises. */
    method LongestPath(order: seq<Name>) returns (ok: bool, lo: nat, hi: nat)
      requires Ok() && insts != [] && criticalPath == None && IsTopological(order, nodes, edges)
      modifies this`edges, this`bottleneck, this`criticalPath
      ensures Valid(nodes, edges, insts) && Full(bottleneck)
      ensures LongestOutcome(nodes, old(edges), edges, insts, criticalPath, lo, hi)
      ensures ok <==> criticalPath.Some?
      ensures ok ==> Accounts(nodes, edges, criticalPath.value, old(bottleneck), bottleneck)
    {
      ValidBounds(nodes, insts);
      criticalPath, lo, hi := LongestPathImpl(order);
      ok := criticalPath.Some?;
      if ok {
        ChargePath(criticalPath.value);
      }
    }

    /** The report's own assertion: the counters add up to the time from source to sink. */
    ghost predicate Golden()
      reads this
    {
      && insts != [] && Source(insts) in nodes && Sink(insts) in nodes && Full(bottleneck)
      && Total(bottleneck, ALL) == nodes[Sink(insts)].timestamp - nodes[Source(insts)].timestamp
    }

    /** Induce, sort, find and charge, under every schedule of the worker threads. */
    method ConstructCriticalPathV2(schedule: Schedule) returns (ok: bool, a: Analysis)
      requires Ok() && insts != [] && criticalPath == None && forall b: Bottleneck :: bottleneck[b] == 0
      requires InventsNothing(schedule)
      modifies this`edges, this`bottleneck, this`criticalPath
      ensures ok <==> criticalPath.Some?
      ensures a.edges == edges && a.path == criticalPath && a.counters == bottleneck
      ensures Concluded(nodes, old(edges), insts, schedule, a)
      ensures insts != [] && Source(insts) in nodes && Sink(insts) in nodes
      ensures ok ==> IsCharged(nodes, insts, edges, criticalPath.value, bottleneck)
    {
      var skew := ConstructInducedGraph(schedule);
      var induced := edges;
      ghost var zero := bottleneck;
      var lo, hi;
      ok, lo, hi := SortAndCharge();
      a := Analysis(skew, induced, edges, criticalPath, lo, hi, bottleneck);
      Concludes(nodes, old(edges), insts, schedule, a, zero);
    }

    method SortAndCharge() returns (ok: bool, lo: nat, hi: nat)
      requires Ok() && insts != [] && criticalPath == None
      modifies this`edges, this`bottleneck, this`criticalPath
      ensures Valid(nodes, edges, insts)
      ensures LongestOutcome(nodes, old(edges), edges, insts, criticalPath, lo, hi)
      ensures ok <==> criticalPath.Some?
      ensures ok ==> Accounts(nodes, edges, criticalPath.value, old(bottleneck), bottleneck)
    {
      var order := TopologicalSort(nodes, edges);
      ok, lo, hi := LongestPath(order);
    }

    /** The heuristic path. Edges kept by the greedy selection, sorted by start, always leave gaps to bridge,
        so the source's "no gaps" error cannot be raised. */
    method ConstructCriticalPathV1() returns (candidate: seq<Edge>)
      requires Ok() && insts != []
      modifies this`edges
      ensures SortedBy(candidate, BySeq) && Greedy.Compatible(candidate)
      ensures forall e | e in candidate :: IsSkewOf(old(edges), e)
      ensures forall e | IsSkewOf(old(edges), e) && e !in candidate ::
        Greedy.Blocked(e, candidate)
      ensures Source(insts) in nodes && Sink(insts) in nodes
      ensures edges == AddAll(old(edges), Greedy.Bridges(nodes[Source(insts)], candidate, nodes[Sink(insts)]))
    {
      ValidBounds(nodes, insts);
      var skew := SkewEdges();
      var kept := Greedy.SelectEdges(skew);
      candidate := SortBy(kept, BySeq);
      SameElements(candidate, kept);
      SkewGoesForward(nodes, edges, insts, skew);
      Greedy.PermutedCompatible(kept, candidate);
      Greedy.BlockedByPermutation(skew, kept, candidate);
      BridgeGaps(candidate);
    }

    method BridgeGaps(candidate: seq<Edge>)
      requires insts != [] && Source(insts) in nodes && Sink(insts) in nodes
      requires SortedBy(candidate, BySeq) && Greedy.Compatible(candidate)
      requires nodes[Source(insts)].seqNo <= 1 && forall e | e in candidate :: 1 <= e.u.seqNo < e.v.seqNo
      modifies this`edges
      ensures edges == AddAll(old(edges), Greedy.Bridges(nodes[Source(insts)], candidate, nodes[Sink(insts)]))
    {
      var agent, sink := nodes[Source(insts)], nodes[Sink(insts)];
      ghost var all := Greedy.Bridges(agent, candidate, sink);
      for i := 0 to |candidate|
        invariant if i == 0 then agent.seqNo <= 1 else agent == candidate[i - 1].v
        invariant AddAll(edges, Greedy.Bridges(agent, candidate[i..], sink)) == AddAll(old(edges), all)
      {
        var edge := candidate[i];
        assert edge in candidate;
        if i > 0 {
          Greedy.SortedLeavesGaps(candidate, i - 1);
        }
        assert agent.seqNo <= edge.u.seqNo;
        assert candidate[i..][1..] == candidate[i + 1..];
        AddVirtualEdge(agent, edge.u);
        agent := edge.v;
      }
      AddVirtualEdge(agent, sink);
    }

    /** Build the critical path and report it. */
    method Conclude(schedule: Schedule) returns (text: Option<string>, a: Analysis)
      requires Ok() && insts != [] && criticalPath == None && forall b: Bottleneck :: bottleneck[b] == 0
      requires InventsNothing(schedule)
      modifies this`edges, this`bottleneck, this`criticalPath
      ensures Concluded(nodes, old(edges), insts, schedule, a)
      ensures insts != [] && Source(insts) in nodes && Sink(insts) in nodes
      ensures a.path.Some? ==> IsCharged(nodes, insts, a.edges, a.path.value, a.counters)
      ensures text == ReportOf(nodes, insts, a)
    {
      var ok;
      ok, a := ConstructCriticalPathV2(schedule);
      text := GenerateReport();
    }

    method GenerateReport() returns (text: Option<string>)
      requires criticalPath.Some? ==> Golden() && IsPath(edges, criticalPath.value)
      ensures text.None? <==> criticalPath.None?
      ensures criticalPath.Some? ==>
        text.value == Unlines(Report.ReportLines(
          nodes[Sink(insts)].timestamp - nodes[Source(insts)].timestamp, PathLines(edges, criticalPath.value),
            bottleneck, ALL))
    {
      if criticalPath.None? {
        return None;
      }
      var length := AddUp(bottleneck, ALL);
      var goldenLength := nodes[Sink(insts)].timestamp - nodes[Source(insts)].timestamp;
      assert goldenLength == length;
      text := Some(Unlines(Report.ReportLines(length, PathLines(edges, criticalPath.value), bottleneck, ALL)));
    }
  }

  method CollectSkew(edges: Edges) returns (skew: seq<Edge>)
    requires forall k | k in edges :: edges[k].Ends() == k
    ensures (forall e :: e in skew <==> IsSkewOf(edges, e)) && NoRepeats(skew)
  {
    skew := [];
    var rest := edges.Keys;
    while rest != {}
      invariant rest <= edges.Keys
      invariant NoRepeats(skew) && forall e | e in skew :: IsSkewOf(edges, e) && e.Ends() !in rest
      invariant forall k | k in edges && k !in rest && edges[k].IsSkew() :: edges[k] in skew
    {
      var k :| k in rest;
      if edges[k].IsSkew() {
        skew := skew + [edges[k]];
      }
      rest := rest - {k};
    }
  }

  method AddUp(m: Counters, bs: seq<Bottleneck>) returns (length: int)
    requires Full(m)
    ensures length == Total(m, bs)
  {
    length := 0;
    for i := 0 to |bs|
      invariant length + Total(m, bs[i..]) == Total(m, bs)
    {
      length := length + m[bs[i]];
      assert bs[i..][1..] == bs[i + 1..];
    }
  }

  /** One line for each edge of the path. */
  ghost predicate AllOneLine(lines: seq<string>) { forall s | s in lines :: OneLine(s) }

  function EdgeLine(e: Edge): (s: string)
    ensures OneLine(s)
  {
    PlainText(e.u.Id());
    PlainText(e.v.Id());
    Report.LabelPlain(e.cause);
    NameText(e.u.Id()) + "\t=>\t" + NameText(e.v.Id()) + ": " + Label(e.cause) + "\t" + Show(e.delay)
  }

  lemma {:induction false} PlainText(n: Name)
    ensures OneLine(NameText(n))
  {
  }

  function PathLines(edges: Edges, p: seq<Name>): (lines: seq<string>)
    requires IsPath(edges, p)
    ensures |lines| == |p| - 1 && AllOneLine(lines)
  {
    if |p| == 1 then []
    else PathLines(edges, p[..|p| - 1]) + [EdgeLine(edges[(p[|p| - 2], p[|p| - 1])])]
  }

  lemma {:induction false} SkewGoesForward(nodes: Nodes, edges: Edges, insts: seq<Inst>, skew: seq<Edge>)
    requires insts != [] && Valid(nodes, edges, insts)
    requires forall e | e in skew :: IsSkewOf(edges, e)
    ensures forall e | e in skew :: 1 <= e.u.seqNo < e.v.seqNo
    ensures Source(insts) in nodes && nodes[Source(insts)].seqNo <= 1
  {
    ValidBounds(nodes, insts);
    NodesKnown(nodes, insts, Source(insts));
    forall e | e in skew ensures 1 <= e.u.seqNo < e.v.seqNo {
      assert EdgeOk(nodes, e.Ends(), edges[e.Ends()]);
      assert OwnsName(insts, e.u.Id());
    }
  }

  /** The report of an analysis: the time from source to sink, a line for each edge of its path, its counters. */
  ghost function ReportOf(nodes: Nodes, insts: seq<Inst>, a: Analysis): Option<string>
    requires insts != [] && Source(insts) in nodes && Sink(insts) in nodes
    requires a.path.Some? ==> IsCharged(nodes, insts, a.edges, a.path.value, a.counters)
  {
    if a.path.None? then None
    else
      Some(Unlines(Report.ReportLines(nodes[Sink(insts)].timestamp - nodes[Source(insts)].timestamp,
                                      PathLines(a.edges, a.path.value), a.counters, ALL)))
  }

  /** What the analysis of a trace promises. Conclusions: they hold of the trace's own graph, and the text is the
      report of the path and the counters. Silence: with non-negative waits there is no text exactly when no
      dependence costs anything. Reading: the text reads back as exactly the time from the first fetch to the last
      commit and those counters, which add up to it. */
  datatype Promise = Conclusions | Silence | Reading

  ghost predicate Keeps(promise: Promise, trace: seq<Inst>, schedule: Schedule, text: Option<string>, a: Analysis) {
    match promise
    case Conclusions =>
      var nodes, insts := TraceNodes(trace), Buffered(trace);
      && Concluded(nodes, TraceEdges(trace), insts, schedule, a)
      && insts != [] && Source(insts) in nodes && Sink(insts) in nodes
      && (a.path.Some? ==> IsCharged(nodes, insts, a.edges, a.path.value, a.counters))
      && text == ReportOf(nodes, insts, a)
    case Silence => NonNegative(TraceEdges(trace)) ==> (text.None? <==> Free(TraceEdges(trace)))
    case Reading =>
      && trace != []
      && (text.Some? ==> Reads(text.value, trace[|trace| - 1].commit - trace[0].fetchCacheLine, a.counters))
  }

  ghost predicate IsAnalysis(trace: seq<Inst>, schedule: Schedule, text: Option<string>, a: Analysis) {
    forall promise: Promise :: Keeps(promise, trace, schedule, text, a)
  }

  /** The text reads back as a length and counters that add up to it. */
  ghost predicate Reads(text: string, length: int, m: Counters) {
    && Full(m) && Total(m, ALL) == length
    && Report.ParseReport(text, |ALL|) == Some(Report.Parsed(length, Report.ByLabel(m)))
  }

  /** The text of an analysis reads back as the analysis. */
  lemma {:induction false} TextReads(nodes: Nodes, insts: seq<Inst>, a: Analysis, length: int)
    requires insts != [] && Source(insts) in nodes && Sink(insts) in nodes && a.path.Some?
    requires IsCharged(nodes, insts, a.edges, a.path.value, a.counters)
    requires length == nodes[Sink(insts)].timestamp - nodes[Source(insts)].timestamp
    ensures Reads(ReportOf(nodes, insts, a).value, length, a.counters)
  {
    Report.ReportReads(length, PathLines(a.edges, a.path.value), a.counters);
  }

  lemma {:induction false} AnalysisIs(trace: seq<Inst>, schedule: Schedule, text: Option<string>, a: Analysis)
    requires trace != [] && GoodTrace(trace)
    requires Concluded(TraceNodes(trace), TraceEdges(trace), Buffered(trace), schedule, a)
    requires var nodes, insts := TraceNodes(trace), Buffered(trace);
      && Source(insts) in nodes && Sink(insts) in nodes
      && (a.path.Some? ==> IsCharged(nodes, insts, a.edges, a.path.value, a.counters))
      && text == ReportOf(nodes, insts, a)
    ensures IsAnalysis(trace, schedule, text, a)
  {
    forall promise: Promise ensures Keeps(promise, trace, schedule, text, a) {
      match promise
      case Conclusions =>
      case Silence => assert Holds(Balance, TraceNodes(trace), TraceEdges(trace), Buffered(trace), schedule, a);
      case Reading => AnalysisReads(trace, text, a);
    }
  }

  lemma {:induction false} AnalysisReads(trace: seq<Inst>, text: Option<string>, a: Analysis)
    requires trace != [] && GoodTrace(trace)
    requires var nodes, insts := TraceNodes(trace), Buffered(trace);
      && Source(insts) in nodes && Sink(insts) in nodes
      && (a.path.Some? ==> IsCharged(nodes, insts, a.edges, a.path.value, a.counters))
      && text == ReportOf(nodes, insts, a)
    ensures text.Some? ==> Reads(text.value, trace[|trace| - 1].commit - trace[0].fetchCacheLine, a.counters)
  {
    var nodes, insts := TraceNodes(trace), Buffered(trace);
    TraceGraphValid(trace);
    EndTimes(nodes, insts);
    if text.Some? {
      TextReads(nodes, insts, a, trace[|trace| - 1].commit - trace[0].fetchCacheLine);
    }
  }

  /** From trace to report: whatever well-formed trace is read, however the worker threads interleave or fail. */
  method Analyse(trace: seq<Inst>, schedule: Schedule) returns (text: Option<string>, a: Analysis)
    requires trace != [] && GoodTrace(trace) && InventsNothing(schedule)
    ensures IsAnalysis(trace, schedule, text, a)
  {
    var g := new Graph();
    g.ReadTrace(trace);
    text, a := g.Conclude(schedule);
    AnalysisIs(trace, schedule, text, a);
  }

  // ---------------------------------------------------------------- no report, and many reports

  /** No instruction of the trace waits for an earlier one. */
  ghost predicate NoWaits(trace: seq<Inst>) {
    forall i, rule | 0 <= i < |trace| && rule in RULES :: Dependence(rule, Buffered(trace[..i]), trace[i]) == None
  }

  /** Where no instruction waits for another, every edge is free and there is no report. */
  lemma {:induction false} NoWaitsNoReport(trace: seq<Inst>, schedule: Schedule, text: Option<string>, a: Analysis)
    requires GoodTrace(trace) && NoWaits(trace)
    ensures Free(TraceEdges(trace))
    ensures IsAnalysis(trace, schedule, text, a) ==> text == None
  {
    NoWaitsFree(trace);
    if IsAnalysis(trace, schedule, text, a) {
      assert Keeps(Silence, trace, schedule, text, a);
    }
  }

  /** A trace of one instruction never has a report: the source fails on its missing critical path. */
  lemma {:induction false} OneInstructionNoReport(i: Inst, schedule: Schedule, text: Option<string>, a: Analysis)
    requires i.seqNo == 1 && i.WellFormed()
    ensures Free(TraceEdges([i]))
    ensures IsAnalysis([i], schedule, text, a) ==> text == None
  {
    forall k, rule | 0 <= k < |[i]| && rule in RULES ensures Dependence(rule, Buffered([i][..k]), [i][k]) == None {
      assert [i][..0] == [];
    }
    NoWaitsNoReport([i], schedule, text, a);
  }

  lemma {:induction false} NoWaitsFree(trace: seq<Inst>)
    requires GoodTrace(trace) && NoWaits(trace)
    ensures Free(TraceEdges(trace))
  {
    if trace != [] {
      var before, inst := trace[..|trace| - 1], trace[|trace| - 1];
      forall i, rule | 0 <= i < |before| && rule in RULES
        ensures Dependence(rule, Buffered(before[..i]), before[i]) == None
      {
        assert before[..i] == trace[..i];
        assert Dependence(rule, Buffered(trace[..i]), trace[i]) == None;
      }
      NoWaitsFree(before);
      ChainIsFree(TraceEdges(before), inst);
      NothingInteracts(PutAll(TraceEdges(before), ModelEdges(inst)), Buffered(before), inst, RULES);
    }
  }

  lemma {:induction false} NothingInteracts(edges: Edges, insts: seq<Inst>, inst: Inst, rules: seq<Rule>)
    requires forall rule | rule in rules :: Dependence(rule, insts, inst) == None
    ensures Interacted(edges, insts, inst, rules) == edges
    decreases |rules|
  {
    if rules != [] {
      NothingInteracts(edges, insts, inst, rules[1..]);
    }
  }

  /** Only dependences between instructions cost anything; an instruction's own chain does not. */
  lemma {:induction false} ChainIsFree(edges: Edges, inst: Inst)
    requires inst.WellFormed() && Free(edges)
    ensures Free(PutAll(edges, ModelEdges(inst)))
  {
    forall e | e in ModelEdges(inst) ensures e.cost == 0 {
      ModelEdgesSound(inst, e);
    }
    PutAllFree(edges, ModelEdges(inst));
  }

  lemma {:induction false} PutAllFree(edges: Edges, es: seq<Edge>)
    requires Free(edges) && forall e | e in es :: e.cost == 0
    ensures Free(PutAll(edges, es))
    decreases |es|
  {
    if es != [] {
      PutAllFree(Put(edges, es[0]), es[1..]);
    }
  }

  /** One benchmark: its trace, how its worker threads were scheduled, and what its analysis gave. */
  datatype Run = Run(trace: seq<Inst>, schedule: Schedule, text: string, a: Analysis)

  /** `mark` is what a run's report reads back as. */
  ghost predicate IsMarkOf(mark: Report.Benchmark, run: Run) {
    && IsAnalysis(run.trace, run.schedule, Some(run.text), run.a) && Full(mark.counters)
    && Report.ParseReport(run.text, |ALL|) == Some(Report.Parsed(mark.length, Report.ByLabel(mark.counters)))
  }

  /** From traces to contributions: whatever benchmarks were analysed under whatever schedules, the average
      contributions read from their reports add up to exactly 1, if no benchmark took no time. */
  lemma {:induction false} AnalysedContributionsSumToOne(runs: seq<Run>, marks: seq<Report.Benchmark>,
      average: Report.Shares)
    requires |runs| == |marks| > 0 && forall k | 0 <= k < |runs| :: IsMarkOf(marks[k], runs[k])
    requires Report.AllUsable(marks) && Report.IsAverage(average, marks)
    ensures Report.TotalShare(average, ALL) == 1.0
  {
    forall mark | mark in marks ensures Total(mark.counters, ALL) == mark.length {
      var k :| 0 <= k < |marks| && marks[k] == mark;
      MarkAddsUp(marks[k], runs[k]);
    }
    Report.ContributionsSumToOne(marks, average);
  }

  lemma {:induction false} MarkAddsUp(mark: Report.Benchmark, run: Run)
    requires IsMarkOf(mark, run)
    ensures Total(mark.counters, ALL) == mark.length
  {
    assert Keeps(Reading, run.trace, run.schedule, Some(run.text), run.a);
    ReadsOnce(run.text, run.trace[|run.trace| - 1].commit - run.trace[0].fetchCacheLine, run.a.counters, mark);
  }

  lemma {:induction false} ReadsOnce(text: string, length: int, m: Counters, mark: Report.Benchmark)
    requires Reads(text, length, m) && Full(mark.counters)
    requires Report.ParseReport(text, |ALL|) == Some(Report.Parsed(mark.length, Report.ByLabel(mark.counters)))
    ensures Total(mark.counters, ALL) == mark.length
  {
    Report.ByLabelOnce(mark.counters, m, ALL);
  }
}
