/** Cross-instruction dependences: which earlier instruction a new one waits for, and the edge that
    records it (algo/core/model.py, the model_*_interaction family). */
module Interactions {
  import opened Bottlenecks
  import opened Trace
  import opened Deg

  /** The first instruction of the buffer that satisfies `p`. */
  function Youngest(insts: seq<Inst>, p: Inst -> bool): (r: Option<Inst>)
    ensures r.Some? ==> r.value in insts && p(r.value)
    ensures r.None? ==> forall s | s in insts :: !p(s)
  {
    if insts == [] then None
    else if p(insts[0]) then Some(insts[0])
    else Youngest(insts[1..], p)
  }

  /** In a front-inserted buffer the first match is the latest instruction that matches. */
  lemma {:induction false} YoungestIsLatest(insts: seq<Inst>, p: Inst -> bool)
    requires Numbered(insts) && Youngest(insts, p).Some?
    ensures forall s | s in insts && p(s) :: s.seqNo <= Youngest(insts, p).value.seqNo
  {
    if p(insts[0]) {
      assert forall s | s in insts :: s.seqNo <= insts[0].seqNo;
    } else {
      assert forall s | s in insts && p(s) :: s in insts[1..];
      YoungestIsLatest(insts[1..], p);
    }
  }

  /** The node standing for a stage, at the cycle logged for that stage. */
  function Held(i: Inst, s: Stage): Node { Node(Holder(i, s), Time(i, s), i.seqNo) }

  /** The stages that dependences start or end at. */
  predicate IsLinked(s: Stage) { s == Complete || s == F1 || s == Rename || s == Issue }

  lemma {:induction false} CrossIs(u: Inst, us: Stage, v: Inst, vs: Stage, delay: int, cause: Bottleneck)
    requires delay == Time(v, vs) - Time(u, us)
    ensures Cross(Held(u, us), Held(v, vs), cause) == Edge(Held(u, us), Held(v, vs), delay, delay, cause)
  {
  }

  /** A cross-instruction edge costs what it delays. */
  function Cross(u: Node, v: Node, cause: Bottleneck): Edge {
    var delay := v.timestamp - u.timestamp;
    Edge(u, v, delay, delay, cause)
  }

  function Waits(from: Option<Inst>, inst: Inst, s: Stage, cause: Bottleneck): Option<Edge> {
    match from
    case None => None
    case Some(i) => Some(Cross(Held(i, s), Held(inst, s), cause))
  }

  // ---------------------------------------------------------------- the eight rules

  datatype Rule = MissBp | Rob | Lq | Sq | Rf | Iq | Fu | Raw

  const RULES: seq<Rule> := [MissBp, Rob, Lq, Sq, Rf, Iq, Fu, Raw]

  predicate RawDep(target: Inst, source: Inst) { source.dst in target.src }
  predicate WarDep(target: Inst, source: Inst) { target.dst in source.src }
  predicate WrwDep(target: Inst, source: Inst) { target.dst == source.dst }

  function RegisterFile(inst: Inst): Option<Bottleneck> {
    if inst.UseIntRf() then Some(IntRF) else if inst.UseFpRf() then Some(FpRF) else None
  }

  function FunctionalUnit(inst: Inst): Option<Bottleneck> {
    if inst.UseIntAlu() then Some(IntAlu)
    else if inst.UseIntMultDiv() then Some(IntMultDiv)
    else if inst.UseFpAlu() then Some(FpAlu)
    else if inst.UseFpMultDiv() then Some(FpMultDiv)
    else if inst.UseRdWrPort() then Some(RdWrPort)
    else None
  }

  /** `s` was issued to the same unit first and still occupies it when `inst` issues. */
  predicate HoldsUnit(inst: Inst, s: Inst) {
    && inst.fu == s.fu && s.issue < inst.issue
    && ((inst.IsLoad() && s.completeMemory >= inst.issue) || s.complete >= inst.issue)
  }

  const RAW_WINDOW: nat := 50

  /** The edge a rule adds for `inst`, given the instructions before it. */
  function Dependence(rule: Rule, insts: seq<Inst>, inst: Inst): Option<Edge> {
    match rule
    case MissBp =>
      if insts != [] && insts[0].IsControl() && insts[0].complete < inst.fetchCacheLine
      then Some(Cross(Held(insts[0], Complete), Held(inst, F1), BPMiss)) else None
    case Rob =>
      if inst.blockFromRob == 0 then None
      else Waits(Youngest(insts, (s: Inst) => s.rob == inst.rob), inst, Rename, ROB)
    case Lq =>
      if inst.blockFromLq == 0 || !inst.IsLoad() then None
      else Waits(Youngest(insts, (s: Inst) => s.lq == inst.lq), inst, Rename, LQ)
    case Sq =>
      if inst.blockFromSq == 0 || !inst.IsStore() then None
      else Waits(Youngest(insts, (s: Inst) => s.sq == inst.sq), inst, Rename, SQ)
    case Rf =>
      if inst.blockFromRf == 0 || RegisterFile(inst).None? then None
      else Waits(Youngest(insts, (s: Inst) => WarDep(inst, s) || WrwDep(inst, s)),
                 inst, Rename, RegisterFile(inst).value)
    case Iq =>
      if inst.blockFromIq == 0 then None
      else Waits(Youngest(insts, (s: Inst) => s.iq == inst.iq), inst, Rename, IQ)
    case Fu =>
      if inst.issue <= inst.insertReadyList || FunctionalUnit(inst).None? then None
      else Waits(Youngest(insts, (s: Inst) => HoldsUnit(inst, s)), inst, Issue, FunctionalUnit(inst).value)
    case Raw =>
      if inst.insertReadyList <= inst.dispatch then None
      else RawEdge(RawSearch(insts, inst, RAW_WINDOW, 0), inst)
  }

  /** A value produced by a load is charged to the data cache unless it came back at hit latency. */
  function RawEdge(from: Option<Inst>, inst: Inst): Option<Edge> {
    match from
    case None => None
    case Some(i) =>
      Waits(from, inst, Issue, if i.IsLoad() then DcacheCause(inst.issue - i.issue) else RAW)
  }

  function PutIf(edges: Edges, e: Option<Edge>): Edges {
    if e.None? then edges else Put(edges, e.value)
  }

  /** The rules run in list order; a later rule overwrites an earlier one on the same pair of nodes. */
  function Interacted(edges: Edges, insts: seq<Inst>, inst: Inst, rules: seq<Rule>): Edges
    decreases |rules|
  {
    if rules == [] then edges
    else Interacted(PutIf(edges, Dependence(rules[0], insts, inst)), insts, inst, rules[1..])
  }

  // ---------------------------------------------------------------- the RAW search

  /** The producer the nested search settles on, starting at buffer index `i`. The inner loop never
      reloads its instruction, so a producer without a positive result time only skips `window` entries. */
  function RawSearch(insts: seq<Inst>, inst: Inst, window: nat, i: nat): (r: Option<Inst>)
    ensures r.Some? ==> r.value in insts && RawDep(inst, r.value)
    decreases |insts| - i
  {
    if i >= |insts| then None
    else if !RawDep(inst, insts[i]) then RawSearch(insts, inst, window, i + 1)
    else if window >= 1 && insts[i].ResultTime() > 0 then Some(insts[i])
    else RawSearch(insts, inst, window, i + window + 1)
  }

  lemma {:induction false} RawSearchUnique(insts: seq<Inst>, inst: Inst, window: nat, i: nat, k: nat)
    requires Numbered(insts) && i <= k < |insts|
    requires forall j | i <= j < k :: !RawDep(inst, insts[j])
    requires RawDep(inst, insts[k])
    ensures RawSearch(insts, inst, window, i) == Some(insts[k]) <==> window >= 1 && insts[k].ResultTime() > 0
    decreases k - i
  {
    if i < k {
      RawSearchUnique(insts, inst, window, i + 1, k);
    } else if !(window >= 1 && insts[k].ResultTime() > 0) {
      RawSearchSkips(insts, inst, window, k + window + 1, insts[k]);
    }
  }

  lemma {:induction false} RawSearchSkips(insts: seq<Inst>, inst: Inst, window: nat, i: nat, s: Inst)
    requires Numbered(insts) && s in insts
    requires |insts| - i < s.seqNo
    ensures RawSearch(insts, inst, window, i) != Some(s)
    decreases |insts| - i
  {
    if i < |insts| {
      RawSearchSkips(insts, inst, window, i + 1, s);
      RawSearchSkips(insts, inst, window, i + window + 1, s);
    }
  }

  /** The search finds the youngest earlier producer if and only if there is none, or the window is
      non-empty and that producer's result time is positive. */
  lemma {:induction false} RawSearchFindsYoungestIff(insts: seq<Inst>, inst: Inst, window: nat)
    requires Numbered(insts)
    ensures var youngest := Youngest(insts, (s: Inst) => RawDep(inst, s));
      RawSearch(insts, inst, window, 0) == youngest
      <==> (youngest.None? || (window >= 1 && youngest.value.ResultTime() > 0))
  {
    var p := (s: Inst) => RawDep(inst, s);
    var youngest := Youngest(insts, p);
    if youngest.Some? {
      YoungestIsLatest(insts, p);
      var k := |insts| - youngest.value.seqNo;
      assert insts[k] == youngest.value;
      forall j | 0 <= j < k ensures !RawDep(inst, insts[j]) {
        assert insts[j] in insts;
        assert p(insts[j]) == RawDep(inst, insts[j]);
      }
      RawSearchUnique(insts, inst, window, 0, k);
    } else {
      forall s | s in insts ensures !RawDep(inst, s) {
        assert p(s) == RawDep(inst, s);
      }
    }
  }

  /** The only producer, with a result time that was never logged, is passed over. */
  lemma {:induction false} RawSearchMisses()
    ensures var producer := LATE_LOAD.(opType := OpIntAlu, complete := 0);
      var reader := LATE_LOAD.(seqNo := 2, src := [producer.dst]);
      && Youngest([producer], (s: Inst) => RawDep(reader, s)) == Some(producer)
      && RawSearch([producer], reader, RAW_WINDOW, 0) == None
  {
    var producer := LATE_LOAD.(opType := OpIntAlu, complete := 0);
    var reader := LATE_LOAD.(seqNo := 2, src := [producer.dst]);
    RawSearchFindsYoungestIff([producer], reader, RAW_WINDOW);
  }

  // ---------------------------------------------------------------- soundness of the rules

  /** Every dependence goes from a strictly earlier instruction, joins existing nodes and spans the exact time. */
  lemma {:induction false} DependenceSound(rule: Rule, nodes: Nodes, insts: seq<Inst>, inst: Inst)
    requires TraceOk([inst] + insts) && NodesOk(nodes, [inst] + insts)
    ensures var e := Dependence(rule, insts, inst); e.Some? ==>
      && EdgeOk(nodes, e.value.Ends(), e.value)
      && e.value.u.seqNo < e.value.v.seqNo == inst.seqNo
  {
    if Dependence(rule, insts, inst).Some? {
      var from := DependenceFrom(rule, insts, inst);
      HeldIsNode(nodes, [inst] + insts, from, FromStage(rule));
      HeldIsNode(nodes, [inst] + insts, inst, ToStage(rule));
      EarlierSeq(insts, inst, from);
    }
  }

  /** The stages a rule's edge starts and ends at. */
  function FromStage(rule: Rule): Stage {
    if rule == MissBp then Complete else if rule == Fu || rule == Raw then Issue else Rename
  }

  function ToStage(rule: Rule): Stage { if rule == MissBp then F1 else FromStage(rule) }

  /** The instruction a rule's edge starts at. */
  ghost function DependenceFrom(rule: Rule, insts: seq<Inst>, inst: Inst): (from: Inst)
    requires Dependence(rule, insts, inst).Some?
    ensures from in insts
    ensures Dependence(rule, insts, inst).value.u == Held(from, FromStage(rule))
    ensures Dependence(rule, insts, inst).value.v == Held(inst, ToStage(rule))
  {
    match rule
    case MissBp => insts[0]
    case Rob => Youngest(insts, (s: Inst) => s.rob == inst.rob).value
    case Lq => Youngest(insts, (s: Inst) => s.lq == inst.lq).value
    case Sq => Youngest(insts, (s: Inst) => s.sq == inst.sq).value
    case Rf => Youngest(insts, (s: Inst) => WarDep(inst, s) || WrwDep(inst, s)).value
    case Iq => Youngest(insts, (s: Inst) => s.iq == inst.iq).value
    case Fu => Youngest(insts, (s: Inst) => HoldsUnit(inst, s)).value
    case Raw => RawSearch(insts, inst, RAW_WINDOW, 0).value
  }

  lemma {:induction false} HeldIsNode(nodes: Nodes, insts: seq<Inst>, i: Inst, s: Stage)
    requires TraceOk(insts) && NodesOk(nodes, insts) && i in insts && IsLinked(s)
    ensures Held(i, s).Id() in nodes && nodes[Held(i, s).Id()] == Held(i, s)
  {
    assert InstAt(insts, i.seqNo) == i;
    assert OwnsName(insts, Held(i, s).Id());
  }

  lemma {:induction false} HeldIsFound(nodes: Nodes, edges: Edges, insts: seq<Inst>, i: Inst, s: Stage)
    requires Valid(nodes, edges, insts) && i in insts && IsLinked(s)
    ensures GetNodeViaInst(nodes, i, s) == Some(Held(i, s))
  {
    LookupResolves(nodes, insts, i, s);
  }

  /** The searches assert that a dependence comes from an earlier instruction; it always does. */
  lemma {:induction false} EarlierSeq(insts: seq<Inst>, inst: Inst, s: Inst)
    requires Numbered([inst] + insts) && s in insts
    ensures s.seqNo < inst.seqNo
  {
    var k :| 0 <= k < |insts| && insts[k] == s;
    assert ([inst] + insts)[k + 1] == s;
    assert ([inst] + insts)[0] == inst;
  }

  lemma {:induction false} RuleKeepsValid(rule: Rule, nodes: Nodes, edges: Edges, insts: seq<Inst>, inst: Inst)
    requires Valid(nodes, edges, [inst] + insts)
    ensures Valid(nodes, PutIf(edges, Dependence(rule, insts, inst)), [inst] + insts)
  {
    DependenceSound(rule, nodes, insts, inst);
    if Dependence(rule, insts, inst).Some? {
      PutKeepsValid(nodes, edges, [inst] + insts, Dependence(rule, insts, inst).value);
    }
  }

  /** All rules together keep the construction invariant and touch only edges into the new instruction. */
  lemma {:induction false} InteractedKeepsValid(nodes: Nodes, edges: Edges, insts: seq<Inst>, inst: Inst,
      rules: seq<Rule>)
    requires Valid(nodes, edges, [inst] + insts)
    ensures Valid(nodes, Interacted(edges, insts, inst, rules), [inst] + insts)
    ensures var edges' := Interacted(edges, insts, inst, rules);
      && (forall k | k in edges :: k in edges')
      && (forall k | k in edges' && k.1.seqNo != inst.seqNo :: k in edges && edges'[k] == edges[k])
    decreases |rules|
  {
    if rules != [] {
      var e := Dependence(rules[0], insts, inst);
      DependenceSound(rules[0], nodes, insts, inst);
      RuleKeepsValid(rules[0], nodes, edges, insts, inst);
      assert forall k | k in edges :: k in PutIf(edges, e);
      InteractedKeepsValid(nodes, PutIf(edges, e), insts, inst, rules[1..]);
    }
  }

  // ---------------------------------------------------------------- the whole trace

  /** The buffer after reading a trace: the latest instruction is in front. */
  function Buffered(trace: seq<Inst>): (r: seq<Inst>)
    ensures |r| == |trace|
    ensures forall k | 0 <= k < |r| :: r[k] == trace[|trace| - 1 - k]
  {
    if trace == [] then [] else [trace[|trace| - 1]] + Buffered(trace[..|trace| - 1])
  }

  function TraceNodes(trace: seq<Inst>): Nodes {
    if trace == [] then map[]
    else PutNodes(TraceNodes(trace[..|trace| - 1]), ModelNodes(trace[|trace| - 1]))
  }

  /** The edges after one more instruction: its chain, then its dependences on the instructions before it. */
  function Read(edges: Edges, insts: seq<Inst>, inst: Inst): Edges {
    var chained := PutAll(edges, ModelEdges(inst));
    if insts == [] then chained else Interacted(chained, insts, inst, RULES)
  }

  function TraceEdges(trace: seq<Inst>): Edges {
    if trace == [] then map[]
    else
      var before := trace[..|trace| - 1];
      Read(TraceEdges(before), Buffered(before), trace[|trace| - 1])
  }

  lemma {:induction false} TraceGrows(trace: seq<Inst>, i: nat)
    requires i < |trace|
    ensures TraceNodes(trace[..i + 1]) == PutNodes(TraceNodes(trace[..i]), ModelNodes(trace[i]))
    ensures TraceEdges(trace[..i + 1]) == Read(TraceEdges(trace[..i]), Buffered(trace[..i]), trace[i])
    ensures Buffered(trace[..i + 1]) == [trace[i]] + Buffered(trace[..i])
  {
    assert trace[..i + 1][..i] == trace[..i];
  }

  /** The reader numbers instructions from 1; each is well formed. */
  ghost predicate GoodTrace(trace: seq<Inst>) {
    forall k | 0 <= k < |trace| :: trace[k].seqNo == k + 1 && trace[k].WellFormed()
  }

  /** Over every well-formed trace the construction yields a valid graph: exact delays, forward edges
      only, and every instruction's chain intact, whatever edges were overwritten on the way. */
  lemma {:induction false} TraceGraphValid(trace: seq<Inst>)
    requires GoodTrace(trace)
    ensures Valid(TraceNodes(trace), TraceEdges(trace), Buffered(trace))
  {
    if trace != [] {
      var before, inst := trace[..|trace| - 1], trace[|trace| - 1];
      TraceGraphValid(before);
      ModelKeepsValid(TraceNodes(before), TraceEdges(before), Buffered(before), inst);
      if before != [] {
        InteractedKeepsValid(TraceNodes(trace), PutAll(TraceEdges(before), ModelEdges(inst)), Buffered(before),
          inst, RULES);
      }
    }
  }
}
