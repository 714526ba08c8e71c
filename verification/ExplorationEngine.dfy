/** The exploration engine: sensitive components with their recorded configurations, in-place adjustment of
    an embedding, and the exploration loop (algo/dse.py). */
module ExplorationEngine {
  import opened Bottlenecks
  import opened Trace
  import opened Design
  import opened Exploration

  // ---------------------------------------------------------------- a component's record, as a value

  function Projections(designs: seq<Embedding>, slots: seq<nat>): (r: seq<seq<int>>)
    requires AllDims(designs) && forall k | 0 <= k < |slots| :: slots[k] < DIMS
    ensures |r| == |designs| && forall k | 0 <= k < |r| :: |designs[k]| == DIMS && r[k] == Project(designs[k], slots)
  {
    seq(|designs|, k requires 0 <= k < |designs| => assert designs[k] in designs; Project(designs[k], slots))
  }

  datatype Record = Record(gauge: Gauge, configs: seq<seq<int>>)

  /** All of `designs` are measured, and the recorded configurations are those of the recorded measurements. */
  ghost predicate Done(r: Record, b: Bottleneck, profile: Profile, designs: seq<Embedding>) {
    && AllDims(designs)
    && r.gauge == Rounds(Measured(profile, designs, b))
    && |r.gauge.contribution| <= |designs|
    && r.configs == Projections(designs[..|r.gauge.contribution|], Slots(b))
  }

  /** All designs but the last are measured. The last one's configuration is recorded too, one ahead of the
      measurements, unless the component has terminated. */
  ghost predicate Ready(r: Record, b: Bottleneck, profile: Profile, designs: seq<Embedding>) {
    && designs != [] && AllDims(designs)
    && r.gauge == Rounds(Measured(profile, designs[..|designs| - 1], b))
    && (if r.gauge.terminate then |r.gauge.contribution| < |designs| else |r.gauge.contribution| == |designs| - 1)
    && r.configs == Projections(if r.gauge.terminate then designs[..|r.gauge.contribution|] else designs, Slots(b))
  }

  lemma {:induction false} RoundsLength(cs: seq<real>)
    ensures var g := Rounds(cs);
      && |g.contribution| <= |cs| && (!g.terminate ==> |g.contribution| == |cs|)
      && (cs != [] ==> g.contribution != [])
  {
    RoundsTrackHistory(cs);
  }

  lemma {:induction false} MeasuredStep(profile: Profile, designs: seq<Embedding>, b: Bottleneck)
    requires designs != []
    ensures Rounds(Measured(profile, designs, b))
      == UpdateTerminate(Update(Rounds(Measured(profile, designs[..|designs| - 1], b)),
        profile(designs[|designs| - 1], b)))
  {
    var cs := Measured(profile, designs, b);
    assert cs[..|cs| - 1] == Measured(profile, designs[..|designs| - 1], b);
  }

  /** Measuring the last design turns a ready record into one that is done: configurations and measurements
      are in lockstep, entry by entry of the same design. */
  lemma {:induction false} MeasureDone(r: Record, b: Bottleneck, profile: Profile, designs: seq<Embedding>)
    requires Ready(r, b, profile, designs)
    ensures var g := UpdateTerminate(Update(r.gauge, profile(designs[|designs| - 1], b)));
      Done(Record(g, r.configs), b, profile, designs)
  {
    var g := UpdateTerminate(Update(r.gauge, profile(designs[|designs| - 1], b)));
    MeasuredStep(profile, designs, b);
    RoundsLength(Measured(profile, designs, b));
    LinesUp(r, g, profile(designs[|designs| - 1], b), b, designs);
  }

  /** The lengths alone: a terminated record stays as it is, any other catches up with its configurations. */
  lemma {:induction false} LinesUp(r: Record, g: Gauge, c: real, b: Bottleneck, designs: seq<Embedding>)
    requires designs != [] && AllDims(designs)
    requires if r.gauge.terminate then |r.gauge.contribution| < |designs| else |r.gauge.contribution| == |designs| - 1
    requires r.configs
      == Projections(if r.gauge.terminate then designs[..|r.gauge.contribution|] else designs, Slots(b))
    requires g.contribution == if r.gauge.terminate then r.gauge.contribution else r.gauge.contribution + [c]
    ensures |g.contribution| <= |designs| && r.configs == Projections(designs[..|g.contribution|], Slots(b))
  {
  }

  /** Recording the next design makes the record ready for it. */
  lemma {:induction false} RecordReady(r: Record, b: Bottleneck, profile: Profile, designs: seq<Embedding>,
      next: Embedding)
    requires Done(r, b, profile, designs) && |next| == DIMS
    ensures var configs := if r.gauge.terminate then r.configs else r.configs + [Project(next, Slots(b))];
      Ready(Record(r.gauge, configs), b, profile, designs + [next])
  {
    RoundsLength(Measured(profile, designs, b));
    var more := designs + [next];
    assert more[..|more| - 1] == designs;
    if r.gauge.terminate {
      assert more[..|r.gauge.contribution|] == designs[..|r.gauge.contribution|];
    } else {
      assert designs[..|designs|] == designs;
    }
  }

  /** The source's assertion in `fallback` never fails, and what it restores is the least measured design's
      configuration. */
  lemma {:induction false} FallbackIs(r: Record, b: Bottleneck, profile: Profile, designs: seq<Embedding>)
    requires Done(r, b, profile, designs) && IsSensitive(b) && r.gauge.terminate
    ensures r.gauge.contribution != [] && |r.configs| == |r.gauge.contribution|
    ensures forall c | c in r.configs :: |c| == |Slots(b)|
    ensures Exploration.Fallback(profile, designs, b) == Some(r.configs[LeastIndex(r.gauge.contribution)])
  {
    RoundsTrackHistory(Measured(profile, designs, b));
  }

  lemma {:induction false} NoFallback(r: Record, b: Bottleneck, profile: Profile, designs: seq<Embedding>)
    requires Done(r, b, profile, designs) && !r.gauge.terminate
    ensures Exploration.Fallback(profile, designs, b) == None
  {
    RoundsTrackHistory(Measured(profile, designs, b));
  }

  // ---------------------------------------------------------------- sensitive components

  class SensitiveComponent {
    const cause: Bottleneck
    var terminate: bool
    var configs: seq<seq<int>>
    var contribution: seq<real>
    var last: real

    constructor (cause: Bottleneck)
      ensures this.cause == cause && View() == Record(FRESH, [])
    {
      this.cause := cause;
      terminate, configs, contribution, last := false, [], [], 0.0;
    }

    ghost function View(): Record
      reads this
    {
      Record(Gauge(contribution, last, terminate), configs)
    }

    method Reset()
      modifies this
      ensures View() == Record(FRESH, [])
    {
      configs, contribution, terminate, last := [], [], false, 0.0;
    }

    method SetConfig(embedding: seq<int>)
      requires |embedding| == DIMS
      modifies this`configs
      ensures configs == old(configs) + [Project(embedding, Slots(cause))]
    {
      var config := [];
      for i := 0 to |Slots(cause)|
        invariant |config| == i && forall k | 0 <= k < i :: config[k] == embedding[Slots(cause)[k]]
      {
        config := config + [embedding[Slots(cause)[i]]];
      }
      assert config == Project(embedding, Slots(cause));
      configs := configs + [config];
    }

    /** Record the next design's configuration unless the component has terminated. */
    method Track(embedding: seq<int>, ghost profile: Profile, ghost designs: seq<Embedding>)
      requires |embedding| == DIMS && Done(View(), cause, profile, designs)
      modifies this`configs
      ensures Ready(View(), cause, profile, designs + [embedding])
    {
      RecordReady(View(), cause, profile, designs, embedding);
      if !terminate {
        SetConfig(embedding);
      }
    }

    method Update(c: real)
      requires !terminate
      modifies this`contribution
      ensures View().gauge == Exploration.Update(old(View().gauge), c)
    {
      contribution := contribution + [c];
    }

    method UpdateTerminate()
      modifies this`last, this`terminate
      ensures View().gauge == Exploration.UpdateTerminate(old(View().gauge))
    {
      var average := Mean(contribution);
      if last == 0.0 {
        last := average;
      } else if last >= average {
        last := average;
      } else {
        terminate := true;
      }
    }

    /** Write back the configuration that measured least. The length test is the source's own assertion. */
    method Fallback(embedding: array<int>)
      requires embedding.Length == DIMS && contribution != []
      requires |contribution| == |configs| && forall c | c in configs :: |c| == |Slots(cause)|
      modifies embedding
      ensures configs[LeastIndex(contribution)] in configs
      ensures embedding[..] == Restore(old(embedding[..]), Slots(cause), configs[LeastIndex(contribution)])
    {
      var idx := 0;
      for i := 1 to |contribution|
        invariant idx < |contribution| && idx == LeastIndex(contribution[..i])
      {
        assert contribution[..i + 1][..i] == contribution[..i];
        if contribution[i] < contribution[idx] {
          idx := i;
        }
      }
      assert contribution[..|contribution|] == contribution;
      var config, slots := configs[idx], Slots(cause);
      assert config in configs;
      for i := 0 to |slots|
        invariant Restore(embedding[..], slots[i..], config[i..]) == Restore(old(embedding[..]), slots, config)
      {
        assert slots[i..][1..] == slots[i + 1..] && config[i..][1..] == config[i + 1..];
        ghost var before := embedding[..];
        embedding[slots[i]] := config[i];
        assert embedding[..] == before[slots[i] := config[i]];
      }
    }
  }

  class SensitiveComponentManager {
    const bp: SensitiveComponent
    const icache: SensitiveComponent
    const dcache: SensitiveComponent

    constructor ()
      ensures Apart() && fresh(bp) && fresh(icache) && fresh(dcache)
      ensures bp.View() == icache.View() == dcache.View() == Record(FRESH, [])
    {
      bp := new SensitiveComponent(BPMiss);
      icache := new SensitiveComponent(IcacheMiss);
      dcache := new SensitiveComponent(DcacheMiss);
    }

    ghost predicate Apart() {
      && bp != icache && bp != dcache && icache != dcache
      && bp.cause == BPMiss && icache.cause == IcacheMiss && dcache.cause == DcacheMiss
    }

    ghost predicate AllDone(profile: Profile, designs: seq<Embedding>)
      reads bp, icache, dcache
    {
      Done(bp.View(), BPMiss, profile, designs) && Done(icache.View(), IcacheMiss, profile, designs)
      && Done(dcache.View(), DcacheMiss, profile, designs)
    }

    ghost predicate AllReady(profile: Profile, designs: seq<Embedding>)
      reads bp, icache, dcache
    {
      Ready(bp.View(), BPMiss, profile, designs) && Ready(icache.View(), IcacheMiss, profile, designs)
      && Ready(dcache.View(), DcacheMiss, profile, designs)
    }

    /** Start of a run: forget everything and record the first design. */
    method Start(embedding: seq<int>, ghost profile: Profile)
      requires Apart() && |embedding| == DIMS
      modifies bp, icache, dcache
      ensures AllReady(profile, [embedding])
    {
      bp.Reset();
      icache.Reset();
      dcache.Reset();
      assert [embedding][..0] == [];
      SetConfig(embedding, profile, []);
    }

    method SetConfig(embedding: seq<int>, ghost profile: Profile, ghost designs: seq<Embedding>)
      requires Apart() && |embedding| == DIMS && AllDone(profile, designs)
      modifies bp, icache, dcache
      ensures AllReady(profile, designs + [embedding])
    {
      bp.Track(embedding, profile, designs);
      icache.Track(embedding, profile, designs);
      dcache.Track(embedding, profile, designs);
    }

    method Update(share: Bottleneck -> real)
      requires Apart()
      modifies bp, icache, dcache
      ensures bp.View() == old(bp.View()).(gauge := Exploration.Update(old(bp.View().gauge), share(BPMiss)))
      ensures icache.View()
        == old(icache.View()).(gauge := Exploration.Update(old(icache.View().gauge), share(IcacheMiss)))
      ensures dcache.View()
        == old(dcache.View()).(gauge := Exploration.Update(old(dcache.View().gauge), share(DcacheMiss)))
    {
      if !bp.terminate {
        bp.Update(share(BPMiss));
      }
      if !icache.terminate {
        icache.Update(share(IcacheMiss));
      }
      if !dcache.terminate {
        dcache.Update(share(DcacheMiss));
      }
    }

    method UpdateTerminate()
      requires Apart()
      modifies bp, icache, dcache
      ensures bp.View() == old(bp.View()).(gauge := Exploration.UpdateTerminate(old(bp.View().gauge)))
      ensures icache.View() == old(icache.View()).(gauge := Exploration.UpdateTerminate(old(icache.View().gauge)))
      ensures dcache.View() == old(dcache.View()).(gauge := Exploration.UpdateTerminate(old(dcache.View().gauge)))
    {
      bp.UpdateTerminate();
      icache.UpdateTerminate();
      dcache.UpdateTerminate();
    }

    /** The component a bottleneck belongs to, if it is a sensitive one. */
    function Of(b: Bottleneck): (c: SensitiveComponent?)
      ensures c == null <==> !IsSensitive(b)
      ensures c != null && Apart() ==> c.cause == b && c in {bp, icache, dcache}
    {
      if b == BPMiss then bp else if b == IcacheMiss then icache else if b == DcacheMiss then dcache else null
    }
  }

  // ---------------------------------------------------------------- the engine

  datatype Outcome = Outcome(ipc: real, cpi: real, power: real, area: real)

  function Metric(o: Outcome): real
    requires o.power > 0.0 && o.area > 0.0
  {
    o.ipc * o.ipc / (o.power * o.area)
  }

  class Engine {
    const setting: Setting
    const scm: SensitiveComponentManager

    constructor (setting: Setting)
      ensures this.setting == setting && scm.Apart() && fresh(scm.bp) && fresh(scm.icache) && fresh(scm.dcache)
    {
      this.setting := setting;
      scm := new SensitiveComponentManager();
    }

    /** One coordinate; the new row is always there. */
    method AdjustCoordinate(embedding: array<int>, k: Knob, up: bool) returns (adjust: bool)
      requires k.pos < embedding.Length && StepSafe(setting.tables, k) && embedding[k.pos] in setting.tables(k.lookup)
      modifies embedding
      ensures adjust == Step(setting.tables, k, old(embedding[k.pos]), up).To?
      ensures var m := Step(setting.tables, k, old(embedding[k.pos]), up);
        embedding[..] == if m.To? then old(embedding[..])[k.pos := m.value] else old(embedding[..])
    {
      adjust := false;
      var tables, value := setting.tables, embedding[k.pos];
      var total := |tables(k.lookup)|;
      var idx := GetIdx(tables(k.lookup), value);
      assert !Step(tables, k, value, up).Miss?;
      if up {
        if idx != -1 && total != idx {
          embedding[k.pos] := tables(k.step)[idx];
          adjust := true;
        }
      } else {
        if idx != -1 && idx != 1 {
          embedding[k.pos] := tables(k.step)[idx - 2];
          adjust := true;
        }
      }
    }

    method AdjustAll(embedding: array<int>, knobs: seq<Knob>, up: bool) returns (adjust: bool)
      requires DistinctKnobs(knobs)
      requires forall k | k in knobs :: k.pos < embedding.Length && StepSafe(setting.tables, k)
      requires forall k | k in knobs :: embedding[k.pos] in setting.tables(k.lookup)
      modifies embedding
      ensures embedding[..] == Adjusted(setting.tables, old(embedding[..]), knobs, up)
      ensures adjust == Moves(setting.tables, old(embedding[..]), knobs, up)
    {
      adjust := false;
      ghost var start := embedding[..];
      for i := 0 to |knobs|
        invariant Adjusted(setting.tables, embedding[..], knobs[i..], up) == Adjusted(setting.tables, start, knobs, up)
        invariant forall j | i <= j < |knobs| :: embedding[knobs[j].pos] == start[knobs[j].pos]
        invariant adjust == Moves(setting.tables, start, knobs[..i], up)
      {
        var k := knobs[i];
        assert k in knobs;
        assert knobs[i..][1..] == knobs[i + 1..] && knobs[..i + 1] == knobs[..i] + [k];
        MovesSnoc(setting.tables, start, knobs[..i], k, up);
        var moved := AdjustCoordinate(embedding, k, up);
        adjust := adjust || moved;
      }
      assert knobs[..|knobs|] == knobs;
    }

    /** `adjust_*` for the resource of a bottleneck: every coordinate by one row. */
    method Adjust(embedding: array<int>, b: Bottleneck, up: bool) returns (adjust: bool)
      requires TablesOk(setting.tables) && embedding.Length == DIMS && InTable(setting.tables, embedding[..])
      modifies embedding
      ensures Fits(old(embedding[..]), b)
      ensures embedding[..] == Adjusted(setting.tables, old(embedding[..]), Knobs(b), up)
      ensures adjust == Moves(setting.tables, old(embedding[..]), Knobs(b), up)
    {
      AllFit(embedding[..]);
      KnobsDistinct(b);
      forall k | k in Knobs(b)
        ensures StepSafe(setting.tables, k) && k.pos < DIMS && embedding[k.pos] in setting.tables(k.lookup)
      {
        KnobsSafe(setting.tables, b, k);
        assert embedding[..][k.pos] == embedding[k.pos];
      }
      adjust := AdjustAll(embedding, Knobs(b), up);
    }

    /** Raise the top-k resources; a terminated component falls back instead. */
    method IncreaseHardwareResource(embedding: array<int>, summary: seq<Bottleneck>, ghost designs: seq<Embedding>,
        ghost start: Embedding)
      requires scm.Apart() && TablesOk(setting.tables)
      requires embedding.Length == DIMS && Reachable(setting, start, embedding[..])
      requires scm.AllDone(setting.profile, designs) && AllReachable(setting, start, designs)
      modifies embedding
      ensures AllDims(designs)
      ensures embedding[..] == Raise(setting, FallbacksOf(setting.profile, designs), summary, old(embedding[..]), 0)
      ensures Reachable(setting, start, embedding[..])
    {
      ghost var fallback := FallbacksOf(setting.profile, designs);
      FallbacksAreReachable(setting, start, designs);
      RaiseReachable(setting, start, fallback, summary, embedding[..], 0);
      var moved, i := 0, 0;
      while i < |summary|
        invariant i <= |summary| && Reachable(setting, start, embedding[..])
        invariant Raise(setting, fallback, summary[i..], embedding[..], moved)
          == Raise(setting, fallback, summary, old(embedding[..]), 0)
      {
        if moved >= setting.topK {
          return;
        }
        var b := summary[i];
        assert summary[i..][1..] == summary[i + 1..] && summary[i..][0] == b;
        var adjust := RaiseStep(embedding, b, designs, start);
        if adjust {
          moved := moved + 1;
        }
        i := i + 1;
      }
    }

    /** What raising one resource does: a terminated component falls back, and that does not count as a move. */
    ghost predicate RaisedBy(designs: seq<Embedding>, b: Bottleneck, before: Embedding, after: Embedding, adjust: bool)
      requires AllDims(designs) && |before| == DIMS
    {
      var f := FallbacksOf(setting.profile, designs);
      adjust == Counts(setting, f, b, before) && after == Treated(setting, f, b, before)
    }

    method FallBack(component: SensitiveComponent, embedding: array<int>, ghost designs: seq<Embedding>,
        ghost start: Embedding)
      requires IsSensitive(component.cause) && component.terminate
        && Done(component.View(), component.cause, setting.profile, designs)
      requires embedding.Length == DIMS && Reachable(setting, start, embedding[..])
        && AllReachable(setting, start, designs)
      modifies embedding
      ensures AllDims(designs) && Fits(old(embedding[..]), component.cause)
      ensures RaisedBy(designs, component.cause, old(embedding[..]), embedding[..], false)
      ensures Reachable(setting, start, embedding[..])
    {
      AllFit(embedding[..]);
      FallbackIs(component.View(), component.cause, setting.profile, designs);
      FallbackReachable(setting, start, designs, embedding[..], component.cause);
      component.Fallback(embedding);
    }

    method RaiseStep(embedding: array<int>, b: Bottleneck, ghost designs: seq<Embedding>,
        ghost start: Embedding) returns (adjust: bool)
      requires scm.Apart() && TablesOk(setting.tables)
      requires embedding.Length == DIMS && Reachable(setting, start, embedding[..])
      requires scm.AllDone(setting.profile, designs) && AllReachable(setting, start, designs)
      modifies embedding
      ensures Reachable(setting, start, embedding[..])
      ensures AllDims(designs) && Fits(old(embedding[..]), b)
      ensures RaisedBy(designs, b, old(embedding[..]), embedding[..], adjust)
    {
      var component := scm.Of(b);
      if component != null && component.terminate {
        FallBack(component, embedding, designs, start);
        return false;
      }
      FallbackOnlyAfterEnd(b, designs);
      AdjustedInTable(setting.tables, embedding[..], b, true);
      adjust := Adjust(embedding, b, true);
    }

    lemma {:induction false} FallbackOnlyAfterEnd(b: Bottleneck, designs: seq<Embedding>)
      requires scm.Apart() && scm.AllDone(setting.profile, designs)
      requires scm.Of(b) != null ==> !scm.Of(b).terminate
      ensures AllDims(designs) && Fallback(setting.profile, designs, b) == None
    {
      var component := scm.Of(b);
      if component != null {
        NoFallback(component.View(), b, setting.profile, designs);
      }
    }

    /** Lower the sampled resources. */
    method DecreaseHardwareResource(embedding: array<int>, candidates: seq<Bottleneck>, ghost start: Embedding)
      requires TablesOk(setting.tables) && embedding.Length == DIMS && Reachable(setting, start, embedding[..])
      modifies embedding
      ensures embedding[..] == Lower(setting, candidates, old(embedding[..]))
      ensures Reachable(setting, start, embedding[..])
    {
      for i := 0 to |candidates|
        invariant Reachable(setting, start, embedding[..])
        invariant Lower(setting, candidates[i..], embedding[..]) == Lower(setting, candidates, old(embedding[..]))
      {
        var b := candidates[i];
        assert candidates[i..][1..] == candidates[i + 1..] && candidates[i..][0] == b;
        AdjustedInTable(setting.tables, embedding[..], b, false);
        var _ := Adjust(embedding, b, false);
      }
    }

    /** From the current design to the next: raise what hurts most, lower some of what does not hurt. */
    method BottleneckRemoval(design: Embedding, summary: seq<Bottleneck>, ghost designs: seq<Embedding>,
        ghost start: Embedding, round: nat)
      returns (next: Embedding)
      requires scm.Apart() && TablesOk(setting.tables) && Reachable(setting, start, design)
      requires scm.AllDone(setting.profile, designs) && AllReachable(setting, start, designs)
      ensures AllDims(designs) && Reachable(setting, start, next)
      ensures next == Lower(setting, setting.sample(round, Zeros(setting.profile, design, summary)),
                            Raise(setting, FallbacksOf(setting.profile, designs), summary, design, 0))
    {
      var embedding := new int[DIMS](i requires 0 <= i < |design| => design[i]);
      assert embedding[..] == design;
      IncreaseHardwareResource(embedding, summary, designs, start);
      DecreaseHardwareResource(embedding, setting.sample(round, Zeros(setting.profile, design, summary)), start);
      next := embedding[..];
    }

    /** One round: measure the current design, then move on from it. */
    method BottleneckAnalysis(design: Embedding, ghost designs: seq<Embedding>, ghost start: Embedding,
        round: nat) returns (next: Embedding)
      requires scm.Apart() && TablesOk(setting.tables)
      requires |designs| == round + 1 && designs[round] == design && scm.AllReady(setting.profile, designs)
      requires AllReachable(setting, start, designs)
      modifies scm.bp, scm.icache, scm.dcache
      ensures AllDims(designs) && next == Next(setting, designs) && Reachable(setting, start, next)
      ensures scm.AllDone(setting.profile, designs)
    {
      assert design in designs;
      MeasureAll(design, designs);
      next := BottleneckRemoval(design, Summary(setting, design), designs, start, round);
    }

    method MeasureAll(design: Embedding, ghost designs: seq<Embedding>)
      requires scm.Apart() && designs != [] && designs[|designs| - 1] == design
        && scm.AllReady(setting.profile, designs)
      modifies scm.bp, scm.icache, scm.dcache
      ensures scm.AllDone(setting.profile, designs)
    {
      MeasureDone(scm.bp.View(), BPMiss, setting.profile, designs);
      MeasureDone(scm.icache.View(), IcacheMiss, setting.profile, designs);
      MeasureDone(scm.dcache.View(), DcacheMiss, setting.profile, designs);
      scm.Update(b => setting.profile(design, b));
      scm.UpdateTerminate();
    }

    /** Measure the current design, move on, and record the new one. */
    method Round(design: Embedding, ghost designs: seq<Embedding>, ghost start: Embedding,
        round: nat) returns (next: Embedding)
      requires scm.Apart() && TablesOk(setting.tables)
      requires |designs| == round + 1 && designs[round] == design && scm.AllReady(setting.profile, designs)
      requires OnCourse(setting, start, designs)
      modifies scm.bp, scm.icache, scm.dcache
      ensures OnCourse(setting, start, designs + [next])
      ensures scm.AllReady(setting.profile, designs + [next])
    {
      next := BottleneckAnalysis(design, designs, start, round);
      scm.SetConfig(next, setting.profile, designs);
      CourseGoesOn(setting, start, designs);
    }

    /** Simulate one design; a failed simulation scores 0. */
    method Evaluate(design: Embedding, simulate: Embedding -> Outcome) returns (t: Entry)
      requires simulate(design).power > 0.0 && simulate(design).area > 0.0
      ensures t.embedding == design && IsEntry(t, simulate) && (t.outcome.ipc == 0.0 ==> t.pppa == 0.0)
    {
      var outcome := simulate(design);
      t := Entry(design, outcome, Metric(outcome));
      if outcome.ipc == 0.0 {
        FailureScoresZero(outcome);
      }
    }

    /** One pass of the loop: evaluate the design, keep the best, and either stop or move on. */
    method Pass(design: Embedding, ghost designs: seq<Embedding>, ghost start: Embedding,
        simulate: Embedding -> Outcome,
                score: Score, ghost budget: nat, earlyStopping: int)
      returns (after: Score, next: Embedding, stop: bool)
      requires scm.Apart() && TablesOk(setting.tables) && simulate(design).power > 0.0 && simulate(design).area > 0.0
      requires Underway(setting, simulate, start, designs, score.trace, earlyStopping) && |score.trace| < budget
      requires design == designs[|score.trace|] && scm.AllReady(setting.profile, designs) && Scored(score)
      modifies scm.bp, scm.icache, scm.dcache
      ensures stop ==> Explored(setting, simulate, start, after, budget, earlyStopping)
      ensures !stop ==>
        Underway(setting, simulate, start, designs + [next], after.trace, earlyStopping) && Scored(after)
      ensures !stop ==> scm.AllReady(setting.profile, designs + [next])
    {
      var i := |score.trace|;
      var t := Evaluate(design, simulate);
      ScoreEntry(score, t);
      after := score.(trace := score.trace + [t]);
      if t.outcome.ipc == 0.0 {
        BestIsFirstMaximum(score.trace);
        StopsHere(setting, simulate, start, designs, score.trace, t, budget, earlyStopping, after);
        return after, design, true;
      }
      if t.pppa > score.bestPppa {
        after := Score(after.trace, t.pppa, Some(i), i);
      }
      next := Round(design, designs, start, i);
      stop := i - after.lastUpdate >= earlyStopping;
      if stop {
        StopsHere(setting, simulate, start, designs, score.trace, t, budget, earlyStopping, after);
      } else {
        GoesOn(setting, simulate, start, designs, score.trace, t, earlyStopping, after, next);
      }
    }

    /** The exploration loop. Every design is the one its history prescribes; the loop stops exactly when the
        budget is spent, a simulation fails or no improvement was seen for `earlyStopping` rounds; and the
        solution is the first design with the best metric. */
    method Explore(start: Embedding,
        simulate: Embedding -> Outcome, budget: nat, earlyStopping: int) returns (solutions: Score)
      requires scm.Apart() && TablesOk(setting.tables) && InTable(setting.tables, start)
      requires forall e :: simulate(e).power > 0.0 && simulate(e).area > 0.0
      modifies scm.bp, scm.icache, scm.dcache
      ensures Explored(setting, simulate, start, solutions, budget, earlyStopping)
    {
      solutions := Score([], 0.0, None, 0);
      var design := start;
      scm.Start(design, setting.profile);
      ghost var designs := [start];
      for i := 0 to budget
        invariant |solutions.trace| == i && |designs| == i + 1 && design == designs[i]
        invariant Underway(setting, simulate, start, designs, solutions.trace, earlyStopping)
        invariant scm.AllReady(setting.profile, designs)
        invariant Scored(solutions)
      {
        var stop;
        solutions, design, stop := Pass(design, designs, start, simulate, solutions, budget, earlyStopping);
        if stop {
          return;
        }
        designs := designs + [design];
      }
      RunOf(setting, simulate, start, solutions.trace, designs);
    }
  }

  // ---------------------------------------------------------------- runs

  datatype Entry = Entry(embedding: Embedding, outcome: Outcome, pppa: real)

  /** The trace so far, its best metric, the round of the best design, if any design has a positive metric,
      and the round of the last improvement. */
  datatype Score = Score(trace: seq<Entry>, bestPppa: real, best: Option<nat>, lastUpdate: int)

  function Designs(trace: seq<Entry>): (r: seq<Embedding>)
    ensures |r| == |trace| && forall k | 0 <= k < |r| :: r[k] == trace[k].embedding
  {
    seq(|trace|, k requires 0 <= k < |trace| => trace[k].embedding)
  }

  /** Every design after the first follows from the ones before it. */
  ghost predicate IsHistory(s: Setting, start: Embedding, designs: seq<Embedding>) {
    && AllDims(designs)
    && (designs != [] ==> designs[0] == start)
    && forall k: nat {:trigger FollowsOn(s, designs, k)} | 0 < k < |designs| :: FollowsOn(s, designs, k)
  }

  ghost predicate FollowsOn(s: Setting, designs: seq<Embedding>, k: nat)
    requires 0 < k < |designs| && AllDims(designs)
  {
    designs[k] == Next(s, designs[..k])
  }

  /** A history of reachable designs. */
  ghost predicate OnCourse(s: Setting, start: Embedding, designs: seq<Embedding>) {
    IsHistory(s, start, designs) && AllReachable(s, start, designs)
  }

  ghost predicate Measures(trace: seq<Entry>, simulate: Embedding -> Outcome) {
    forall k | 0 <= k < |trace| :: IsEntry(trace[k], simulate)
  }

  ghost predicate IsEntry(t: Entry, simulate: Embedding -> Outcome) {
    t.outcome == simulate(t.embedding) && t.outcome.power > 0.0 && t.outcome.area > 0.0 && t.pppa == Metric(t.outcome)
  }

  /** A run: every design follows from the ones before it and is reachable, and every entry is measured. */
  ghost predicate IsRun(s: Setting, simulate: Embedding -> Outcome, start: Embedding, trace: seq<Entry>) {
    OnCourse(s, start, Designs(trace)) && Measures(trace, simulate)
  }

  /** The greatest metric of a trace, at least 0. */
  function BestValue(trace: seq<Entry>): real {
    if trace == [] then 0.0
    else
      var v, t := BestValue(trace[..|trace| - 1]), trace[|trace| - 1];
      if t.pppa > v then t.pppa else v
  }

  function BestIndex(trace: seq<Entry>): Option<nat> {
    if trace == [] then None
    else
      var init := trace[..|trace| - 1];
      if trace[|trace| - 1].pppa > BestValue(init) then Some(|trace| - 1) else BestIndex(init)
  }

  /** The solution is the first design that attains the greatest metric; there is none exactly when no metric
      is positive. */
  lemma {:induction false} BestIsFirstMaximum(trace: seq<Entry>)
    ensures forall t | t in trace :: t.pppa <= BestValue(trace)
    ensures BestIndex(trace).None? <==> forall t | t in trace :: t.pppa <= 0.0
    ensures BestIndex(trace).None? ==> BestValue(trace) == 0.0
    ensures BestIndex(trace).Some? ==>
      var i := BestIndex(trace).value;
      i < |trace| && trace[i].pppa == BestValue(trace) > 0.0 && forall k | 0 <= k < i :: trace[k].pppa < trace[i].pppa
  {
    if trace != [] {
      var init := trace[..|trace| - 1];
      BestIsFirstMaximum(init);
      assert trace == init + [trace[|trace| - 1]];
      assert forall k | 0 <= k < |init| :: trace[k] == init[k] && init[k] in init;
    }
  }

  /** The round of the last improvement; 0 before there is one. */
  function LastUpdate(trace: seq<Entry>): int {
    if BestIndex(trace).Some? then BestIndex(trace).value else 0
  }

  predicate StopsAfter(trace: seq<Entry>, i: nat, earlyStopping: int)
    requires i < |trace|
  {
    trace[i].outcome.ipc == 0.0 || i - LastUpdate(trace[..i + 1]) >= earlyStopping
  }

  ghost predicate NotStopped(trace: seq<Entry>, n: nat, earlyStopping: int)
    requires n <= |trace|
  {
    forall k: nat | k < n :: !StopsAfter(trace, k, earlyStopping)
  }

  /** The run ends at the first round that calls for it, or when the budget is spent. */
  ghost predicate Stops(trace: seq<Entry>, budget: nat, earlyStopping: int) {
    && |trace| <= budget
    && (trace != [] ==> NotStopped(trace, |trace| - 1, earlyStopping))
    && (|trace| < budget ==> trace != [] && StopsAfter(trace, |trace| - 1, earlyStopping))
  }

  lemma {:induction false} HistoryGrows(s: Setting, start: Embedding, designs: seq<Embedding>)
    requires designs != [] && IsHistory(s, start, designs)
    ensures IsHistory(s, start, designs + [Next(s, designs)])
  {
    var more := designs + [Next(s, designs)];
    forall k: nat | 0 < k < |more| ensures FollowsOn(s, more, k) {
      assert more[..k] == designs[..k];
      if k < |designs| {
        assert FollowsOn(s, designs, k);
      } else {
        assert designs[..|designs|] == designs;
      }
    }
  }

  lemma {:induction false} CourseGoesOn(s: Setting, start: Embedding, designs: seq<Embedding>)
    requires designs != [] && OnCourse(s, start, designs) && Reachable(s, start, Next(s, designs))
    ensures OnCourse(s, start, designs + [Next(s, designs)])
  {
    HistoryGrows(s, start, designs);
  }

  lemma {:induction false} RunOf(s: Setting,
      simulate: Embedding -> Outcome, start: Embedding, trace: seq<Entry>, designs: seq<Embedding>)
    requires OnCourse(s, start, designs) && Measures(trace, simulate)
    requires |trace| <= |designs| && Designs(trace) == designs[..|trace|]
    ensures IsRun(s, simulate, start, trace)
  {
    var d := designs[..|trace|];
    assert forall e | e in d :: e in designs;
    forall k: nat | 0 < k < |d| ensures FollowsOn(s, d, k) {
      assert FollowsOn(s, designs, k) && d[..k] == designs[..k];
    }
  }

  /** The state at the head of a round: one design more than there are entries. */
  ghost predicate Underway(s: Setting,
      simulate: Embedding -> Outcome, start: Embedding, designs: seq<Embedding>, trace: seq<Entry>,
      earlyStopping: int) {
    && |designs| == |trace| + 1 && Designs(trace) == designs[..|trace|]
    && OnCourse(s, start, designs) && Measures(trace, simulate) && NotStopped(trace, |trace|, earlyStopping)
  }

  ghost predicate Scored(p: Score) {
    p.bestPppa == BestValue(p.trace) && p.best == BestIndex(p.trace) && p.lastUpdate == LastUpdate(p.trace)
  }

  /** What an exploration returns. */
  ghost predicate Explored(s: Setting,
      simulate: Embedding -> Outcome, start: Embedding, p: Score, budget: nat, earlyStopping: int) {
    IsRun(s, simulate, start, p.trace) && Stops(p.trace, budget, earlyStopping) && Scored(p)
  }

  /** Adding the current design's entry extends the run; whether it stops there is the loop's own test. */
  lemma {:induction false} AddEntry(s: Setting,
      simulate: Embedding -> Outcome, start: Embedding, designs: seq<Embedding>, trace: seq<Entry>, t: Entry,
      earlyStopping: int)
    requires Underway(s, simulate, start, designs, trace, earlyStopping)
    requires IsEntry(t, simulate) && t.embedding == designs[|trace|]
    ensures IsRun(s, simulate, start, trace + [t]) && Designs(trace + [t]) == designs
    ensures NotStopped(trace + [t], |trace|, earlyStopping)
    ensures StopsAfter(trace + [t], |trace|, earlyStopping)
      <==> t.outcome.ipc == 0.0 || |trace| - LastUpdate(trace + [t]) >= earlyStopping
  {
    StopsGrow(trace, t, earlyStopping);
    assert Designs(trace + [t]) == designs;
    assert designs[..|trace| + 1] == designs;
    RunOf(s, simulate, start, trace + [t], designs);
  }

  /** A round that calls for it ends the run. */
  lemma {:induction false} StopsHere(s: Setting,
      simulate: Embedding -> Outcome, start: Embedding, designs: seq<Embedding>, trace: seq<Entry>, t: Entry,
                                     budget: nat, earlyStopping: int, p: Score)
    requires Underway(s, simulate, start, designs, trace, earlyStopping) && |trace| < budget
    requires IsEntry(t, simulate) && t.embedding == designs[|trace|]
    requires Scored(p) && p.trace == trace + [t]
    requires t.outcome.ipc == 0.0 || |trace| - p.lastUpdate >= earlyStopping
    ensures Explored(s, simulate, start, p, budget, earlyStopping)
  {
    AddEntry(s, simulate, start, designs, trace, t, earlyStopping);
  }

  /** Any other round leads to the next. */
  lemma {:induction false} GoesOn(s: Setting,
      simulate: Embedding -> Outcome, start: Embedding, designs: seq<Embedding>, trace: seq<Entry>, t: Entry,
                                  earlyStopping: int, p: Score, next: Embedding)
    requires Underway(s, simulate, start, designs, trace, earlyStopping) && OnCourse(s, start, designs + [next])
    requires IsEntry(t, simulate) && t.embedding == designs[|trace|]
    requires Scored(p) && p.trace == trace + [t]
    requires t.outcome.ipc != 0.0 && |trace| - p.lastUpdate < earlyStopping
    ensures Underway(s, simulate, start, designs + [next], trace + [t], earlyStopping)
  {
    AddEntry(s, simulate, start, designs, trace, t, earlyStopping);
    assert (designs + [next])[..|trace| + 1] == designs;
  }

  lemma {:induction false} ScoreEntry(p: Score, t: Entry)
    requires Scored(p)
    ensures Scored(if t.pppa > p.bestPppa then Score(p.trace + [t], t.pppa, Some(|p.trace|), |p.trace|)
                   else p.(trace := p.trace + [t]))
  {
  }

  lemma {:induction false} FailureScoresZero(o: Outcome)
    requires o.power > 0.0 && o.area > 0.0 && o.ipc == 0.0
    ensures Metric(o) == 0.0
  {
  }

  lemma {:induction false} StopsGrow(trace: seq<Entry>, t: Entry, earlyStopping: int)
    ensures forall k: nat | k < |trace| ::
      StopsAfter(trace + [t], k, earlyStopping) == StopsAfter(trace, k, earlyStopping)
    ensures StopsAfter(trace + [t], |trace|, earlyStopping)
      <==> t.outcome.ipc == 0.0 || |trace| - LastUpdate(trace + [t]) >= earlyStopping
  {
    var more := trace + [t];
    forall k: nat | k < |trace| ensures StopsAfter(more, k, earlyStopping) == StopsAfter(trace, k, earlyStopping) {
      assert more[..k + 1] == trace[..k + 1];
    }
    assert more[..|trace| + 1] == more;
  }

  lemma {:induction false} FallbackReachable(s: Setting, start: Embedding, designs: seq<Embedding>, e: Embedding,
      b: Bottleneck)
    requires AllDims(designs) && Reachable(s, start, e) && AllReachable(s, start, designs)
    requires Fallback(s.profile, designs, b).Some?
    ensures Reachable(s, start, Restore(e, Slots(b), Fallback(s.profile, designs, b).value))
  {
    var i := LeastIndex(Kept(Measured(s.profile, designs, b)));
    assert designs[i] in designs;
    RestoreReachable(s, start, e, designs[i], b);
  }
}
