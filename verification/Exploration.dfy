/** Bottleneck-removal exploration as a function of its history: which design comes next, given all
    designs measured so far (algo/dse.py). */
module Exploration {
  import opened Bottlenecks
  import opened Trace
  import opened Sorting
  import opened Design

  // ---------------------------------------------------------------- running means

  function Sum(cs: seq<real>): real {
    if cs == [] then 0.0 else Sum(cs[..|cs| - 1]) + cs[|cs| - 1]
  }

  function Mean(cs: seq<real>): real {
    if cs == [] then 0.0 else Sum(cs) / |cs| as real
  }

  /** The mean rises exactly when the new value is above it. */
  lemma {:induction false} MeanRises(cs: seq<real>, c: real)
    requires cs != []
    ensures Mean(cs + [c]) > Mean(cs) <==> c > Mean(cs)
  {
  }

  // ---------------------------------------------------------------- when a sensitive component terminates

  /** Round k measures more than a non-zero mean of all rounds before it. */
  predicate Exceeds(cs: seq<real>, k: nat) {
    1 <= k < |cs| && Mean(cs[..k]) != 0.0 && cs[k] > Mean(cs[..k])
  }

  /** The first such round from `k` on, or the number of rounds. */
  function StopFrom(cs: seq<real>, k: nat): (r: nat)
    requires k <= |cs|
    ensures k <= r <= |cs| && (r < |cs| ==> Exceeds(cs, r))
    ensures forall j: nat | k <= j < r :: !Exceeds(cs, j)
    decreases |cs| - k
  {
    if k == |cs| || Exceeds(cs, k) then k else StopFrom(cs, k + 1)
  }

  function StopAt(cs: seq<real>): nat { StopFrom(cs, 0) }

  predicate Stopped(cs: seq<real>) { StopAt(cs) < |cs| }

  /** The measurements up to and including the stopping round. */
  function Kept(cs: seq<real>): seq<real> { if Stopped(cs) then cs[..StopAt(cs) + 1] else cs }

  /** What the component remembers: measurements, the mean it compares with, and whether it has terminated. */
  datatype Gauge = Gauge(contribution: seq<real>, last: real, terminate: bool)

  const FRESH := Gauge([], 0.0, false)

  /** `update` is skipped once terminated. */
  function Update(g: Gauge, c: real): Gauge {
    if g.terminate then g else g.(contribution := g.contribution + [c])
  }

  /** `update_terminate` runs every round, also after termination. */
  function UpdateTerminate(g: Gauge): Gauge {
    var average := Mean(g.contribution);
    if g.last == 0.0 then g.(last := average)
    else if g.last >= average then g.(last := average)
    else g.(terminate := true)
  }

  function Rounds(cs: seq<real>): Gauge {
    if cs == [] then FRESH else UpdateTerminate(Update(Rounds(cs[..|cs| - 1]), cs[|cs| - 1]))
  }

  lemma {:induction false} ExceedsIsLocal(cs: seq<real>, c: real, k: nat)
    requires k < |cs|
    ensures Exceeds(cs + [c], k) == Exceeds(cs, k)
  {
    assert (cs + [c])[..k] == cs[..k];
  }

  lemma {:induction false} StopUnique(cs: seq<real>, r: nat)
    requires r <= |cs| && (r < |cs| ==> Exceeds(cs, r)) && forall j: nat | j < r :: !Exceeds(cs, j)
    ensures StopAt(cs) == r
  {
  }

  /** One more round either changes nothing, or is recorded and may stop the component. */
  lemma {:induction false} KeptGrows(cs: seq<real>, c: real)
    ensures Stopped(cs) ==> Stopped(cs + [c]) && StopAt(cs + [c]) == StopAt(cs) && Kept(cs + [c]) == Kept(cs)
    ensures !Stopped(cs) ==>
      Kept(cs) == cs && Kept(cs + [c]) == cs + [c] && (Stopped(cs + [c]) <==> Exceeds(cs + [c], |cs|))
  {
    var r := StopAt(cs);
    forall j: nat | j < |cs| ensures Exceeds(cs + [c], j) == Exceeds(cs, j) {
      ExceedsIsLocal(cs, c, j);
    }
    if Stopped(cs) {
      StopUnique(cs + [c], r);
      assert (cs + [c])[..r + 1] == cs[..r + 1];
    } else if Exceeds(cs + [c], |cs|) {
      StopUnique(cs + [c], |cs|);
    } else {
      StopUnique(cs + [c], |cs| + 1);
    }
  }

  /** A component terminates exactly in the first round that exceeds a non-zero mean of all rounds before
      it; until then `last` is the running mean; afterwards nothing changes any more. */
  lemma {:induction false} RoundsTrackHistory(cs: seq<real>)
    ensures Rounds(cs) == Gauge(Kept(cs), if Stopped(cs) then Mean(cs[..StopAt(cs)]) else Mean(cs), Stopped(cs))
  {
    if cs != [] {
      var before, c := cs[..|cs| - 1], cs[|cs| - 1];
      assert cs == before + [c];
      RoundsTrackHistory(before);
      KeptGrows(before, c);
      if Stopped(before) {
        StoppedStays(before);
        assert cs[..StopAt(cs)] == before[..StopAt(cs)];
      } else {
        assert cs[..|before|] == before;
        if before != [] {
          MeanRises(before, c);
        }
      }
    }
  }

  /** After termination the mean of the kept rounds stays above `last`, so the test keeps failing. */
  lemma {:induction false} StoppedStays(cs: seq<real>)
    requires Stopped(cs)
    ensures Mean(cs[..StopAt(cs)]) != 0.0 && Mean(cs[..StopAt(cs)]) < Mean(Kept(cs))
  {
    var r := StopAt(cs);
    MeanRises(cs[..r], cs[r]);
    assert cs[..r] + [cs[r]] == cs[..r + 1];
  }

  // ---------------------------------------------------------------- histories

  /** Measured share of each bottleneck, for each design. */
  type Profile = (Embedding, Bottleneck) -> real

  function Measured(profile: Profile, designs: seq<Embedding>, b: Bottleneck): (cs: seq<real>)
    ensures |cs| == |designs| && forall k | 0 <= k < |cs| :: cs[k] == profile(designs[k], b)
  {
    seq(|designs|, k requires 0 <= k < |designs| => profile(designs[k], b))
  }

  predicate IsSensitive(b: Bottleneck) { b == BPMiss || b == IcacheMiss || b == DcacheMiss }

  /** The coordinates a sensitive component records. The branch predictor's return stack and target buffer
      are adjusted with it but not recorded. */
  function Slots(b: Bottleneck): (slots: seq<nat>)
    ensures forall k | 0 <= k < |slots| :: 3 <= slots[k] < DIMS
  {
    match b
    case BPMiss => [3, 4, 5]
    case IcacheMiss => [18, 19]
    case DcacheMiss => [20, 21]
    case _ => []
  }

  function Project(e: Embedding, slots: seq<nat>): (c: seq<int>)
    requires |e| == DIMS && forall k | 0 <= k < |slots| :: slots[k] < DIMS
    ensures |c| == |slots| && forall k | 0 <= k < |c| :: c[k] == e[slots[k]]
  {
    seq(|slots|, k requires 0 <= k < |slots| => e[slots[k]])
  }

  /** Index of the first least element. */
  function LeastIndex(cs: seq<real>): (i: nat)
    requires cs != []
    ensures i < |cs| && (forall k | 0 <= k < |cs| :: cs[i] <= cs[k]) && (forall k | 0 <= k < i :: cs[i] < cs[k])
  {
    if |cs| == 1 then 0
    else
      var i := LeastIndex(cs[..|cs| - 1]);
      if cs[|cs| - 1] < cs[i] then |cs| - 1 else i
  }

  /** Writing a recorded configuration back. */
  function Restore(e: Embedding, slots: seq<nat>, config: seq<int>): (r: Embedding)
    requires |e| == DIMS && |config| == |slots| && forall k | 0 <= k < |slots| :: slots[k] < DIMS
    ensures |r| == DIMS
    decreases |slots|
  {
    if slots == [] then e else Restore(e[slots[0] := config[0]], slots[1..], config[1..])
  }

  ghost predicate AllDims(designs: seq<Embedding>) { forall k | 0 <= k < |designs| :: |designs[k]| == DIMS }

  /** A terminated component falls back to the configuration of the design that measured least, among
      those up to the terminating round. */
  function Fallback(profile: Profile, designs: seq<Embedding>, b: Bottleneck): (c: Option<seq<int>>)
    requires AllDims(designs)
    ensures c.Some? ==> |c.value| == |Slots(b)|
  {
    var cs := Measured(profile, designs, b);
    if IsSensitive(b) && Stopped(cs)
    then
      var i := LeastIndex(Kept(cs));
      assert designs[i] in designs;
      Some(Project(designs[i], Slots(b)))
    else None
  }

  // ---------------------------------------------------------------- one round

  /** Everything a run depends on: `registered` lists the bottlenecks in registration order, `sample` stands
      for the random choice in a round. */
  datatype Setting = Setting(
    tables: Tables,
    topK: nat,
    registered: seq<Bottleneck>,
    profile: Profile,
    sample: (nat, seq<Bottleneck>) -> seq<Bottleneck>)

  function ByShare(profile: Profile, e: Embedding): Bottleneck -> real { b => -profile(e, b) }

  /** Bottlenecks from the largest share to the smallest. */
  function Summary(s: Setting, e: Embedding): seq<Bottleneck> { SortBy(s.registered, ByShare(s.profile, e)) }

  function Zeros(profile: Profile, e: Embedding, bs: seq<Bottleneck>): (r: seq<Bottleneck>)
    ensures forall b :: b in r <==> b in bs && profile(e, b) == 0.0
  {
    if bs == [] then []
    else (if profile(e, bs[0]) == 0.0 then [bs[0]] else []) + Zeros(profile, e, bs[1..])
  }

  predicate Fits(e: Embedding, b: Bottleneck) { forall k | k in Knobs(b) :: k.pos < |e| }

  lemma {:induction false} AllFit(e: Embedding)
    requires |e| == DIMS
    ensures forall b: Bottleneck :: Fits(e, b)
  {
  }

  type Fallbacks = Bottleneck -> Option<seq<int>>

  ghost predicate FallbacksFit(fallback: Fallbacks) {
    forall b :: fallback(b).Some? ==> |fallback(b).value| == |Slots(b)|
  }

  /** What the walk does to one resource: a terminated component gets its recorded configuration back, any other
      resource is stepped up. */
  function Treated(s: Setting, fallback: Fallbacks, b: Bottleneck, e: Embedding): (r: Embedding)
    requires |e| == DIMS && FallbacksFit(fallback)
    ensures |r| == DIMS
  {
    AllFit(e);
    if fallback(b).Some? then Restore(e, Slots(b), fallback(b).value) else Adjusted(s.tables, e, Knobs(b), true)
  }

  /** A step up that moves something counts towards top-k. */
  predicate Counts(s: Setting, fallback: Fallbacks, b: Bottleneck, e: Embedding)
    requires |e| == DIMS
  {
    AllFit(e);
    fallback(b).None? && Moves(s.tables, e, Knobs(b), true)
  }

  /** Walk down the summary: restore terminated components, raise the others, until top-k resources moved. */
  function Raise(s: Setting, fallback: Fallbacks, bs: seq<Bottleneck>, e: Embedding, moved: nat): (r: Embedding)
    requires |e| == DIMS && FallbacksFit(fallback)
    ensures |r| == DIMS
    decreases |bs|
  {
    if bs == [] || moved >= s.topK then e
    else
      var moved' := if Counts(s, fallback, bs[0], e) then moved + 1 else moved;
      Raise(s, fallback, bs[1..], Treated(s, fallback, bs[0], e), moved')
  }

  /** Step the sampled resources down. */
  function Lower(s: Setting, bs: seq<Bottleneck>, e: Embedding): (r: Embedding)
    requires |e| == DIMS
    ensures |r| == DIMS
    decreases |bs|
  {
    if bs == [] then e
    else
      AllFit(e);
      Lower(s, bs[1..], Adjusted(s.tables, e, Knobs(bs[0]), false))
  }

  function FallbacksOf(profile: Profile, designs: seq<Embedding>): (f: Fallbacks)
    requires AllDims(designs)
    ensures FallbacksFit(f)
    ensures forall b :: f(b) == Fallback(profile, designs, b)
  {
    b => Fallback(profile, designs, b)
  }

  /** The design of the next round, as a function of all designs so far. */
  function Next(s: Setting, designs: seq<Embedding>): (r: Embedding)
    requires designs != [] && AllDims(designs)
    ensures |r| == DIMS
  {
    var e := designs[|designs| - 1];
    assert e in designs;
    var summary := Summary(s, e);
    var raised := Raise(s, FallbacksOf(s.profile, designs), summary, e, 0);
    Lower(s, s.sample(|designs| - 1, Zeros(s.profile, e, summary)), raised)
  }

  // ---------------------------------------------------------------- every design stays in its tables

  /** A design of a run from `start`: in its tables, with the fixed coordinates of the start. */
  ghost predicate Reachable(s: Setting, start: Embedding, e: Embedding) {
    |start| == DIMS && InTable(s.tables, e) && e[..3] == start[..3]
  }

  ghost predicate AllReachable(s: Setting, start: Embedding, designs: seq<Embedding>) {
    forall k | 0 <= k < |designs| :: Reachable(s, start, designs[k])
  }

  lemma {:induction false} RestoreAt(e: Embedding, slots: seq<nat>, config: seq<int>, p: nat)
    requires |e| == DIMS && |config| == |slots| && (forall k | 0 <= k < |slots| :: slots[k] < DIMS) && p < DIMS
    requires forall i, j | 0 <= i < j < |slots| :: slots[i] != slots[j]
    ensures p !in slots ==> Restore(e, slots, config)[p] == e[p]
    ensures forall k | 0 <= k < |slots| && slots[k] == p :: Restore(e, slots, config)[p] == config[k]
    decreases |slots|
  {
    if slots != [] {
      var e' := e[slots[0] := config[0]];
      RestoreAt(e', slots[1..], config[1..], p);
      assert forall k | 0 < k < |slots| :: slots[k] == slots[1..][k - 1] && config[k] == config[1..][k - 1];
      assert slots[0] !in slots[1..];
    }
  }

  lemma {:induction false} SlotsDistinct(b: Bottleneck)
    ensures forall i, j | 0 <= i < j < |Slots(b)| :: Slots(b)[i] != Slots(b)[j]
  {
  }

  lemma {:induction false} RestoreReachable(s: Setting, start: Embedding, e: Embedding, d: Embedding, b: Bottleneck)
    requires Reachable(s, start, e) && Reachable(s, start, d)
    ensures Reachable(s, start, Restore(e, Slots(b), Project(d, Slots(b))))
  {
    var r := Restore(e, Slots(b), Project(d, Slots(b)));
    SlotsDistinct(b);
    forall p: nat | p < DIMS ensures r[p] == e[p] || (p >= 3 && r[p] == d[p]) {
      RestoreAt(e, Slots(b), Project(d, Slots(b)), p);
      if p in Slots(b) {
        var k :| 0 <= k < |Slots(b)| && Slots(b)[k] == p;
      }
    }
  }

  /** Falling back to a recorded design restores the whole resource if and only if nothing outside the record
      differs: for the branch predictor, the return stack and the target buffer, which are adjusted with it but not
      recorded. */
  lemma {:induction false} FallbackRestoresIff(e: Embedding, d: Embedding, b: Bottleneck)
    requires IsSensitive(b) && |e| == DIMS && |d| == DIMS
    ensures (forall p | 3 <= p < DIMS && Owner(p) == b :: Restore(e, Slots(b), Project(d, Slots(b)))[p] == d[p])
      <==> (b == BPMiss ==> e[6] == d[6] && e[7] == d[7])
  {
    SlotsDistinct(b);
    forall p: nat | 3 <= p < DIMS
      ensures Restore(e, Slots(b), Project(d, Slots(b)))[p] == if p in Slots(b) then d[p] else e[p]
    {
      RestoreAt(e, Slots(b), Project(d, Slots(b)), p);
      if p in Slots(b) {
        var k :| 0 <= k < |Slots(b)| && Slots(b)[k] == p;
      }
    }
    forall p: nat | 3 <= p < DIMS ensures p in Slots(b) <==> Owner(p) == b && p != 6 && p != 7 {
      RecordedAre(b, p);
    }
    assert Owner(6) == BPMiss && Owner(7) == BPMiss;
  }

  lemma {:induction false} RecordedAre(b: Bottleneck, p: nat)
    requires IsSensitive(b) && 3 <= p < DIMS
    ensures p in Slots(b) <==> Owner(p) == b && p != 6 && p != 7
  {
  }

  /** A return stack that has grown since stays grown. */
  lemma {:induction false} FallbackKeepsReturnStack()
    ensures var d: Embedding, e: Embedding := seq(DIMS, _ => 1), seq(DIMS, _ => 2);
      Owner(6) == BPMiss && Restore(e, Slots(BPMiss), Project(d, Slots(BPMiss)))[6] == 2 != d[6]
  {
    var d: Embedding, e: Embedding := seq(DIMS, _ => 1), seq(DIMS, _ => 2);
    SlotsDistinct(BPMiss);
    RestoreAt(e, Slots(BPMiss), Project(d, Slots(BPMiss)), 6);
  }

  /** Every fallback restores coordinates of some reachable design. */
  ghost predicate FallbacksReachable(s: Setting, start: Embedding, fallback: Fallbacks) {
    forall b :: fallback(b).Some? ==> exists d :: Reachable(s, start, d) && fallback(b).value == Project(d, Slots(b))
  }

  lemma {:induction false} RaiseReachable(s: Setting, start: Embedding, fallback: Fallbacks, bs: seq<Bottleneck>,
      e: Embedding, moved: nat)
    requires TablesOk(s.tables) && Reachable(s, start, e) && FallbacksFit(fallback)
      && FallbacksReachable(s, start, fallback)
    ensures Reachable(s, start, Raise(s, fallback, bs, e, moved))
    decreases |bs|
  {
    if bs != [] && moved < s.topK {
      AllFit(e);
      var b := bs[0];
      if fallback(b).Some? {
        var d :| Reachable(s, start, d) && fallback(b).value == Project(d, Slots(b));
        RestoreReachable(s, start, e, d, b);
        RaiseReachable(s, start, fallback, bs[1..], Restore(e, Slots(b), fallback(b).value), moved);
      } else {
        AdjustedInTable(s.tables, e, b, true);
        var moves := Moves(s.tables, e, Knobs(b), true);
        var moved' := if moves then moved + 1 else moved;
        RaiseReachable(s, start, fallback, bs[1..], Adjusted(s.tables, e, Knobs(b), true), moved');
      }
    }
  }

  lemma {:induction false} LowerReachable(s: Setting, start: Embedding, bs: seq<Bottleneck>, e: Embedding)
    requires TablesOk(s.tables) && Reachable(s, start, e)
    ensures Reachable(s, start, Lower(s, bs, e))
    decreases |bs|
  {
    if bs != [] {
      AllFit(e);
      AdjustedInTable(s.tables, e, bs[0], false);
      LowerReachable(s, start, bs[1..], Adjusted(s.tables, e, Knobs(bs[0]), false));
    }
  }

  lemma {:induction false} FallbacksAreReachable(s: Setting, start: Embedding, designs: seq<Embedding>)
    requires AllReachable(s, start, designs)
    ensures AllDims(designs) && FallbacksReachable(s, start, FallbacksOf(s.profile, designs))
  {
  }

  /** From any history of reachable designs the next design is reachable: no lookup misses, no coordinate
      leaves its table, and pipeline width, fetch buffer and fetch queue stay as they started. */
  lemma {:induction false} NextReachable(s: Setting, start: Embedding, designs: seq<Embedding>)
    requires TablesOk(s.tables) && designs != [] && AllReachable(s, start, designs)
    ensures AllDims(designs) && Reachable(s, start, Next(s, designs))
  {
    var e := designs[|designs| - 1];
    assert e in designs;
    FallbacksAreReachable(s, start, designs);
    var fallback := FallbacksOf(s.profile, designs);
    var summary := Summary(s, e);
    RaiseReachable(s, start, fallback, summary, e, 0);
    LowerReachable(s, start, s.sample(|designs| - 1, Zeros(s.profile, e, summary)), Raise(s, fallback, summary, e, 0));
  }

  // ---------------------------------------------------------------- what a round may change

  lemma {:induction false} SlotsOwned(b: Bottleneck)
    ensures forall k | 0 <= k < |Slots(b)| :: Owner(Slots(b)[k]) == b
  {
  }

  /** What raising may do to coordinate p: nothing, one step up, or, for a terminated component, its
      recorded value. */
  ghost predicate RaisedFrom(s: Setting, fallback: Fallbacks, e: Embedding, r: Embedding, p: nat)
    requires |e| == DIMS && |r| == DIMS && 3 <= p < DIMS
  {
    var b := Owner(p);
    || r[p] == e[p]
    || (fallback(b).None? && exists k | k in Knobs(b) && k.pos == p :: Step(s.tables, k, e[p], true) == To(r[p]))
    || (fallback(b).Some? && exists j | 0 <= j < |Slots(b)| ::
          Slots(b)[j] == p && j < |fallback(b).value| && r[p] == fallback(b).value[j])
  }

  lemma {:induction false} RaiseOne(s: Setting, fallback: Fallbacks, b: Bottleneck, e: Embedding, p: nat)
    requires |e| == DIMS && 3 <= p < DIMS && FallbacksFit(fallback)
    ensures var r := Treated(s, fallback, b, e);
      if Owner(p) == b then RaisedFrom(s, fallback, e, r, p) else r[p] == e[p]
  {
    SlotsOwned(b);
    SlotsDistinct(b);
    KnobsFit(b);
    KnobsDistinct(b);
    if fallback(b).Some? {
      RestoreAt(e, Slots(b), fallback(b).value, p);
      if p in Slots(b) {
        var j :| 0 <= j < |Slots(b)| && Slots(b)[j] == p;
      }
    } else {
      AdjustedAt(s.tables, e, Knobs(b), true, p);
    }
  }

  /** A whole pass over the summary moves each coordinate at most once. */
  lemma {:induction false} RaiseAt(s: Setting, fallback: Fallbacks, bs: seq<Bottleneck>, e: Embedding, moved: nat,
      p: nat)
    requires |e| == DIMS && 3 <= p < DIMS && FallbacksFit(fallback) && NoRepeats(bs)
    ensures if Owner(p) in bs then RaisedFrom(s, fallback, e, Raise(s, fallback, bs, e, moved), p)
      else Raise(s, fallback, bs, e, moved)[p] == e[p]
    decreases |bs|
  {
    if bs != [] && moved < s.topK {
      RaiseOne(s, fallback, bs[0], e, p);
      assert bs[0] !in bs[1..];
      var moved' := if Counts(s, fallback, bs[0], e) then moved + 1 else moved;
      RaiseAt(s, fallback, bs[1..], Treated(s, fallback, bs[0], e), moved', p);
    }
  }

  /** Treating a resource depends on its own coordinates only. */
  lemma {:induction false} TreatedLocally(s: Setting, fallback: Fallbacks, b: Bottleneck, e: Embedding, e': Embedding)
    requires |e| == DIMS && |e'| == DIMS && FallbacksFit(fallback)
    requires forall p | 3 <= p < DIMS && Owner(p) == b :: e[p] == e'[p]
    ensures Counts(s, fallback, b, e) == Counts(s, fallback, b, e')
    ensures forall p | 3 <= p < DIMS && Owner(p) == b :: Treated(s, fallback, b, e)[p] == Treated(s, fallback, b, e')[p]
  {
    AllFit(e);
    AllFit(e');
    KnobsFit(b);
    KnobsDistinct(b);
    SlotsDistinct(b);
    forall p: nat | 3 <= p < DIMS && Owner(p) == b
      ensures Treated(s, fallback, b, e)[p] == Treated(s, fallback, b, e')[p]
    {
      if fallback(b).Some? {
        RestoreAt(e, Slots(b), fallback(b).value, p);
        RestoreAt(e', Slots(b), fallback(b).value, p);
      } else {
        AdjustedAt(s.tables, e, Knobs(b), true, p);
        AdjustedAt(s.tables, e', Knobs(b), true, p);
      }
    }
  }

  /** How far down the summary the walk gets. */
  ghost function Cut(s: Setting, fallback: Fallbacks, bs: seq<Bottleneck>, e: Embedding, moved: nat): (n: nat)
    requires |e| == DIMS && FallbacksFit(fallback)
    ensures n <= |bs|
    decreases |bs|
  {
    if bs == [] || moved >= s.topK then 0
    else
      var moved' := if Counts(s, fallback, bs[0], e) then moved + 1 else moved;
      1 + Cut(s, fallback, bs[1..], Treated(s, fallback, bs[0], e), moved')
  }

  /** The walk treats a prefix of the summary, each resource as if it were alone, and leaves everything else as it is:
      no resource is raised before all the ones that hurt more had their turn. */
  lemma {:induction false} RaiseIsPrefix(s: Setting, fallback: Fallbacks, bs: seq<Bottleneck>, e: Embedding, moved: nat,
      p: nat)
    requires |e| == DIMS && FallbacksFit(fallback) && NoRepeats(bs) && 3 <= p < DIMS
    ensures Raise(s, fallback, bs, e, moved)[p]
      == if Owner(p) in bs[..Cut(s, fallback, bs, e, moved)] then Treated(s, fallback, Owner(p), e)[p] else e[p]
    decreases |bs|
  {
    var n := Cut(s, fallback, bs, e, moved);
    if n > 0 {
      var b, rest, e' := bs[0], bs[1..], Treated(s, fallback, bs[0], e);
      var moved' := if Counts(s, fallback, b, e) then moved + 1 else moved;
      RaiseIsPrefix(s, fallback, rest, e', moved', p);
      HeadOrRest(bs, n, Owner(p));
      if Owner(p) != b {
        TreatedApart(s, fallback, b, e, p);
      }
    }
  }

  lemma {:induction false} HeadOrRest(bs: seq<Bottleneck>, n: nat, b: Bottleneck)
    requires 0 < n <= |bs| && NoRepeats(bs)
    ensures b in bs[..n] <==> b == bs[0] || b in bs[1..][..n - 1]
    ensures bs[0] !in bs[1..][..n - 1]
  {
    assert bs[..n] == [bs[0]] + bs[1..][..n - 1];
  }

  /** Treating one resource neither moves the coordinates of another nor changes how that one is treated. */
  lemma {:induction false} TreatedApart(s: Setting, fallback: Fallbacks, b: Bottleneck, e: Embedding, p: nat)
    requires |e| == DIMS && FallbacksFit(fallback) && 3 <= p < DIMS && Owner(p) != b
    ensures var e' := Treated(s, fallback, b, e);
      e'[p] == e[p] && Treated(s, fallback, Owner(p), e')[p] == Treated(s, fallback, Owner(p), e)[p]
  {
    ElsewhereSame(s, fallback, b, e, Owner(p));
    TreatedLocally(s, fallback, Owner(p), e, Treated(s, fallback, b, e));
  }

  lemma {:induction false} ElsewhereSame(s: Setting, fallback: Fallbacks, b: Bottleneck, e: Embedding, c: Bottleneck)
    requires |e| == DIMS && FallbacksFit(fallback) && c != b
    ensures forall p | 3 <= p < DIMS && Owner(p) == c :: e[p] == Treated(s, fallback, b, e)[p]
  {
    forall p: nat | 3 <= p < DIMS && Owner(p) == c ensures e[p] == Treated(s, fallback, b, e)[p] {
      RaiseOne(s, fallback, b, e, p);
    }
  }

  /** Which resources of the summary would move, judged on the design the walk starts from. */
  ghost function Flags(s: Setting, fallback: Fallbacks, bs: seq<Bottleneck>, e: Embedding): (r: seq<bool>)
    requires |e| == DIMS
    ensures |r| == |bs| && forall k | 0 <= k < |r| :: r[k] == Counts(s, fallback, bs[k], e)
  {
    seq(|bs|, k requires 0 <= k < |bs| => Counts(s, fallback, bs[k], e))
  }

  ghost function CountTrue(flags: seq<bool>): nat {
    if flags == [] then 0 else (if flags[0] then 1 else 0) + CountTrue(flags[1..])
  }

  /** Where a walk stops that counts flags. */
  ghost function Stop(flags: seq<bool>, limit: nat, moved: nat): (n: nat)
    ensures n <= |flags|
    decreases |flags|
  {
    if flags == [] || moved >= limit then 0 else 1 + Stop(flags[1..], limit, if flags[0] then moved + 1 else moved)
  }

  /** n is the first place where the flags before it reach the limit, or the end. */
  ghost predicate FirstReach(flags: seq<bool>, moved: nat, limit: nat, n: nat)
    requires n <= |flags|
  {
    && (n == |flags| || moved + CountTrue(flags[..n]) == limit)
    && forall k: nat | k < n :: moved + CountTrue(flags[..k]) < limit
  }

  lemma {:induction false} StopIsFirst(flags: seq<bool>, limit: nat, moved: nat)
    requires moved <= limit
    ensures FirstReach(flags, moved, limit, Stop(flags, limit, moved))
    decreases |flags|
  {
    var n := Stop(flags, limit, moved);
    if n > 0 {
      StopIsFirst(flags[1..], limit, if flags[0] then moved + 1 else moved);
      assert flags[..n][1..] == flags[1..][..n - 1];
      forall k: nat | k < n ensures moved + CountTrue(flags[..k]) < limit {
        if k > 0 {
          assert flags[..k][1..] == flags[1..][..k - 1];
        }
      }
    }
  }

  /** The walk stops as if every resource were judged on the design it started from. */
  lemma {:induction false} CutIsStop(s: Setting, fallback: Fallbacks, bs: seq<Bottleneck>, e: Embedding, moved: nat)
    requires |e| == DIMS && FallbacksFit(fallback) && NoRepeats(bs)
    ensures Cut(s, fallback, bs, e, moved) == Stop(Flags(s, fallback, bs, e), s.topK, moved)
    decreases |bs|
  {
    if bs != [] && moved < s.topK {
      CutIsStop(s, fallback, bs[1..], Treated(s, fallback, bs[0], e),
        if Counts(s, fallback, bs[0], e) then moved + 1 else moved);
      FlagsElsewhere(s, fallback, bs, e);
    }
  }

  lemma {:induction false} FlagsElsewhere(s: Setting, fallback: Fallbacks, bs: seq<Bottleneck>, e: Embedding)
    requires |e| == DIMS && FallbacksFit(fallback) && NoRepeats(bs) && bs != []
    ensures Flags(s, fallback, bs[1..], Treated(s, fallback, bs[0], e)) == Flags(s, fallback, bs, e)[1..]
  {
    var e' := Treated(s, fallback, bs[0], e);
    forall k | 0 < k < |bs| ensures Counts(s, fallback, bs[k], e) == Counts(s, fallback, bs[k], e') {
      ElsewhereSame(s, fallback, bs[0], e, bs[k]);
      TreatedLocally(s, fallback, bs[k], e, e');
    }
  }

  /** The walk ends where the moves among the resources it passed, counted on the design it started from, first reach
      top-k, or at the end of the summary. */
  lemma {:induction false} CutIsFirst(s: Setting, fallback: Fallbacks, bs: seq<Bottleneck>, e: Embedding, moved: nat)
    requires |e| == DIMS && FallbacksFit(fallback) && NoRepeats(bs) && moved <= s.topK
    ensures FirstReach(Flags(s, fallback, bs, e), moved, s.topK, Cut(s, fallback, bs, e, moved))
  {
    CutIsStop(s, fallback, bs, e, moved);
    StopIsFirst(Flags(s, fallback, bs, e), s.topK, moved);
  }

  /** The resource of `b` has been changed. */
  ghost predicate Changed(e: Embedding, r: Embedding, b: Bottleneck)
    requires |e| == DIMS && |r| == DIMS
  {
    exists p | 3 <= p < DIMS && Owner(p) == b :: r[p] != e[p]
  }

  ghost function RaisedSet(s: Setting, fallback: Fallbacks, bs: seq<Bottleneck>, e: Embedding,
      moved: nat): set<Bottleneck>
    requires |e| == DIMS && FallbacksFit(fallback)
  {
    set b | b in bs && fallback(b).None? && Changed(e, Raise(s, fallback, bs, e, moved), b)
  }

  lemma {:induction false} NoMoveNoChange(tables: Tables, e: Embedding, b: Bottleneck, up: bool)
    requires |e| == DIMS && Fits(e, b) && !Moves(tables, e, Knobs(b), up)
    ensures Adjusted(tables, e, Knobs(b), up) == e
  {
    KnobsDistinct(b);
    var r := Adjusted(tables, e, Knobs(b), up);
    forall p: nat | p < DIMS ensures r[p] == e[p] {
      AdjustedAt(tables, e, Knobs(b), up, p);
    }
  }

  /** No more than top-k resources are raised in a round. */
  lemma {:induction false} RaiseLimit(s: Setting, fallback: Fallbacks, bs: seq<Bottleneck>, e: Embedding, moved: nat)
    requires |e| == DIMS && FallbacksFit(fallback) && NoRepeats(bs) && moved <= s.topK
    ensures moved + |RaisedSet(s, fallback, bs, e, moved)| <= s.topK
    decreases |bs|
  {
    if bs == [] || moved >= s.topK {
      assert RaisedSet(s, fallback, bs, e, moved) == {};
    } else {
      AllFit(e);
      var b, rest, e' := bs[0], bs[1..], Treated(s, fallback, bs[0], e);
      assert b !in rest;
      var moved' := if Counts(s, fallback, b, e) then moved + 1 else moved;
      if fallback(b).None? && !Counts(s, fallback, b, e) {
        NoMoveNoChange(s.tables, e, b, true);
      }
      RaiseLimit(s, fallback, rest, e', moved');
      RaisedSetStep(s, fallback, bs, e, e', moved, moved');
    }
  }

  /** Only the head's own resource separates the raised set of a list from that of its tail. */
  lemma {:induction false} RaisedSetStep(s: Setting, fallback: Fallbacks, bs: seq<Bottleneck>, e: Embedding,
      e': Embedding, moved: nat, moved': nat)
    requires |e| == DIMS && |e'| == DIMS && FallbacksFit(fallback) && bs != [] && NoRepeats(bs)
    requires Raise(s, fallback, bs, e, moved) == Raise(s, fallback, bs[1..], e', moved')
    requires e' == Treated(s, fallback, bs[0], e)
    ensures |RaisedSet(s, fallback, bs, e, moved)| <= |RaisedSet(s, fallback, bs[1..], e', moved')| + 1
    ensures fallback(bs[0]).Some? || e' == e ==>
      |RaisedSet(s, fallback, bs, e, moved)| <= |RaisedSet(s, fallback, bs[1..], e', moved')|
  {
    var b := bs[0];
    var a, t := RaisedSet(s, fallback, bs, e, moved), RaisedSet(s, fallback, bs[1..], e', moved');
    assert a <= t + {b} by {
      forall c | c in a && c != b ensures c in t {
        RaisedElsewhere(s, fallback, bs, e, e', moved, moved', c);
      }
    }
    if e' == e {
      HeadNotRaised(s, fallback, bs, e, moved, moved');
    }
    SubsetSize(a, t + {b});
    SubsetSize(a - {b}, t);
  }

  lemma {:induction false} RaisedElsewhere(s: Setting, fallback: Fallbacks, bs: seq<Bottleneck>, e: Embedding,
      e': Embedding, moved: nat, moved': nat, c: Bottleneck)
    requires |e| == DIMS && |e'| == DIMS && FallbacksFit(fallback) && bs != [] && c != bs[0]
    requires Raise(s, fallback, bs, e, moved) == Raise(s, fallback, bs[1..], e', moved')
    requires e' == Treated(s, fallback, bs[0], e) && c in RaisedSet(s, fallback, bs, e, moved)
    ensures c in RaisedSet(s, fallback, bs[1..], e', moved')
  {
    var r := Raise(s, fallback, bs, e, moved);
    var p: nat :| 3 <= p < DIMS && Owner(p) == c && r[p] != e[p];
    RaiseOne(s, fallback, bs[0], e, p);
    assert r[p] != e'[p];
  }

  lemma {:induction false} HeadNotRaised(s: Setting, fallback: Fallbacks, bs: seq<Bottleneck>, e: Embedding,
      moved: nat, moved': nat)
    requires |e| == DIMS && FallbacksFit(fallback) && bs != [] && NoRepeats(bs)
    requires Raise(s, fallback, bs, e, moved) == Raise(s, fallback, bs[1..], e, moved')
    ensures bs[0] !in RaisedSet(s, fallback, bs, e, moved)
  {
    var r := Raise(s, fallback, bs, e, moved);
    assert bs[0] !in bs[1..];
    forall p: nat | 3 <= p < DIMS && Owner(p) == bs[0] ensures r[p] == e[p] {
      RaiseAt(s, fallback, bs[1..], e, moved', p);
    }
  }

  lemma {:induction false} SubsetSize<T>(a: set<T>, b: set<T>)
    requires a <= b
    ensures |a| <= |b|
  {
    if a != {} {
      var x :| x in a;
      SubsetSize(a - {x}, b - {x});
    }
  }

  /** Resources outside the sample are not lowered. */
  lemma {:induction false} LowerAt(s: Setting, bs: seq<Bottleneck>, e: Embedding, p: nat)
    requires |e| == DIMS && 3 <= p < DIMS && Owner(p) !in bs
    ensures Lower(s, bs, e)[p] == e[p]
    decreases |bs|
  {
    if bs != [] {
      AllFit(e);
      AdjustedElsewhere(s.tables, e, bs[0], false, p);
      LowerAt(s, bs[1..], Adjusted(s.tables, e, Knobs(bs[0]), false), p);
    }
  }

  /** A sample of top-k candidates, or of all of them if there are fewer, drawn without replacement. */
  ghost predicate IsSample(r: seq<Bottleneck>, bs: seq<Bottleneck>, k: nat) {
    && |r| == (if k < |bs| then k else |bs|)
    && (forall b | b in r :: b in bs)
    && (NoRepeats(bs) ==> NoRepeats(r))
  }

  ghost predicate Samples(s: Setting) {
    forall n, bs :: IsSample(s.sample(n, bs), bs, s.topK)
  }

  /** Each sampled resource takes one step down, as if it were alone. */
  lemma {:induction false} LowerIs(s: Setting, bs: seq<Bottleneck>, e: Embedding, p: nat)
    requires |e| == DIMS && 3 <= p < DIMS && NoRepeats(bs)
    ensures Fits(e, Owner(p))
    ensures Lower(s, bs, e)[p] == if Owner(p) in bs then Adjusted(s.tables, e, Knobs(Owner(p)), false)[p] else e[p]
    decreases |bs|
  {
    AllFit(e);
    if bs != [] {
      var b, e' := bs[0], Adjusted(s.tables, e, Knobs(bs[0]), false);
      AllFit(e');
      assert b !in bs[1..];
      LowerIs(s, bs[1..], e', p);
      if Owner(p) != b {
        AdjustedElsewhere(s.tables, e, b, false, p);
        SameStep(s.tables, e, e', Owner(p), p);
      }
    }
  }

  lemma {:induction false} SameStep(tables: Tables, e: Embedding, e': Embedding, c: Bottleneck, p: nat)
    requires |e| == DIMS && |e'| == DIMS && 3 <= p < DIMS && Owner(p) == c && e[p] == e'[p]
    requires Fits(e, c) && Fits(e', c)
    ensures Adjusted(tables, e, Knobs(c), false)[p] == Adjusted(tables, e', Knobs(c), false)[p]
  {
    KnobsFit(c);
    KnobsDistinct(c);
    AdjustedAt(tables, e, Knobs(c), false, p);
    AdjustedAt(tables, e', Knobs(c), false, p);
  }

  /** No more than top-k resources are lowered in a round. */
  lemma {:induction false} LowerLimit(s: Setting, n: nat, bs: seq<Bottleneck>, e: Embedding)
    requires |e| == DIMS && Samples(s) && NoRepeats(bs)
    ensures |set b: Bottleneck | b in ALL && Changed(e, Lower(s, s.sample(n, bs), e), b)| <= s.topK
  {
    var sample := s.sample(n, bs);
    assert IsSample(sample, bs, s.topK);
    var lowered := set b: Bottleneck | b in ALL && Changed(e, Lower(s, sample, e), b);
    forall b | b in lowered ensures b in sample {
      var p: nat :| 3 <= p < DIMS && Owner(p) == b && Lower(s, sample, e)[p] != e[p];
      LowerIs(s, sample, e, p);
    }
    FewElements(lowered, sample);
  }

  lemma {:induction false} FewElements<T>(a: set<T>, xs: seq<T>)
    requires forall x | x in a :: x in xs
    ensures |a| <= |xs|
  {
    if xs != [] {
      FewElements(a - {xs[0]}, xs[1..]);
    }
  }

  /** A resource whose bottleneck still contributes is never lowered: it keeps its value, takes one step up,
      or goes back to its recorded best. */
  lemma {:induction false} ContributorsNotLowered(s: Setting, designs: seq<Embedding>, p: nat)
    requires Samples(s) && NoRepeats(s.registered) && designs != [] && AllDims(designs) && 3 <= p < DIMS
    requires s.profile(designs[|designs| - 1], Owner(p)) != 0.0
    ensures designs[|designs| - 1] in designs
    ensures RaisedFrom(s, FallbacksOf(s.profile, designs), designs[|designs| - 1], Next(s, designs), p)
  {
    var e := designs[|designs| - 1];
    assert e in designs;
    var fallback := FallbacksOf(s.profile, designs);
    var summary := Summary(s, e);
    SummaryDistinct(s, e);
    RaiseAt(s, fallback, summary, e, 0, p);
    LowerAt(s, s.sample(|designs| - 1, Zeros(s.profile, e, summary)), Raise(s, fallback, summary, e, 0), p);
  }

  lemma {:induction false} SummaryDistinct(s: Setting, e: Embedding)
    requires NoRepeats(s.registered)
    ensures NoRepeats(Summary(s, e)) && forall b :: b in Summary(s, e) <==> b in s.registered
  {
    SameElements(s.registered, Summary(s, e));
    ReorderedNoRepeats(s.registered, Summary(s, e));
  }
}
