/** Microarchitecture embeddings and the lookup tables they are stepped through
    (algo/dse.py, the adjust_* family; funcs/design/design_space.py). */
module Design {
  import opened Bottlenecks

  datatype Component =
    | LocalPredictor | GlobalPredictor | ChoicePredictor | RasSize | BtbEntries | RobEntries
    | IntRegs | FloatRegs | IqEntries | LqEntries | SqEntries
    | IntUnits | IntMulUnits | FpUnits | FpMulUnits
    | L1iSize | L1iAssoc | L1dSize | L1dAssoc

  /** A table lists a component's candidate values; row k of the sheet is element k - 1. */
  type Tables = Component -> seq<int>

  type Embedding = seq<int>

  const DIMS := 22

  /** One coordinate of the embedding: where a value is looked up, and which table the next one comes from. */
  datatype Knob = Knob(pos: nat, lookup: Component, step: Component)

  /** The coordinates a bottleneck's resource is made of. The choice predictor is stepped through the
      global predictor's table. */
  function Knobs(b: Bottleneck): seq<Knob> {
    match b
    case BPMiss =>
      [Knob(3, LocalPredictor, LocalPredictor), Knob(4, GlobalPredictor, GlobalPredictor),
       Knob(5, ChoicePredictor, GlobalPredictor), Knob(6, RasSize, RasSize), Knob(7, BtbEntries, BtbEntries)]
    case IcacheMiss => [Knob(18, L1iSize, L1iSize), Knob(19, L1iAssoc, L1iAssoc)]
    case DcacheMiss => [Knob(20, L1dSize, L1dSize), Knob(21, L1dAssoc, L1dAssoc)]
    case ROB => [Knob(8, RobEntries, RobEntries)]
    case LQ => [Knob(12, LqEntries, LqEntries)]
    case SQ => [Knob(13, SqEntries, SqEntries)]
    case IntRF => [Knob(9, IntRegs, IntRegs)]
    case FpRF => [Knob(10, FloatRegs, FloatRegs)]
    case IQ => [Knob(11, IqEntries, IqEntries)]
    case IntAlu => [Knob(14, IntUnits, IntUnits)]
    case IntMultDiv => [Knob(15, IntMulUnits, IntMulUnits)]
    case FpAlu => [Knob(16, FpUnits, FpUnits)]
    case FpMultDiv => [Knob(17, FpMulUnits, FpMulUnits)]
    case _ => []
  }

  /** Coordinate p is looked up in this table; 0..2 are pipeline width, fetch buffer and fetch queue. */
  function TableOf(p: nat): Component
    requires 3 <= p < DIMS
  {
    match p
    case 3 => LocalPredictor case 4 => GlobalPredictor case 5 => ChoicePredictor case 6 => RasSize
    case 7 => BtbEntries case 8 => RobEntries case 9 => IntRegs case 10 => FloatRegs
    case 11 => IqEntries case 12 => LqEntries case 13 => SqEntries
    case 14 => IntUnits case 15 => IntMulUnits case 16 => FpUnits case 17 => FpMulUnits
    case 18 => L1iSize case 19 => L1iAssoc case 20 => L1dSize case _ => L1dAssoc
  }

  /** The bottleneck whose resource coordinate p belongs to. */
  function Owner(p: nat): Bottleneck
    requires 3 <= p < DIMS
  {
    if p <= 7 then BPMiss
    else if p >= 20 then DcacheMiss
    else if p >= 18 then IcacheMiss
    else
      match p
      case 8 => ROB case 9 => IntRF case 10 => FpRF case 11 => IQ case 12 => LQ case 13 => SQ
      case 14 => IntAlu case 15 => IntMultDiv case 16 => FpAlu case _ => FpMultDiv
  }

  ghost predicate KnobFits(b: Bottleneck, k: Knob) {
    && 3 <= k.pos < DIMS && Owner(k.pos) == b && k.lookup == TableOf(k.pos)
    && k.step == if k.lookup == ChoicePredictor then GlobalPredictor else k.lookup
  }

  /** Every coordinate of a resource belongs to it, is looked up in its own table, and is stepped through that
      table too, except for the choice predictor. */
  lemma {:induction false} KnobsFit(b: Bottleneck)
    ensures forall k | k in Knobs(b) :: KnobFits(b, k)
  {
  }

  /** `get_idx`: the first row that holds the value, or -1. */
  function GetIdx(rows: seq<int>, value: int): (k: int)
    ensures k == -1 || 1 <= k <= |rows|
    ensures k == -1 <==> value !in rows
    ensures k != -1 ==> rows[k - 1] == value && value !in rows[..k - 1]
  {
    if rows == [] then -1
    else if rows[0] == value then 1
    else
      var k := GetIdx(rows[1..], value);
      assert rows == [rows[0]] + rows[1..];
      if k == -1 then -1 else assert rows[..k] == [rows[0]] + rows[1..][..k - 1]; k + 1
  }

  /** Where an adjustment takes one value. `Miss` is a row the step table does not have. */
  datatype Move = Stay | To(value: int) | Miss

  /** The row next to the value's own in one table, read from another. */
  function StepIn(lookup: seq<int>, step: seq<int>, value: int, up: bool): Move {
    var idx := GetIdx(lookup, value);
    var last := if up then |lookup| else 1;
    if idx == -1 || idx == last then Stay
    else
      var row := if up then idx + 1 else idx - 1;
      if 1 <= row <= |step| then To(step[row - 1]) else Miss
  }

  function Step(tables: Tables, k: Knob, value: int, up: bool): Move {
    StepIn(tables(k.lookup), tables(k.step), value, up)
  }

  ghost predicate InTable(tables: Tables, e: Embedding) {
    |e| == DIMS && forall p | 3 <= p < DIMS :: e[p] in tables(TableOf(p))
  }

  /** A step from a value of the lookup table neither misses nor leaves the table. */
  ghost predicate StepSafe(tables: Tables, k: Knob) { SafeIn(tables(k.lookup), tables(k.step)) }

  ghost predicate SafeIn(lookup: seq<int>, step: seq<int>) {
    forall value, up | value in lookup :: SafeMove(lookup, StepIn(lookup, step, value, up))
  }

  ghost predicate SafeMove(lookup: seq<int>, m: Move) { !m.Miss? && (m.To? ==> m.value in lookup) }

  lemma {:induction false} OwnTableSafe(tables: Tables, k: Knob)
    requires k.step == k.lookup
    ensures StepSafe(tables, k)
  {
  }

  const CHOICE := Knob(5, ChoicePredictor, GlobalPredictor)

  /** Row i of the choice table is where its value first occurs. */
  ghost predicate FirstRow(rows: seq<int>, i: nat) { 1 <= i <= |rows| && rows[i - 1] !in rows[..i - 1] }

  /** The global predictor's table can stand in for the choice predictor's: next to every row where a
      choice value first occurs, it has a row, and that row's value is a choice value. */
  ghost predicate ChoiceCovered(choice: seq<int>, global: seq<int>) {
    forall i: nat | FirstRow(choice, i) ::
      && (i != |choice| ==> i + 1 <= |global| && global[i] in choice)
      && (i != 1 ==> i - 1 <= |global| && global[i - 2] in choice)
  }

  lemma {:induction false} GetIdxOfFirstRow(rows: seq<int>, i: nat)
    requires FirstRow(rows, i)
    ensures GetIdx(rows, rows[i - 1]) == i
  {
  }

  /** Stepping the choice predictor is safe for every choice value if and only if the global table covers
      the choice table. */
  lemma {:induction false} ChoiceStepSafeIff(tables: Tables)
    ensures StepSafe(tables, CHOICE) <==> ChoiceCovered(tables(ChoicePredictor), tables(GlobalPredictor))
  {
    SafeInIff(tables(ChoicePredictor), tables(GlobalPredictor));
  }

  lemma {:induction false} SafeInIff(choice: seq<int>, global: seq<int>)
    ensures SafeIn(choice, global) <==> ChoiceCovered(choice, global)
  {
    if SafeIn(choice, global) {
      forall i: nat | FirstRow(choice, i)
        ensures i != |choice| ==> i + 1 <= |global| && global[i] in choice
        ensures i != 1 ==> i - 1 <= |global| && global[i - 2] in choice
      {
        GetIdxOfFirstRow(choice, i);
        assert SafeMove(choice, StepIn(choice, global, choice[i - 1], true));
        assert SafeMove(choice, StepIn(choice, global, choice[i - 1], false));
      }
    }
    if ChoiceCovered(choice, global) {
      forall value, up | value in choice ensures SafeMove(choice, StepIn(choice, global, value, up)) {
        assert FirstRow(choice, GetIdx(choice, value));
      }
    }
  }

  /** Equal tables cover each other; a shorter global table does not. */
  lemma {:induction false} ChoiceCoverage(choice: seq<int>)
    ensures ChoiceCovered(choice, choice)
    ensures |choice| >= 2 && FirstRow(choice, |choice| - 1) ==> !ChoiceCovered(choice, choice[..|choice| - 1])
  {
  }

  // ---------------------------------------------------------------- adjusting a resource

  /** Step every coordinate of a resource. */
  function Adjusted(tables: Tables, e: Embedding, knobs: seq<Knob>, up: bool): (r: Embedding)
    requires forall k | k in knobs :: k.pos < |e|
    ensures |r| == |e|
    decreases |knobs|
  {
    if knobs == [] then e
    else
      var k := knobs[0];
      var m := Step(tables, k, e[k.pos], up);
      Adjusted(tables, if m.To? then e[k.pos := m.value] else e, knobs[1..], up)
  }

  /** Some coordinate has somewhere to go. */
  predicate Moves(tables: Tables, e: Embedding, knobs: seq<Knob>, up: bool)
    requires forall k | k in knobs :: k.pos < |e|
  {
    exists k | k in knobs :: Step(tables, k, e[k.pos], up).To?
  }

  lemma {:induction false} MovesSnoc(tables: Tables, e: Embedding, knobs: seq<Knob>, k: Knob, up: bool)
    requires (forall j | j in knobs :: j.pos < |e|) && k.pos < |e|
    ensures Moves(tables, e, knobs + [k], up) <==> Moves(tables, e, knobs, up) || Step(tables, k, e[k.pos], up).To?
  {
  }

  ghost predicate DistinctKnobs(knobs: seq<Knob>) {
    forall i, j | 0 <= i < j < |knobs| :: knobs[i].pos != knobs[j].pos
  }

  /** Each coordinate of the resource takes its own step from the old value; no other coordinate changes. */
  lemma {:induction false} AdjustedAt(tables: Tables, e: Embedding, knobs: seq<Knob>, up: bool, p: nat)
    requires DistinctKnobs(knobs) && forall k | k in knobs :: k.pos < |e|
    requires p < |e|
    ensures (forall k | k in knobs :: k.pos != p) ==> Adjusted(tables, e, knobs, up)[p] == e[p]
    ensures forall k | k in knobs && k.pos == p ::
      Adjusted(tables, e, knobs, up)[p]
      == var m := Step(tables, k, e[p], up); if m.To? then m.value else e[p]
    decreases |knobs|
  {
    if knobs != [] {
      var k := knobs[0];
      var m := Step(tables, k, e[k.pos], up);
      var e' := if m.To? then e[k.pos := m.value] else e;
      AdjustedAt(tables, e', knobs[1..], up, p);
      assert forall j | 0 < j < |knobs| :: knobs[j] == knobs[1..][j - 1];
    }
  }

  lemma {:induction false} KnobsDistinct(b: Bottleneck)
    ensures DistinctKnobs(Knobs(b))
  {
  }

  /** The tables support every step. */
  ghost predicate TablesOk(tables: Tables) {
    ChoiceCovered(tables(ChoicePredictor), tables(GlobalPredictor))
  }

  lemma {:induction false} KnobsSafe(tables: Tables, b: Bottleneck, k: Knob)
    requires TablesOk(tables) && k in Knobs(b)
    ensures StepSafe(tables, k) && 3 <= k.pos < DIMS && k.lookup == TableOf(k.pos)
  {
    KnobsFit(b);
    if k.lookup == ChoicePredictor {
      ChoiceStepSafeIff(tables);
      StepIgnoresPosition(tables, k);
    } else {
      OwnTableSafe(tables, k);
    }
  }

  lemma {:induction false} StepIgnoresPosition(tables: Tables, k: Knob)
    requires k.lookup == CHOICE.lookup && k.step == CHOICE.step && StepSafe(tables, CHOICE)
    ensures StepSafe(tables, k)
  {
  }

  /** Adjusting keeps a design in its tables and never touches pipeline width, fetch buffer or fetch queue. */
  lemma {:induction false} AdjustedInTable(tables: Tables, e: Embedding, b: Bottleneck, up: bool)
    requires TablesOk(tables) && InTable(tables, e)
    ensures (forall k | k in Knobs(b) :: k.pos < |e|) && InTable(tables, Adjusted(tables, e, Knobs(b), up))
    ensures Adjusted(tables, e, Knobs(b), up)[..3] == e[..3]
  {
    KnobsFit(b);
    KnobsDistinct(b);
    var r := Adjusted(tables, e, Knobs(b), up);
    forall p | 0 <= p < DIMS ensures if p < 3 then r[p] == e[p] else r[p] in tables(TableOf(p)) {
      AdjustedAt(tables, e, Knobs(b), up, p);
      if k :| k in Knobs(b) && k.pos == p {
        KnobsSafe(tables, b, k);
      }
    }
  }

  /** Adjusting one resource leaves every other resource's coordinates alone. */
  lemma {:induction false} AdjustedElsewhere(tables: Tables, e: Embedding, b: Bottleneck, up: bool, p: nat)
    requires |e| == DIMS && 3 <= p < DIMS && Owner(p) != b
    ensures (forall k | k in Knobs(b) :: k.pos < |e|) && Adjusted(tables, e, Knobs(b), up)[p] == e[p]
  {
    KnobsFit(b);
    KnobsDistinct(b);
    AdjustedAt(tables, e, Knobs(b), up, p);
  }
}
