/** Reading the components sheet into lookup tables (funcs/design/design_space.py). */
module Components {
  import opened Trace
  import opened Sorting
  import Design

  /** A cell of the data frame; `Nan` is an empty one. */
  datatype Cell = Nan | Number(n: int) | Word(s: string)

  /** Columns idx .. idx + width - 1 belong to one named component. */
  datatype Group = Group(name: string, width: nat, idx: nat)

  predicate Unnamed(title: string) { "Unnamed" <= title }

  ghost predicate IsGroup(g: Group, head: seq<string>) {
    && 1 <= g.width && g.idx + g.width <= |head| && head[g.idx] == g.name && !Unnamed(g.name)
    && forall c | g.idx < c < g.idx + g.width :: Unnamed(head[c])
  }

  /** The groups cut the columns into consecutive runs, each a titled column followed by untitled ones. */
  ghost predicate IsGrouping(gs: seq<Group>, head: seq<string>) {
    && gs != [] && gs[0].idx == 0 && gs[|gs| - 1].idx + gs[|gs| - 1].width == |head|
    && (forall k | 0 <= k < |gs| :: IsGroup(gs[k], head))
    && forall i, j {:trigger gs[i], gs[j]} | 0 <= i < |gs| && j == i + 1 < |gs| :: gs[i].idx + gs[i].width == gs[j].idx
  }

  /** A header has at most one grouping. */
  lemma {:induction false} GroupingUnique(a: seq<Group>, b: seq<Group>, head: seq<string>)
    requires IsGrouping(a, head) && IsGrouping(b, head)
    ensures a == b
  {
    forall k | 0 <= k < |a| && k < |b| ensures a[k] == b[k] {
      SameGroup(a, b, head, k);
    }
    if |a| <= |b| {
      NotLonger(a, b, head);
    } else {
      NotLonger(b, a, head);
    }
  }

  lemma {:induction false} SameGroup(a: seq<Group>, b: seq<Group>, head: seq<string>, k: nat)
    requires IsGrouping(a, head) && IsGrouping(b, head) && k < |a| && k < |b|
    ensures a[k] == b[k]
  {
    if k > 0 {
      SameGroup(a, b, head, k - 1);
      assert a[k - 1].idx + a[k - 1].width == a[k].idx && b[k - 1].idx + b[k - 1].width == b[k].idx;
    }
    NotWider(a, b, head, k);
    NotWider(b, a, head, k);
    assert IsGroup(a[k], head) && IsGroup(b[k], head);
  }

  lemma {:induction false} NotWider(a: seq<Group>, b: seq<Group>, head: seq<string>, k: nat)
    requires IsGrouping(a, head) && IsGrouping(b, head) && k < |a| && k < |b| && a[k].idx == b[k].idx
    ensures b[k].width <= a[k].width
  {
    RunEnds(a, head, k);
    assert IsGroup(b[k], head);
  }

  /** A run of columns ends at the next title, or at the end of the header for the last one only. */
  lemma {:induction false} RunEnds(a: seq<Group>, head: seq<string>, k: nat)
    requires IsGrouping(a, head) && k < |a|
    ensures var end := a[k].idx + a[k].width;
      if k == |a| - 1 then end == |head| else end < |head| && !Unnamed(head[end])
  {
    if k + 1 < |a| {
      assert a[k].idx + a[k].width == a[k + 1].idx && IsGroup(a[k + 1], head);
    }
  }

  lemma {:induction false} NotLonger(a: seq<Group>, b: seq<Group>, head: seq<string>)
    requires IsGrouping(a, head) && IsGrouping(b, head) && |a| <= |b| && a[|a| - 1] == b[|a| - 1]
    ensures |a| == |b|
  {
    var n := |a|;
    RunEnds(a, head, n - 1);
    RunEnds(b, head, n - 1);
  }

  /** After i columns: the groups that are closed and the one that may still widen. */
  ghost predicate Grouped(head: seq<string>, i: nat, done: seq<Group>, current: Option<Group>)
    requires i <= |head|
  {
    if i == 0 then current.None? && done == []
    else current.Some? && !Unnamed(head[0]) && IsGrouping(done + [current.value], head[..i])
  }

  /** The header loop. It fails exactly when there is no column, or the first column has no title: the loop
      then reads a width that was never set. */
  method GroupColumns(head: seq<string>) returns (r: Option<seq<Group>>)
    ensures r.None? <==> head == [] || Unnamed(head[0])
    ensures r.Some? ==> IsGrouping(r.value, head)
  {
    var done: seq<Group> := [];
    var current: Option<Group> := None;
    for i := 0 to |head|
      invariant Grouped(head, i, done, current)
    {
      if !Unnamed(head[i]) {
        if i == 0 {
          current := Some(Group(head[i], 1, i));
        } else {
          StartGroup(done + [current.value], head, i);
          done := done + [current.value];
          current := Some(Group(head[i], 1, i));
        }
      } else if current.None? {
        return None;
      } else {
        WidenGroup(done, current.value, head, i);
        current := Some(current.value.(width := current.value.width + 1));
      }
    }
    assert head[..|head|] == head;
    if current.None? {
      return None;
    }
    return Some(done + [current.value]);
  }

  lemma {:induction false} StartGroup(gs: seq<Group>, head: seq<string>, i: nat)
    requires i < |head| && IsGrouping(gs, head[..i]) && !Unnamed(head[i])
    ensures IsGrouping(gs + [Group(head[i], 1, i)], head[..i + 1])
  {
  }

  lemma {:induction false} WidenGroup(done: seq<Group>, g: Group, head: seq<string>, i: nat)
    requires i < |head| && IsGrouping(done + [g], head[..i]) && Unnamed(head[i])
    ensures IsGrouping(done + [g.(width := g.width + 1)], head[..i + 1])
  {
    var gs, r := done + [g], done + [g.(width := g.width + 1)];
    forall k | 0 <= k < |r| ensures IsGroup(r[k], head[..i + 1]) {
      assert IsGroup(gs[k], head[..i]);
    }
    forall a, b {:trigger r[a], r[b]} | 0 <= a < |r| && b == a + 1 < |r| ensures r[a].idx + r[a].width == r[b].idx {
      assert gs[a].idx + gs[a].width == gs[b].idx;
    }
  }

  // ---------------------------------------------------------------- tables

  /** One component's lookup table: the description row, and the candidate rows by number. */
  datatype Table = Table(description: seq<Cell>, rows: map<nat, seq<Cell>>)

  type Rows = seq<seq<Cell>>

  ghost predicate Rectangular(rows: Rows, width: nat) { forall k | 0 <= k < |rows| :: |rows[k]| == width }

  /** Column c is empty from row `from` on. */
  ghost predicate Blank(rows: Rows, c: nat, from: nat) {
    forall k | from <= k < |rows| :: c < |rows[k]| && rows[k][c].Nan?
  }

  /** The candidate columns of a group in one row. */
  function Candidates(row: seq<Cell>, g: Group): (r: seq<Cell>)
    requires 1 <= g.width && g.idx + g.width <= |row|
    ensures |r| == g.width - 1
  {
    row[g.idx + 1..g.idx + g.width]
  }

  /** The table holds rows 1 to n of the group's columns, where n is the last row filled in the title column. */
  ghost predicate IsTable(rows: Rows, g: Group, t: Table, n: nat) {
    && g.width >= 1 && (forall k | 0 <= k < |rows| :: g.idx + g.width <= |rows[k]|)
    && n < |rows| && !rows[n][g.idx].Nan? && Blank(rows, g.idx, n + 1)
    && t.description == Candidates(rows[0], g)
    && (forall k: nat :: k in t.rows <==> 1 <= k <= n)
    && forall k: nat | 1 <= k <= n :: t.rows[k] == Candidates(rows[k], g)
  }

  method ReadTable(rows: Rows, g: Group) returns (t: Option<Table>, ghost n: nat)
    requires g.width >= 1 && forall k | 0 <= k < |rows| :: g.idx + g.width <= |rows[k]|
    ensures t.None? <==> Blank(rows, g.idx, 0)
    ensures t.Some? ==> IsTable(rows, g, t.value, n)
  {
    n := 0;
    var last: nat := |rows|;
    while last > 0 && rows[last - 1][g.idx].Nan?
      invariant last <= |rows| && Blank(rows, g.idx, last)
    {
      last := last - 1;
    }
    if last == 0 {
      return None, n;
    }
    var m: map<nat, seq<Cell>> := map[];
    for i := 1 to last
      invariant forall k: nat :: k in m <==> 1 <= k < i
      invariant forall k: nat | 1 <= k < i :: m[k] == Candidates(rows[k], g)
    {
      m := m[i := Candidates(rows[i], g)];
    }
    n := last - 1;
    t := Some(Table(Candidates(rows[0], g), m));
  }

  ghost function Names(gs: seq<Group>): set<string> { set g | g in gs :: g.name }

  ghost predicate HasTable(rows: Rows, g: Group, tables: map<string, Table>) {
    g.name in tables && exists n: nat :: IsTable(rows, g, tables[g.name], n)
  }

  /** What the parsed sheet must be: one table for each group, and none besides. */
  ghost predicate IsParsed(rows: Rows, gs: seq<Group>, tables: map<string, Table>) {
    tables.Keys == Names(gs) && forall j | 0 <= j < |gs| :: HasTable(rows, gs[j], tables)
  }

  /** Some component has no row filled at all. */
  ghost predicate EmptyComponent(head: seq<string>, rows: Rows) {
    exists c: nat | c < |head| :: !Unnamed(head[c]) && Blank(rows, c, 0)
  }

  /** The whole sheet. A data frame's column titles are all different. */
  method ParseComponents(head: seq<string>, rows: Rows) returns (tables: Option<map<string, Table>>,
      ghost gs: seq<Group>)
    requires NoRepeats(head) && Rectangular(rows, |head|)
    ensures tables.Some? ==> IsGrouping(gs, head) && IsParsed(rows, gs, tables.value)
    ensures tables.None? <==> head == [] || Unnamed(head[0]) || EmptyComponent(head, rows)
  {
    gs := [];
    var groups := GroupColumns(head);
    if groups.None? {
      return None, gs;
    }
    gs := groups.value;
    assert gs[..0] == [];
    var m: map<string, Table> := map[];
    for i := 0 to |groups.value|
      invariant IsParsed(rows, gs[..i], m)
      invariant forall j | 0 <= j < i :: !Blank(rows, gs[j].idx, 0)
    {
      var g := groups.value[i];
      assert IsGroup(g, head);
      var t, n := ReadTable(rows, g);
      if t.None? {
        return None, gs;
      }
      NewName(gs, head, i);
      OneMoreTable(rows, gs, m, i, t.value, n);
      m := m[g.name := t.value];
    }
    assert gs[..|gs|] == gs;
    NoneEmpty(gs, head, rows);
    return Some(m), gs;
  }

  lemma {:induction false} OneMoreTable(rows: Rows, gs: seq<Group>, m: map<string, Table>, i: nat, t: Table, n: nat)
    requires i < |gs| && IsParsed(rows, gs[..i], m) && IsTable(rows, gs[i], t, n) && gs[i].name !in Names(gs[..i])
    ensures IsParsed(rows, gs[..i + 1], m[gs[i].name := t])
  {
    var m', next := m[gs[i].name := t], gs[..i + 1];
    assert next == gs[..i] + [gs[i]];
    assert Names(next) == Names(gs[..i]) + {gs[i].name};
    forall j | 0 <= j < i + 1 ensures HasTable(rows, next[j], m') {
      if j < i {
        assert HasTable(rows, gs[..i][j], m);
        assert gs[..i][j] in gs[..i];
      }
    }
  }

  lemma {:induction false} NoneEmpty(gs: seq<Group>, head: seq<string>, rows: Rows)
    requires IsGrouping(gs, head) && forall j | 0 <= j < |gs| :: !Blank(rows, gs[j].idx, 0)
    ensures !EmptyComponent(head, rows)
  {
    TitlesStart(gs, head);
  }

  lemma {:induction false} NewName(gs: seq<Group>, head: seq<string>, i: nat)
    requires NoRepeats(head) && IsGrouping(gs, head) && i < |gs|
    ensures gs[i].name !in Names(gs[..i])
  {
    forall j | 0 <= j < i ensures gs[j].name != gs[i].name {
      Ordered(gs, head, j, i);
      assert IsGroup(gs[j], head) && IsGroup(gs[i], head);
    }
  }

  lemma {:induction false} Ordered(gs: seq<Group>, head: seq<string>, i: nat, j: nat)
    requires IsGrouping(gs, head) && i < j < |gs|
    ensures gs[i].idx < gs[j].idx
  {
    assert IsGroup(gs[j - 1], head) && gs[j - 1].idx + gs[j - 1].width == gs[j].idx;
    if i < j - 1 {
      Ordered(gs, head, i, j - 1);
    }
  }

  /** Every titled column starts a group. */
  lemma {:induction false} TitlesStart(gs: seq<Group>, head: seq<string>)
    requires IsGrouping(gs, head)
    ensures forall c | 0 <= c < |head| && !Unnamed(head[c]) :: exists j | 0 <= j < |gs| :: gs[j].idx == c
  {
    forall c | 0 <= c < |head| && !Unnamed(head[c]) ensures exists j | 0 <= j < |gs| :: gs[j].idx == c {
      var j := Holder(gs, head, c, |gs| - 1);
      assert IsGroup(gs[j], head);
    }
  }

  /** The group a column lies in. */
  lemma {:induction false} Holder(gs: seq<Group>, head: seq<string>, c: nat, j: nat) returns (h: nat)
    requires IsGrouping(gs, head) && j < |gs| && c < gs[j].idx + gs[j].width
    ensures h < |gs| && gs[h].idx <= c < gs[h].idx + gs[h].width
  {
    if gs[j].idx <= c {
      h := j;
    } else {
      assert gs[j - 1].idx + gs[j - 1].width == gs[j].idx;
      h := Holder(gs, head, c, j - 1);
    }
  }

  // ---------------------------------------------------------------- stepping through a table

  /** The first candidate column as the list that embeddings are stepped through. */
  function Column(t: Table, n: nat): (col: seq<int>)
    requires forall k: nat | 1 <= k <= n :: k in t.rows && t.rows[k] != [] && t.rows[k][0].Number?
    ensures |col| == n && forall k | 0 <= k < n :: col[k] == t.rows[k + 1][0].n
  {
    seq(n, k requires 0 <= k < n => t.rows[k + 1][0].n)
  }

  /** A table whose keys are 1 to n has n rows, so its key count minus the description entry is n. */
  lemma {:induction false} RowCount<V>(m: map<nat, V>, n: nat)
    requires forall k: nat :: k in m <==> 1 <= k <= n
    ensures |m| == n
  {
    if n == 0 {
      assert m == map[];
    } else {
      var rest := m - {n};
      RowCount(rest, n - 1);
      assert m.Keys == rest.Keys + {n};
      assert |m| == |m.Keys| && |rest| == |rest.Keys|;
    }
  }

  /** Row k is the first whose leading candidate is the value. */
  ghost predicate IsFirstRow(t: Table, n: nat, value: int, k: nat)
    requires forall j: nat | 1 <= j <= n :: j in t.rows && t.rows[j] != []
  {
    1 <= k <= n && t.rows[k][0] == Number(value) && forall j: nat | 1 <= j < k :: t.rows[j][0] != Number(value)
  }

  /** The look-up of a value over a parsed table, entries in the order they were filled in, the description first.
      It fails when there is no candidate column, or when the description itself starts with the value. Otherwise
      it returns the first row that does, or -1; over a numeric column that is the look-up the adjustments use. */
  method LookUp(ghost rows: Rows, ghost g: Group, t: Table, ghost n: nat, value: int) returns (r: Option<int>)
    requires IsTable(rows, g, t, n)
    ensures |t.rows| == n
    ensures r.None? <==> t.description == [] || t.description[0] == Number(value)
    ensures r.Some? ==> g.width >= 2
    ensures r.Some? && r.value != -1 ==> r.value >= 1 && IsFirstRow(t, n, value, r.value)
    ensures r.Some? && r.value == -1 ==> forall k: nat | 1 <= k <= n :: t.rows[k][0] != Number(value)
    ensures r.Some? && (forall k: nat | 1 <= k <= n :: t.rows[k][0].Number?) ==>
      r.value == Design.GetIdx(Column(t, n), value)
  {
    RowCount(t.rows, n);
    if t.description == [] || t.description[0] == Number(value) {
      return None;
    }
    var k := 1;
    while k <= |t.rows|
      invariant 1 <= k <= n + 1 && forall j: nat | 1 <= j < k :: t.rows[j][0] != Number(value)
    {
      if t.rows[k][0] == Number(value) {
        FoundRow(t, n, value, k);
        return Some(k);
      }
      k := k + 1;
    }
    NoRow(t, n, value);
    return Some(-1);
  }

  lemma {:induction false} FirstRowIs(col: seq<int>, value: int, k: nat)
    requires 1 <= k <= |col| && col[k - 1] == value && value !in col[..k - 1]
    ensures Design.GetIdx(col, value) == k
  {
  }

  lemma {:induction false} FoundRow(t: Table, n: nat, value: int, k: nat)
    requires (forall j: nat | 1 <= j <= n :: j in t.rows && t.rows[j] != []) && IsFirstRow(t, n, value, k)
    ensures (forall j: nat | 1 <= j <= n :: t.rows[j][0].Number?) ==> Design.GetIdx(Column(t, n), value) == k
  {
    if forall j: nat | 1 <= j <= n :: t.rows[j][0].Number? {
      var col := Column(t, n);
      FirstRowIs(col, value, k);
    }
  }

  lemma {:induction false} NoRow(t: Table, n: nat, value: int)
    requires forall j: nat | 1 <= j <= n :: j in t.rows && t.rows[j] != [] && t.rows[j][0] != Number(value)
    ensures (forall j: nat | 1 <= j <= n :: t.rows[j][0].Number?) ==> Design.GetIdx(Column(t, n), value) == -1
  {
    if forall j: nat | 1 <= j <= n :: t.rows[j][0].Number? {
      assert value !in Column(t, n);
    }
  }

  /** The title each component has in the sheet. */
  function Title(c: Design.Component): string {
    match c
    case LocalPredictor => "localPredictorSize"
    case GlobalPredictor => "globalPredictorSize"
    case ChoicePredictor => "choicePredictorSize"
    case RasSize => "RASSize"
    case BtbEntries => "BTBEntries"
    case RobEntries => "numROBEntries"
    case IntRegs => "numPhysIntRegs"
    case FloatRegs => "numPhysFloatRegs"
    case IqEntries => "numIQEntries"
    case LqEntries => "LQEntries"
    case SqEntries => "SQEntries"
    case IntUnits => "IntALU"
    case IntMulUnits => "IntMult_Div"
    case FpUnits => "FP_ALU"
    case FpMulUnits => "FP_MultDiv"
    case L1iSize => "l1i_size"
    case L1iAssoc => "l1i_assoc"
    case L1dSize => "l1d_size"
    case L1dAssoc => "l1d_assoc"
  }

  /** A table of numbers under a description that is none. */
  ghost predicate Numeric(t: Table) {
    && t.description != [] && !t.description[0].Number?
    && forall k: nat | 1 <= k <= |t.rows| :: k in t.rows && t.rows[k] != [] && t.rows[k][0].Number?
  }

  ghost predicate NumericSheet(tables: map<string, Table>) {
    forall c: Design.Component :: Title(c) in tables && Numeric(tables[Title(c)])
  }

  /** The candidate values of each component, as embeddings are stepped through them. */
  ghost function ValuesOf(tables: map<string, Table>): Design.Tables {
    (c: Design.Component) => Values(tables, Title(c))
  }

  ghost function Values(tables: map<string, Table>, title: string): seq<int> {
    if title in tables && Numeric(tables[title]) then Column(tables[title], |tables[title].rows|) else []
  }

  /** A titled component of the sheet was read from some group. */
  lemma {:induction false} TableRead(rows: Rows, gs: seq<Group>, tables: map<string, Table>, title: string)
    returns (g: Group, n: nat)
    requires IsParsed(rows, gs, tables) && title in tables
    ensures IsTable(rows, g, tables[title], n)
  {
    assert title in Names(gs);
    var j :| 0 <= j < |gs| && gs[j].name == title;
    g := gs[j];
    assert HasTable(rows, g, tables);
    n :| IsTable(rows, g, tables[title], n);
  }

  /** One value adjusted the way the source does it: look the value up, compare with the key count or with 1, read
      the first candidate of the next or the previous row. On parsed tables of numbers that is stepping through
      their candidate values; a row the second table lacks is the source's KeyError. */
  method StepRow(ghost rows: Rows, ghost g: Group, own: Table, ghost n: nat, other: Table, value: int, up: bool)
    returns (move: Design.Move)
    requires IsTable(rows, g, own, n) && Numeric(own) && Numeric(other)
    requires forall j: nat :: j in other.rows <==> 1 <= j <= |other.rows|
    ensures move == Design.StepIn(Column(own, |own.rows|), Column(other, |other.rows|), value, up)
  {
    RowCount(own.rows, n);
    var idx := LookUp(rows, g, own, n, value);
    var last := if up then |own.rows| else 1;
    if idx.value == -1 || idx.value == last {
      return Design.Stay;
    }
    var row := if up then idx.value + 1 else idx.value - 1;
    if row !in other.rows {
      return Design.Miss;
    }
    return Design.To(other.rows[row][0].n);
  }

  /** The same from component titles: on a parsed sheet of numbers the source's reads are the steps of its candidate
      values. */
  method StepRead(ghost rows: Rows, ghost gs: seq<Group>, tables: map<string, Table>, k: Design.Knob, value: int,
      up: bool)
    returns (move: Design.Move)
    requires IsParsed(rows, gs, tables) && NumericSheet(tables)
    ensures move == Design.Step(ValuesOf(tables), k, value, up)
  {
    var lookup, step := Title(k.lookup), Title(k.step);
    move := StepTitled(rows, gs, tables, lookup, step, value, up);
  }

  method StepTitled(ghost rows: Rows, ghost gs: seq<Group>, tables: map<string, Table>, lookup: string, step: string,
      value: int, up: bool)
    returns (move: Design.Move)
    requires IsParsed(rows, gs, tables) && lookup in tables && step in tables
    requires Numeric(tables[lookup]) && Numeric(tables[step])
    ensures move == Design.StepIn(Values(tables, lookup), Values(tables, step), value, up)
  {
    ghost var g, n := TableRead(rows, gs, tables, lookup);
    ghost var _, m := TableRead(rows, gs, tables, step);
    RowCount(tables[step].rows, m);
    move := StepRow(rows, g, tables[lookup], n, tables[step], value, up);
  }
}
