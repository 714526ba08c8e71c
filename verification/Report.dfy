/** The analysis report: what generate_report writes and get_bottleneck_contribution reads back
    (algo/core/model.py, algo/dse.py). */
module Report {
  import opened Bottlenecks
  import opened Sorting
  import opened Trace
  import opened Text

  function CounterLine(b: Bottleneck, v: int): string { Label(b) + ": " + Show(v) }

  function CounterLines(m: Counters, bs: seq<Bottleneck>): (r: seq<string>)
    requires forall b | b in bs :: b in m
    ensures |r| == |bs| && forall k | 0 <= k < |r| :: r[k] == CounterLine(bs[k], m[bs[k]])
  {
    seq(|bs|, k requires 0 <= k < |bs| => CounterLine(bs[k], m[bs[k]]))
  }

  /** The lines of a report: the length, the path, and one line for each counter. */
  function ReportLines(length: int, path: seq<string>, m: Counters, bs: seq<Bottleneck>): seq<string>
    requires forall b | b in bs :: b in m
  {
    ["critical path: " + Show(length)] + path + ["", "bottleneck:"] + CounterLines(m, bs)
  }

  datatype Parsed = Parsed(length: int, contributions: map<string, int>)

  /** Only the first line and the last `n` lines are read. */
  function ParseReport(text: string, n: nat): Option<Parsed> {
    var lines := ReadLines(text);
    if lines == [] || |lines| < n then None
    else
      var length, m := ReadLength(lines[0]), ParseCounters(lines[|lines| - n..]);
      if length.None? || m.None? then None else Some(Parsed(length.value, m.value))
  }

  function ReadLength(line: string): Option<int> {
    var parts := Split(line, ':');
    ReadInt(parts[|parts| - 1])
  }

  /** One line must split into exactly a name and a value. */
  function ParseCounter(line: string): Option<(string, int)> {
    var parts := Split(line, ':');
    if |parts| != 2 then None
    else
      var v := ReadInt(parts[1]);
      if v.None? then None else Some((parts[0], v.value))
  }

  function ParseCounters(lines: seq<string>): Option<map<string, int>> {
    Collect(seq(|lines|, k requires 0 <= k < |lines| => ParseCounter(lines[k])))
  }

  function Collect(cs: seq<Option<(string, int)>>): Option<map<string, int>> {
    if cs == [] then Some(map[])
    else
      var m, c := Collect(cs[..|cs| - 1]), cs[|cs| - 1];
      if m.None? || c.None? then None else Some(m.value[c.value.0 := c.value.1])
  }

  function FromLabel(s: string): Option<Bottleneck> {
    if s == "Base" then Some(Base)
    else if s == "I-cache Miss" then Some(IcacheMiss)
    else if s == "D-cache Miss" then Some(DcacheMiss)
    else if s == "BP Miss" then Some(BPMiss)
    else if s == "ROB" then Some(ROB)
    else if s == "LQ" then Some(LQ)
    else if s == "SQ" then Some(SQ)
    else if s == "INT RF" then Some(IntRF)
    else if s == "FP RF" then Some(FpRF)
    else if s == "IQ" then Some(IQ)
    else if s == "IntAlu" then Some(IntAlu)
    else if s == "IntMultDiv" then Some(IntMultDiv)
    else if s == "FpAlu" then Some(FpAlu)
    else if s == "FpMultDiv" then Some(FpMultDiv)
    else if s == "RdWrPort" then Some(RdWrPort)
    else if s == "RAW" then Some(RAW)
    else if s == "Virtual" then Some(Virtual)
    else None
  }

  lemma {:induction false} LabelsDistinct(b: Bottleneck)
    ensures FromLabel(Label(b)) == Some(b)
  {
  }

  /** What a counter line needs to be read back: a label without colon or line break. */
  ghost predicate PlainLabel(s: string) { ':' !in s && OneLine(s) }

  lemma {:induction false} LabelPlain(b: Bottleneck)
    ensures PlainLabel(Label(b))
  {
  }

  lemma {:induction false} CounterLineReads(s: string, v: int)
    requires PlainLabel(s)
    ensures ParseCounter(s + ": " + Show(v) + "\n") == Some((s, v))
    ensures OneLine(s + ": " + Show(v))
  {
    assert s + ": " + Show(v) + "\n" == s + [':'] + (" " + Show(v) + "\n");
    SplitPair(s, ':', " " + Show(v) + "\n");
    ReadIntOfShow(v);
  }

  ghost predicate Pairs(r: Option<map<string, int>>, labels: seq<string>, values: seq<int>)
    requires |labels| == |values|
  {
    && r.Some?
    && (forall k | 0 <= k < |labels| :: labels[k] in r.value && r.value[labels[k]] == values[k])
    && (forall s | s in r.value :: s in labels)
  }

  lemma {:induction false} PairsGrow(m: map<string, int>, labels: seq<string>, values: seq<int>, s: string, v: int)
    requires |labels| == |values| && Pairs(Some(m), labels, values) && s !in labels
    ensures Pairs(Some(m[s := v]), labels + [s], values + [v])
  {
  }

  lemma {:induction false} CollectPairs(cs: seq<Option<(string, int)>>, labels: seq<string>, values: seq<int>)
    requires |cs| == |labels| == |values|
    requires forall k | 0 <= k < |labels| :: cs[k] == Some((labels[k], values[k]))
    requires forall j, k | 0 <= j < k < |labels| :: labels[j] != labels[k]
    ensures Pairs(Collect(cs), labels, values)
  {
    if cs != [] {
      var n := |cs| - 1;
      var ls, vs, m := labels[..n], values[..n], Collect(cs[..n]);
      CollectPairs(cs[..n], ls, vs);
      PairsGrow(m.value, ls, vs, labels[n], values[n]);
      assert labels == ls + [labels[n]] && values == vs + [values[n]];
    }
  }

  lemma {:induction false} LabelsPlain(bs: seq<Bottleneck>)
    requires NoRepeats(bs)
    ensures forall k | 0 <= k < |bs| :: PlainLabel(Label(bs[k]))
    ensures forall j, k | 0 <= j < k < |bs| :: Label(bs[j]) != Label(bs[k])
  {
    forall j, k | 0 <= j <= k < |bs|
      ensures PlainLabel(Label(bs[k])) && (j < k ==> Label(bs[j]) != Label(bs[k]))
    {
      LabelsDistinct(bs[j]);
      LabelsDistinct(bs[k]);
      LabelPlain(bs[k]);
    }
  }

  /** `r` maps each listed label to its counter and holds nothing else. */
  ghost predicate Recovers(r: map<string, int>, m: Counters, bs: seq<Bottleneck>) {
    && (forall k | 0 <= k < |bs| :: bs[k] in m && Label(bs[k]) in r && r[Label(bs[k])] == m[bs[k]])
    && (forall s | s in r :: exists k :: 0 <= k < |bs| && Label(bs[k]) == s)
  }

  lemma {:induction false} CounterLinesReadBack(m: Counters, bs: seq<Bottleneck>)
    requires NoRepeats(bs) && forall b | b in bs :: b in m
    ensures var r := ParseCounters(Ended(CounterLines(m, bs))); r.Some? && Recovers(r.value, m, bs)
    ensures forall s | s in CounterLines(m, bs) :: OneLine(s)
  {
    var lines := CounterLines(m, bs);
    var labels := seq(|bs|, k requires 0 <= k < |bs| => Label(bs[k]));
    var values := seq(|bs|, k requires 0 <= k < |bs| => m[bs[k]]);
    LabelsPlain(bs);
    forall k | 0 <= k < |bs| ensures ParseCounter(Ended(lines)[k]) == Some((labels[k], values[k]))
      && OneLine(lines[k]) {
      CounterLineReads(labels[k], values[k]);
    }
    CollectPairs(seq(|lines|, k requires 0 <= k < |lines| => ParseCounter(Ended(lines)[k])), labels, values);
    var r := ParseCounters(Ended(lines)).value;
    forall k | 0 <= k < |bs| ensures Label(bs[k]) in r && r[Label(bs[k])] == m[bs[k]] {
      assert labels[k] in r && r[labels[k]] == values[k];
    }
    forall s | s in r ensures exists k :: 0 <= k < |bs| && Label(bs[k]) == s {
      var k :| 0 <= k < |labels| && labels[k] == s;
    }
  }

  /** A report is parsed from its first line and its counter lines alone. */
  lemma {:induction false} ParsedFrom(first: string, path: seq<string>, counters: seq<string>)
    requires OneLine(first) && (forall s | s in path :: OneLine(s)) && (forall s | s in counters :: OneLine(s))
    requires ReadLength(first + "\n").Some? && ParseCounters(Ended(counters)).Some?
    ensures ParseReport(Unlines([first] + path + ["", "bottleneck:"] + counters), |counters|)
      == Some(Parsed(ReadLength(first + "\n").value, ParseCounters(Ended(counters)).value))
  {
    LinesReadBack(first, path, counters);
  }

  /** Printing a report and reading it back recovers the length and every counter, whatever the path lines say. */
  lemma {:induction false} RoundTrip(length: int, path: seq<string>, m: Counters, bs: seq<Bottleneck>)
    requires NoRepeats(bs) && forall b | b in bs :: b in m
    requires forall s | s in path :: OneLine(s)
    ensures var r := ParseReport(Unlines(ReportLines(length, path, m, bs)), |bs|);
      r.Some? && r.value.length == length && Recovers(r.value.contributions, m, bs)
  {
    var first := "critical path: " + Show(length);
    CounterLinesReadBack(m, bs);
    FirstLineReads(length);
    ParsedFrom(first, path, CounterLines(m, bs));
  }

  /** The contributions as the reader keeps them, by label. */
  ghost function ByLabel(m: Counters): map<string, int>
    requires Full(m)
  {
    map s: string | s in (set b: Bottleneck | b in ALL :: Label(b)) && FromLabel(s).Some? :: m[FromLabel(s).value]
  }

  lemma {:induction false} ByLabelAt(m: Counters, b: Bottleneck)
    requires Full(m)
    ensures Label(b) in ByLabel(m) && ByLabel(m)[Label(b)] == m[b]
  {
    AllComplete();
    LabelsDistinct(b);
  }

  /** Labels tell the counters apart: the same contributions by label are the same totals. */
  lemma {:induction false} ByLabelOnce(m: Counters, other: Counters, bs: seq<Bottleneck>)
    requires Full(m) && Full(other) && ByLabel(m) == ByLabel(other)
    ensures Total(m, bs) == Total(other, bs)
    decreases |bs|
  {
    if bs != [] {
      ByLabelAt(m, bs[0]);
      ByLabelAt(other, bs[0]);
      ByLabelOnce(m, other, bs[1..]);
    }
  }

  /** A report of all counters reads back as exactly its length and those counters. */
  lemma {:induction false} ReportReads(length: int, path: seq<string>, m: Counters)
    requires Full(m) && forall s | s in path :: OneLine(s)
    ensures ParseReport(Unlines(ReportLines(length, path, m, ALL)), |ALL|) == Some(Parsed(length, ByLabel(m)))
  {
    AllComplete();
    RoundTrip(length, path, m, ALL);
    RecoversByLabel(ParseReport(Unlines(ReportLines(length, path, m, ALL)), |ALL|).value.contributions, m, ALL);
  }

  lemma {:induction false} RecoversByLabel(r: map<string, int>, m: Counters, bs: seq<Bottleneck>)
    requires Full(m) && Recovers(r, m, bs) && bs == ALL
    ensures r == ByLabel(m)
  {
    forall s: string ensures s in r <==> s in ByLabel(m) {
      if s in r {
        var k :| 0 <= k < |bs| && Label(bs[k]) == s;
        assert bs[k] in bs;
        LabelsDistinct(bs[k]);
      }
    }
    forall s | s in r ensures r[s] == ByLabel(m)[s] {
      var k :| 0 <= k < |bs| && Label(bs[k]) == s;
      LabelsDistinct(bs[k]);
    }
  }

  /** The first line and the last lines survive printing, splitting and slicing. */
  lemma {:induction false} LinesReadBack(first: string, path: seq<string>, counters: seq<string>)
    requires OneLine(first) && (forall s | s in path :: OneLine(s)) && (forall s | s in counters :: OneLine(s))
    ensures var lines := ReadLines(Unlines([first] + path + ["", "bottleneck:"] + counters));
      |lines| > |counters| && lines[0] == first + "\n" && lines[|lines| - |counters|..] == Ended(counters)
  {
    var lines := [first] + path + ["", "bottleneck:"] + counters;
    ReadLinesOfUnlines(lines);
    var ended := Ended(lines);
    forall k | 0 <= k < |counters| ensures ended[|ended| - |counters| + k] == Ended(counters)[k] {
      assert lines[|lines| - |counters| + k] == counters[k];
    }
  }

  lemma {:induction false} FirstLineReads(length: int)
    ensures ReadLength("critical path: " + Show(length) + "\n") == Some(length)
    ensures OneLine("critical path: " + Show(length))
  {
    CounterLineReads("critical path", length);
    assert "critical path: " + Show(length) + "\n" == "critical path" + ": " + Show(length) + "\n";
  }

  // ---------------------------------------------------------------- average contributions

  datatype Benchmark = Benchmark(length: int, counters: Counters)

  type Shares = map<Bottleneck, real>

  function TotalShare(m: Shares, bs: seq<Bottleneck>): real
    requires forall b | b in bs :: b in m
  {
    if bs == [] then 0.0 else m[bs[0]] + TotalShare(m, bs[1..])
  }

  /** The source divides by the length: a benchmark of length 0 raises. */
  ghost predicate Usable(mark: Benchmark) { mark.length != 0 && Full(mark.counters) }

  ghost predicate AllUsable(marks: seq<Benchmark>) { forall k | k in marks :: Usable(k) }

  function Share(mark: Benchmark, b: Bottleneck): real
    requires Usable(mark)
  {
    mark.counters[b] as real / mark.length as real
  }

  /** A bottleneck's share of each benchmark's length, summed over the benchmarks. */
  function SumOfShares(marks: seq<Benchmark>, b: Bottleneck): real
    requires AllUsable(marks)
  {
    if marks == [] then 0.0
    else
      assert marks[|marks| - 1] in marks;
      SumOfShares(marks[..|marks| - 1], b) + Share(marks[|marks| - 1], b)
  }

  ghost predicate IsAverage(average: Shares, marks: seq<Benchmark>)
    requires AllUsable(marks) && marks != []
  {
    forall b: Bottleneck :: b in average && average[b] == SumOfShares(marks, b) / |marks| as real
  }

  /** `calc_bottleneck_contribution`: the average share of every bottleneck. */
  method CalcContribution(marks: seq<Benchmark>) returns (average: Shares)
    requires AllUsable(marks) && marks != []
    ensures IsAverage(average, marks)
  {
    AllComplete();
    var sum: Shares := map b: Bottleneck | b in ALL :: 0.0;
    for i := 0 to |marks|
      invariant forall b: Bottleneck :: b in sum && sum[b] == SumOfShares(marks[..i], b)
    {
      assert marks[..i + 1][..i] == marks[..i];
      sum := map b: Bottleneck | b in ALL :: sum[b] + Share(marks[i], b);
    }
    assert marks[..|marks|] == marks;
    average := map b: Bottleneck | b in ALL :: sum[b] / |marks| as real;
  }

  lemma {:induction false} ShareSum(mark: Benchmark, bs: seq<Bottleneck>, before: Shares, after: Shares)
    requires Usable(mark)
    requires forall b | b in bs :: b in before && b in after && after[b] == before[b] + Share(mark, b)
    ensures TotalShare(after, bs) == TotalShare(before, bs) + Total(mark.counters, bs) as real / mark.length as real
  {
    if bs != [] {
      ShareSum(mark, bs[1..], before, after);
      DivideSum(mark.counters[bs[0]] as real, Total(mark.counters, bs[1..]) as real, mark.length as real);
    }
  }

  lemma {:induction false} DivideSum(x: real, y: real, z: real)
    requires z != 0.0
    ensures (x + y) / z == x / z + y / z
  {
  }

  lemma {:induction false} ScaleShares(m: Shares, scaled: Shares, bs: seq<Bottleneck>, n: real)
    requires n != 0.0
    requires forall b | b in bs :: b in m && b in scaled && scaled[b] == m[b] / n
    ensures TotalShare(scaled, bs) == TotalShare(m, bs) / n
  {
    if bs != [] {
      ScaleShares(m, scaled, bs[1..], n);
      DivideSum(m[bs[0]], TotalShare(m, bs[1..]), n);
    }
  }

  ghost predicate AreSums(m: Shares, marks: seq<Benchmark>)
    requires AllUsable(marks)
  {
    forall b: Bottleneck :: b in m && m[b] == SumOfShares(marks, b)
  }

  lemma {:induction false} SumsExist(marks: seq<Benchmark>) returns (m: Shares)
    requires AllUsable(marks)
    ensures AreSums(m, marks)
  {
    AllComplete();
    m := map b: Bottleneck | b in ALL :: SumOfShares(marks, b);
  }

  lemma {:induction false} ZeroShares(m: Shares, bs: seq<Bottleneck>)
    requires forall b | b in bs :: b in m && m[b] == 0.0
    ensures TotalShare(m, bs) == 0.0
  {
    if bs != [] { ZeroShares(m, bs[1..]); }
  }

  lemma {:induction false} OwnShare(n: real)
    requires n != 0.0
    ensures n / n == 1.0
  {
  }

  /** Each benchmark adds exactly 1 to the sum of all shares. */
  lemma {:induction false} SumsTotal(marks: seq<Benchmark>, m: Shares, bs: seq<Bottleneck>)
    requires AllUsable(marks) && AreSums(m, marks)
    requires forall k | k in marks :: Total(k.counters, bs) == k.length
    ensures TotalShare(m, bs) == |marks| as real
  {
    if marks == [] {
      ZeroShares(m, bs);
    } else {
      var init, mark := marks[..|marks| - 1], marks[|marks| - 1];
      assert mark in marks;
      var before := SumsExist(init);
      SumsTotal(init, before, bs);
      ShareSum(mark, bs, before, m);
      OwnShare(mark.length as real);
    }
  }

  /** When each benchmark's counters add up to its length, the average contributions add up to exactly 1. */
  lemma {:induction false} ContributionsSumToOne(marks: seq<Benchmark>, average: Shares)
    requires AllUsable(marks) && marks != [] && IsAverage(average, marks)
    requires forall k | k in marks :: Total(k.counters, ALL) == k.length
    ensures TotalShare(average, ALL) == 1.0
  {
    AverageTotal(marks, average, ALL);
  }

  lemma {:induction false} AverageTotal(marks: seq<Benchmark>, average: Shares, bs: seq<Bottleneck>)
    requires AllUsable(marks) && marks != [] && IsAverage(average, marks)
    requires forall k | k in marks :: Total(k.counters, bs) == k.length
    ensures TotalShare(average, bs) == 1.0
  {
    var m := SumsExist(marks);
    SumsTotal(marks, m, bs);
    ScaleShares(m, average, bs, |marks| as real);
    OwnShare(|marks| as real);
  }
}
