/** Regression trees: best-first growth against depth-first growth, and batch prediction
    (baseline/adaboost/decision_tree.py). */
module Cart {
  import opened Trace
  import opened Sorting
  import opened Growth

  /** A target is a vector, one entry long where the source holds a plain number. */
  type Target = seq<real>

  /** One training row: features, target, weight. */
  datatype Row = Row(x: seq<real>, y: Target, w: real)

  function Filter(rows: seq<Row>, keep: Row -> bool): (r: seq<Row>)
    ensures forall d :: d in r <==> d in rows && keep(d)
    ensures |r| <= |rows|
  {
    if rows == [] then []
    else (if keep(rows[0]) then [rows[0]] else []) + Filter(rows[1..], keep)
  }

  /** Filtering twice is filtering by both. */
  lemma {:induction false} FilterTwice(rows: seq<Row>, a: Row -> bool, b: Row -> bool, both: Row -> bool)
    requires forall d | d in rows :: both(d) == (a(d) && b(d))
    ensures Filter(Filter(rows, a), b) == Filter(rows, both)
  {
    if rows != [] {
      FilterTwice(rows[1..], a, b, both);
      var rest := Filter(rows[1..], a);
      if a(rows[0]) {
        assert Filter(rows, a) == [rows[0]] + rest && ([rows[0]] + rest)[1..] == rest;
      } else {
        assert Filter(rows, a) == rest && Filter(rows, both) == Filter(rows[1..], both);
      }
    }
  }

  /** A filter and its complement split the rows. */
  lemma {:induction false} FilterSplits(rows: seq<Row>, a: Row -> bool, b: Row -> bool)
    requires forall d | d in rows :: a(d) != b(d)
    ensures |Filter(rows, a)| + |Filter(rows, b)| == |rows|
  {
    if rows != [] { FilterSplits(rows[1..], a, b); }
  }

  /** Sum of the targets' entries j. */
  function SumY(rows: seq<Row>, j: nat): real {
    if rows == [] then 0.0 else (if j < |rows[0].y| then rows[0].y[j] else 0.0) + SumY(rows[1..], j)
  }

  function SumW(rows: seq<Row>): real { if rows == [] then 0.0 else rows[0].w + SumW(rows[1..]) }

  /** The mean target, entry by entry. */
  function MeanY(rows: seq<Row>): Target
    requires rows != []
  {
    seq(|rows[0].y|, (j: nat) => SumY(rows, j) / |rows| as real)
  }

  // ---------------------------------------------------------------- splits

  /** The default threshold sends every row to the left. */
  datatype Threshold = At(t: real) | Infinity

  predicate Below(v: real, th: Threshold) { th.Infinity? || v < th.t }

  datatype Split = Split(feature: nat, threshold: Threshold, decrease: real)

  /** `distinct` enumerates the values of a feature in some order, as iterating over a set does. */
  datatype Params = Params(
    impurity: seq<Row> -> real,
    distinct: seq<real> -> seq<real>,
    maxDepth: Option<nat>,
    minSamplesLeaf: int,
    minImpurityDecrease: real)

  /** Which way a feature vector goes. */
  predicate TakesLeft(x: seq<real>, f: nat, th: Threshold) { f < |x| && Below(x[f], th) }

  predicate GoesLeft(d: Row, f: nat, th: Threshold) { TakesLeft(d.x, f, th) }

  function LeftRows(rows: seq<Row>, f: nat, th: Threshold): seq<Row> { Filter(rows, (d: Row) => GoesLeft(d, f, th)) }
  function RightRows(rows: seq<Row>, f: nat, th: Threshold): seq<Row> { Filter(rows, (d: Row) => !GoesLeft(d, f, th)) }

  lemma {:induction false} SidesSplit(rows: seq<Row>, f: nat, th: Threshold)
    ensures |LeftRows(rows, f, th)| + |RightRows(rows, f, th)| == |rows|
  {
    FilterSplits(rows, (d: Row) => GoesLeft(d, f, th), (d: Row) => !GoesLeft(d, f, th));
  }

  /** Weighted impurity decrease of a split of `rows`, scaled by their share of all samples. A side without
      weight counts as no decrease. */
  function Decrease(p: Params, samples: nat, rows: seq<Row>, f: nat, t: real): real
    requires samples > 0
  {
    var left, right := LeftRows(rows, f, At(t)), RightRows(rows, f, At(t));
    var wl, wr := SumW(left), SumW(right);
    if wl == 0.0 || wr == 0.0 || wl + wr == 0.0 then 0.0
    else
      |rows| as real / samples as real
      * (p.impurity(rows) - (p.impurity(left) * (wl / (wl + wr)) + p.impurity(right) * (wr / (wl + wr))))
  }

  function Column(rows: seq<Row>, f: nat): (c: seq<real>)
    requires forall d | d in rows :: f < |d.x|
    ensures |c| == |rows| && forall k | 0 <= k < |c| :: rows[k] in rows && c[k] == rows[k].x[f]
  {
    seq(|rows|, k requires 0 <= k < |rows| => assert rows[k] in rows; rows[k].x[f])
  }

  predicate Wide(rows: seq<Row>, features: nat) { forall d | d in rows :: |d.x| == features }

  // The search itself, over any gain of a feature and a value, and any candidate values of each feature.

  type Gain = (nat, real) -> real

  /** Keep the better of two splits; an equal one does not replace. */
  function Better(gain: Gain, best: Split, f: nat, t: real): Split {
    if gain(f, t) > best.decrease then Split(f, At(t), gain(f, t)) else best
  }

  function BestOver(gain: Gain, best: Split, f: nat, ts: seq<real>): Split {
    if ts == [] then best else Better(gain, BestOver(gain, best, f, ts[..|ts| - 1]), f, ts[|ts| - 1])
  }

  /** The best split over the first n features. */
  function Search(gain: Gain, candidates: nat -> seq<real>, n: nat): Split {
    if n == 0 then Split(0, Infinity, 0.0)
    else BestOver(gain, Search(gain, candidates, n - 1), n - 1, candidates(n - 1))
  }

  /** A split that was found, as opposed to the default: its decrease is that of its threshold, and positive. */
  ghost predicate FoundOrDefault(gain: Gain, s: Split) {
    || s == Split(0, Infinity, 0.0)
    || (s.threshold.At? && s.decrease > 0.0 && s.decrease == gain(s.feature, s.threshold.t))
  }

  lemma {:induction false} BestOverIs(gain: Gain, best: Split, f: nat, ts: seq<real>)
    requires FoundOrDefault(gain, best) && best.decrease >= 0.0
    ensures var r := BestOver(gain, best, f, ts);
      && FoundOrDefault(gain, r) && best.decrease <= r.decrease
      && forall t | t in ts :: gain(f, t) <= r.decrease
  {
    if ts != [] {
      BestOverIs(gain, best, f, ts[..|ts| - 1]);
      assert ts == ts[..|ts| - 1] + [ts[|ts| - 1]];
    }
  }

  /** No candidate of feature f gains more than `bound`. */
  ghost predicate Within(gain: Gain, candidates: nat -> seq<real>, f: nat, bound: real) {
    forall t | t in candidates(f) :: gain(f, t) <= bound
  }

  lemma {:induction false} SearchIs(gain: Gain, candidates: nat -> seq<real>, n: nat)
    ensures var r := Search(gain, candidates, n);
      && FoundOrDefault(gain, r) && r.decrease >= 0.0
      && forall f: nat | f < n :: Within(gain, candidates, f, r.decrease)
  {
    if n > 0 {
      SearchIs(gain, candidates, n - 1);
      var before := Search(gain, candidates, n - 1);
      BestOverIs(gain, before, n - 1, candidates(n - 1));
      var r := Search(gain, candidates, n);
      forall f: nat | f < n ensures Within(gain, candidates, f, r.decrease) {
        assert f < n - 1 ==> Within(gain, candidates, f, before.decrease);
      }
    }
  }

  ghost predicate ParamsOk(p: Params) {
    && (forall c, t :: t in p.distinct(c) <==> t in c)
    && (p.minSamplesLeaf >= 1 || p.minImpurityDecrease >= 0.0)
  }

  /** The gain of a split of these rows. */
  function GainOf(p: Params, samples: nat, rows: seq<Row>): Gain
    requires samples > 0
  {
    (f: nat, t: real) => Decrease(p, samples, rows, f, t)
  }

  /** The values each feature takes, in the order they are enumerated. */
  function CandidatesOf(p: Params, rows: seq<Row>, features: nat): nat -> seq<real>
    requires Wide(rows, features)
  {
    (f: nat) => if f < features then p.distinct(Column(rows, f)) else []
  }

  function BestSplit(p: Params, samples: nat, rows: seq<Row>, features: nat): Split
    requires samples > 0 && Wide(rows, features)
  {
    Search(GainOf(p, samples, rows), CandidatesOf(p, rows, features), features)
  }

  /** The search returns a greatest decrease over every feature and every value it takes, whatever order
      the values come in; 0 with everything to the left if no split gains anything. */
  lemma {:induction false} BestSplitIsBest(p: Params, samples: nat, rows: seq<Row>, features: nat)
    requires samples > 0 && Wide(rows, features) && ParamsOk(p)
    ensures var r := BestSplit(p, samples, rows, features);
      && (r == Split(0, Infinity, 0.0)
          || (&& r.threshold.At? && r.decrease > 0.0
              && r.decrease == Decrease(p, samples, rows, r.feature, r.threshold.t)))
      && forall f: nat, d | f < features && d in rows :: Decrease(p, samples, rows, f, d.x[f]) <= r.decrease
  {
    var gain, candidates := GainOf(p, samples, rows), CandidatesOf(p, rows, features);
    SearchIs(gain, candidates, features);
    var r := BestSplit(p, samples, rows, features);
    forall f: nat, d | f < features && d in rows ensures Decrease(p, samples, rows, f, d.x[f]) <= r.decrease {
      var k :| 0 <= k < |rows| && rows[k] == d;
      assert Column(rows, f)[k] == d.x[f] && d.x[f] in candidates(f);
      assert Within(gain, candidates, f, r.decrease) && gain(f, d.x[f]) == Decrease(p, samples, rows, f, d.x[f]);
    }
  }

  /** The nested search loops. */
  method FindBestSplit(p: Params, samples: nat, rows: seq<Row>, features: nat) returns (best: Split)
    requires samples > 0 && Wide(rows, features)
    ensures best == BestSplit(p, samples, rows, features)
  {
    best := Split(0, Infinity, 0.0);
    ghost var gain, candidates := GainOf(p, samples, rows), CandidatesOf(p, rows, features);
    for f := 0 to features
      invariant best == Search(gain, candidates, f)
    {
      best := SearchFeature(p, samples, rows, best, f, p.distinct(Column(rows, f)));
    }
  }

  method SearchFeature(p: Params, samples: nat, rows: seq<Row>, before: Split, f: nat,
      ts: seq<real>) returns (best: Split)
    requires samples > 0
    ensures best == BestOver(GainOf(p, samples, rows), before, f, ts)
  {
    best := before;
    ghost var gain := GainOf(p, samples, rows);
    for k := 0 to |ts|
      invariant best == BestOver(gain, before, f, ts[..k])
    {
      assert ts[..k + 1][..k] == ts[..k];
      var d := Decrease(p, samples, rows, f, ts[k]);
      assert d == gain(f, ts[k]);
      if d > best.decrease {
        best := Split(f, At(ts[k]), d);
      }
    }
    assert ts[..|ts|] == ts;
  }

  // ---------------------------------------------------------------- growing the tree

  /** The training setup: parameters, number of samples, number of features. */
  datatype Setup = Setup(p: Params, samples: nat, features: nat)

  ghost predicate SetupOk(u: Setup) { ParamsOk(u.p) && u.samples > 0 }

  /** What a tree node holds: its training rows and its depth. */
  datatype Content = Content(rows: seq<Row>, depth: nat)

  predicate Usable(u: Setup, rows: seq<Row>) { u.samples > 0 && Wide(rows, u.features) }

  function SplitOf(u: Setup, c: Content): Split {
    if Usable(u, c.rows) then BestSplit(u.p, u.samples, c.rows, u.features) else Split(0, Infinity, 0.0)
  }

  function LeftOf(u: Setup, c: Content): Content {
    Content(LeftRows(c.rows, SplitOf(u, c).feature, SplitOf(u, c).threshold), c.depth + 1)
  }

  function RightOf(u: Setup, c: Content): Content {
    Content(RightRows(c.rows, SplitOf(u, c).feature, SplitOf(u, c).threshold), c.depth + 1)
  }

  /** The depth limit is reached, or a side would be too small. */
  predicate Halted(u: Setup, c: Content) {
    || u.p.maxDepth == Some(c.depth)
    || |LeftOf(u, c).rows| < u.p.minSamplesLeaf || |RightOf(u, c).rows| < u.p.minSamplesLeaf
  }

  function RulesOf(u: Setup): Rules<Content, Split, Target> {
    Rules(
      (c: Content) => SplitOf(u, c),
      (c: Content) => SplitOf(u, c).decrease,
      u.p.minImpurityDecrease,
      (c: Content) => Halted(u, c),
      (c: Content) => LeftOf(u, c),
      (c: Content) => RightOf(u, c),
      (c: Content) => if c.rows == [] then [] else MeanY(c.rows),
      (c: Content) => c.rows != [] && Usable(u, c.rows),
      (c: Content) => |c.rows|)
  }

  /** An expanded node has two non-empty, strictly smaller children: either the leaf size demands it, or a
      positive decrease can only come from a split with weight on both sides. */
  lemma {:induction false} SplitShrinks(u: Setup, c: Content)
    requires SetupOk(u) && Wide(c.rows, u.features)
    requires SplitOf(u, c).decrease > u.p.minImpurityDecrease && !Halted(u, c)
    ensures 0 < |LeftOf(u, c).rows| < |c.rows| && 0 < |RightOf(u, c).rows| < |c.rows|
    ensures |LeftOf(u, c).rows| + |RightOf(u, c).rows| == |c.rows|
    ensures Wide(LeftOf(u, c).rows, u.features) && Wide(RightOf(u, c).rows, u.features)
  {
    var s := SplitOf(u, c);
    SidesSplit(c.rows, s.feature, s.threshold);
    BestSplitIsBest(u.p, u.samples, c.rows, u.features);
  }

  lemma {:induction false} RulesAreOk(u: Setup)
    requires SetupOk(u)
    ensures RulesOk(RulesOf(u))
  {
    var g := RulesOf(u);
    forall c: Content | g.good(c) && Expands(g, c)
      ensures g.good(g.left(c)) && g.good(g.right(c)) && g.size(g.left(c)) + g.size(g.right(c)) == g.size(c)
    {
      SplitShrinks(u, c);
    }
  }

  /** The tree that depth-first recursion builds. */
  function DepthFirst(u: Setup, c: Content): Tree<Split, Target>
    requires SetupOk(u) && Wide(c.rows, u.features) && c.rows != []
  {
    RulesAreOk(u);
    Grow(RulesOf(u), c)
  }

  ghost predicate IsTreeOf(u: Setup, store: Store<Content, Target>, rows: seq<Row>) {
    var g, c := RulesOf(u), Content(rows, 0);
    RulesOk(g) && g.good(c) && Built(g, store, c)
  }

  /** Best-first growth builds exactly the tree that depth-first growth builds, from any training rows. */
  method BuildBestFirstTree(u: Setup, rows: seq<Row>) returns (store: Store<Content, Target>)
    requires SetupOk(u) && Wide(rows, u.features) && rows != []
    ensures IsTreeOf(u, store, rows)
  {
    RulesAreOk(u);
    store := BestFirst(RulesOf(u), Content(rows, 0));
  }

  // ---------------------------------------------------------------- prediction

  /** Routing one feature vector; a leaf may hold a number or a vector. */
  function Route<V>(t: Tree<Split, V>, x: seq<real>): V {
    match t
    case Leaf(v) => v
    case Branch(s, l, r) => if TakesLeft(x, s.feature, s.threshold) then Route(l, x) else Route(r, x)
  }

  function Mask(xs: seq<seq<real>>, s: Split): (m: seq<bool>)
    ensures |m| == |xs| && forall k | 0 <= k < |m| :: m[k] == TakesLeft(xs[k], s.feature, s.threshold)
  {
    seq(|xs|, k requires 0 <= k < |xs| => TakesLeft(xs[k], s.feature, s.threshold))
  }

  /** Indexing by a mask: the rows where it has the wanted value. */
  function Select(xs: seq<seq<real>>, mask: seq<bool>, want: bool): (r: seq<seq<real>>)
    requires |mask| == |xs|
    ensures |r| == Count(mask, want)
  {
    if xs == [] then []
    else
      Select(xs[..|xs| - 1], mask[..|xs| - 1], want) + if mask[|xs| - 1] == want then [xs[|xs| - 1]] else []
  }

  function Count(mask: seq<bool>, want: bool): (n: nat)
    ensures n <= |mask|
  {
    if mask == [] then 0 else Count(mask[..|mask| - 1], want) + if mask[|mask| - 1] == want then 1 else 0
  }

  /** Assigning through a mask and its complement: each side's predictions fill its own positions in order. */
  function Scatter<V>(mask: seq<bool>, left: seq<V>, right: seq<V>): (r: seq<V>)
    requires |left| == Count(mask, true) && |right| == Count(mask, false)
    ensures |r| == |mask|
  {
    if mask == [] then []
    else
      var init := mask[..|mask| - 1];
      if mask[|mask| - 1] then Scatter(init, left[..|left| - 1], right) + [left[|left| - 1]]
      else Scatter(init, left, right[..|right| - 1]) + [right[|right| - 1]]
  }

  /** `_retrieve_tree`: batch prediction. */
  function Retrieve<V>(t: Tree<Split, V>, xs: seq<seq<real>>): (r: seq<V>)
    ensures |r| == |xs|
  {
    match t
    case Leaf(v) => seq(|xs|, _ => v)
    case Branch(s, l, r) =>
      var mask := Mask(xs, s);
      Scatter(mask, Retrieve(l, Select(xs, mask, true)), Retrieve(r, Select(xs, mask, false)))
  }

  /** Predictions of both sides that agree with some function of the selected rows scatter to that function
      of all rows. */
  lemma {:induction false} ScatterAt<V>(xs: seq<seq<real>>, mask: seq<bool>, left: seq<V>, right: seq<V>,
      a: seq<real> -> V, b: seq<real> -> V, k: nat)
    requires |mask| == |xs| && |left| == Count(mask, true) && |right| == Count(mask, false)
    requires Agree(left, Select(xs, mask, true), a) && Agree(right, Select(xs, mask, false), b) && k < |xs|
    ensures Scatter(mask, left, right)[k] == if mask[k] then a(xs[k]) else b(xs[k])
    decreases |xs|
  {
    var n := |xs| - 1;
    var most, init := xs[..n], mask[..n];
    if mask[n] {
      AgreeInit(left, Select(most, init, true), xs[n], a);
      if k < n { ScatterAt(most, init, left[..|left| - 1], right, a, b, k); }
    } else {
      AgreeInit(right, Select(most, init, false), xs[n], b);
      if k < n { ScatterAt(most, init, left, right[..|right| - 1], a, b, k); }
    }
  }

  ghost predicate Agree<V>(ys: seq<V>, xs: seq<seq<real>>, f: seq<real> -> V) {
    |ys| == |xs| && forall k | 0 <= k < |ys| :: ys[k] == f(xs[k])
  }

  lemma {:induction false} AgreeInit<V>(ys: seq<V>, init: seq<seq<real>>, x: seq<real>, f: seq<real> -> V)
    requires Agree(ys, init + [x], f)
    ensures Agree(ys[..|ys| - 1], init, f) && ys[|ys| - 1] == f(x)
  {
    assert (init + [x])[|init|] == x;
    forall k | 0 <= k < |init| ensures ys[k] == f(init[k]) {
      assert (init + [x])[k] == init[k];
    }
  }

  /** Batch prediction by masks equals routing each row on its own. */
  lemma {:induction false} RetrieveIsRoute<V>(t: Tree<Split, V>, xs: seq<seq<real>>, k: nat)
    requires k < |xs|
    ensures Retrieve(t, xs)[k] == Route(t, xs[k])
    decreases t
  {
    if t.Branch? {
      var mask := Mask(xs, t.split);
      var ls, rs := Select(xs, mask, true), Select(xs, mask, false);
      forall j | 0 <= j < |ls| ensures Retrieve(t.left, ls)[j] == Route(t.left, ls[j]) {
        RetrieveIsRoute(t.left, ls, j);
      }
      forall j | 0 <= j < |rs| ensures Retrieve(t.right, rs)[j] == Route(t.right, rs[j]) {
        RetrieveIsRoute(t.right, rs, j);
      }
      ScatterAt(xs, mask, Retrieve(t.left, ls), Retrieve(t.right, rs), x => Route(t.left, x), x => Route(t.right, x),
        k);
    }
  }

  // ---------------------------------------------------------------- training rows

  /** The leaf a feature vector ends in. */
  function LeafOf<V>(t: Tree<Split, V>, x: seq<real>): seq<bool> {
    match t
    case Leaf(_) => []
    case Branch(s, l, r) =>
      if TakesLeft(x, s.feature, s.threshold) then [false] + LeafOf(l, x) else [true] + LeafOf(r, x)
  }

  function LeafKey<V>(t: Tree<Split, V>): Row -> seq<bool> { (d: Row) => LeafOf(t, d.x) }

  function SameKey(key: Row -> seq<bool>, leaf: seq<bool>): Row -> bool { (d: Row) => key(d) == leaf }

  function SameLeaf<V>(t: Tree<Split, V>, leaf: seq<bool>): Row -> bool { SameKey(LeafKey(t), leaf) }

  /** The rows in a leaf below one side are the rows of that side in that leaf. */
  lemma {:induction false} SideMates<V>(rows: seq<Row>, t: Tree<Split, V>, left: bool, leaf: seq<bool>)
    requires t.Branch?
    ensures var f, th := t.split.feature, t.split.threshold;
      var sub := if left then t.left else t.right;
      Filter(if left then LeftRows(rows, f, th) else RightRows(rows, f, th), SameLeaf(sub, leaf))
      == Filter(rows, SameLeaf(t, [!left] + leaf))
  {
    var f, th := t.split.feature, t.split.threshold;
    var sub := SameLeaf(if left then t.left else t.right, leaf);
    var whole := SameLeaf(t, [!left] + leaf);
    forall e: Row ensures whole(e) == ((GoesLeft(e, f, th) == left) && sub(e)) {
      SideLeaf(t, left, leaf, e.x);
    }
    if left {
      FilterTwice(rows, (e: Row) => GoesLeft(e, f, th), sub, whole);
    } else {
      FilterTwice(rows, (e: Row) => !GoesLeft(e, f, th), sub, whole);
    }
  }

  /** Ending in a leaf of one side means going to that side and ending in that leaf of it. */
  lemma {:induction false} SideLeaf<V>(t: Tree<Split, V>, left: bool, leaf: seq<bool>, x: seq<real>)
    requires t.Branch?
    ensures var went := TakesLeft(x, t.split.feature, t.split.threshold);
      LeafOf(t, x) == [!left] + leaf <==> went == left && LeafOf(if left then t.left else t.right, x) == leaf
  {
    var went := TakesLeft(x, t.split.feature, t.split.threshold);
    var rest := LeafOf(if went then t.left else t.right, x);
    assert LeafOf(t, x) == [!went] + rest;
    assert ([!went] + rest)[0] == !went && ([!went] + rest)[1..] == rest;
    assert ([!left] + leaf)[0] == !left && ([!left] + leaf)[1..] == leaf;
  }

  /** `v` is the mean target of the rows that end in the leaf of x. */
  ghost predicate IsLeafMean(t: Tree<Split, Target>, rows: seq<Row>, x: seq<real>, v: Target) {
    var mates := Filter(rows, SameLeaf(t, LeafOf(t, x)));
    mates != [] && v == MeanY(mates)
  }

  lemma {:induction false} SideLeafMean(t: Tree<Split, Target>, rows: seq<Row>, x: seq<real>, left: bool)
    requires t.Branch? && left == TakesLeft(x, t.split.feature, t.split.threshold)
    requires var f, th := t.split.feature, t.split.threshold;
      var sub := if left then t.left else t.right;
      IsLeafMean(sub, if left then LeftRows(rows, f, th) else RightRows(rows, f, th), x, Route(sub, x))
    ensures IsLeafMean(t, rows, x, Route(t, x))
  {
    SideMates(rows, t, left, LeafOf(if left then t.left else t.right, x));
  }

  /** A grown tree predicts, for every training row, the mean target of exactly the training rows that
      end in the same leaf. */
  lemma {:induction false} TrainingRowsGetLeafMean(u: Setup, c: Content, d: Row)
    requires SetupOk(u) && Wide(c.rows, u.features) && d in c.rows
    ensures IsLeafMean(DepthFirst(u, c), c.rows, d.x, Route(DepthFirst(u, c), d.x))
    decreases |c.rows|
  {
    var g, t := RulesOf(u), DepthFirst(u, c);
    RulesAreOk(u);
    if Expands(g, c) {
      SplitShrinks(u, c);
      var s := SplitOf(u, c);
      var left := GoesLeft(d, s.feature, s.threshold);
      TrainingRowsGetLeafMean(u, if left then LeftOf(u, c) else RightOf(u, c), d);
      SideLeafMean(t, c.rows, d.x, left);
    } else {
      FilterAll(c.rows, SameLeaf(t, LeafOf(t, d.x)));
    }
  }

  lemma {:induction false} FilterAll(rows: seq<Row>, a: Row -> bool)
    requires forall d | d in rows :: a(d)
    ensures Filter(rows, a) == rows
  {
    if rows != [] { FilterAll(rows[1..], a); }
  }

  // ---------------------------------------------------------------- what the leaves hold

  /** The leaves of a tree, left to right. */
  ghost function Leaves<V>(t: Tree<Split, V>): seq<seq<bool>> {
    match t
    case Leaf(_) => [[]]
    case Branch(_, l, r) => Under(false, Leaves(l)) + Under(true, Leaves(r))
  }

  ghost function Under(turn: bool, leaves: seq<seq<bool>>): (r: seq<seq<bool>>)
    ensures |r| == |leaves| && forall k | 0 <= k < |r| :: r[k] == [turn] + leaves[k]
  {
    seq(|leaves|, k requires 0 <= k < |leaves| => [turn] + leaves[k])
  }

  /** Every leaf is listed once, and every feature vector ends in a listed leaf. */
  lemma {:induction false} LeavesListed<V>(t: Tree<Split, V>, x: seq<real>)
    ensures NoRepeats(Leaves(t)) && LeafOf(t, x) in Leaves(t)
    decreases t
  {
    if t.Branch? {
      LeavesListed(t.left, x);
      LeavesListed(t.right, x);
      var ls, rs := Under(false, Leaves(t.left)), Under(true, Leaves(t.right));
      UnderOnce(false, Leaves(t.left));
      UnderOnce(true, Leaves(t.right));
      assert forall i, j | 0 <= i < |ls| && 0 <= j < |rs| :: ls[i][0] != rs[j][0];
      var went := TakesLeft(x, t.split.feature, t.split.threshold);
      var sub := if went then t.left else t.right;
      var k :| 0 <= k < |Leaves(sub)| && Leaves(sub)[k] == LeafOf(sub, x);
      assert LeafOf(t, x) == if went then ls[k] else rs[k];
    }
  }

  lemma {:induction false} UnderOnce(turn: bool, leaves: seq<seq<bool>>)
    requires NoRepeats(leaves)
    ensures NoRepeats(Under(turn, leaves))
  {
    var r := Under(turn, leaves);
    forall i, j | 0 <= i < j < |r| ensures r[i] != r[j] {
      assert r[i][1..] == leaves[i] && r[j][1..] == leaves[j];
    }
  }

  /** The rows of all listed leaves together. */
  ghost function Gathered(key: Row -> seq<bool>, rows: seq<Row>, leaves: seq<seq<bool>>): multiset<Row> {
    if leaves == [] then multiset{}
    else multiset(Filter(rows, SameKey(key, leaves[0]))) + Gathered(key, rows, leaves[1..])
  }

  lemma {:induction false} GatherOne(key: Row -> seq<bool>, rows: seq<Row>, leaves: seq<seq<bool>>)
    requires rows != [] && NoRepeats(leaves)
    ensures Gathered(key, rows, leaves)
      == Gathered(key, rows[1..], leaves) + if key(rows[0]) in leaves then multiset{rows[0]} else multiset{}
    decreases |leaves|
  {
    if leaves != [] {
      var rest := leaves[1..];
      assert leaves == [leaves[0]] + rest && leaves[0] !in rest;
      GatherOne(key, rows, rest);
      FilterHead(rows, SameKey(key, leaves[0]));
    }
  }

  lemma {:induction false} FilterHead(rows: seq<Row>, keep: Row -> bool)
    requires rows != []
    ensures multiset(Filter(rows, keep))
      == multiset(Filter(rows[1..], keep)) + if keep(rows[0]) then multiset{rows[0]} else multiset{}
  {
    assert Filter(rows, keep) == (if keep(rows[0]) then [rows[0]] else []) + Filter(rows[1..], keep);
  }

  /** The leaves partition the rows: together they hold every row exactly as often as it occurs. */
  lemma {:induction false} LeavesPartition<V>(t: Tree<Split, V>, rows: seq<Row>)
    ensures Gathered(LeafKey(t), rows, Leaves(t)) == multiset(rows)
  {
    LeavesListed(t, []);
    forall k | 0 <= k < |rows| ensures LeafKey(t)(rows[k]) in Leaves(t) {
      LeavesListed(t, rows[k].x);
    }
    GatherAll(LeafKey(t), rows, Leaves(t));
  }

  lemma {:induction false} GatherAll(key: Row -> seq<bool>, rows: seq<Row>, leaves: seq<seq<bool>>)
    requires NoRepeats(leaves) && forall k | 0 <= k < |rows| :: key(rows[k]) in leaves
    ensures Gathered(key, rows, leaves) == multiset(rows)
    decreases |rows|
  {
    if rows == [] {
      NothingGathered(key, leaves);
    } else {
      GatherAll(key, rows[1..], leaves);
      GatherOne(key, rows, leaves);
      assert rows == [rows[0]] + rows[1..];
    }
  }

  lemma {:induction false} NothingGathered(key: Row -> seq<bool>, leaves: seq<seq<bool>>)
    ensures Gathered(key, [], leaves) == multiset{}
  {
    if leaves != [] {
      NothingGathered(key, leaves[1..]);
    }
  }

  /** The node object of a leaf. */
  ghost function Place(at: Path, leaf: seq<bool>): Path
    decreases |leaf|
  {
    if leaf == [] then at else Place(Turn(at, leaf[0]), leaf[1..])
  }

  /** What the node object of a leaf holds: exactly the training rows that are routed to it, and their mean. */
  ghost predicate HoldsItsRows(store: Store<Content, Target>, at: Path, t: Tree<Split, Target>, rows: seq<Row>,
      leaf: seq<bool>) {
    var mates := Filter(rows, SameLeaf(t, leaf));
    && Place(at, leaf) in store && mates != []
    && store[Place(at, leaf)].content.rows == mates && store[Place(at, leaf)].value == Some(MeanY(mates))
  }

  /** What holds of the leaf of a side holds of that leaf below the whole node. */
  lemma {:induction false} SideHoldsItsRows(store: Store<Content, Target>, at: Path, t: Tree<Split, Target>,
      rows: seq<Row>, left: bool, sub: seq<bool>)
    requires t.Branch?
    requires var f, th := t.split.feature, t.split.threshold;
      HoldsItsRows(store, Turn(at, !left), if left then t.left else t.right,
        if left then LeftRows(rows, f, th) else RightRows(rows, f, th), sub)
    ensures HoldsItsRows(store, at, t, rows, [!left] + sub)
  {
    SideMates(rows, t, left, sub);
    assert ([!left] + sub)[1..] == sub;
  }

  /** A listed leaf is listed below one of the sides. */
  lemma {:induction false} LeafSide<V>(t: Tree<Split, V>, leaf: seq<bool>) returns (left: bool, sub: seq<bool>)
    requires t.Branch? && leaf in Leaves(t)
    ensures leaf == [!left] + sub && sub in Leaves(if left then t.left else t.right)
  {
    var k :| 0 <= k < |Leaves(t)| && Leaves(t)[k] == leaf;
    left := k < |Leaves(t.left)|;
    sub := if left then Leaves(t.left)[k] else Leaves(t.right)[k - |Leaves(t.left)|];
  }

  lemma {:induction false} UnsplitHoldsItsRows(u: Setup, store: Store<Content, Target>, at: Path, c: Content)
    requires SetupOk(u) && Wide(c.rows, u.features) && c.rows != [] && RulesOk(RulesOf(u))
    requires Mirrors(RulesOf(u), store, at, c) && !Expands(RulesOf(u), c)
    ensures HoldsItsRows(store, at, DepthFirst(u, c), c.rows, [])
  {
    FilterAll(c.rows, SameLeaf(DepthFirst(u, c), []));
  }

  lemma {:induction false} LeafHoldsItsRows(u: Setup, store: Store<Content, Target>, at: Path, c: Content,
      leaf: seq<bool>)
    requires SetupOk(u) && Wide(c.rows, u.features) && c.rows != [] && RulesOk(RulesOf(u))
    requires Mirrors(RulesOf(u), store, at, c) && leaf in Leaves(DepthFirst(u, c))
    ensures HoldsItsRows(store, at, DepthFirst(u, c), c.rows, leaf)
    decreases |c.rows|
  {
    var t := DepthFirst(u, c);
    if Expands(RulesOf(u), c) {
      SplitShrinks(u, c);
      var left, sub := LeafSide(t, leaf);
      LeafHoldsItsRows(u, store, Turn(at, !left), if left then LeftOf(u, c) else RightOf(u, c), sub);
      SideHoldsItsRows(store, at, t, c.rows, left, sub);
    } else {
      UnsplitHoldsItsRows(u, store, at, c);
    }
  }

  /** A tree built best first: its leaves hold exactly the rows routed to them, and partition the training rows. */
  lemma {:induction false} BuiltLeavesPartition(u: Setup, store: Store<Content, Target>, rows: seq<Row>)
    requires SetupOk(u) && Wide(rows, u.features) && rows != [] && IsTreeOf(u, store, rows)
    ensures var t := DepthFirst(u, Content(rows, 0));
      && Represents(RulesOf(u), store, Root, t)
      && (forall leaf | leaf in Leaves(t) :: HoldsItsRows(store, Root, t, rows, leaf))
      && Gathered(LeafKey(t), rows, Leaves(t)) == multiset(rows)
  {
    var t := DepthFirst(u, Content(rows, 0));
    forall leaf | leaf in Leaves(t) ensures HoldsItsRows(store, Root, t, rows, leaf) {
      LeafHoldsItsRows(u, store, Root, Content(rows, 0), leaf);
    }
    LeavesPartition(t, rows);
  }
}
