/** The weak ranker: one pass of running sums for each feature finds the best decision stump
    (baseline/archranker/rankboost.py). */
module Stump {
  import opened Trace
  import opened Sorting

  datatype Rule = Rule(feature: nat, value: real, above: bool)

  /** `predict` on one sample. */
  predicate Marks(r: Rule, x: seq<real>)
    requires r.feature < |x|
  {
    if r.above then x[r.feature] > r.value else x[r.feature] <= r.value
  }

  type Samples = seq<seq<real>>

  ghost predicate Wide(xs: Samples, features: nat) { forall k | 0 <= k < |xs| :: |xs[k]| == features }

  /** Weights of the samples from index `positives` on count negatively. */
  function Signed(weights: seq<real>, positives: nat): (r: seq<real>)
    ensures |r| == |weights| && forall k | 0 <= k < |r| :: r[k] == if k < positives then weights[k] else -weights[k]
  {
    seq(|weights|, k requires 0 <= k < |weights| => if k < positives then weights[k] else -weights[k])
  }

  /** Sum of the weights of the listed samples that a test selects. */
  function SumIf(order: seq<nat>, weights: seq<real>, test: nat -> bool): real
    requires forall k | 0 <= k < |order| :: order[k] < |weights|
  {
    if order == [] then 0.0
    else SumIf(order[..|order| - 1], weights, test) + if test(order[|order| - 1]) then weights[order[|order| - 1]]
      else 0.0
  }

  function Identity(n: nat): (r: seq<nat>)
    ensures |r| == n && forall k | 0 <= k < n :: r[k] == k
  {
    seq(n, k => k)
  }

  function Test(xs: Samples, r: Rule): nat -> bool {
    (k: nat) => k < |xs| && r.feature < |xs[k]| && Marks(r, xs[k])
  }

  /** What the stump is chosen to maximise: the signed weight of the samples it marks. */
  function Gain(xs: Samples, weights: seq<real>, r: Rule): real
    requires |weights| == |xs|
  {
    SumIf(Identity(|xs|), weights, Test(xs, r))
  }

  /** Sample indices in rising order of a feature. */
  ghost predicate IsArgsort(xs: Samples, f: nat, order: seq<nat>)
    requires forall k | 0 <= k < |xs| :: f < |xs[k]|
  {
    && multiset(order) == multiset(Identity(|xs|))
    && (forall k | 0 <= k < |order| :: order[k] < |xs|)
    && forall i, j | 0 <= i < j < |order| :: xs[order[i]][f] <= xs[order[j]][f]
  }

  // ---------------------------------------------------------------- sums do not depend on the order

  lemma {:induction false} SumIfAppend(a: seq<nat>, b: seq<nat>, weights: seq<real>, test: nat -> bool)
    requires (forall k | 0 <= k < |a| :: a[k] < |weights|) && (forall k | 0 <= k < |b| :: b[k] < |weights|)
    ensures SumIf(a + b, weights, test) == SumIf(a, weights, test) + SumIf(b, weights, test)
    decreases |b|
  {
    if b == [] {
      assert a + b == a;
    } else {
      assert (a + b)[..|a + b| - 1] == a + b[..|b| - 1];
      SumIfAppend(a, b[..|b| - 1], weights, test);
    }
  }

  lemma {:induction false} Removed(init: seq<nat>, front: seq<nat>, back: seq<nat>, x: nat)
    requires multiset(init + [x]) == multiset(front + [x] + back)
    ensures multiset(init) == multiset(front + back)
  {
    assert multiset(front + [x] + back) == multiset(front + back) + multiset{x};
    assert multiset(init) == multiset(init + [x]) - multiset{x};
  }

  lemma {:induction false} SumIfPermutes(a: seq<nat>, b: seq<nat>, weights: seq<real>, test: nat -> bool)
    requires multiset(a) == multiset(b)
    requires (forall k | 0 <= k < |a| :: a[k] < |weights|) && (forall k | 0 <= k < |b| :: b[k] < |weights|)
    ensures SumIf(a, weights, test) == SumIf(b, weights, test)
    decreases |a|
  {
    SameElements(a, b);
    if a != [] {
      var init, x := a[..|a| - 1], a[|a| - 1];
      assert a == init + [x];
      assert x in b;
      var p :| 0 <= p < |b| && b[p] == x;
      var front, back := b[..p], b[p + 1..];
      assert b == front + [x] + back;
      Removed(init, front, back, x);
      SumIfPermutes(init, front + back, weights, test);
      SumIfInserted(front, back, x, weights, test);
      SumIfAppend(init, [x], weights, test);
    }
  }

  lemma {:induction false} SumIfInserted(front: seq<nat>, back: seq<nat>, x: nat, weights: seq<real>, test: nat -> bool)
    requires (forall k | 0 <= k < |front| :: front[k] < |weights|) && (forall k | 0 <= k < |back| ::
      back[k] < |weights|)
    requires x < |weights|
    ensures SumIf(front + [x] + back, weights, test) == SumIf(front + back, weights, test) + SumIf([x], weights, test)
  {
    SumIfAppend(front, back, weights, test);
    SumIfAppend(front + [x], back, weights, test);
    SumIfAppend(front, [x], weights, test);
  }

  lemma {:induction false} SumIfSame(a: seq<nat>, weights: seq<real>, s: nat -> bool, t: nat -> bool)
    requires (forall k | 0 <= k < |a| :: a[k] < |weights|) && (forall k | 0 <= k < |a| :: s(a[k]) == t(a[k]))
    ensures SumIf(a, weights, s) == SumIf(a, weights, t)
  {
    if a != [] { SumIfSame(a[..|a| - 1], weights, s, t); }
  }

  // ---------------------------------------------------------------- running sums are gains

  function Everything(): nat -> bool { _ => true }
  function Nothing(): nat -> bool { _ => false }

  /** Sum of the first k weights in the given order. */
  function Running(order: seq<nat>, weights: seq<real>, k: nat): real
    requires k <= |order| && forall j | 0 <= j < |order| :: order[j] < |weights|
  {
    SumIf(order[..k], weights, Everything())
  }

  lemma {:induction false} NothingSums(a: seq<nat>, weights: seq<real>)
    requires forall k | 0 <= k < |a| :: a[k] < |weights|
    ensures SumIf(a, weights, Nothing()) == 0.0
  {
    if a != [] { NothingSums(a[..|a| - 1], weights); }
  }

  /** A test that selects exactly the first k of an order sums to the running sum; its complement to the rest. */
  lemma {:induction false} PrefixSum(order: seq<nat>, weights: seq<real>, k: nat, test: nat -> bool, first: bool)
    requires k <= |order| && forall j | 0 <= j < |order| :: order[j] < |weights|
    requires forall j | 0 <= j < |order| :: test(order[j]) == ((j < k) == first)
    ensures SumIf(order, weights, test)
      == if first then Running(order, weights, k) else Running(order, weights, |order|) - Running(order, weights, k)
  {
    var front, back := order[..k], order[k..];
    assert order == front + back && order[..|order|] == order;
    SumIfAppend(front, back, weights, test);
    SumIfAppend(front, back, weights, Everything());
    NothingSums(front, weights);
    NothingSums(back, weights);
    SumIfSame(front, weights, test, if first then Everything() else Nothing());
    SumIfSame(back, weights, test, if first then Nothing() else Everything());
  }

  /** A value that separates the samples: the first k in order are at most `value`, the others above it. */
  ghost predicate Cuts(xs: Samples, f: nat, order: seq<nat>, k: nat, value: real)
    requires (forall j | 0 <= j < |xs| :: f < |xs[j]|) && forall j | 0 <= j < |order| :: order[j] < |xs|
  {
    0 < k < |order| && xs[order[k - 1]][f] <= value < xs[order[k]][f]
  }

  /** At a cut, the two directions gain the running sum and what is left of the total. */
  lemma {:induction false} CutGain(xs: Samples, f: nat, order: seq<nat>, weights: seq<real>, k: nat, value: real,
      above: bool)
    requires |weights| == |xs|
      && (forall j | 0 <= j < |xs| :: f < |xs[j]|) && IsArgsort(xs, f, order) && Cuts(xs, f, order, k, value)
    ensures Gain(xs, weights, Rule(f, value, above))
      == if above then Running(order, weights, |order|) - Running(order, weights, k) else Running(order, weights, k)
  {
    var r := Rule(f, value, above);
    SumIfPermutes(Identity(|xs|), order, weights, Test(xs, r));
    forall j | 0 <= j < |order| ensures Test(xs, r)(order[j]) == ((j < k) == !above) {
      assert j < k - 1 ==> xs[order[j]][f] <= xs[order[k - 1]][f];
      assert j > k ==> xs[order[k]][f] <= xs[order[j]][f];
    }
    PrefixSum(order, weights, k, Test(xs, r), !above);
  }

  /** A value with samples on both sides cuts the order somewhere. */
  lemma {:induction false} ProperCuts(xs: Samples, f: nat, order: seq<nat>, value: real, k: nat) returns (at: nat)
    requires (forall j | 0 <= j < |xs| :: f < |xs[j]|) && IsArgsort(xs, f, order)
    requires k < |order| && xs[order[0]][f] <= value && xs[order[|order| - 1]][f] > value
    requires xs[order[k]][f] <= value
    ensures Cuts(xs, f, order, at, value)
    decreases |order| - k
  {
    if xs[order[k + 1]][f] <= value {
      at := ProperCuts(xs, f, order, value, k + 1);
    } else {
      at := k + 1;
    }
  }

  /** A threshold with samples on both sides. */
  ghost predicate Separates(xs: Samples, f: nat, value: real)
    requires forall j | 0 <= j < |xs| :: f < |xs[j]|
  {
    (exists i | 0 <= i < |xs| :: xs[i][f] <= value) && (exists i | 0 <= i < |xs| :: xs[i][f] > value)
  }

  /** A boundary between values: sample i holds a value that another sample exceeds. */
  ghost predicate Boundary(xs: Samples, f: nat, i: nat)
    requires i < |xs| && forall j | 0 <= j < |xs| :: f < |xs[j]|
  {
    exists j | 0 <= j < |xs| :: xs[j][f] > xs[i][f]
  }

  // ---------------------------------------------------------------- the search

  /** Every boundary among the first n positions of an order gains at most `bound`, in both directions. */
  ghost predicate Scanned(xs: Samples, f: nat, order: seq<nat>, weights: seq<real>, n: nat, bound: real)
    requires |weights| == |xs|
      && (forall j | 0 <= j < |xs| :: f < |xs[j]|) && forall j | 0 <= j < |order| :: order[j] < |xs|
  {
    forall k: nat {:trigger Running(order, weights, k)} | 0 < k <= n && k < |order|
      && xs[order[k - 1]][f] != xs[order[k]][f] ::
      Running(order, weights, k) <= bound && Running(order, weights, |order|) - Running(order, weights, k) <= bound
  }

  /** A scanned feature offers no better threshold of any value. */
  lemma {:induction false} ScannedBounds(xs: Samples, f: nat, order: seq<nat>, weights: seq<real>, bound: real,
      value: real, above: bool)
    requires |weights| == |xs| && (forall j | 0 <= j < |xs| :: f < |xs[j]|) && IsArgsort(xs, f, order)
    requires Scanned(xs, f, order, weights, |order|, bound) && Separates(xs, f, value)
    ensures Gain(xs, weights, Rule(f, value, above)) <= bound
  {
    SameElements(order, Identity(|xs|));
    var i :| 0 <= i < |xs| && xs[i][f] <= value;
    var j :| 0 <= j < |xs| && xs[j][f] > value;
    assert Identity(|xs|)[i] == i && Identity(|xs|)[j] == j;
    assert i in order && j in order;
    var p :| 0 <= p < |order| && order[p] == i;
    var q :| 0 <= q < |order| && order[q] == j;
    assert xs[order[0]][f] <= xs[order[p]][f] && xs[order[q]][f] <= xs[order[|order| - 1]][f];
    var k := ProperCuts(xs, f, order, value, 0);
    CutGain(xs, f, order, weights, k, value, above);
  }

  /** The stump attains its value: positive, the gain of its own rule, its threshold a boundary between samples. */
  ghost predicate Attains(xs: Samples, weights: seq<real>, stump: Option<Rule>, maxVal: real, features: nat)
    requires |weights| == |xs| && Wide(xs, features)
  {
    match stump
    case None => maxVal == 0.0
    case Some(r) =>
      && r.feature < features && maxVal > 0.0 && Gain(xs, weights, r) == maxVal
      && exists i: nat | i < |xs| && Boundary(xs, r.feature, i) :: xs[i][r.feature] == r.value
  }

  /** What `fit` returns: an attained value that no threshold with samples on both sides beats, whatever the
      feature and direction. */
  ghost predicate IsFitted(xs: Samples, weights: seq<real>, features: nat, stump: Option<Rule>, maxVal: real)
    requires |weights| == |xs| && Wide(xs, features)
  {
    && Attains(xs, weights, stump, maxVal, features)
    && forall f: nat, value: real, above: bool {:trigger Rule(f, value, above)} | f < features
      && Separates(xs, f, value) ::
      Gain(xs, weights, Rule(f, value, above)) <= maxVal
  }

  lemma {:induction false} ScannedMore(xs: Samples, f: nat, order: seq<nat>, weights: seq<real>, n: nat, bound: real,
      more: real)
    requires |weights| == |xs|
      && (forall j | 0 <= j < |xs| :: f < |xs[j]|) && forall j | 0 <= j < |order| :: order[j] < |xs|
    requires Scanned(xs, f, order, weights, n, bound) && bound <= more && n + 1 < |order|
    requires xs[order[n]][f] != xs[order[n + 1]][f] ==>
      Running(order, weights, n + 1) <= more
        && Running(order, weights, |order|) - Running(order, weights, n + 1) <= more
    ensures Scanned(xs, f, order, weights, n + 1, more)
  {
  }

  /** A boundary: try both directions. */
  method TryCut(xs: Samples, f: nat, ghost order: seq<nat>, ghost weights: seq<real>, ghost n: nat, value: real,
      val: real, total: real, ghost features: nat, stump0: Option<Rule>, max0: real)
    returns (stump: Option<Rule>, maxVal: real)
    requires |weights| == |xs| && f < features && Wide(xs, features) && IsArgsort(xs, f, order)
      && Cuts(xs, f, order, n, value) && value == xs[order[n - 1]][f]
    requires val == Running(order, weights, n) && total == Running(order, weights, |order|)
    requires Attains(xs, weights, stump0, max0, features)
    ensures Attains(xs, weights, stump, maxVal, features) && max0 <= maxVal && val <= maxVal && total - val <= maxVal
  {
    CutGain(xs, f, order, weights, n, value, false);
    CutGain(xs, f, order, weights, n, value, true);
    assert Boundary(xs, f, order[n - 1]);
    stump, maxVal := stump0, max0;
    if val > maxVal {
      stump, maxVal := Some(Rule(f, value, false)), val;
    }
    if total - val > maxVal {
      stump, maxVal := Some(Rule(f, value, true)), total - val;
    }
  }

  /** One feature: the running sum at each boundary between different values. */
  method ScanFeature(xs: Samples, f: nat, order: seq<nat>, weights: seq<real>, total: real, features: nat,
                     stump0: Option<Rule>, max0: real)
    returns (stump: Option<Rule>, maxVal: real)
    requires |weights| == |xs| && f < features && Wide(xs, features) && IsArgsort(xs, f, order)
    requires total == Running(order, weights, |order|)
    requires Attains(xs, weights, stump0, max0, features)
    ensures Attains(xs, weights, stump, maxVal, features) && max0 <= maxVal
    ensures Scanned(xs, f, order, weights, |order|, maxVal)
  {
    stump, maxVal := stump0, max0;
    var val := 0.0;
    var n := 0;
    while n + 1 < |order|
      invariant n <= |order| && (order != [] ==> n < |order|) && val == Running(order, weights, n)
      invariant Attains(xs, weights, stump, maxVal, features) && max0 <= maxVal
      invariant Scanned(xs, f, order, weights, n, maxVal)
    {
      assert order[..n + 1][..n] == order[..n];
      val := val + weights[order[n]];
      ghost var before := maxVal;
      if xs[order[n]][f] != xs[order[n + 1]][f] {
        stump, maxVal := TryCut(xs, f, order, weights, n + 1, xs[order[n]][f], val, total, features, stump, maxVal);
      }
      ScannedMore(xs, f, order, weights, n, before, maxVal);
      n := n + 1;
    }
  }

  ghost predicate ScannedUpTo(xs: Samples, weights: seq<real>, features: nat, argsort: nat -> seq<nat>, n: nat,
      bound: real)
    requires |weights| == |xs| && Wide(xs, features) && n <= features
    requires forall f: nat | f < features :: IsArgsort(xs, f, argsort(f))
  {
    forall g: nat | g < n ::
      IsArgsort(xs, g, argsort(g)) && Scanned(xs, g, argsort(g), weights, |argsort(g)|, bound)
  }

  lemma {:induction false} ScannedOneMore(xs: Samples, weights: seq<real>, features: nat, argsort: nat -> seq<nat>,
      n: nat, bound: real, more: real)
    requires |weights| == |xs| && Wide(xs, features) && n < features && bound <= more
    requires forall f: nat | f < features :: IsArgsort(xs, f, argsort(f))
    requires ScannedUpTo(xs, weights, features, argsort, n, bound)
    requires Scanned(xs, n, argsort(n), weights, |argsort(n)|, more)
    ensures ScannedUpTo(xs, weights, features, argsort, n + 1, more)
  {
    forall g: nat | g < n ensures Scanned(xs, g, argsort(g), weights, |argsort(g)|, more) {
      assert Scanned(xs, g, argsort(g), weights, |argsort(g)|, bound);
    }
  }

  lemma {:induction false} AllScanned(xs: Samples, weights: seq<real>, features: nat, argsort: nat -> seq<nat>,
      stump: Option<Rule>, maxVal: real)
    requires |weights| == |xs| && Wide(xs, features) && Attains(xs, weights, stump, maxVal, features)
    requires forall f: nat | f < features :: IsArgsort(xs, f, argsort(f))
    requires ScannedUpTo(xs, weights, features, argsort, features, maxVal)
    ensures IsFitted(xs, weights, features, stump, maxVal)
  {
    forall f: nat, value: real, above: bool | f < features && Separates(xs, f, value)
      ensures Gain(xs, weights, Rule(f, value, above)) <= maxVal
    {
      ScannedBounds(xs, f, argsort(f), weights, maxVal, value, above);
    }
  }

  /** `fit`: the stump's value is the signed weight of the samples it marks, its threshold is
      a boundary between samples, and no other feature, threshold (of any real value with samples on both sides)
      or direction gives more. Without a positive split there is no stump. */
  method Fit(xs: Samples, weights: seq<real>, positives: nat, features: nat, argsort: nat -> seq<nat>)
    returns (stump: Option<Rule>, maxVal: real)
    requires |weights| == |xs| && Wide(xs, features)
    requires forall f: nat | f < features :: IsArgsort(xs, f, argsort(f))
    ensures IsFitted(xs, Signed(weights, positives), features, stump, maxVal)
  {
    var signed := Signed(weights, positives);
    var total := SumIf(Identity(|xs|), signed, Everything());
    stump, maxVal := None, 0.0;
    for f := 0 to features
      invariant Attains(xs, signed, stump, maxVal, features) && ScannedUpTo(xs, signed, features, argsort, f, maxVal)
    {
      var order := argsort(f);
      TotalAnyOrder(xs, f, order, signed);
      ghost var before := maxVal;
      stump, maxVal := ScanFeature(xs, f, order, signed, total, features, stump, maxVal);
      ScannedOneMore(xs, signed, features, argsort, f, before, maxVal);
    }
    AllScanned(xs, signed, features, argsort, stump, maxVal);
  }

  lemma {:induction false} TotalAnyOrder(xs: Samples, f: nat, order: seq<nat>, weights: seq<real>)
    requires |weights| == |xs| && (forall j | 0 <= j < |xs| :: f < |xs[j]|) && IsArgsort(xs, f, order)
    ensures SumIf(Identity(|xs|), weights, Everything()) == Running(order, weights, |order|)
  {
    SumIfPermutes(Identity(|xs|), order, weights, Everything());
    assert order[..|order|] == order;
  }

  /** What a rule and its reverse mark adds up to everything. */
  lemma {:induction false} DirectionsAddUp(xs: Samples, order: seq<nat>, weights: seq<real>, f: nat, value: real)
    requires |weights| == |xs| && (forall j | 0 <= j < |xs| :: f < |xs[j]|)
    requires forall k | 0 <= k < |order| :: order[k] < |xs|
    ensures SumIf(order, weights, Everything())
      == SumIf(order, weights, Test(xs, Rule(f, value, false))) + SumIf(order, weights, Test(xs, Rule(f, value, true)))
  {
    if order != [] { DirectionsAddUp(xs, order[..|order| - 1], weights, f, value); }
  }

  /** The stump is best over every threshold whatsoever, those that mark everything or nothing included. */
  ghost predicate BestOverall(xs: Samples, weights: seq<real>, features: nat, maxVal: real)
    requires |weights| == |xs|
  {
    forall f: nat, value: real, above: bool {:trigger Rule(f, value, above)} | f < features ::
      Gain(xs, weights, Rule(f, value, above)) <= maxVal
  }

  /** Some boundary and direction mark samples of no positive weight. */
  ghost predicate SomeNoGain(xs: Samples, weights: seq<real>, features: nat)
    requires |weights| == |xs| && Wide(xs, features)
  {
    exists f: nat, i: nat, above: bool | f < features && i < |xs| && Boundary(xs, f, i) ::
      Gain(xs, weights, Rule(f, xs[i][f], above)) <= 0.0
  }

  /** `fit` tries only thresholds with samples on both sides. What it returns is best over every threshold if and
      only if marking everything gains nothing, or some boundary leaves nothing to gain on one of its sides. */
  lemma {:induction false} BestOverallIff(xs: Samples, weights: seq<real>, features: nat, stump: Option<Rule>,
      maxVal: real)
    requires |weights| == |xs| && Wide(xs, features) && IsFitted(xs, weights, features, stump, maxVal)
    ensures BestOverall(xs, weights, features, maxVal)
      <==> features == 0 || SumIf(Identity(|xs|), weights, Everything()) <= 0.0 || SomeNoGain(xs, weights, features)
  {
    ReachesTotalIff(xs, weights, features, stump, maxVal);
    if features > 0 && xs != [] {
      BestIfReachesTotal(xs, weights, features, stump, maxVal);
      OneSided(xs, weights, 0, Greatest(xs, 0), false);
    }
  }

  lemma {:induction false} BestIfReachesTotal(xs: Samples, weights: seq<real>, features: nat, stump: Option<Rule>,
      maxVal: real)
    requires |weights| == |xs| && Wide(xs, features) && IsFitted(xs, weights, features, stump, maxVal)
    ensures SumIf(Identity(|xs|), weights, Everything()) <= maxVal ==> BestOverall(xs, weights, features, maxVal)
  {
    forall f: nat, value: real, above: bool | f < features && !Separates(xs, f, value)
      ensures Gain(xs, weights, Rule(f, value, above)) in {0.0, SumIf(Identity(|xs|), weights, Everything())}
    {
      OneSided(xs, weights, f, value, above);
    }
  }

  /** The value found reaches the total weight exactly when the reverse of some boundary rule gains nothing. */
  lemma {:induction false} ReachesTotalIff(xs: Samples, weights: seq<real>, features: nat, stump: Option<Rule>,
      maxVal: real)
    requires |weights| == |xs| && Wide(xs, features) && IsFitted(xs, weights, features, stump, maxVal)
    ensures SumIf(Identity(|xs|), weights, Everything()) <= maxVal
      <==> SumIf(Identity(|xs|), weights, Everything()) <= 0.0 || SomeNoGain(xs, weights, features)
  {
    if SomeNoGain(xs, weights, features) {
      var f: nat, i: nat, above: bool :| f < features && i < |xs| && Boundary(xs, f, i)
        && Gain(xs, weights, Rule(f, xs[i][f], above)) <= 0.0;
      DirectionsAddUp(xs, Identity(|xs|), weights, f, xs[i][f]);
      assert Gain(xs, weights, Rule(f, xs[i][f], !above)) <= maxVal;
    }
    if stump.Some? {
      var r := stump.value;
      DirectionsAddUp(xs, Identity(|xs|), weights, r.feature, r.value);
      assert r == Rule(r.feature, r.value, r.above);
      assert Gain(xs, weights, Rule(r.feature, r.value, !r.above))
        == SumIf(Identity(|xs|), weights, Everything()) - maxVal;
    }
  }

  /** A single positive sample: `fit` finds no stump, and marking that sample gains more. */
  lemma {:induction false} MarkingAllWins(stump: Option<Rule>, maxVal: real)
    requires IsFitted([[0.0]], Signed([1.0], 1), 1, stump, maxVal)
    ensures stump == None && maxVal == 0.0
    ensures Gain([[0.0]], Signed([1.0], 1), Rule(0, 0.0, false)) == 1.0
    ensures !BestOverall([[0.0]], Signed([1.0], 1), 1, maxVal)
  {
    assert Identity(1) == [0];
    assert Identity(1)[..0] == [];
  }

  lemma {:induction false} OneSided(xs: Samples, weights: seq<real>, f: nat, value: real, above: bool)
    requires |weights| == |xs| && (forall j | 0 <= j < |xs| :: f < |xs[j]|) && !Separates(xs, f, value)
    ensures var total := SumIf(Identity(|xs|), weights, Everything());
      var gain := Gain(xs, weights, Rule(f, value, above));
      gain == if (forall k | 0 <= k < |xs| :: xs[k][f] <= value) == !above then total else 0.0
  {
    var r := Rule(f, value, above);
    NothingSums(Identity(|xs|), weights);
    var all := (forall k | 0 <= k < |xs| :: xs[k][f] <= value) == !above;
    SumIfSame(Identity(|xs|), weights, Test(xs, r), if all then Everything() else Nothing());
  }

  ghost function Greatest(xs: Samples, f: nat): (v: real)
    requires xs != [] && forall j | 0 <= j < |xs| :: f < |xs[j]|
    ensures forall k | 0 <= k < |xs| :: xs[k][f] <= v
  {
    var init := xs[..|xs| - 1];
    if init == [] then xs[0][f]
    else
      var v := Greatest(init, f);
      if xs[|xs| - 1][f] > v then xs[|xs| - 1][f] else v
  }
}
