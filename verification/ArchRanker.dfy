/** Ranking designs by pairwise predictions, and searching the ranking for a threshold
    (baseline/archranker/archranker.py). */
module ArchRanker {
  import opened Sorting

  // ---------------------------------------------------------------- the rank list

  /** The model's answer to "is design i smaller than design j"; nothing is assumed about it. */
  type Prediction = (nat, nat) -> bool

  /** Neighbours agree with the answer given when the later-numbered of the two was inserted: it was found
      smaller than its right neighbour, and not smaller than its left one. */
  ghost predicate Agrees(rank: seq<nat>, smaller: Prediction) {
    forall i, j {:trigger rank[i], rank[j]} | 0 <= i < |rank| && j == i + 1 < |rank| ::
      if rank[i] > rank[j] then smaller(rank[i], rank[j]) else !smaller(rank[j], rank[i])
  }

  /** `list.index`. */
  method IndexOf(rank: seq<nat>, x: nat) returns (i: nat)
    requires x in rank
    ensures i < |rank| && rank[i] == x && x !in rank[..i]
  {
    i := 0;
    while rank[i] != x
      invariant i < |rank| && x !in rank[..i]
      decreases |rank| - i
    {
      i := i + 1;
    }
  }

  function InsertAt(rank: seq<nat>, at: nat, x: nat): seq<nat>
    requires at <= |rank|
  {
    rank[..at] + [x] + rank[at..]
  }

  /** The first position whose element the new design is smaller than, or the end. */
  ghost predicate IsPlace(rank: seq<nat>, smaller: Prediction, x: nat, at: nat) {
    && at <= |rank| && (at < |rank| ==> smaller(x, rank[at]))
    && forall k | 0 <= k < at :: !smaller(x, rank[k])
  }

  lemma {:induction false} InsertAgrees(rank: seq<nat>, smaller: Prediction, x: nat, at: nat)
    requires Agrees(rank, smaller) && IsPlace(rank, smaller, x, at) && forall k | 0 <= k < |rank| :: rank[k] < x
    ensures Agrees(InsertAt(rank, at, x), smaller)
  {
  }

  /** For any predictions, even intransitive ones, insertion lists every design once, and every pair of
      neighbours agrees with the predictions. */
  method RankDesigns(n: nat, smaller: Prediction) returns (rank: seq<nat>)
    ensures |rank| == n && NoRepeats(rank) && (forall k: nat :: k in rank <==> k < n)
    ensures Agrees(rank, smaller)
  {
    rank := [];
    for i := 0 to n
      invariant |rank| == i && NoRepeats(rank) && (forall k: nat :: k in rank <==> k < i)
      invariant Agrees(rank, smaller)
    {
      var at := 0;
      while at < |rank| && !smaller(i, rank[at])
        invariant at <= |rank| && forall k | 0 <= k < at :: !smaller(i, rank[k])
      {
        at := at + 1;
      }
      assert forall k | 0 <= k < |rank| :: rank[k] < i by {
        assert forall k | 0 <= k < |rank| :: rank[k] in rank;
      }
      InsertAgrees(rank, smaller, i, at);
      if at < |rank| {
        var j := rank[at];
        var p := IndexOf(rank, j);
        SamePlace(rank, p, at);
        InsertContents(rank, at, i);
        rank := InsertAt(rank, p, i);
      } else {
        InsertContents(rank, at, i);
        assert rank + [i] == InsertAt(rank, at, i);
        rank := rank + [i];
      }
    }
  }

  lemma {:induction false} SamePlace(rank: seq<nat>, p: nat, q: nat)
    requires NoRepeats(rank) && p < |rank| && q < |rank| && rank[p] == rank[q]
    ensures p == q
  {
  }

  lemma {:induction false} InsertContents(rank: seq<nat>, at: nat, x: nat)
    requires NoRepeats(rank) && at <= |rank| && (forall k: nat :: k in rank <==> k < x)
    ensures NoRepeats(InsertAt(rank, at, x)) && forall k: nat :: k in InsertAt(rank, at, x) <==> k < x + 1
  {
    var r := InsertAt(rank, at, x);
    assert rank == rank[..at] + rank[at..];
    assert forall k: nat :: k in r <==> k in rank || k == x;
    InsertOnce(rank, at, x);
  }

  lemma {:induction false} InsertOnce(rank: seq<nat>, at: nat, x: nat)
    requires NoRepeats(rank) && at <= |rank| && x !in rank
    ensures NoRepeats(InsertAt(rank, at, x))
  {
    var r := InsertAt(rank, at, x);
    forall i, j | 0 <= i < j < |r| ensures r[i] != r[j] {
      assert r[i] == if i < at then rank[i] else if i == at then x else rank[i - 1];
      assert r[j] == if j < at then rank[j] else if j == at then x else rank[j - 1];
    }
  }

  /** Any two designs compare, and comparisons chain; a design is never compared with itself. */
  ghost predicate TotalPreorder(smaller: Prediction, n: nat) {
    && (forall i: nat, j: nat | i < n && j < n && i != j :: smaller(i, j) || smaller(j, i))
    && (forall i: nat, j: nat, k: nat {:trigger smaller(i, j), smaller(j, k)} |
         i < n && j < n && k < n && smaller(i, j) && smaller(j, k) :: smaller(i, k))
  }

  /** If the predictions are a total preorder, agreement of neighbours sorts the whole list. */
  lemma {:induction false} AgreesSorts(rank: seq<nat>, smaller: Prediction, n: nat, i: nat, j: nat)
    requires Agrees(rank, smaller) && TotalPreorder(smaller, n)
    requires NoRepeats(rank) && (forall k | 0 <= k < |rank| :: rank[k] < n) && i < j < |rank|
    ensures smaller(rank[i], rank[j])
    decreases j - i
  {
    assert smaller(rank[j - 1], rank[j]) by {
      assert if rank[j - 1] > rank[j] then smaller(rank[j - 1], rank[j]) else !smaller(rank[j], rank[j - 1]);
    }
    if i < j - 1 {
      AgreesSorts(rank, smaller, n, i, j - 1);
    }
  }

  // ---------------------------------------------------------------- threshold searches

  /** What a search returns: nothing for an empty list, a single design, or a slice of the list. */
  datatype Found = Nothing | One(design: nat) | Slice(designs: seq<nat>)

  function Pow2(n: nat): (p: nat)
    ensures p >= 1
  {
    if n == 0 then 1 else 2 * Pow2(n - 1)
  }

  lemma {:induction false} Halves(n: nat, a: nat, b: nat)
    requires 2 * a <= b
    ensures Pow2(n + 1) * a <= Pow2(n) * b
  {
  }

  lemma {:induction false} MulMonotone(p: nat, a: nat, b: nat)
    requires a <= b
    ensures p * a <= p * b
  {
  }

  /** The metric never falls along the list. */
  ghost predicate Rises(rank: seq<nat>, metric: nat -> real) {
    forall i, j | 0 <= i < j < |rank| :: metric(rank[i]) <= metric(rank[j])
  }

  /** The simulated designs come from the list, and exactly the last one before a slice is returned meets the
      threshold. */
  ghost predicate Probed(seen: seq<nat>, rank: seq<nat>, r: Found, meets: nat -> bool) {
    && (r.Slice? ==> seen != [])
    && forall k | 0 <= k < |seen| :: seen[k] in rank && (meets(seen[k]) <==> r.Slice? && k == |seen| - 1)
  }

  /** What the search from the left promises. On a non-empty list it returns after at most log2(n + 1) - 1 simulations.
      A single design was never simulated. Along a rising metric every design of a returned prefix meets the
      threshold, and none beyond twice its length does. */
  ghost predicate IsPrefixFound(rank: seq<nat>, metric: nat -> real, threshold: real, r: Found, seen: seq<nat>) {
    && (r.Nothing? <==> rank == [])
    && (rank != [] ==> Pow2(|seen| + 1) <= |rank| + 1 && Pow2(|seen|) <= |rank|)
    && Probed(seen, rank, r, (d: nat) => metric(d) <= threshold)
    && (r.One? ==> rank != [] && r.design == rank[0] && (NoRepeats(rank) ==> r.design !in seen))
    && (r.Slice? ==>
          && 2 <= |r.designs| <= |rank| && r.designs == rank[..|r.designs|]
          && seen[|seen| - 1] == r.designs[|r.designs| - 1])
    && (Rises(rank, metric) ==>
          && (r.Slice? ==> forall d | d in r.designs :: metric(d) <= threshold)
          && forall k | (if r.Slice? then 2 * |r.designs| else 2) <= k < |rank| :: metric(rank[k]) > threshold)
  }

  /** The state of that search: everything simulated missed, and so does the design just beyond the right end. */
  ghost predicate Narrowed(rank: seq<nat>, metric: nat -> real, threshold: real, high: int, seen: seq<nat>) {
    && -1 <= high < |rank| && (high == -1 <==> rank == [])
    && (rank != [] ==> Pow2(|seen|) * (high + 2) <= |rank| + 1)
    && Probed(seen, rank, Nothing, (d: nat) => metric(d) <= threshold)
    && (high == |rank| - 1 || metric(rank[high + 1]) > threshold)
    && (NoRepeats(rank) && rank != [] ==> rank[0] !in seen)
  }

  lemma {:induction false} OneMiss(rank: seq<nat>, metric: nat -> real, threshold: real, high: int, seen: seq<nat>)
    requires Narrowed(rank, metric, threshold, high, seen) && high >= 2 && metric(rank[high / 2]) > threshold
    ensures Narrowed(rank, metric, threshold, high / 2 - 1, seen + [rank[high / 2]])
  {
    Halves(|seen|, high / 2 + 1, high + 2);
  }

  lemma {:induction false} FirstHit(rank: seq<nat>, metric: nat -> real, threshold: real, high: int, seen: seq<nat>)
    requires Narrowed(rank, metric, threshold, high, seen) && high >= 2 && metric(rank[high / 2]) <= threshold
    ensures IsPrefixFound(rank, metric, threshold, Slice(rank[..high / 2 + 1]), seen + [rank[high / 2]])
  {
    Halves(|seen|, high / 2 + 1, high + 2);
    Halves(|seen| + 1, 1, high / 2 + 1);
  }

  lemma {:induction false} NothingSmaller(rank: seq<nat>, metric: nat -> real, threshold: real, high: int,
      seen: seq<nat>)
    requires Narrowed(rank, metric, threshold, high, seen) && 0 <= high <= 1
    ensures IsPrefixFound(rank, metric, threshold, One(rank[0]), seen)
  {
    Halves(|seen|, 1, high + 2);
  }

  /** What the search towards the right end promises. On a non-empty list it returns after at most log2(n) simulations.
      A single design was never simulated. Along a rising metric every design of a returned suffix meets the
      threshold, and none before twice its length does. */
  ghost predicate IsSuffixFound(rank: seq<nat>, metric: nat -> real, threshold: real, r: Found, seen: seq<nat>) {
    && (r.Nothing? <==> rank == [])
    && (rank != [] ==> Pow2(|seen|) <= |rank|)
    && Probed(seen, rank, r, (d: nat) => metric(d) >= threshold)
    && (r.One? ==> rank != [] && r.design == rank[|rank| - 1] && (NoRepeats(rank) ==> r.design !in seen))
    && (r.Slice? ==>
          && 2 <= |r.designs| <= |rank| && r.designs == rank[|rank| - |r.designs|..]
          && seen[|seen| - 1] == r.designs[0])
    && (Rises(rank, metric) ==>
          && (r.Slice? ==> forall d | d in r.designs :: metric(d) >= threshold)
          && forall k | 0 <= k < |rank| - (if r.Slice? then 2 * |r.designs| else 1) :: metric(rank[k]) < threshold)
  }

  /** The state of that search: everything simulated missed, and so does the design just before the left end. */
  ghost predicate NarrowedRight(rank: seq<nat>, metric: nat -> real, threshold: real, low: nat, seen: seq<nat>) {
    && low <= |rank| && (low == |rank| <==> rank == [])
    && (rank != [] ==> Pow2(|seen|) * (|rank| - low) <= |rank|)
    && Probed(seen, rank, Nothing, (d: nat) => metric(d) >= threshold)
    && (low == 0 || metric(rank[low - 1]) < threshold)
    && (NoRepeats(rank) && rank != [] ==> rank[|rank| - 1] !in seen)
  }

  lemma {:induction false} OneMissRight(rank: seq<nat>, metric: nat -> real, threshold: real, low: nat, seen: seq<nat>)
    requires NarrowedRight(rank, metric, threshold, low, seen) && low + 2 <= |rank|
    requires metric(rank[(|rank| - 1 + low) / 2]) < threshold
    ensures var mid := (|rank| - 1 + low) / 2;
      NarrowedRight(rank, metric, threshold, mid + 1, seen + [rank[mid]])
  {
    Halves(|seen|, |rank| - 1 - (|rank| - 1 + low) / 2, |rank| - low);
  }

  lemma {:induction false} FirstHitRight(rank: seq<nat>, metric: nat -> real, threshold: real, low: nat,
      seen: seq<nat>)
    requires NarrowedRight(rank, metric, threshold, low, seen) && low + 2 <= |rank|
    requires metric(rank[(|rank| - 1 + low) / 2]) >= threshold
    ensures var mid := (|rank| - 1 + low) / 2;
      IsSuffixFound(rank, metric, threshold, Slice(rank[mid..]), seen + [rank[mid]])
  {
    var mid := (|rank| - 1 + low) / 2;
    assert Pow2(|seen| + 1) <= |rank| by {
      Halves(|seen|, |rank| - 1 - mid, |rank| - low);
      MulMonotone(Pow2(|seen| + 1), 1, |rank| - 1 - mid);
    }
    SuffixMeets(rank, metric, threshold, low, mid);
  }

  lemma {:induction false} SuffixMeets(rank: seq<nat>, metric: nat -> real, threshold: real, low: nat, mid: nat)
    requires low <= mid < |rank| && metric(rank[mid]) >= threshold && |rank| - 2 * (|rank| - mid) <= low
    requires low == 0 || metric(rank[low - 1]) < threshold
    ensures Rises(rank, metric) ==>
      && (forall d | d in rank[mid..] :: metric(d) >= threshold)
      && forall k | 0 <= k < |rank| - 2 * (|rank| - mid) :: metric(rank[k]) < threshold
  {
    if Rises(rank, metric) {
      forall d | d in rank[mid..] ensures metric(d) >= threshold {
        var k :| mid <= k < |rank| && rank[k] == d;
      }
      forall k | 0 <= k < |rank| - 2 * (|rank| - mid) ensures metric(rank[k]) < threshold {
        assert k == low - 1 || metric(rank[k]) <= metric(rank[low - 1]);
      }
    }
  }

  lemma {:induction false} NothingLarger(rank: seq<nat>, metric: nat -> real, threshold: real, low: nat,
      seen: seq<nat>)
    requires NarrowedRight(rank, metric, threshold, low, seen) && low + 1 == |rank|
    ensures IsSuffixFound(rank, metric, threshold, One(rank[|rank| - 1]), seen)
  {
  }

  class Search {
    var simulationCount: nat
    var explored: seq<nat>

    constructor ()
      ensures simulationCount == 0 && explored == []
    {
      simulationCount, explored := 0, [];
    }

    /** Simulating a design is counted and remembered. */
    method Simulate(design: nat, metric: nat -> real) returns (value: real)
      modifies this
      ensures value == metric(design) && simulationCount == old(simulationCount) + 1
        && explored == old(explored) + [design]
    {
      simulationCount := simulationCount + 1;
      explored := explored + [design];
      value := metric(design);
    }

    /** Halving from the left: only the right end moves, so the first hit ends the search. */
    method ForPowerAndArea(rank: seq<nat>,
        metric: nat -> real, threshold: real) returns (r: Found, ghost seen: seq<nat>)
      modifies this
      ensures simulationCount == old(simulationCount) + |seen| && explored == old(explored) + seen
      ensures IsPrefixFound(rank, metric, threshold, r, seen)
    {
      var low, high, mid := 0, |rank| - 1, 0;
      seen := [];
      while low <= high
        invariant low == 0 && Narrowed(rank, metric, threshold, high, seen)
        invariant simulationCount == old(simulationCount) + |seen| && explored == old(explored) + seen
      {
        mid := (high + low) / 2;
        if mid == 0 {
          NothingSmaller(rank, metric, threshold, high, seen);
          return One(rank[mid]), seen;
        }
        var value := Simulate(rank[mid], metric);
        if value <= threshold {
          FirstHit(rank, metric, threshold, high, seen);
          return Slice(rank[..mid + 1]), seen + [rank[mid]];
        }
        OneMiss(rank, metric, threshold, high, seen);
        seen := seen + [rank[mid]];
        high := mid - 1;
      }
      return Nothing, seen;
    }

    /** Halving towards the right end, for a metric that should be large: only the left end moves. */
    method ForPerf(rank: seq<nat>, metric: nat -> real, threshold: real) returns (r: Found, ghost seen: seq<nat>)
      modifies this
      ensures simulationCount == old(simulationCount) + |seen| && explored == old(explored) + seen
      ensures IsSuffixFound(rank, metric, threshold, r, seen)
    {
      var low, high, mid := 0, |rank| - 1, 0;
      seen := [];
      while low <= high
        invariant high == |rank| - 1 && 0 <= low && NarrowedRight(rank, metric, threshold, low, seen)
        invariant simulationCount == old(simulationCount) + |seen| && explored == old(explored) + seen
        decreases high - low
      {
        mid := (high + low) / 2;
        if mid == high {
          NothingLarger(rank, metric, threshold, low, seen);
          return One(rank[mid]), seen;
        }
        var value := Simulate(rank[mid], metric);
        if value < threshold {
          OneMissRight(rank, metric, threshold, low, seen);
          seen := seen + [rank[mid]];
          low := mid + 1;
        } else {
          FirstHitRight(rank, metric, threshold, low, seen);
          return Slice(rank[mid..]), seen + [rank[mid]];
        }
      }
      return Nothing, seen;
    }
  }
}
