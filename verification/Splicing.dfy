/** Reaching source and sink: shortest paths, the links added where there is none, and optimality of the spliced
    path (algo/core/model.py, longest_path_impl). */
module Splicing {
  import opened Trace
  import opened Deg
  import opened LongestPath
  import opened Gains

  // ---------------------------------------------------------------- reaching along a chain

  lemma {:induction false} NextIsLeast(i: Inst, s: Stage, t: Stage)
    requires HasStage(i, s) && HasStage(i, t) && s != t && Rank(s) <= Rank(t)
    ensures s != Commit && Rank(Next(i, s)) <= Rank(t)
    ensures Rank(Next(i, s)) == Rank(t) ==> Next(i, s) == t
  {
  }

  /** Within one instruction every stage reaches every later one. */
  lemma {:induction false} ChainPath(edges: Edges, insts: seq<Inst>, seqNo: nat, s: Stage,
      t: Stage) returns (p: seq<Name>)
    requires ChainsOk(edges, insts) && OwnsName(insts, Name(seqNo, s)) && OwnsName(insts, Name(seqNo, t))
    requires Rank(s) <= Rank(t)
    ensures Joins(edges, p, Name(seqNo, s), Name(seqNo, t))
    decreases 9 - Rank(s)
  {
    if s == t {
      p := [Name(seqNo, s)];
    } else {
      var i := InstAt(insts, seqNo);
      NextIsLeast(i, s, t);
      var u := Next(i, s);
      assert Continues(edges, insts, Name(seqNo, s));
      var q := ChainPath(edges, insts, seqNo, u, t);
      p := [Name(seqNo, s)] + q;
    }
  }

  // ---------------------------------------------------------------- shortest paths between two nodes

  ghost predicate IsShortest(edges: Edges, r: seq<Name>, a: Name, b: Name) {
    Joins(edges, r, a, b) && forall p | Joins(edges, p, a, b) :: |r| <= |p|
  }

  ghost predicate Reaches(edges: Edges, a: Name, b: Name) { exists p :: Joins(edges, p, a, b) }

  ghost predicate StartsAt(edges: Edges, a: Name, p: seq<Name>) { IsPath(edges, p) && p[0] == a }

  type Reached = map<Name, seq<Name>>

  ghost predicate AllShortest(edges: Edges, a: Name, reached: Reached, d: nat) {
    forall n | n in reached :: IsShortest(edges, reached[n], a, n) && |reached[n]| <= d
  }

  /** Everything within d nodes of `a` is reached, each along a shortest path. */
  ghost predicate ReachedWithin(edges: Edges, a: Name, reached: Reached, d: nat) {
    && a in reached
    && AllShortest(edges, a, reached, d)
    && forall p | StartsAt(edges, a, p) && |p| <= d :: p[|p| - 1] in reached
  }

  /** The library's query: a shortest path, found level by level, and None only if there is no path. */
  method FindPath(nodes: Nodes, edges: Edges, a: Name, b: Name) returns (r: Option<seq<Name>>)
    requires EdgesOk(nodes, edges) && a in nodes
    ensures r.Some? ==> IsShortest(edges, r.value, a, b)
    ensures r.None? <==> !Reaches(edges, a, b)
  {
    var reached: Reached := map[a := [a]];
    ghost var d := 1;
    while exists k | k in edges.Keys :: k.0 in reached && k.1 !in reached
      invariant ReachedWithin(edges, a, reached, d) && reached.Keys <= nodes.Keys
      decreases nodes.Keys - reached.Keys
    {
      ghost var k :| k in edges.Keys && k.0 in reached && k.1 !in reached;
      assert EdgeOk(nodes, k, edges[k]) && k.1 in nodes.Keys - reached.Keys;
      reached := NextLevel(nodes, edges, a, reached, d);
      d := d + 1;
    }
    if b in reached {
      assert Joins(edges, reached[b], a, b);
      return Some(reached[b]);
    }
    forall p ensures !Joins(edges, p, a, b) {
      if Joins(edges, p, a, b) {
        StaysInside(edges, reached.Keys, p, |p| - 1);
      }
    }
    return None;
  }

  /** One level further: every edge out of the reached region is followed. */
  method NextLevel(nodes: Nodes, edges: Edges, a: Name, reached: Reached, ghost d: nat) returns (next: Reached)
    requires EdgesOk(nodes, edges) && ReachedWithin(edges, a, reached, d) && reached.Keys <= nodes.Keys && d > 0
    ensures ReachedWithin(edges, a, next, d + 1) && reached.Keys <= next.Keys <= nodes.Keys
    ensures forall k | k in edges && k.0 in reached :: k.1 in next
  {
    next := reached;
    var rest := set k | k in edges.Keys && k.0 in reached && k.1 !in reached;
    while rest != {}
      invariant forall k | k in rest :: k in edges && k.0 in reached && k.1 !in reached
      invariant forall k | k in edges && k.0 in reached :: k in rest || k.1 in next
      invariant reached.Keys <= next.Keys <= nodes.Keys
      invariant AllShortest(edges, a, next, d + 1)
    {
      var k :| k in rest;
      if k.1 !in next {
        OneFurther(nodes, edges, a, reached, d, k);
        next := next[k.1 := reached[k.0] + [k.1]];
      }
      rest := rest - {k};
    }
    LevelComplete(edges, a, reached, next, d);
  }

  lemma {:induction false} LevelComplete(edges: Edges, a: Name, reached: Reached, next: Reached, d: nat)
    requires ReachedWithin(edges, a, reached, d) && d > 0
    requires AllShortest(edges, a, next, d + 1) && reached.Keys <= next.Keys
    requires forall k | k in edges && k.0 in reached :: k.1 in next
    ensures ReachedWithin(edges, a, next, d + 1)
  {
    forall p | StartsAt(edges, a, p) && |p| <= d + 1 ensures p[|p| - 1] in next {
      if |p| == d + 1 {
        assert StartsAt(edges, a, p[..d]) && p[d - 1] in reached;
        assert (p[d - 1], p[d]) in edges;
      }
    }
  }

  lemma {:induction false} OneFurther(nodes: Nodes, edges: Edges, a: Name, reached: Reached, d: nat, k: (Name, Name))
    requires EdgesOk(nodes, edges) && ReachedWithin(edges, a, reached, d)
    requires k in edges && k.0 in reached && k.1 !in reached
    ensures k.1 in nodes && IsShortest(edges, reached[k.0] + [k.1], a, k.1) && |reached[k.0] + [k.1]| <= d + 1
  {
    assert EdgeOk(nodes, k, edges[k]) && k == (k.0, k.1);
    var r := reached[k.0] + [k.1];
    assert Joins(edges, r, a, k.1);
    forall p | Joins(edges, p, a, k.1) ensures |r| <= |p| {
      assert StartsAt(edges, a, p);
    }
  }

  lemma {:induction false} StaysInside(edges: Edges, region: set<Name>, p: seq<Name>, k: nat)
    requires forall e | e in edges && e.0 in region :: e.1 in region
    requires IsPath(edges, p) && p[0] in region && k < |p|
    ensures p[k] in region
  {
    if k > 0 {
      StaysInside(edges, region, p, k - 1);
      assert (p[k - 1], p[k]) in edges;
    }
  }

  // ---------------------------------------------------------------- optimality after splicing

  /** `more` is `edges` with free links from the source to `first` and from `last` to the sink, if any. */
  ghost predicate Spliced(edges: Edges, more: Edges, source: Name, sink: Name, first: Name, last: Name) {
    && Extends(edges, more)
    && forall k | k in more && k !in edges :: more[k].cost == 0 && (k == (source, first) || k == (last, sink))
  }

  ghost predicate Bounds(nodes: Nodes, source: Name, sink: Name) {
    && source in nodes && sink in nodes && source != sink
    && forall n | n in nodes :: source.Key() <= n.Key() <= sink.Key()
  }

  lemma {:induction false} ValidBounds(nodes: Nodes, insts: seq<Inst>)
    requires insts != [] && TraceOk(insts) && NodesOk(nodes, insts)
    ensures Bounds(nodes, Source(insts), Sink(insts))
  {
    EndTimes(nodes, insts);
    forall n | n in nodes ensures Source(insts).Key() <= n.Key() <= Sink(insts).Key() {
      SourceAndSinkBound(nodes, insts, n);
    }
  }

  /** The distances, with the sink lifted to the farthest distance. */
  ghost function Lifted(dist: Distances, sink: Name, top: int): Potential { Lengths(dist)[sink := top] }

  lemma {:induction false} SourceDistance(nodes: Nodes, edges: Edges, dist: Distances, source: Name, sink: Name)
    requires EdgesOk(nodes, edges) && Solved(nodes, edges, dist) && Bounds(nodes, source, sink)
    ensures dist[source].0 == 0
  {
    assert Bellman(edges, dist, source);
    if v :| IsPred(edges, v, source) {
      PredecessorBelow(nodes, edges, v, source);
    }
  }

  lemma {:induction false} EdgeRises(nodes: Nodes, edges: Edges, dist: Distances, source: Name, sink: Name, top: int,
      k: (Name, Name))
    requires EdgesOk(nodes, edges) && Solved(nodes, edges, dist) && Bounds(nodes, source, sink)
    requires k in edges && dist[sink].0 <= top
    ensures var d := Lifted(dist, sink, top); k.0 in d && k.1 in d && d[k.0] + edges[k].cost <= d[k.1]
  {
    assert EdgeOk(nodes, k, edges[k]);
    assert k.0.Key() < sink.Key();
    assert Bellman(edges, dist, k.1);
    assert IsPred(edges, k.0, k.1) && k == (k.0, k.1);
  }

  /** Linking the source to the start and the end to the sink, at no cost, leaves the lifted distances a
      potential: no path can cost more than the farthest distance. */
  lemma {:induction false} SplicedFeasible(nodes: Nodes, edges: Edges, more: Edges, dist: Distances, source: Name,
      sink: Name, first: Name, last: Name)
    requires EdgesOk(nodes, edges) && NonNegative(edges) && Solved(nodes, edges, dist) && Bounds(nodes, source, sink)
    requires first in nodes && last in nodes && dist[first].0 <= 0
    requires forall m | m in nodes :: dist[m].0 <= dist[last].0
    requires Spliced(edges, more, source, sink, first, last)
    ensures Feasible(more, Lifted(dist, sink, dist[last].0))
  {
    SourceDistance(nodes, edges, dist, source, sink);
    DistancesNonNegative(nodes, edges, dist, first);
    DistancesNonNegative(nodes, edges, dist, last);
    var d := Lifted(dist, sink, dist[last].0);
    forall k | k in more ensures k.0 in d && k.1 in d && d[k.0] + more[k].cost <= d[k.1] {
      if k in edges {
        EdgeRises(nodes, edges, dist, source, sink, dist[last].0, k);
      } else {
        LinkRises(dist, source, sink, first, last, k);
      }
    }
  }

  lemma {:induction false} LinkRises(dist: Distances, source: Name, sink: Name, first: Name, last: Name,
      k: (Name, Name))
    requires source in dist && first in dist && last in dist && source != sink
    requires dist[source].0 == 0 == dist[first].0 <= dist[last].0
    requires k == (source, first) || k == (last, sink)
    ensures var d := Lifted(dist, sink, dist[last].0); k.0 in d && k.1 in d && d[k.0] <= d[k.1]
  {
  }

  lemma {:induction false} SplicedBound(nodes: Nodes, edges: Edges, more: Edges, dist: Distances, source: Name,
      sink: Name, first: Name, last: Name, p: seq<Name>)
    requires EdgesOk(nodes, edges) && NonNegative(edges) && Solved(nodes, edges, dist) && Bounds(nodes, source, sink)
    requires first in nodes && last in nodes && dist[first].0 <= 0
    requires forall m | m in nodes :: dist[m].0 <= dist[last].0
    requires Spliced(edges, more, source, sink, first, last)
    requires IsPath(more, p) && p[0] in nodes
    ensures Cost(more, p) <= dist[last].0
    ensures p[0] == last ==> Cost(more, p) <= 0
  {
    var d := Lifted(dist, sink, dist[last].0);
    SplicedFeasible(nodes, edges, more, dist, source, sink, first, last);
    CostWithinRise(more, d, p);
    DistancesNonNegative(nodes, edges, dist, p[0]);
    DistancesNonNegative(nodes, edges, dist, last);
  }

  /** The backtracked trail costs exactly the farthest distance, no path of the spliced graph costs more,
      and whatever is spliced on costs nothing. */
  lemma {:induction false} SplicedOptimal(nodes: Nodes, edges: Edges, more: Edges, dist: Distances, source: Name,
      sink: Name, head: seq<Name>, middle: seq<Name>, tail: seq<Name>)
    requires EdgesOk(nodes, edges) && NonNegative(edges) && Solved(nodes, edges, dist) && Bounds(nodes, source, sink)
    requires middle != [] && Trail(edges, dist, middle[|middle| - 1], middle) && dist[middle[0]].0 <= 0
    requires forall m | m in nodes :: dist[m].0 <= dist[middle[|middle| - 1]].0
    requires Spliced(edges, more, source, sink, middle[0], middle[|middle| - 1])
    requires Joins(more, head, source, middle[0]) && Joins(more, tail, middle[|middle| - 1], sink)
    ensures Cost(more, head) == 0 == Cost(more, tail) && IsPath(more, middle)
    ensures Cost(more, middle) == dist[middle[|middle| - 1]].0
    ensures NoneAbove(nodes, more, Cost(more, middle))
  {
    var first, last := middle[0], middle[|middle| - 1];
    assert first in middle && last in middle;
    TrailCost(nodes, edges, dist, middle);
    CostInExtension(edges, more, middle);
    SplicedNonNegative(edges, more, source, sink, first, last);
    SplicedBoundAll(nodes, edges, more, dist, source, sink, first, last);
    HeadIsFree(nodes, more, head, middle, dist[last].0);
    FreePathEdges(more, tail);
    SplicedBound(nodes, edges, more, dist, source, sink, first, last, tail);
  }

  ghost predicate NoneAbove(nodes: Nodes, edges: Edges, top: int) {
    forall p {:trigger IsPathIn(nodes, edges, p)} | IsPathIn(nodes, edges, p) :: Cost(edges, p) <= top
  }

  lemma {:induction false} SplicedBoundAll(nodes: Nodes, edges: Edges, more: Edges, dist: Distances, source: Name,
      sink: Name, first: Name, last: Name)
    requires EdgesOk(nodes, edges) && NonNegative(edges) && Solved(nodes, edges, dist) && Bounds(nodes, source, sink)
    requires first in nodes && last in nodes && dist[first].0 <= 0
    requires forall m | m in nodes :: dist[m].0 <= dist[last].0
    requires Spliced(edges, more, source, sink, first, last)
    ensures NoneAbove(nodes, more, dist[last].0)
  {
    forall p | IsPathIn(nodes, more, p) ensures Cost(more, p) <= dist[last].0 {
      SplicedBound(nodes, edges, more, dist, source, sink, first, last, p);
    }
  }

  lemma {:induction false} HeadIsFree(nodes: Nodes, more: Edges, head: seq<Name>, middle: seq<Name>, top: int)
    requires NonNegative(more) && IsPathIn(nodes, more, head) && IsPath(more, middle) && head[|head| - 1] == middle[0]
    requires Cost(more, middle) == top && NoneAbove(nodes, more, top)
    ensures Cost(more, head) == 0
  {
    Compose(more, head, middle);
    assert IsPathIn(nodes, more, head + middle[1..]);
    FreePathEdges(more, head);
  }

  lemma {:induction false} SplicedNonNegative(edges: Edges, more: Edges, source: Name, sink: Name, first: Name,
      last: Name)
    requires NonNegative(edges) && Spliced(edges, more, source, sink, first, last)
    ensures NonNegative(more)
  {
  }

  /** Head, trail and tail joined up: a path from source to sink whose cost is the trail's alone, with
      every edge outside the trail free. */
  lemma {:induction false} JoinedPath(edges: Edges, source: Name, sink: Name, head: seq<Name>, middle: seq<Name>,
      tail: seq<Name>)
    requires middle != [] && IsPath(edges, middle)
    requires Joins(edges, head, source, middle[0]) && Joins(edges, tail, middle[|middle| - 1], sink)
    ensures Joins(edges, head + middle[1..] + tail[1..], source, sink)
    ensures NonNegative(edges) && Cost(edges, head) == 0 == Cost(edges, tail) ==>
      && Cost(edges, head + middle[1..] + tail[1..]) == Cost(edges, middle)
      && OnlyMiddleCosts(edges, head + middle[1..] + tail[1..], |head| - 1, |head| + |middle| - 2)
  {
    Compose(edges, head, middle);
    Compose(edges, head + middle[1..], tail);
    if NonNegative(edges) && Cost(edges, head) == 0 == Cost(edges, tail) {
      FreePathEdges(edges, head);
      FreePathEdges(edges, tail);
      var r := head + middle[1..] + tail[1..];
      var lo, hi := |head| - 1, |head| + |middle| - 2;
      forall k | 0 <= k < |r| - 1 && !(lo <= k < hi) ensures edges[(r[k], r[k + 1])].cost == 0 {
        if k < lo {
          assert r[k] == head[k] && r[k + 1] == head[k + 1];
        } else {
          assert r[k] == tail[k - hi] && r[k + 1] == tail[k + 1 - hi];
        }
      }
    }
  }

  ghost predicate OnlyMiddleCosts(edges: Edges, p: seq<Name>, lo: nat, hi: nat)
    requires IsPath(edges, p)
  {
    forall i, j {:trigger p[i], p[j]} | 0 <= i < |p| && j == i + 1 < |p| && !(lo <= i < hi) ::
      edges[(p[i], p[j])].cost == 0
  }

  // ---------------------------------------------------------------- when the library finds no path

  /** A node the source does not reach belongs to a later instruction. */
  lemma {:induction false} UnreachedBySource(nodes: Nodes, edges: Edges, insts: seq<Inst>, n: Name)
    requires insts != [] && Valid(nodes, edges, insts) && n in nodes
    requires forall p :: !Joins(edges, p, Source(insts), n)
    ensures Source(insts).seqNo < n.seqNo && (Source(insts), n) !in edges
  {
    var source := Source(insts);
    assert OwnsName(insts, n) && OwnsName(insts, source);
    if n.seqNo == source.seqNo {
      var p := ChainPath(edges, insts, n.seqNo, F1, n.stage);
      assert false;
    }
    if (source, n) in edges {
      assert Joins(edges, [source, n], source, n);
    }
  }

  /** A node that does not reach the sink belongs to an earlier instruction. */
  lemma {:induction false} SinkUnreached(nodes: Nodes, edges: Edges, insts: seq<Inst>, n: Name)
    requires insts != [] && Valid(nodes, edges, insts) && n in nodes
    requires forall p :: !Joins(edges, p, n, Sink(insts))
    ensures n.seqNo < Sink(insts).seqNo && (n, Sink(insts)) !in edges
  {
    var sink := Sink(insts);
    assert OwnsName(insts, n) && OwnsName(insts, sink);
    if n.seqNo == sink.seqNo {
      var p := ChainPath(edges, insts, n.seqNo, n.stage, Commit);
      assert false;
    }
    if (n, sink) in edges {
      assert Joins(edges, [n, sink], n, sink);
    }
  }
}
