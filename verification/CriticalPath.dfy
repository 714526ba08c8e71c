/** The critical path of a valid graph: longest trail, splicing to source and sink, charging
    (algo/core/model.py, longest_path_impl and longest_path). */
module CriticalPath {
  import opened Bottlenecks
  import opened Trace
  import opened Deg
  import opened VirtualEdges
  import opened LongestPath
  import opened Gains
  import opened Splicing
  import opened Sorting

  lemma {:induction false} NodesKnown(nodes: Nodes, insts: seq<Inst>, n: Name)
    requires NodesOk(nodes, insts) && TraceOk(insts) && n in nodes
    ensures nodes[n].Id() == n
  {
    assert OwnsName(insts, n);
  }

  lemma {:induction false} SkewIsOk(nodes: Nodes, edges: Edges, insts: seq<Inst>, skew: seq<Edge>)
    requires insts != [] && Valid(nodes, edges, insts)
    requires forall e | e in skew :: e.Ends() in edges && edges[e.Ends()] == e
    ensures SkewOk(nodes, skew)
    ensures Source(insts) in nodes && Sink(insts) in nodes
    ensures IsNode(nodes, nodes[Source(insts)]) && IsNode(nodes, nodes[Sink(insts)])
      && nodes[Sink(insts)].Id() == Sink(insts)
  {
    ValidBounds(nodes, insts);
    NodesKnown(nodes, insts, Source(insts));
    NodesKnown(nodes, insts, Sink(insts));
    forall e | e in skew ensures EdgeOk(nodes, e.Ends(), e) {
      assert EdgeOk(nodes, e.Ends(), edges[e.Ends()]);
    }
  }

  /** The graph with a virtual link from `a` to `b`, where the graph has no path between them. */
  ghost function Linked(nodes: Nodes, edges: Edges, a: Name, b: Name): Edges
    requires a in nodes && b in nodes
  {
    if Reaches(edges, a, b) then edges else AddVirtual(edges, Request(nodes[a], nodes[b]))
  }

  /** The only edge added is a free virtual `link`, if anything. */
  ghost predicate Links(before: Edges, after: Edges, link: (Name, Name)) {
    Grown(before, after) && forall k | k in after && k !in before :: k == link
  }

  lemma {:induction false} LinksSplice(before: Edges, between: Edges, after: Edges, source: Name, sink: Name,
      first: Name, last: Name)
    requires Links(before, between, (source, first)) && Links(between, after, (last, sink))
    ensures Grown(before, after) && Spliced(before, after, source, sink, first, last)
  {
  }

  /** `edges` is `before` with a link to the start of the section lo..hi of the path and one from its end, each only
      where there was no path. */
  ghost predicate IsSpliced(nodes: Nodes, before: Edges, edges: Edges, insts: seq<Inst>, path: seq<Name>,
      lo: nat, hi: nat) {
    && insts != [] && Source(insts) in nodes && Sink(insts) in nodes
    && lo <= hi < |path| && path[lo] in nodes && path[hi] in nodes
    && edges == Linked(nodes, Linked(nodes, before, Source(insts), path[lo]), path[hi], Sink(insts))
  }

  /** Up to its section the path is a shortest one in the graph with the first link, and after it a shortest one in
      the graph with both. */
  ghost predicate ShortestEnds(nodes: Nodes, before: Edges, edges: Edges, insts: seq<Inst>, path: seq<Name>,
      lo: nat, hi: nat) {
    && insts != [] && Source(insts) in nodes && lo <= hi < |path| && path[lo] in nodes
    && IsShortest(Linked(nodes, before, Source(insts), path[lo]), path[..lo + 1], Source(insts), path[lo])
    && IsShortest(edges, path[hi..], path[hi], Sink(insts))
  }

  /** The aspects of a critical path: how the graph was extended for it, that nothing else changed, where it runs,
      how it gets to its section and away from it, what the section costs, and what the whole costs. */
  datatype Aspect = Splicing | Extension | Course | Ends | Section | Price

  ghost predicate Shows(aspect: Aspect, nodes: Nodes, before: Edges, edges: Edges, insts: seq<Inst>, path: seq<Name>,
      lo: nat, hi: nat) {
    match aspect
    case Splicing => IsSpliced(nodes, before, edges, insts, path, lo, hi)
    case Extension => Grown(before, edges)
    case Course => insts != [] && Joins(edges, path, Source(insts), Sink(insts))
    case Ends => ShortestEnds(nodes, before, edges, insts, path, lo, hi)
    case Section => lo <= hi < |path| && IsBestSection(nodes, before, path[lo..hi + 1])
    case Price =>
      NonNegative(before) ==>
        IsPath(edges, path) && NoneAbove(nodes, edges, Cost(edges, path)) && OnlyMiddleCosts(edges, path, lo, hi)
  }

  /** What splicing achieves: a real path from source to sink in the graph extended by its links, with a shortest
      way to its section and a shortest way from it. The section lo..hi lies in the graph as it was, and no root path
      there costs more. With non-negative costs no path of the extended graph costs more than the whole, and every
      edge outside the section is free. */
  ghost predicate CriticalIn(nodes: Nodes, before: Edges, edges: Edges, insts: seq<Inst>, path: seq<Name>,
      lo: nat, hi: nat) {
    forall aspect: Aspect :: Shows(aspect, nodes, before, edges, insts, path, lo, hi)
  }

  /** A trail from distance 0 or less to a greatest, positive distance. */
  ghost predicate IsLongestTrail(nodes: Nodes, edges: Edges, dist: Distances, p: seq<Name>) {
    && p != [] && Trail(edges, dist, p[|p| - 1], p) && dist[p[0]].0 <= 0 < dist[p[|p| - 1]].0
    && forall m | m in nodes :: m in dist && dist[m].0 <= dist[p[|p| - 1]].0
  }

  /** A link that joins two instructions is taken up as asked. */
  lemma {:induction false} LinkAdded(edges: Edges, r: Request)
    requires !r.IsLoop() && r.Ends() !in edges && r.u.Id() != r.v.Id()
    ensures Links(edges, AddVirtual(edges, r), r.Ends())
    ensures IsShortest(AddVirtual(edges, r), [r.u.Id(), r.v.Id()], r.u.Id(), r.v.Id())
  {
    assert Joins(AddVirtual(edges, r), [r.u.Id(), r.v.Id()], r.u.Id(), r.v.Id());
  }

  /** Reach the path's start from the source, with a virtual edge exactly where the graph has no path. */
  method SpliceHead(nodes: Nodes, edges: Edges, insts: seq<Inst>, first: Name) returns (head: seq<Name>, after: Edges)
    requires insts != [] && Valid(nodes, edges, insts) && first in nodes
    ensures Source(insts) in nodes && after == Linked(nodes, edges, Source(insts), first)
    ensures Valid(nodes, after, insts) && Links(edges, after, (Source(insts), first))
    ensures IsShortest(after, head, Source(insts), first)
  {
    var source := Source(insts);
    ValidBounds(nodes, insts);
    var found := FindPath(nodes, edges, source, first);
    if found.Some? {
      return found.value, edges;
    }
    UnreachedBySource(nodes, edges, insts, first);
    NodesKnown(nodes, insts, source);
    NodesKnown(nodes, insts, first);
    var r := Request(nodes[source], nodes[first]);
    AddVirtualKeepsValid(nodes, edges, insts, r);
    LinkAdded(edges, r);
    return [source, first], AddVirtual(edges, r);
  }

  /** Reach the sink from the path's end in the same way. */
  method SpliceTail(nodes: Nodes, edges: Edges, insts: seq<Inst>, last: Name) returns (tail: seq<Name>, after: Edges)
    requires insts != [] && Valid(nodes, edges, insts) && last in nodes
    ensures Sink(insts) in nodes && after == Linked(nodes, edges, last, Sink(insts))
    ensures Valid(nodes, after, insts) && Links(edges, after, (last, Sink(insts)))
    ensures IsShortest(after, tail, last, Sink(insts))
  {
    var sink := Sink(insts);
    ValidBounds(nodes, insts);
    var found := FindPath(nodes, edges, last, sink);
    if found.Some? {
      return found.value, edges;
    }
    SinkUnreached(nodes, edges, insts, last);
    NodesKnown(nodes, insts, last);
    NodesKnown(nodes, insts, sink);
    var r := Request(nodes[last], nodes[sink]);
    AddVirtualKeepsValid(nodes, edges, insts, r);
    LinkAdded(edges, r);
    return [last, sink], AddVirtual(edges, r);
  }

  method Splice(nodes: Nodes, edges: Edges, insts: seq<Inst>, middle: seq<Name>, ghost dist: Distances)
    returns (path: seq<Name>, after: Edges, lo: nat, hi: nat)
    requires insts != [] && Valid(nodes, edges, insts)
    requires Solved(nodes, edges, dist) && IsLongestTrail(nodes, edges, dist, middle)
    ensures Valid(nodes, after, insts) && CriticalIn(nodes, edges, after, insts, path, lo, hi)
  {
    assert middle[0] in middle && middle[|middle| - 1] in middle;
    var head, between := SpliceHead(nodes, edges, insts, middle[0]);
    var tail;
    tail, after := SpliceTail(nodes, between, insts, middle[|middle| - 1]);
    path, lo, hi := head + middle[1..] + tail[1..], |head| - 1, |head| + |middle| - 2;
    SpliceOutcome(nodes, edges, between, after, insts, dist, head, middle, tail, path, lo, hi);
  }

  /** Head, trail and tail as splicing leaves them. */
  ghost predicate SpliceDone(nodes: Nodes, before: Edges, between: Edges, edges: Edges, insts: seq<Inst>,
      head: seq<Name>, middle: seq<Name>, tail: seq<Name>) {
    && insts != [] && middle != [] && Source(insts) in nodes && Sink(insts) in nodes
    && middle[0] in nodes && middle[|middle| - 1] in nodes
    && between == Linked(nodes, before, Source(insts), middle[0])
    && edges == Linked(nodes, between, middle[|middle| - 1], Sink(insts))
    && Links(before, between, (Source(insts), middle[0])) && Links(between, edges, (middle[|middle| - 1], Sink(insts)))
    && Joins(between, head, Source(insts), middle[0]) && Joins(edges, tail, middle[|middle| - 1], Sink(insts))
  }

  ghost predicate ShortestParts(between: Edges, edges: Edges, insts: seq<Inst>, head: seq<Name>, middle: seq<Name>,
      tail: seq<Name>) {
    && insts != [] && middle != [] && IsShortest(between, head, Source(insts), middle[0])
    && IsShortest(edges, tail, middle[|middle| - 1], Sink(insts))
  }

  lemma {:induction false} SplicedEnds(nodes: Nodes, before: Edges, between: Edges, edges: Edges, insts: seq<Inst>,
      head: seq<Name>, middle: seq<Name>, tail: seq<Name>)
    requires SpliceDone(nodes, before, between, edges, insts, head, middle, tail)
    requires ShortestParts(between, edges, insts, head, middle, tail)
    ensures ShortestEnds(nodes, before, edges, insts, head + middle[1..] + tail[1..], |head| - 1,
              |head| + |middle| - 2)
  {
    MiddleSection(head, middle, tail);
    EndSections(head, middle, tail);
  }

  lemma {:induction false} SpliceOutcome(nodes: Nodes, before: Edges, between: Edges, edges: Edges, insts: seq<Inst>,
      dist: Distances, head: seq<Name>, middle: seq<Name>, tail: seq<Name>, path: seq<Name>, lo: nat, hi: nat)
    requires insts != [] && Valid(nodes, before, insts) && Solved(nodes, before, dist)
    requires IsLongestTrail(nodes, before, dist, middle)
    requires SpliceDone(nodes, before, between, edges, insts, head, middle, tail)
    requires ShortestParts(between, edges, insts, head, middle, tail)
    requires path == head + middle[1..] + tail[1..] && lo == |head| - 1 && hi == |head| + |middle| - 2
    ensures CriticalIn(nodes, before, edges, insts, path, lo, hi)
  {
    MiddleSection(head, middle, tail);
    forall aspect: Aspect ensures Shows(aspect, nodes, before, edges, insts, path, lo, hi) {
      match aspect
      case Splicing =>
      case Extension => LinksSplice(before, between, edges, Source(insts), Sink(insts), middle[0],
        middle[|middle| - 1]);
      case Course => SplicedInside(nodes, before, between, edges, insts, dist, head, middle, tail);
      case Ends => SplicedEnds(nodes, before, between, edges, insts, head, middle, tail);
      case Section => TrailIsBest(nodes, before, dist, middle);
      case Price => SplicedInside(nodes, before, between, edges, insts, dist, head, middle, tail);
    }
  }

  lemma {:induction false} SplicedInside(nodes: Nodes, before: Edges, between: Edges, edges: Edges, insts: seq<Inst>,
      dist: Distances, head: seq<Name>, middle: seq<Name>, tail: seq<Name>)
    requires insts != [] && Valid(nodes, before, insts) && Solved(nodes, before, dist)
    requires IsLongestTrail(nodes, before, dist, middle)
    requires SpliceDone(nodes, before, between, edges, insts, head, middle, tail)
    ensures var path := head + middle[1..] + tail[1..];
      && Joins(edges, path, Source(insts), Sink(insts))
      && (NonNegative(before) ==>
            NoneAbove(nodes, edges, Cost(edges, path))
              && OnlyMiddleCosts(edges, path, |head| - 1, |head| + |middle| - 2))
  {
    LinksSplice(before, between, edges, Source(insts), Sink(insts), middle[0], middle[|middle| - 1]);
    CostInExtension(between, edges, head);
    CostInExtension(before, edges, middle);
    SplicedPath(nodes, before, edges, insts, dist, head, middle, tail);
  }

  /** The trail is the section it was spliced in at. */
  lemma {:induction false} MiddleSection(head: seq<Name>, middle: seq<Name>, tail: seq<Name>)
    requires head != [] && middle != [] && tail != [] && head[|head| - 1] == middle[0]
    ensures var path, lo, hi := head + middle[1..] + tail[1..], |head| - 1, |head| + |middle| - 2;
      lo <= hi < |path| && path[lo..hi + 1] == middle && path[lo] == middle[0] && path[hi] == middle[|middle| - 1]
  {
    var path, lo, hi := head + middle[1..] + tail[1..], |head| - 1, |head| + |middle| - 2;
    assert |path[lo..hi + 1]| == |middle| && forall k | 0 <= k < |middle| :: path[lo..hi + 1][k] == middle[k];
  }

  /** What was put before and after the trail is what the path holds before and after its section. */
  lemma {:induction false} EndSections(head: seq<Name>, middle: seq<Name>, tail: seq<Name>)
    requires head != [] && middle != [] && tail != []
    requires head[|head| - 1] == middle[0] && middle[|middle| - 1] == tail[0]
    ensures var path, lo, hi := head + middle[1..] + tail[1..], |head| - 1, |head| + |middle| - 2;
      path[..lo + 1] == head && path[hi..] == tail
  {
    var path, hi := head + middle[1..] + tail[1..], |head| + |middle| - 2;
    assert |path[hi..]| == |tail| && forall k | 0 <= k < |tail| :: path[hi..][k] == tail[k];
  }

  lemma {:induction false} SplicedPath(nodes: Nodes, before: Edges, edges: Edges, insts: seq<Inst>, dist: Distances,
      head: seq<Name>, middle: seq<Name>, tail: seq<Name>)
    requires insts != [] && Valid(nodes, before, insts) && Solved(nodes, before, dist)
    requires IsLongestTrail(nodes, before, dist, middle)
    requires Spliced(before, edges, Source(insts), Sink(insts), middle[0], middle[|middle| - 1])
    requires IsPath(edges, middle)
    requires Joins(edges, head, Source(insts), middle[0]) && Joins(edges, tail, middle[|middle| - 1], Sink(insts))
    ensures var path := head + middle[1..] + tail[1..];
      && Joins(edges, path, Source(insts), Sink(insts))
      && (NonNegative(before) ==>
            NoneAbove(nodes, edges, Cost(edges, path))
              && OnlyMiddleCosts(edges, path, |head| - 1, |head| + |middle| - 2))
  {
    ValidBounds(nodes, insts);
    JoinedPath(edges, Source(insts), Sink(insts), head, middle, tail);
    if NonNegative(before) {
      SplicedOptimal(nodes, before, edges, dist, Source(insts), Sink(insts), head, middle, tail);
      SplicedNonNegative(before, edges, Source(insts), Sink(insts), middle[0], middle[|middle| - 1]);
    }
  }

  lemma {:induction false} EdgesKeyed(nodes: Nodes, edges: Edges, insts: seq<Inst>)
    requires Valid(nodes, edges, insts)
    ensures forall k | k in edges :: edges[k].Ends() == k
  {
    forall k | k in edges ensures edges[k].Ends() == k {
      assert EdgeOk(nodes, k, edges[k]);
      NodesKnown(nodes, insts, k.0);
      NodesKnown(nodes, insts, k.1);
    }
  }

  function Charge(e: Edge, b: Bottleneck): int { if e.cause == b then e.delay else 0 }

  /** Cycles charged to one bottleneck along a path. */
  ghost function Charged(edges: Edges, p: seq<Name>, b: Bottleneck): int
    requires IsPath(edges, p)
  {
    if |p| == 1 then 0 else Charged(edges, p[..|p| - 1], b) + Charge(edges[(p[|p| - 2], p[|p| - 1])], b)
  }

  /** `after` is `before` plus the path's charges, bottleneck by bottleneck; in total, the time the path spans. */
  ghost predicate Accounts(nodes: Nodes, edges: Edges, path: seq<Name>, before: Counters, after: Counters) {
    && Full(before) && Full(after) && IsPath(edges, path)
    && path[0] in nodes && path[|path| - 1] in nodes
    && (forall b: Bottleneck :: after[b] == before[b] + Charged(edges, path, b))
    && Total(after, ALL) == Total(before, ALL) + nodes[path[|path| - 1]].timestamp - nodes[path[0]].timestamp
  }

  lemma {:induction false} NothingCharged(nodes: Nodes, edges: Edges, path: seq<Name>, m: Counters)
    requires Full(m) && IsPath(edges, path) && path[0] in nodes
    ensures Accounts(nodes, edges, path[..1], m, m)
  {
  }

  /** Every edge is charged the time it spans, so charges telescope along the path. */
  lemma {:induction false} ChargeOneMore(nodes: Nodes, edges: Edges, path: seq<Name>, i: nat, before: Counters,
      m: Counters)
    requires EdgesOk(nodes, edges) && IsPath(edges, path) && i + 1 < |path|
    requires Accounts(nodes, edges, path[..i + 1], before, m)
    ensures var e := edges[(path[i], path[i + 1])];
      Accounts(nodes, edges, path[..i + 2], before, m[e.cause := m[e.cause] + e.delay])
  {
    var e := edges[(path[i], path[i + 1])];
    var longer := path[..i + 2];
    assert longer[..i + 1] == path[..i + 1];
    assert EdgeOk(nodes, (path[i], path[i + 1]), e);
    AllComplete();
    TotalAfterCharge(m, ALL, e.cause, e.delay);
    forall b ensures Charged(edges, longer, b) == Charged(edges, path[..i + 1], b) + Charge(e, b) {
    }
  }

  // ---------------------------------------------------------------- all together

  /** What `longest_path_impl` returns. There is no path exactly when no path from a root has a positive cost; the
      source then fails by indexing an empty list. */
  ghost predicate LongestOutcome(nodes: Nodes, before: Edges, edges: Edges, insts: seq<Inst>, r: Option<seq<Name>>,
      lo: nat, hi: nat) {
    && (r.None? <==> NoGain(nodes, before))
    && (r.None? ==> edges == before)
    && (r.Some? ==> CriticalIn(nodes, before, edges, insts, r.value, lo, hi))
  }

  /** The dynamic program and its backtracking: a trail to the farthest node, or nothing exactly when no path from
      a root has a positive cost. */
  method DagLongestPath(nodes: Nodes, edges: Edges, order: seq<Name>, nameLess: (Name, Name) -> bool)
    returns (path: seq<Name>, ghost dist: Distances)
    requires EdgesOk(nodes, edges) && order != [] && IsTopological(order, nodes, edges) && IsOrder(nameLess)
    ensures Solved(nodes, edges, dist)
    ensures path != [] ==> IsLongestTrail(nodes, edges, dist, path)
    ensures path == [] <==> NoGain(nodes, edges)
  {
    ListsOnce(order, nodes);
    var d := ComputeDistances(nodes, edges, order, nameLess);
    var last := Farthest(order, d, nameLess);
    FarthestBounds(nodes, order, d, nameLess, last);
    path := Backtrack(nodes, edges, d, order[last]);
    dist := d;
    NoGainIff(nodes, edges, dist);
  }

  lemma {:induction false} FarthestBounds(nodes: Nodes, order: seq<Name>, dist: Distances,
      nameLess: (Name, Name) -> bool, i: nat)
    requires IsFarthest(order, dist, nameLess, i) && forall n :: n in order <==> n in nodes
    ensures order[i] in nodes && forall m | m in nodes :: m in dist && dist[m].0 <= dist[order[i]].0
  {
    assert order[i] in order;
    forall m | m in nodes ensures m in dist && dist[m].0 <= dist[order[i]].0 {
      assert m in order;
      var k :| 0 <= k < |order| && order[k] == m;
    }
  }

  method FindCriticalPath(nodes: Nodes, edges: Edges, insts: seq<Inst>, order: seq<Name>,
      nameLess: (Name, Name) -> bool)
    returns (r: Option<seq<Name>>, after: Edges, lo: nat, hi: nat)
    requires insts != [] && Valid(nodes, edges, insts) && IsTopological(order, nodes, edges) && IsOrder(nameLess)
    ensures Valid(nodes, after, insts) && LongestOutcome(nodes, edges, after, insts, r, lo, hi)
  {
    ValidBounds(nodes, insts);
    ListsOnce(order, nodes);
    var middle, dist := DagLongestPath(nodes, edges, order, nameLess);
    if middle == [] {
      return None, edges, 0, 0;
    }
    var path;
    path, after, lo, hi := Splice(nodes, edges, insts, middle, dist);
    r := Some(path);
  }

  /** Everything an analysis determines: the skew edges in the order they were listed, the induced graph, the final
      edges, the path with its section lo..hi, and the counters. */
  datatype Analysis = Analysis(skew: seq<Edge>, induced: Edges, edges: Edges, path: Option<seq<Name>>,
    lo: nat, hi: nat, counters: Counters)

  /** The induced graph is the starting graph with the scheduled requests of its own threads. */
  ghost predicate IsInduced(nodes: Nodes, before: Edges, insts: seq<Inst>, schedule: Schedule, a: Analysis) {
    && insts != [] && Source(insts) in nodes && Sink(insts) in nodes
    && (forall e :: e in a.skew <==> IsSkewOf(before, e)) && NoRepeats(a.skew)
    && a.induced == AddAll(before, schedule(Threads(a.skew, nodes[Source(insts)], nodes[Sink(insts)])))
  }

  /** The counters hold exactly the path's charges, and add up to the time from source to sink. */
  ghost predicate IsCharged(nodes: Nodes, insts: seq<Inst>, edges: Edges, path: seq<Name>, m: Counters) {
    && insts != [] && Source(insts) in nodes && Sink(insts) in nodes && IsPath(edges, path)
    && Full(m) && (forall b: Bottleneck :: m[b] == Charged(edges, path, b))
    && Total(m, ALL) == nodes[Sink(insts)].timestamp - nodes[Source(insts)].timestamp
  }

  /** The claims an analysis makes: where its graphs come from, which path it found, when it found none, and what it
      charged. */
  datatype Claim = Induction | Extended | Outcome | Balance | Account

  ghost predicate Holds(claim: Claim, nodes: Nodes, before: Edges, insts: seq<Inst>, schedule: Schedule, a: Analysis) {
    match claim
    case Induction => IsInduced(nodes, before, insts, schedule, a)
    case Extended => Valid(nodes, a.edges, insts) && Grown(before, a.edges)
    case Outcome => LongestOutcome(nodes, a.induced, a.edges, insts, a.path, a.lo, a.hi)
    case Balance => NonNegative(before) ==> NonNegative(a.induced) && (a.path.None? <==> Free(before))
    case Account => a.path.Some? ==> IsCharged(nodes, insts, a.edges, a.path.value, a.counters)
  }

  /** What an analysis concludes about the graph it started from. The final graph is valid and is the starting graph
      with free virtual links. The path is critical in the induced graph and charged exactly. With non-negative costs
      there is a path exactly when some edge of the starting graph costs something. */
  ghost predicate Concluded(nodes: Nodes, before: Edges, insts: seq<Inst>, schedule: Schedule, a: Analysis) {
    forall claim: Claim :: Holds(claim, nodes, before, insts, schedule, a)
  }

  lemma {:induction false} Concludes(nodes: Nodes, before: Edges, insts: seq<Inst>, schedule: Schedule, a: Analysis,
      zero: Counters)
    requires IsInduced(nodes, before, insts, schedule, a)
    requires Valid(nodes, a.induced, insts) && Valid(nodes, a.edges, insts)
    requires LongestOutcome(nodes, a.induced, a.edges, insts, a.path, a.lo, a.hi)
    requires Full(zero) && forall b: Bottleneck :: zero[b] == 0
    requires a.path.Some? ==> Accounts(nodes, a.edges, a.path.value, zero, a.counters)
    ensures Concluded(nodes, before, insts, schedule, a)
    ensures a.path.Some? ==> IsCharged(nodes, insts, a.edges, a.path.value, a.counters)
  {
    forall claim: Claim ensures Holds(claim, nodes, before, insts, schedule, a) {
      match claim
      case Induction =>
      case Extended => FinalGraph(nodes, before, insts, schedule, a);
      case Outcome =>
      case Balance => PathWhenCosts(nodes, before, insts, schedule, a);
      case Account => ChargedExactly(nodes, insts, a, zero);
    }
    ChargedExactly(nodes, insts, a, zero);
  }

  lemma {:induction false} FinalGraph(nodes: Nodes, before: Edges, insts: seq<Inst>, schedule: Schedule, a: Analysis)
    requires IsInduced(nodes, before, insts, schedule, a)
    requires LongestOutcome(nodes, a.induced, a.edges, insts, a.path, a.lo, a.hi)
    ensures Grown(before, a.edges)
  {
    RunGrows(before, schedule(Threads(a.skew, nodes[Source(insts)], nodes[Sink(insts)])));
    if a.path.Some? {
      assert Shows(Extension, nodes, a.induced, a.edges, insts, a.path.value, a.lo, a.hi);
    }
  }

  lemma {:induction false} PathWhenCosts(nodes: Nodes, before: Edges, insts: seq<Inst>, schedule: Schedule, a: Analysis)
    requires IsInduced(nodes, before, insts, schedule, a) && Valid(nodes, a.induced, insts)
    requires LongestOutcome(nodes, a.induced, a.edges, insts, a.path, a.lo, a.hi)
    ensures NonNegative(before) ==> NonNegative(a.induced) && (a.path.None? <==> Free(before))
  {
    VirtualsAreFree(before, schedule(Threads(a.skew, nodes[Source(insts)], nodes[Sink(insts)])));
    if NonNegative(before) {
      FreeIffNoGain(nodes, a.induced);
    }
  }

  lemma {:induction false} ChargedExactly(nodes: Nodes, insts: seq<Inst>, a: Analysis, zero: Counters)
    requires insts != [] && Source(insts) in nodes && Sink(insts) in nodes
    requires LongestOutcome(nodes, a.induced, a.edges, insts, a.path, a.lo, a.hi)
    requires Full(zero) && forall b: Bottleneck :: zero[b] == 0
    requires a.path.Some? ==> Accounts(nodes, a.edges, a.path.value, zero, a.counters)
    ensures a.path.Some? ==> IsCharged(nodes, insts, a.edges, a.path.value, a.counters)
  {
    if a.path.Some? {
      assert Shows(Course, nodes, a.induced, a.edges, insts, a.path.value, a.lo, a.hi);
      ZeroCharges(nodes, insts, a.edges, a.path.value, zero, a.counters);
    }
  }

  lemma {:induction false} ZeroCharges(nodes: Nodes, insts: seq<Inst>, edges: Edges, path: seq<Name>, zero: Counters,
      m: Counters)
    requires insts != [] && Source(insts) in nodes && Sink(insts) in nodes
    requires Joins(edges, path, Source(insts), Sink(insts)) && Accounts(nodes, edges, path, zero, m)
    requires Full(zero) && forall b: Bottleneck :: zero[b] == 0
    ensures IsCharged(nodes, insts, edges, path, m)
  {
    ZeroTotal(zero, ALL);
  }

  lemma {:induction false} ZeroTotal(m: Counters, bs: seq<Bottleneck>)
    requires Full(m) && forall b: Bottleneck :: m[b] == 0
    ensures Total(m, bs) == 0
  {
    if bs != [] { ZeroTotal(m, bs[1..]); }
  }
}
