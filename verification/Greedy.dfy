/** The heuristic critical path: take skew edges by falling delay, keep those that overlap nothing kept
    so far, and bridge the gaps (algo/core/model.py, construct_critical_path_v1). */
module Greedy {
  import opened Deg
  import opened VirtualEdges
  import opened Sorting

  function ByDelay(e: Edge): real { -(e.delay as real) }

  /** Two edges are compatible when they are apart both in seq and in time. */
  predicate Overlaps(edge: Edge, other: Edge) {
    !(&& (edge.u.seqNo >= other.v.seqNo || edge.v.seqNo <= other.u.seqNo)
      && (other.u.timestamp >= edge.v.timestamp || other.v.timestamp <= edge.u.timestamp))
  }

  ghost predicate Compatible(es: seq<Edge>) {
    forall i, j | 0 <= i < |es| && 0 <= j < |es| && i != j :: !Overlaps(es[i], es[j])
  }

  /** `select_edge`: keep the edge unless it overlaps a kept one. */
  method SelectEdge(candidate: seq<Edge>, edge: Edge) returns (r: seq<Edge>)
    ensures if exists c | c in candidate :: Overlaps(edge, c) then r == candidate else r == candidate + [edge]
  {
    for i := 0 to |candidate|
      invariant forall c | c in candidate[..i] :: !Overlaps(edge, c)
    {
      if Overlaps(edge, candidate[i]) {
        return candidate;
      }
    }
    assert candidate[..|candidate|] == candidate;
    return candidate + [edge];
  }

  /** The kept edges are pairwise apart, and every edge left out overlaps a kept one of at least its delay. */
  ghost predicate Selection(candidate: seq<Edge>, seen: seq<Edge>) {
    && Compatible(candidate)
    && (forall c | c in candidate :: c in seen)
    && (forall e | e in seen && e !in candidate :: Blocked(e, candidate))
  }

  ghost predicate Blocked(e: Edge, candidate: seq<Edge>) {
    exists c | c in candidate :: Overlaps(e, c) && e.delay <= c.delay
  }

  lemma {:induction false} SelectionGrows(candidate: seq<Edge>, seen: seq<Edge>, edge: Edge)
    requires Selection(candidate, seen) && forall c | c in candidate :: !Overlaps(edge, c)
    ensures Selection(candidate + [edge], seen + [edge])
  {
    var more := candidate + [edge];
    forall i, j | 0 <= i < |more| && 0 <= j < |more| && i != j ensures !Overlaps(more[i], more[j]) {
      if i < |candidate| && j == |candidate| {
        assert more[i] in candidate;
      } else if j < |candidate| && i == |candidate| {
        assert more[j] in candidate;
      }
    }
    forall e | e in seen + [edge] && e !in more ensures Blocked(e, more) {
      assert Blocked(e, candidate);
      var c :| c in candidate && Overlaps(e, c) && e.delay <= c.delay;
      assert c in more;
    }
  }

  method SelectEdges(skew: seq<Edge>) returns (candidate: seq<Edge>)
    ensures Selection(candidate, skew)
  {
    var edges := SortBy(skew, ByDelay);
    SameElements(edges, skew);
    candidate := [];
    for n := 0 to |edges|
      invariant Selection(candidate, edges[..n])
    {
      var edge := edges[n];
      assert edges[..n + 1] == edges[..n] + [edge];
      forall c | c in candidate ensures edge.delay <= c.delay {
        var k :| 0 <= k < n && edges[k] == c;
        assert ByDelay(edges[k]) <= ByDelay(edges[n]);
      }
      var next := SelectEdge(candidate, edge);
      if forall c | c in candidate :: !Overlaps(edge, c) {
        SelectionGrows(candidate, edges[..n], edge);
      } else {
        assert Blocked(edge, candidate);
      }
      candidate := next;
    }
    assert edges[..|edges|] == edges;
  }

  /** Edges that are apart and sorted by start leave a gap, possibly empty, between one end and the next start. */
  lemma {:induction false} SortedLeavesGaps(es: seq<Edge>, i: nat)
    requires Compatible(es) && SortedBy(es, BySeq) && i + 1 < |es|
    requires forall e | e in es :: e.u.seqNo < e.v.seqNo
    ensures es[i].v.seqNo <= es[i + 1].u.seqNo
  {
  }

  /** The bridges from the source over all kept edges to the sink. */
  function Bridges(agent: Node, es: seq<Edge>, sink: Node): seq<Request>
    decreases |es|
  {
    if es == [] then [Request(agent, sink)]
    else [Request(agent, es[0].u)] + Bridges(es[0].v, es[1..], sink)
  }

  lemma {:induction false} PermutedCompatible(a: seq<Edge>, b: seq<Edge>)
    requires Compatible(a) && multiset(a) == multiset(b)
    requires forall e | e in a :: e.u.seqNo < e.v.seqNo
    ensures Compatible(b)
  {
    SameElements(a, b);
    forall i, j | 0 <= i < |b| && 0 <= j < |b| && i != j ensures !Overlaps(b[i], b[j]) {
      assert b[i] in a && b[j] in a;
      var p :| 0 <= p < |a| && a[p] == b[i];
      var q :| 0 <= q < |a| && a[q] == b[j];
      if p == q {
        CompatibleOnce(a, p);
        TwiceCounts(b, i, j);
        assert false;
      }
    }
  }

  lemma {:induction false} BlockedByPermutation(seen: seq<Edge>, a: seq<Edge>, b: seq<Edge>)
    requires Selection(a, seen) && multiset(a) == multiset(b)
    ensures forall e | e in seen && e !in b :: Blocked(e, b)
  {
    SameElements(a, b);
    forall e | e in seen && e !in b ensures Blocked(e, b) {
      assert Blocked(e, a);
      var c :| c in a && Overlaps(e, c) && e.delay <= c.delay;
      assert c in b;
    }
  }

  /** A skew edge overlaps itself, so it is kept once. */
  lemma {:induction false} CompatibleOnce(a: seq<Edge>, p: nat)
    requires Compatible(a) && p < |a| && a[p].u.seqNo < a[p].v.seqNo
    ensures multiset(a)[a[p]] == 1
  {
    var rest := a[..p] + a[p + 1..];
    assert a == a[..p] + [a[p]] + a[p + 1..];
    assert multiset(a) == multiset(rest) + multiset{a[p]};
    assert a[p] !in rest;
  }

  lemma {:induction false} TwiceCounts(b: seq<Edge>, i: nat, j: nat)
    requires i < |b| && j < |b| && i != j && b[i] == b[j]
    ensures multiset(b)[b[i]] >= 2
  {
    var lo, hi := if i < j then i else j, if i < j then j else i;
    assert b == b[..lo] + [b[lo]] + b[lo + 1..hi] + [b[hi]] + b[hi + 1..];
  }
}
