/** What longest paths gain: when there is anything to gain at all, and what a backtracked trail costs
    (algo/core/model.py, longest_path_impl). */
module Gains {
  import opened Deg
  import opened LongestPath

  /** No path from a root has a positive cost. */
  ghost predicate NoGain(nodes: Nodes, edges: Edges) {
    forall p {:trigger IsPathIn(nodes, edges, p)} | IsPathIn(nodes, edges, p) && IsRoot(edges, p[0]) ::
      Cost(edges, p) <= 0
  }

  lemma {:induction false} NoGainIff(nodes: Nodes, edges: Edges, dist: Distances)
    requires EdgesOk(nodes, edges) && Solved(nodes, edges, dist)
    ensures NoGain(nodes, edges) <==> forall n | n in nodes :: dist[n].0 <= 0
  {
    if NoGain(nodes, edges) {
      forall n | n in nodes ensures dist[n].0 <= 0 {
        var p := BestPathTo(nodes, edges, dist, n);
      }
    }
    if forall n | n in nodes :: dist[n].0 <= 0 {
      forall p | IsPathIn(nodes, edges, p) && IsRoot(edges, p[0]) ensures Cost(edges, p) <= 0 {
        EndsInside(nodes, edges, p);
        DistanceIsMaximum(nodes, edges, dist, p[|p| - 1]);
      }
    }
  }

  lemma {:induction false} EndsInside(nodes: Nodes, edges: Edges, p: seq<Name>)
    requires EdgesOk(nodes, edges) && IsPathIn(nodes, edges, p)
    ensures p[|p| - 1] in nodes
  {
    if |p| > 1 {
      assert EdgeOk(nodes, (p[|p| - 2], p[|p| - 1]), edges[(p[|p| - 2], p[|p| - 1])]);
    }
  }

  /** A section of the graph that costs something, and at least as much as any path from a root. */
  ghost predicate IsBestSection(nodes: Nodes, edges: Edges, q: seq<Name>) {
    && IsPath(edges, q) && Cost(edges, q) > 0
    && forall p {:trigger IsPathIn(nodes, edges, p)} | IsPathIn(nodes, edges, p) && IsRoot(edges, p[0]) ::
         Cost(edges, p) <= Cost(edges, q)
  }

  /** A trail costs the distance it climbs. */
  lemma {:induction false} TrailClimbs(nodes: Nodes, edges: Edges, dist: Distances, p: seq<Name>)
    requires EdgesOk(nodes, edges) && Solved(nodes, edges, dist)
    requires p != [] && Trail(edges, dist, p[|p| - 1], p)
    ensures p[0] in dist && p[|p| - 1] in dist && Cost(edges, p) == dist[p[|p| - 1]].0 - dist[p[0]].0
  {
    var d := Lengths(dist);
    assert p[0] in p && p[|p| - 1] in p;
    forall k | 0 <= k < |p| - 1 ensures d[p[k]] + edges[(p[k], p[k + 1])].cost == d[p[k + 1]] {
      assert p[k] in p && p[k + 1] in p;
      assert Bellman(edges, dist, p[k + 1]);
      assert dist[p[k + 1]].1 == p[k] && IsPred(edges, p[k], p[k + 1]);
    }
    CostIsRise(edges, d, p);
  }

  /** A trail that climbs from distance 0 or less to a greatest, positive distance is such a section, whatever
      the signs of the costs. */
  lemma {:induction false} TrailIsBest(nodes: Nodes, edges: Edges, dist: Distances, q: seq<Name>)
    requires EdgesOk(nodes, edges) && Solved(nodes, edges, dist)
    requires q != [] && Trail(edges, dist, q[|q| - 1], q) && dist[q[0]].0 <= 0 < dist[q[|q| - 1]].0
    requires forall m | m in nodes :: dist[m].0 <= dist[q[|q| - 1]].0
    ensures IsBestSection(nodes, edges, q)
  {
    TrailClimbs(nodes, edges, dist, q);
    forall p | IsPathIn(nodes, edges, p) && IsRoot(edges, p[0]) ensures Cost(edges, p) <= Cost(edges, q) {
      EndsInside(nodes, edges, p);
      DistanceIsMaximum(nodes, edges, dist, p[|p| - 1]);
    }
  }

  /** With non-negative costs it costs the distance of its end. */
  lemma {:induction false} TrailCost(nodes: Nodes, edges: Edges, dist: Distances, p: seq<Name>)
    requires EdgesOk(nodes, edges) && NonNegative(edges) && Solved(nodes, edges, dist)
    requires p != [] && Trail(edges, dist, p[|p| - 1], p) && dist[p[0]].0 <= 0
    ensures Cost(edges, p) == dist[p[|p| - 1]].0
  {
    assert p[0] in p;
    DistancesNonNegative(nodes, edges, dist, p[0]);
    TrailClimbs(nodes, edges, dist, p);
  }

  /** With non-negative costs, no root path gains anything exactly when no edge costs anything. */
  lemma {:induction false} FreeIffNoGain(nodes: Nodes, edges: Edges)
    requires EdgesOk(nodes, edges) && NonNegative(edges)
    ensures Free(edges) <==> NoGain(nodes, edges)
  {
    if Free(edges) {
      forall p | IsPathIn(nodes, edges, p) && IsRoot(edges, p[0]) ensures Cost(edges, p) <= 0 {
        if Cost(edges, p) > 0 {
          SomeEdgeCosts(edges, p);
        }
      }
    }
    if !Free(edges) {
      var k :| k in edges && edges[k].cost != 0;
      assert EdgeOk(nodes, k, edges[k]) && k == (k.0, k.1);
      var q := RootPathTo(nodes, edges, k.0);
      FreePathEdges(edges, q);
      var p := q + [k.1];
      assert p[..|p| - 1] == q && IsPathIn(nodes, edges, p);
    }
  }

  lemma {:induction false} RootPathTo(nodes: Nodes, edges: Edges, n: Name) returns (p: seq<Name>)
    requires EdgesOk(nodes, edges) && n in nodes
    ensures IsPathIn(nodes, edges, p) && p[|p| - 1] == n && IsRoot(edges, p[0])
    decreases n.Key()
  {
    if IsRoot(edges, n) {
      p := [n];
    } else {
      var v :| IsPred(edges, v, n);
      PredecessorBelow(nodes, edges, v, n);
      var q := RootPathTo(nodes, edges, v);
      p := q + [n];
    }
  }

  /** Some distance is positive exactly when some edge has a positive cost. */
  lemma {:induction false} PositiveDistanceIff(nodes: Nodes, edges: Edges, dist: Distances)
    requires EdgesOk(nodes, edges) && NonNegative(edges) && Solved(nodes, edges, dist)
    ensures (exists n | n in nodes :: dist[n].0 > 0) <==> (exists k | k in edges :: edges[k].cost > 0)
  {
    if k :| k in edges && edges[k].cost > 0 {
      assert EdgeOk(nodes, k, edges[k]);
      DistancesNonNegative(nodes, edges, dist, k.0);
      LengthsFeasible(nodes, edges, dist);
      assert Lengths(dist)[k.0] + edges[k].cost <= Lengths(dist)[k.1];
      assert dist[k.1].0 > 0;
    }
    if n :| n in nodes && dist[n].0 > 0 {
      var p := BestPathTo(nodes, edges, dist, n);
      SomeEdgeCosts(edges, p);
    }
  }

  lemma {:induction false} SomeEdgeCosts(edges: Edges, p: seq<Name>)
    requires IsPath(edges, p) && Cost(edges, p) > 0
    ensures exists k | k in edges :: edges[k].cost > 0
  {
    var last := (p[|p| - 2], p[|p| - 1]);
    if edges[last].cost <= 0 {
      SomeEdgeCosts(edges, p[..|p| - 1]);
    }
  }

  lemma {:induction false} PredecessorBelow(nodes: Nodes, edges: Edges, v: Name, n: Name)
    requires EdgesOk(nodes, edges) && IsPred(edges, v, n)
    ensures v in nodes && n in nodes && v.Key() < n.Key()
  {
    assert EdgeOk(nodes, (v, n), edges[(v, n)]);
  }
}
