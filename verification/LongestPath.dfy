/** Longest paths in the dependence graph: the dynamic program over a topological order, its
    backtracking, and the potential argument for optimality (algo/core/model.py, longest_path_impl). */
module LongestPath {
  import opened Deg

  ghost predicate IsPath(edges: Edges, p: seq<Name>) {
    |p| > 0 && forall i, j {:trigger p[i], p[j]} | 0 <= i < |p| && j == i + 1 < |p| :: (p[i], p[j]) in edges
  }

  ghost predicate Joins(edges: Edges, p: seq<Name>, a: Name, b: Name) {
    IsPath(edges, p) && p[0] == a && p[|p| - 1] == b
  }

  ghost function Cost(edges: Edges, p: seq<Name>): int
    requires IsPath(edges, p)
  {
    if |p| == 1 then 0 else Cost(edges, p[..|p| - 1]) + edges[(p[|p| - 2], p[|p| - 1])].cost
  }

  /** A path that starts at a node of the graph. */
  ghost predicate IsPathIn(nodes: Nodes, edges: Edges, p: seq<Name>) { IsPath(edges, p) && p[0] in nodes }

  /** An order in which every edge goes forward; it lists every node once. */
  ghost predicate IsTopological(order: seq<Name>, nodes: Nodes, edges: Edges) {
    && multiset(order) == multiset(nodes.Keys)
    && forall i, j {:trigger (order[i], order[j]) in edges} |
         0 <= i < |order| && 0 <= j < |order| && (order[i], order[j]) in edges :: i < j
  }

  lemma {:induction false} ListsOnce(order: seq<Name>, nodes: Nodes)
    requires multiset(order) == multiset(nodes.Keys)
    ensures forall n :: n in order <==> n in nodes
    ensures forall i, j | 0 <= i < j < |order| :: order[i] != order[j]
  {
    assert forall n :: n in order <==> n in multiset(order);
    forall i, j | 0 <= i < j < |order| ensures order[i] != order[j] {
      var rest := order[..j] + order[j + 1..];
      assert order == order[..j] + [order[j]] + order[j + 1..];
      assert multiset(order) == multiset(rest) + multiset{order[j]};
      assert multiset(nodes.Keys)[order[j]] <= 1;
      assert rest[i] == order[i] && rest[i] in multiset(rest);
    }
  }

  // ---------------------------------------------------------------- acyclicity

  /** Keys strictly increase along a path, so no path of two or more nodes comes back. */
  lemma {:induction false} KeysIncrease(nodes: Nodes, edges: Edges, p: seq<Name>, i: nat, j: nat)
    requires EdgesOk(nodes, edges) && IsPath(edges, p) && i < j < |p|
    ensures p[i].Key() < p[j].Key()
    decreases j - i
  {
    assert EdgeOk(nodes, (p[j - 1], p[j]), edges[(p[j - 1], p[j])]);
    if i < j - 1 {
      KeysIncrease(nodes, edges, p, i, j - 1);
    }
  }

  predicate IsLeast(names: set<Name>, n: Name) { n in names && forall m | m in names :: n.Key() <= m.Key() }

  lemma {:induction false} LeastExists(names: set<Name>, x: Name) returns (n: Name)
    requires x in names
    ensures IsLeast(names, n)
    decreases x.Key()
  {
    if y :| y in names && y.Key() < x.Key() {
      n := LeastExists(names, y);
    } else {
      n := x;
    }
  }

  /** Listing by key: everything listed comes no later than everything left. */
  ghost predicate Listed(order: seq<Name>, rest: set<Name>) {
    && (forall n, m | n in order && m in rest :: n.Key() <= m.Key())
    && (forall i, j | 0 <= i < j < |order| :: order[i].Key() <= order[j].Key())
  }

  lemma {:induction false} ListNext(order: seq<Name>, rest: set<Name>, n: Name)
    requires Listed(order, rest) && IsLeast(rest, n)
    ensures Listed(order + [n], rest - {n})
    ensures multiset(order + [n]) + multiset(rest - {n}) == multiset(order) + multiset(rest)
  {
  }

  /** A topological order exists for every graph whose edges increase the key: list the nodes by key. */
  method TopologicalSort(nodes: Nodes, edges: Edges) returns (order: seq<Name>)
    requires EdgesOk(nodes, edges)
    ensures IsTopological(order, nodes, edges)
  {
    order := [];
    var rest := nodes.Keys;
    while rest != {}
      invariant multiset(order) + multiset(rest) == multiset(nodes.Keys)
      invariant Listed(order, rest)
    {
      ghost var some :| some in rest;
      ghost var _ := LeastExists(rest, some);
      var n :| n in rest && IsLeast(rest, n);
      ListNext(order, rest, n);
      order := order + [n];
      rest := rest - {n};
    }
    ListedIsTopological(nodes, edges, order);
  }

  lemma {:induction false} ListedIsTopological(nodes: Nodes, edges: Edges, order: seq<Name>)
    requires EdgesOk(nodes, edges) && Listed(order, {}) && multiset(order) == multiset(nodes.Keys)
    ensures IsTopological(order, nodes, edges)
  {
    forall i, j | 0 <= i < |order| && 0 <= j < |order| && (order[i], order[j]) in edges ensures i < j {
      assert EdgeOk(nodes, (order[i], order[j]), edges[(order[i], order[j])]);
    }
  }

  // ---------------------------------------------------------------- the dynamic program

  /** Best cost so far and the predecessor that gives it; a node without predecessors points to itself. */
  type Distances = map<Name, (int, Name)>

  ghost predicate IsPred(edges: Edges, v: Name, n: Name) { (v, n) in edges }

  /** What the dynamic program establishes for a node. */
  ghost predicate Bellman(edges: Edges, dist: Distances, n: Name) {
    && n in dist
    && (forall v | IsPred(edges, v, n) :: v in dist && dist[v].0 + edges[(v, n)].cost <= dist[n].0)
    && (if IsPred(edges, dist[n].1, n)
        then dist[n].0 == dist[dist[n].1].0 + edges[(dist[n].1, n)].cost
        else dist[n] == (0, n) && forall v :: !IsPred(edges, v, n))
  }

  /** The recurrence holds at every node. */
  ghost predicate Solved(nodes: Nodes, edges: Edges, dist: Distances) {
    dist.Keys == nodes.Keys && forall m {:trigger Bellman(edges, dist, m)} | m in nodes :: Bellman(edges, dist, m)
  }

  /** Python compares candidates as (length, name) pairs; only the first part matters below. */
  predicate Better(a: (int, Name), b: (int, Name), nameLess: (Name, Name) -> bool) {
    a.0 > b.0 || (a.0 == b.0 && nameLess(b.1, a.1))
  }

  ghost predicate IsOrder(nameLess: (Name, Name) -> bool) {
    && (forall a :: !nameLess(a, a))
    && forall a, b, c {:trigger nameLess(a, b), nameLess(b, c)} | nameLess(a, b) && nameLess(b, c) :: nameLess(a, c)
  }

  /** No predecessor offers a better pair than the one chosen, ties by name included. */
  ghost predicate IsMaximal(edges: Edges, dist: Distances, n: Name, nameLess: (Name, Name) -> bool) {
    n in dist && forall v | IsPred(edges, v, n) ::
      v in dist && !Better((dist[v].0 + edges[(v, n)].cost, v), dist[n], nameLess)
  }

  /** The maximum over one node's predecessors. */
  method BestPredecessor(edges: Edges, dist: Distances, n: Name,
      nameLess: (Name, Name) -> bool) returns (best: (int, Name))
    requires forall v | IsPred(edges, v, n) :: v in dist
    requires !IsPred(edges, n, n) && IsOrder(nameLess)
    ensures Bellman(edges, dist[n := best], n) && IsMaximal(edges, dist[n := best], n, nameLess)
  {
    var preds := set k | k in edges.Keys && k.1 == n :: k.0;
    assert forall v :: v in preds <==> (v, n) in edges by {
      forall v | (v, n) in edges ensures v in preds {
        assert (v, n) in edges.Keys && (v, n).1 == n && (v, n).0 == v;
      }
    }
    if preds == {} {
      best := (0, n);
      return;
    }
    var first :| first in preds;
    best := (dist[first].0 + edges[(first, n)].cost, first);
    var rest := preds - {first};
    while rest != {}
      invariant rest <= preds
      invariant best.1 in preds && best.0 == dist[best.1].0 + edges[(best.1, n)].cost
      invariant forall v | v in preds - rest :: !Better((dist[v].0 + edges[(v, n)].cost, v), best, nameLess)
    {
      var v :| v in rest;
      var candidate := (dist[v].0 + edges[(v, n)].cost, v);
      if Better(candidate, best, nameLess) {
        best := candidate;
      }
      rest := rest - {v};
    }
  }

  /** One pass over any topological order solves the recurrence at every node. */
  method ComputeDistances(nodes: Nodes, edges: Edges, order: seq<Name>,
      nameLess: (Name, Name) -> bool) returns (dist: Distances)
    requires EdgesOk(nodes, edges) && IsTopological(order, nodes, edges) && IsOrder(nameLess)
    ensures Solved(nodes, edges, dist)
    ensures forall n | n in nodes :: IsMaximal(edges, dist, n, nameLess)
  {
    dist := map[];
    ListsOnce(order, nodes);
    for i := 0 to |order|
      invariant forall n :: n in dist <==> n in order[..i]
      invariant forall n | n in dist :: Bellman(edges, dist, n) && IsMaximal(edges, dist, n, nameLess)
    {
      var n := order[i];
      forall v | IsPred(edges, v, n) ensures v in dist {
        PredecessorEarlier(nodes, edges, order, v, i);
      }
      assert !IsPred(edges, n, n) by {
        if IsPred(edges, n, n) { PredecessorEarlier(nodes, edges, order, n, i); }
      }
      var best := BestPredecessor(edges, dist, n, nameLess);
      var dist' := dist[n := best];
      forall m | m in dist ensures Bellman(edges, dist', m) && IsMaximal(edges, dist', m, nameLess) {
        assert n !in order[..i];
        assert Bellman(edges, dist, m) && IsMaximal(edges, dist, m, nameLess);
      }
      dist := dist';
    }
    assert order[..|order|] == order;
  }

  lemma {:induction false} PredecessorEarlier(nodes: Nodes, edges: Edges, order: seq<Name>, v: Name, i: nat)
    requires EdgesOk(nodes, edges) && IsTopological(order, nodes, edges)
    requires i < |order| && IsPred(edges, v, order[i])
    ensures v in order[..i]
  {
    assert EdgeOk(nodes, (v, order[i]), edges[(v, order[i])]);
    ListsOnce(order, nodes);
    var j :| 0 <= j < |order| && order[j] == v;
    assert j < i;
  }

  // ---------------------------------------------------------------- potentials

  type Potential = map<Name, int>

  /** No edge gains more cost than potential. */
  ghost predicate Feasible(edges: Edges, d: Potential) {
    forall k | k in edges :: k.0 in d && k.1 in d && d[k.0] + edges[k].cost <= d[k.1]
  }

  /** Along a path the cost is at most the rise in potential. */
  lemma {:induction false} CostWithinRise(edges: Edges, d: Potential, p: seq<Name>)
    requires Feasible(edges, d) && IsPath(edges, p) && p[0] in d
    ensures p[|p| - 1] in d && Cost(edges, p) <= d[p[|p| - 1]] - d[p[0]]
  {
    if |p| > 1 {
      assert (p[|p| - 2], p[|p| - 1]) in edges;
      CostWithinRise(edges, d, p[..|p| - 1]);
    }
  }

  /** On a path of tight edges it is exactly the rise. */
  lemma {:induction false} CostIsRise(edges: Edges, d: Potential, p: seq<Name>)
    requires IsPath(edges, p) && forall n | n in p :: n in d
    requires forall i, j {:trigger p[i], p[j]} | 0 <= i < |p|
      && j == i + 1 < |p| :: d[p[i]] + edges[(p[i], p[j])].cost == d[p[j]]
    ensures Cost(edges, p) == d[p[|p| - 1]] - d[p[0]]
  {
    if |p| > 1 {
      CostIsRise(edges, d, p[..|p| - 1]);
    }
  }

  ghost function Lengths(dist: Distances): Potential { map n | n in dist :: dist[n].0 }

  lemma {:induction false} DistancesNonNegative(nodes: Nodes, edges: Edges, dist: Distances, n: Name)
    requires EdgesOk(nodes, edges) && NonNegative(edges) && Solved(nodes, edges, dist)
    requires n in nodes
    ensures dist[n].0 >= 0
    decreases n.Key()
  {
    assert Bellman(edges, dist, n);
    var v := dist[n].1;
    if IsPred(edges, v, n) {
      assert EdgeOk(nodes, (v, n), edges[(v, n)]);
      DistancesNonNegative(nodes, edges, dist, v);
    }
  }

  // ---------------------------------------------------------------- backtracking

  /** `p` follows predecessors back from `last`, through nodes of positive distance except perhaps the first. */
  ghost predicate Trail(edges: Edges, dist: Distances, last: Name, p: seq<Name>) {
    && IsPath(edges, p) && p[|p| - 1] == last
    && (forall m | m in p :: m in dist)
    && (forall i, j {:trigger p[i], p[j]} | 0 <= i < |p| && j == i + 1 < |p| ::
      dist[p[j]].0 > 0 && dist[p[j]].1 == p[i])
  }

  lemma {:induction false} TrailExtends(edges: Edges, dist: Distances, last: Name, p: seq<Name>, n: Name)
    requires Trail(edges, dist, last, p) && dist[p[0]].0 > 0 && dist[p[0]].1 == n
    requires n in dist && (n, p[0]) in edges
    ensures Trail(edges, dist, last, [n] + p)
  {
  }

  lemma {:induction false} Follow(nodes: Nodes, edges: Edges, dist: Distances, last: Name, path: seq<Name>)
    requires EdgesOk(nodes, edges) && Solved(nodes, edges, dist) && path != [] && Trail(edges, dist, last, path)
    requires dist[path[0]].0 > 0
    ensures var n := dist[path[0]].1;
      n in nodes && n.Key() < path[0].Key() && Trail(edges, dist, last, [n] + path)
  {
    var n := dist[path[0]].1;
    assert path[0] in path && Bellman(edges, dist, path[0]);
    assert EdgeOk(nodes, (n, path[0]), edges[(n, path[0])]);
    TrailExtends(edges, dist, last, path, n);
  }

  /** The loop rebuilds the path backwards and stops because keys decrease along predecessors. It ends at
      a node of distance at most 0, and finds nothing exactly when it starts at one. */
  method Backtrack(nodes: Nodes, edges: Edges, dist: Distances, last: Name) returns (path: seq<Name>)
    requires EdgesOk(nodes, edges) && Solved(nodes, edges, dist)
    requires last in nodes
    ensures path == [] <==> dist[last].0 <= 0
    ensures path != [] ==> Trail(edges, dist, last, path) && |path| > 1 && dist[path[0]].0 <= 0
  {
    path := [];
    var node, length := last, dist[last].0;
    while length > 0
      invariant path == [] ==> node == last && length == dist[last].0
      invariant path != [] ==> Trail(edges, dist, last, path) && dist[path[0]] == (length, node) && dist[last].0 > 0
      invariant length > 0 ==> Trail(edges, dist, last, [node] + path)
      decreases length > 0, node.Key()
    {
      path := [node] + path;
      assert node in path;
      length, node := dist[node].0, dist[node].1;
      if length > 0 {
        Follow(nodes, edges, dist, last, path);
      }
    }
  }

  /** The first node with a greatest pair of distance and predecessor name. */
  ghost predicate IsFarthest(order: seq<Name>, dist: Distances, nameLess: (Name, Name) -> bool, i: nat) {
    && i < |order| && (forall n | n in order :: n in dist)
    && (forall k | 0 <= k < |order| :: !Better(dist[order[k]], dist[order[i]], nameLess))
    && forall k | 0 <= k < i :: dist[order[k]] != dist[order[i]]
  }

  method Farthest(order: seq<Name>, dist: Distances, nameLess: (Name, Name) -> bool) returns (best: nat)
    requires order != [] && IsOrder(nameLess) && forall n | n in order :: n in dist
    ensures IsFarthest(order, dist, nameLess, best)
  {
    best := 0;
    for i := 1 to |order|
      invariant best < i
      invariant forall k | 0 <= k < i :: !Better(dist[order[k]], dist[order[best]], nameLess)
      invariant forall k | 0 <= k < best :: dist[order[k]] != dist[order[best]]
    {
      if Better(dist[order[i]], dist[order[best]], nameLess) {
        best := i;
      }
    }
  }

  // ---------------------------------------------------------------- distances are longest paths

  ghost predicate IsRoot(edges: Edges, n: Name) { forall v :: !IsPred(edges, v, n) }

  lemma {:induction false} BestPathTo(nodes: Nodes, edges: Edges, dist: Distances, n: Name) returns (p: seq<Name>)
    requires EdgesOk(nodes, edges) && Solved(nodes, edges, dist)
    requires n in nodes
    ensures IsPathIn(nodes, edges, p) && p[|p| - 1] == n && IsRoot(edges, p[0])
    ensures Cost(edges, p) == dist[n].0
    decreases n.Key()
  {
    assert Bellman(edges, dist, n);
    var v := dist[n].1;
    if IsPred(edges, v, n) {
      assert EdgeOk(nodes, (v, n), edges[(v, n)]);
      var q := BestPathTo(nodes, edges, dist, v);
      p := q + [n];
      assert p[..|p| - 1] == q;
    } else {
      p := [n];
    }
  }

  /** The distance of a node is the greatest cost of any path that ends there: over all paths when costs
      are non-negative, and over the paths that start at a root whatever the signs. */
  lemma {:induction false} DistanceIsMaximum(nodes: Nodes, edges: Edges, dist: Distances, n: Name)
    requires EdgesOk(nodes, edges) && Solved(nodes, edges, dist)
    requires n in nodes
    ensures exists p ::
      IsPathIn(nodes, edges, p) && p[|p| - 1] == n && IsRoot(edges, p[0]) && Cost(edges, p) == dist[n].0
    ensures forall p {:trigger IsPathIn(nodes, edges, p)} | IsPathIn(nodes, edges, p) && p[|p| - 1] == n
      && (NonNegative(edges) || IsRoot(edges, p[0])) ::
      Cost(edges, p) <= dist[n].0
  {
    var best := BestPathTo(nodes, edges, dist, n);
    LengthsFeasible(nodes, edges, dist);
    forall p | IsPathIn(nodes, edges, p) && p[|p| - 1] == n && (NonNegative(edges) || IsRoot(edges, p[0]))
      ensures Cost(edges, p) <= dist[n].0
    {
      CostWithinRise(edges, Lengths(dist), p);
      if NonNegative(edges) {
        DistancesNonNegative(nodes, edges, dist, p[0]);
      } else {
        assert Bellman(edges, dist, p[0]);
      }
    }
  }

  lemma {:induction false} LengthsFeasible(nodes: Nodes, edges: Edges, dist: Distances)
    requires EdgesOk(nodes, edges) && Solved(nodes, edges, dist)
    ensures Feasible(edges, Lengths(dist))
  {
    var d := Lengths(dist);
    forall k | k in edges ensures k.0 in d && k.1 in d && d[k.0] + edges[k].cost <= d[k.1] {
      assert EdgeOk(nodes, k, edges[k]) && Bellman(edges, dist, k.1);
      assert IsPred(edges, k.0, k.1) && k == (k.0, k.1);
    }
  }

  // ---------------------------------------------------------------- composing paths

  ghost predicate Extends(edges: Edges, more: Edges) {
    forall k | k in edges :: k in more && more[k] == edges[k]
  }

  lemma {:induction false} CostInExtension(edges: Edges, more: Edges, p: seq<Name>)
    requires IsPath(edges, p) && Extends(edges, more)
    ensures IsPath(more, p) && Cost(more, p) == Cost(edges, p)
  {
    if |p| > 1 {
      CostInExtension(edges, more, p[..|p| - 1]);
    }
  }

  lemma {:induction false} Compose(edges: Edges, p: seq<Name>, q: seq<Name>)
    requires IsPath(edges, p) && IsPath(edges, q) && p[|p| - 1] == q[0]
    ensures IsPath(edges, p + q[1..]) && (p + q[1..])[|p| + |q| - 2] == q[|q| - 1]
    ensures Cost(edges, p + q[1..]) == Cost(edges, p) + Cost(edges, q)
    decreases |q|
  {
    var r := p + q[1..];
    forall k | 0 <= k < |r| - 1 ensures (r[k], r[k + 1]) in edges {
      if k >= |p| - 1 {
        assert r[k] == q[k + 1 - |p|] && r[k + 1] == q[k + 2 - |p|];
      }
    }
    if |q| > 1 {
      var q' := q[..|q| - 1];
      Compose(edges, p, q');
      assert r[..|r| - 1] == p + q'[1..];
    } else {
      assert r == p;
    }
  }

  lemma {:induction false} FreePathEdges(edges: Edges, p: seq<Name>)
    requires NonNegative(edges) && IsPath(edges, p)
    ensures Cost(edges, p) >= 0
    ensures Cost(edges, p) == 0 ==>
      forall i, j {:trigger p[i], p[j]} | 0 <= i < |p| && j == i + 1 < |p| :: edges[(p[i], p[j])].cost == 0
  {
    if |p| > 1 {
      FreePathEdges(edges, p[..|p| - 1]);
      assert edges[(p[|p| - 2], p[|p| - 1])].cost >= 0;
    }
  }
}
