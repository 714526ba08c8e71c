/** Growing a binary tree with a sorted worklist, against growing it by recursion
    (baseline/adaboost/decision_tree.py, _build_best_first_tree and _build_depth_first_tree). */
module Growth {
  import opened Trace
  import opened Sorting

  /** What growth needs to know of a node's content N: how to split it, when not to, and its leaf value V. */
  datatype Rules<!N, !S, !V> = Rules(
    split: N -> S,
    decrease: N -> real,
    minDecrease: real,
    halted: N -> bool,
    left: N -> N,
    right: N -> N,
    value: N -> V,
    good: N -> bool,
    size: N -> nat)

  predicate Expands<N, S, V>(g: Rules<N, S, V>, n: N) { g.decrease(n) > g.minDecrease && !g.halted(n) }

  /** Good content is non-empty, and splitting it gives two good, strictly smaller parts. */
  ghost predicate RulesOk<N(!new), S, V>(g: Rules<N, S, V>) {
    && (forall n | g.good(n) :: g.size(n) > 0)
    && (forall n {:trigger Expands(g, n)} | g.good(n) && Expands(g, n) ::
          g.good(g.left(n)) && g.good(g.right(n)) && g.size(g.left(n)) + g.size(g.right(n)) == g.size(n))
  }

  datatype Tree<S, V> = Leaf(value: V) | Branch(split: S, left: Tree<S, V>, right: Tree<S, V>)

  /** Depth-first growth. */
  function Grow<N(!new), S, V>(g: Rules<N, S, V>, n: N): Tree<S, V>
    requires RulesOk(g) && g.good(n)
    decreases g.size(n)
  {
    if Expands(g, n) then
      assert g.size(g.left(n)) > 0 && g.size(g.right(n)) > 0;
      Branch(g.split(n), Grow(g, g.left(n)), Grow(g, g.right(n)))
    else Leaf(g.value(n))
  }

  // ---------------------------------------------------------------- node objects

  /** A node's place: the turns taken from the root. */
  datatype Path = Root | Turn(parent: Path, right: bool)

  function Depth(p: Path): nat { if p.Root? then 0 else Depth(p.parent) + 1 }

  lemma {:induction false} NeverOwnAncestor(p: Path)
    ensures forall a :: Turn(p, a) != p
    ensures forall a, b :: Turn(Turn(p, a), b) != p
  {
    forall a, b ensures Turn(p, a) != p && Turn(Turn(p, a), b) != p {
      assert Depth(Turn(p, a)) == Depth(p) + 1 && Depth(Turn(Turn(p, a), b)) == Depth(p) + 2;
    }
  }

  /** A node object: initialising it makes its two children; `value` is set when it becomes a leaf. */
  datatype Node<N, V> = Node(content: N, initialised: bool, value: Option<V>)

  type Store<N, V> = map<Path, Node<N, V>>

  ghost predicate Initialised<N, V>(store: Store<N, V>, path: Path) { path in store && store[path].initialised }

  ghost predicate ChildIs<N, V>(store: Store<N, V>, path: Path, content: N, initialised: bool) {
    && path in store && store[path].content == content && store[path].initialised == initialised
    && (!initialised ==> store[path].value.None?)
  }

  /** What holds of an initialised node, given the worklist. */
  ghost predicate NodeOk<N(!new), S, V>(g: Rules<N, S, V>, store: Store<N, V>, nodes: seq<Path>, path: Path)
    requires path in store
  {
    var n := store[path].content;
    && g.good(n)
    && (store[path].value.Some? ==>
          && store[path].value == Some(g.value(n)) && !Expands(g, n)
          && (path in nodes ==> g.decrease(n) <= g.minDecrease))
    && (store[path].value.None? ==>
          && ChildIs(store, Turn(path, false), g.left(n), path !in nodes)
          && ChildIs(store, Turn(path, true), g.right(n), path !in nodes)
          && (path !in nodes ==> Expands(g, n)))
  }

  ghost predicate Sound<N(!new), S, V>(g: Rules<N, S, V>, store: Store<N, V>, nodes: seq<Path>) {
    && NoRepeats(nodes)
    && (forall path | path in store && path.Turn? :: Initialised(store, path.parent))
    && (forall path | path in nodes :: Initialised(store, path))
    && (forall path | Initialised(store, path) :: NodeOk(g, store, nodes, path))
  }

  /** The node objects below `path` form the tree `t`. */
  ghost predicate Represents<N(!new), S, V>(g: Rules<N, S, V>, store: Store<N, V>, path: Path, t: Tree<S, V>)
    decreases t
  {
    && Initialised(store, path)
    && match t
       case Leaf(v) => store[path].value == Some(v)
       case Branch(s, l, r) =>
         && store[path].value.None? && g.split(store[path].content) == s
         && Represents(g, store, Turn(path, false), l) && Represents(g, store, Turn(path, true), r)
  }

  /** The node objects below `path` are the ones recursion visits from content `n`: each holds the content recursion
      has there, and a value exactly where recursion stops. */
  ghost predicate Mirrors<N(!new), S, V>(g: Rules<N, S, V>, store: Store<N, V>, path: Path, n: N)
    requires RulesOk(g) && g.good(n)
    decreases g.size(n)
  {
    && Initialised(store, path) && store[path].content == n
    && if Expands(g, n) then
         assert g.size(g.left(n)) > 0 && g.size(g.right(n)) > 0;
         && store[path].value.None?
         && Mirrors(g, store, Turn(path, false), g.left(n)) && Mirrors(g, store, Turn(path, true), g.right(n))
       else store[path].value == Some(g.value(n))
  }

  /** Once the worklist is empty, every initialised node stands for the tree that recursion grows from it. */
  lemma {:induction false} FinishedIsGrown<N(!new), S, V>(g: Rules<N, S, V>, store: Store<N, V>, path: Path)
    requires RulesOk(g) && Sound(g, store, []) && Initialised(store, path)
    ensures g.good(store[path].content) && Mirrors(g, store, path, store[path].content)
    ensures Represents(g, store, path, Grow(g, store[path].content))
    decreases g.size(store[path].content)
  {
    assert NodeOk(g, store, [], path);
    var n := store[path].content;
    if store[path].value.None? {
      assert g.size(g.left(n)) > 0 && g.size(g.right(n)) > 0;
      FinishedIsGrown(g, store, Turn(path, false));
      FinishedIsGrown(g, store, Turn(path, true));
    }
  }

  /** The node objects below a place form at most one tree. */
  lemma {:induction false} RepresentsOne<N(!new), S, V>(g: Rules<N, S, V>, store: Store<N, V>, path: Path,
      a: Tree<S, V>, b: Tree<S, V>)
    requires Represents(g, store, path, a) && Represents(g, store, path, b)
    ensures a == b
    decreases a
  {
    if a.Branch? {
      RepresentsOne(g, store, Turn(path, false), a.left, b.left);
      RepresentsOne(g, store, Turn(path, true), a.right, b.right);
    }
  }

  // ---------------------------------------------------------------- the steps

  /** `_init_node`: mark the node and make both children. */
  function InitNode<N, S, V>(g: Rules<N, S, V>, store: Store<N, V>, path: Path): Store<N, V>
    requires path in store
  {
    var n := store[path].content;
    store[path := store[path].(initialised := true)]
         [Turn(path, false) := Node(g.left(n), false, None)]
         [Turn(path, true) := Node(g.right(n), false, None)]
  }

  /** `to_leaf`. */
  function ToLeaf<N, S, V>(g: Rules<N, S, V>, store: Store<N, V>, path: Path): Store<N, V>
    requires path in store
  {
    store[path := store[path].(value := Some(g.value(store[path].content)))]
  }

  lemma {:induction false} RootSound<N(!new), S, V>(g: Rules<N, S, V>, n: N)
    requires g.good(n)
    ensures Sound(g, InitNode(g, map[Root := Node(n, false, None)], Root), [Root])
  {
  }

  lemma {:induction false} LeafNodeOk<N(!new), S, V>(g: Rules<N, S, V>, store: Store<N, V>, nodes: seq<Path>,
      rest: seq<Path>, path: Path, q: Path)
    requires Initialised(store, path) && Initialised(store, q)
    requires NodeOk(g, store, nodes, path) && NodeOk(g, store, nodes, q) && !Expands(g, store[path].content)
    requires q != path ==> (q in nodes <==> q in rest)
    requires path in rest ==> g.decrease(store[path].content) <= g.minDecrease
    ensures NodeOk(g, ToLeaf(g, store, path), rest, q)
  {
  }

  /** Turning a node into a leaf that recursion also leaves unsplit. It leaves the worklist, or its decrease
      is small enough for it to become a leaf again when it is taken from there. */
  lemma {:induction false} LeafSound<N(!new), S, V>(g: Rules<N, S, V>, store: Store<N, V>, nodes: seq<Path>,
      rest: seq<Path>, path: Path)
    requires Sound(g, store, nodes) && path in nodes && !Expands(g, store[path].content)
    requires NoRepeats(rest) && forall q | q != path :: q in nodes <==> q in rest
    requires path in rest ==> g.decrease(store[path].content) <= g.minDecrease
    ensures Sound(g, ToLeaf(g, store, path), rest)
  {
    var after := ToLeaf(g, store, path);
    forall q | Initialised(after, q) ensures NodeOk(g, after, rest, q) {
      assert Initialised(store, q) && Initialised(store, path);
      assert NodeOk(g, store, nodes, q) && NodeOk(g, store, nodes, path);
      LeafNodeOk(g, store, nodes, rest, path, q);
    }
  }

  /** Initialising both children of a node. */
  function Expand<N, S, V>(g: Rules<N, S, V>, store: Store<N, V>, path: Path): Store<N, V>
    requires Turn(path, false) in store && Turn(path, true) in store
  {
    InitNode(g, InitNode(g, store, Turn(path, false)), Turn(path, true))
  }

  /** What expanding changes: the children are initialised, the grandchildren appear, all else stays. */
  lemma {:induction false} ExpandAt<N, S, V>(g: Rules<N, S, V>, store: Store<N, V>, path: Path, q: Path)
    requires Turn(path, false) in store && Turn(path, true) in store
    ensures var after := Expand(g, store, path);
      if q.Turn? && q.parent == path then
        q in store && q in after && after[q] == store[q].(initialised := true)
      else if q.Turn? && q.parent.Turn? && q.parent.parent == path then
        && q.parent in store && q in after
        && after[q]
          == Node(if q.right then g.right(store[q.parent].content) else g.left(store[q.parent].content), false, None)
      else (q in after <==> q in store) && (q in store ==> after[q] == store[q])
  {
    NeverOwnAncestor(path);
    if q.Turn? {
      assert q == Turn(q.parent, q.right);
      if q.parent.Turn? {
        assert q.parent == Turn(q.parent.parent, q.parent.right);
      }
    }
  }

  lemma {:induction false} ExpandNodeOk<N(!new), S, V>(g: Rules<N, S, V>, store: Store<N, V>, before: seq<Path>,
      path: Path, nodes: seq<Path>, q: Path)
    requires RulesOk(g) && Initialised(store, path) && NodeOk(g, store, before, path) && path in before
    requires Expands(g, store[path].content) && store[path].value.None?
    requires path !in nodes && Turn(path, false) in nodes && Turn(path, true) in nodes
    requires q in store && (Initialised(store, q) || (q.Turn? && q.parent == path))
    requires Initialised(store, q) ==> NodeOk(g, store, before, q)
    requires !(q.Turn? && q.parent.Turn? && q.parent.parent == path)
    requires q != path && !(q.Turn? && q.parent == path) ==> (q in nodes <==> q in before)
    ensures NodeOk(g, Expand(g, store, path), nodes, q)
  {
  }

  /** Splitting a node: it leaves the worklist and its children join. */
  lemma {:induction false} ExpandSound<N(!new), S, V>(g: Rules<N, S, V>, store: Store<N, V>, before: seq<Path>,
      path: Path, nodes: seq<Path>)
    requires RulesOk(g) && Sound(g, store, before) && path in before
    requires Expands(g, store[path].content) && store[path].value.None?
    requires NoRepeats(nodes)
    requires forall q :: q in nodes <==> (q in before && q != path) || q == Turn(path, false) || q == Turn(path, true)
    ensures Turn(path, false) in store && Turn(path, true) in store && Sound(g, Expand(g, store, path), nodes)
  {
    assert Initialised(store, path) && NodeOk(g, store, before, path);
    var after := Expand(g, store, path);
    forall q | q in after && q.Turn? ensures Initialised(after, q.parent) {
      ExpandAt(g, store, path, q);
      ExpandAt(g, store, path, q.parent);
    }
    forall q | q in nodes ensures Initialised(after, q) {
      ExpandAt(g, store, path, q);
    }
    forall q | Initialised(after, q) ensures NodeOk(g, after, nodes, q) {
      ExpandAt(g, store, path, q);
      assert Initialised(store, q) ==> NodeOk(g, store, before, q);
      ExpandNodeOk(g, store, before, path, nodes, q);
    }
  }

  // ---------------------------------------------------------------- the worklist loop

  /** Worklist order: falling decrease. */
  function ByDecrease<N, S, V>(g: Rules<N, S, V>, store: Store<N, V>): Path -> real {
    path => if path in store then -g.decrease(store[path].content) else 0.0
  }

  ghost function WeightOf<N, S, V>(g: Rules<N, S, V>, store: Store<N, V>): Path -> nat {
    path => if path in store && g.size(store[path].content) > 0 then 2 * g.size(store[path].content) - 1 else 0
  }

  /** Contents never change once a node object exists. */
  ghost predicate Keeps<N, V>(store: Store<N, V>, after: Store<N, V>) {
    forall path | path in store ::
      && path in after && after[path].content == store[path].content
      && (store[path].initialised ==> after[path].initialised)
  }

  lemma {:induction false} KeepsOrder<N(!new), S, V>(g: Rules<N, S, V>, store: Store<N, V>, after: Store<N, V>,
      nodes: seq<Path>)
    requires Keeps(store, after) && forall path | path in nodes :: path in store
    ensures SortedBy(nodes, ByDecrease(g, store)) ==> SortedBy(nodes, ByDecrease(g, after))
    ensures SumOf(nodes, WeightOf(g, store)) == SumOf(nodes, WeightOf(g, after))
  {
    var a, b := ByDecrease(g, store), ByDecrease(g, after);
    assert forall path | path in nodes :: a(path) == b(path);
    if SortedBy(nodes, a) {
      SortedSame(nodes, a, b);
    }
    SumSame(nodes, WeightOf(g, store), WeightOf(g, after));
  }

  lemma {:induction false} ExpandKeeps<N, S, V>(g: Rules<N, S, V>, store: Store<N, V>, path: Path)
    requires Turn(path, false) in store && Turn(path, true) in store
    requires forall a, b :: Turn(Turn(path, a), b) !in store
    ensures Keeps(store, Expand(g, store, path))
  {
  }

  /** The shortcut: everything still waiting becomes a leaf at once, without leaving the worklist. */
  method AllToLeaf<N(!new), S, V>(g: Rules<N, S, V>, store: Store<N, V>, nodes: seq<Path>) returns (after: Store<N, V>)
    requires Sound(g, store, nodes)
    requires forall path | path in nodes :: g.decrease(store[path].content) <= g.minDecrease
    ensures Sound(g, after, nodes) && Keeps(store, after)
  {
    after := store;
    for i := 0 to |nodes|
      invariant Sound(g, after, nodes) && Keeps(store, after)
    {
      assert nodes[i] in nodes && Initialised(after, nodes[i]);
      LeafSound(g, after, nodes, nodes, nodes[i]);
      after := ToLeaf(g, after, nodes[i]);
    }
  }

  /** Take the head of a sound worklist as a leaf. */
  lemma {:induction false} PopLeaf<N(!new), S, V>(g: Rules<N, S, V>, store: Store<N, V>, nodes: seq<Path>)
    requires Sound(g, store, nodes) && nodes != [] && Initialised(store, nodes[0])
      && !Expands(g, store[nodes[0]].content)
    ensures Sound(g, ToLeaf(g, store, nodes[0]), nodes[1..]) && Keeps(store, ToLeaf(g, store, nodes[0]))
  {
    LeafSound(g, store, nodes, nodes[1..], nodes[0]);
  }

  /** The worklist without its head, and the head's children behind it. */
  function Replaced(nodes: seq<Path>): seq<Path>
    requires nodes != []
  {
    nodes[1..] + [Turn(nodes[0], false), Turn(nodes[0], true)]
  }

  lemma {:induction false} ReplacedOnce<N(!new), S, V>(g: Rules<N, S, V>, store: Store<N, V>, nodes: seq<Path>)
    requires Sound(g, store, nodes) && nodes != [] && Initialised(store, nodes[0])
    requires !Initialised(store, Turn(nodes[0], false)) && !Initialised(store, Turn(nodes[0], true))
    ensures NoRepeats(Replaced(nodes))
    ensures forall q ::
      q in Replaced(nodes) <==> (q in nodes && q != nodes[0]) || q == Turn(nodes[0], false) || q == Turn(nodes[0], true)
  {
  }

  /** Take the head of a sound worklist apart; its children join in any order. */
  lemma {:induction false} PopExpand<N(!new), S, V>(g: Rules<N, S, V>, store: Store<N, V>, nodes: seq<Path>,
      next: seq<Path>)
    requires RulesOk(g) && Sound(g, store, nodes) && nodes != [] && Initialised(store, nodes[0])
      && Expands(g, store[nodes[0]].content)
    requires multiset(next) == multiset(Replaced(nodes))
    ensures Turn(nodes[0], false) in store && Turn(nodes[0], true) in store
    ensures Sound(g, Expand(g, store, nodes[0]), next) && Keeps(store, Expand(g, store, nodes[0]))
  {
    var path := nodes[0];
    assert NodeOk(g, store, nodes, path);
    ReplacedOnce(g, store, nodes);
    ReorderedNoRepeats(Replaced(nodes), next);
    SameElements(Replaced(nodes), next);
    assert forall q | q in store && q.Turn? :: Initialised(store, q.parent);
    ExpandKeeps(g, store, path);
    ExpandSound(g, store, nodes, path, next);
  }

  /** Two parts weigh one less than the whole. */
  lemma {:induction false} PopExpandWeight<N(!new), S, V>(g: Rules<N, S, V>, store: Store<N, V>, nodes: seq<Path>,
      after: Store<N, V>)
    requires RulesOk(g) && Sound(g, store, nodes) && nodes != [] && Initialised(store, nodes[0])
      && Expands(g, store[nodes[0]].content)
    requires Keeps(store, after)
    ensures SumOf(Replaced(nodes), WeightOf(g, after)) < SumOf(nodes, WeightOf(g, store))
  {
    var path, rest := nodes[0], nodes[1..];
    var l, r := Turn(path, false), Turn(path, true);
    assert NodeOk(g, store, nodes, path);
    var w := WeightOf(g, after);
    SumOfAppend(rest, [l, r], w);
    assert SumOf([l, r], w) == w(l) + w(r) by {
      assert [l, r][1..] == [r] && SumOf([r], w) == w(r);
    }
    assert forall q | q in rest :: q in nodes && Initialised(store, q);
    KeepsOrder(g, store, after, rest);
    PartsWeighLess(g, store, path, after);
  }

  lemma {:induction false} PartsWeighLess<N(!new), S, V>(g: Rules<N, S, V>, store: Store<N, V>, path: Path,
      after: Store<N, V>)
    requires RulesOk(g) && Keeps(store, after) && path in store && g.good(store[path].content)
      && Expands(g, store[path].content)
    requires Turn(path, false) in store && store[Turn(path, false)].content == g.left(store[path].content)
    requires Turn(path, true) in store && store[Turn(path, true)].content == g.right(store[path].content)
    ensures WeightOf(g, after)(Turn(path, false)) + WeightOf(g, after)(Turn(path, true)) < WeightOf(g, store)(path)
  {
  }

  /** A worklist step: still sound and sorted, nothing forgotten, and less left to do. */
  ghost predicate Advances<N(!new), S, V>(g: Rules<N, S, V>, store: Store<N, V>, nodes: seq<Path>, after: Store<N, V>,
      next: seq<Path>) {
    && Sound(g, after, next) && SortedBy(next, ByDecrease(g, after)) && Keeps(store, after)
    && SumOf(next, WeightOf(g, after)) < SumOf(nodes, WeightOf(g, store))
  }

  lemma {:induction false} LeafAdvances<N(!new), S, V>(g: Rules<N, S, V>, store: Store<N, V>, nodes: seq<Path>,
      after: Store<N, V>)
    requires RulesOk(g) && Sound(g, store, nodes) && SortedBy(nodes, ByDecrease(g, store)) && nodes != []
      && Initialised(store, nodes[0])
    requires Sound(g, after, nodes[1..]) && Keeps(store, after)
    ensures Advances(g, store, nodes, after, nodes[1..])
  {
    var rest := nodes[1..];
    assert NodeOk(g, store, nodes, nodes[0]);
    assert forall q | q in rest :: q in nodes && Initialised(store, q);
    KeepsOrder(g, store, after, rest);
  }

  lemma {:induction false} ExpandAdvances<N(!new), S, V>(g: Rules<N, S, V>, store: Store<N, V>, nodes: seq<Path>)
    requires RulesOk(g) && Sound(g, store, nodes) && nodes != [] && Initialised(store, nodes[0])
      && Expands(g, store[nodes[0]].content)
    ensures Turn(nodes[0], false) in store && Turn(nodes[0], true) in store
    ensures var after := Expand(g, store, nodes[0]);
      Advances(g, store, nodes, after, SortBy(Replaced(nodes), ByDecrease(g, after)))
  {
    assert NodeOk(g, store, nodes, nodes[0]);
    var after := Expand(g, store, nodes[0]);
    var key := ByDecrease(g, after);
    PopExpand(g, store, nodes, SortBy(Replaced(nodes), key));
    PopExpandWeight(g, store, nodes, after);
    SortKeepsSum(Replaced(nodes), key, WeightOf(g, after));
  }

  /** The node objects are the ones recursion visits, and form its tree and no other. */
  ghost predicate Built<N(!new), S(!new), V(!new)>(g: Rules<N, S, V>, store: Store<N, V>, n: N)
    requires RulesOk(g) && g.good(n)
  {
    Mirrors(g, store, Root, n) && forall t :: Represents(g, store, Root, t) <==> t == Grow(g, n)
  }

  /** Best-first growth, with its sorted worklist and its shortcut, builds exactly the tree that recursion
      builds, and it terminates. */
  method BestFirst<N(!new), S(!new), V(!new)>(g: Rules<N, S, V>, n: N) returns (store: Store<N, V>)
    requires RulesOk(g) && g.good(n)
    ensures Built(g, store, n)
  {
    store := InitNode(g, map[Root := Node(n, false, None)], Root);
    RootSound(g, n);
    var nodes := [Root];
    while nodes != []
      invariant Sound(g, store, nodes) && SortedBy(nodes, ByDecrease(g, store))
      invariant Initialised(store, Root) && store[Root].content == n
      decreases SumOf(nodes, WeightOf(g, store))
    {
      store, nodes := Pop(g, store, nodes);
    }
    FinishedIsGrown(g, store, Root);
    forall t | Represents(g, store, Root, t) ensures t == Grow(g, n) {
      RepresentsOne(g, store, Root, t, Grow(g, n));
    }
  }

  /** One pass of the loop. */
  method Pop<N(!new), S, V>(g: Rules<N, S, V>, store: Store<N, V>, nodes: seq<Path>) returns (after: Store<N, V>,
      next: seq<Path>)
    requires RulesOk(g) && Sound(g, store, nodes) && SortedBy(nodes, ByDecrease(g, store)) && nodes != []
    ensures Advances(g, store, nodes, after, next)
  {
    var path := nodes[0];
    next := nodes[1..];
    assert Initialised(store, path) && NodeOk(g, store, nodes, path);
    var content := store[path].content;
    if g.decrease(content) <= g.minDecrease {
      RestIsSmall(g, store, nodes);
      PopLeaf(g, store, nodes);
      after := ToLeaf(g, store, path);
      after := AllToLeaf(g, after, next);
      LeafAdvances(g, store, nodes, after);
    } else if g.halted(content) {
      PopLeaf(g, store, nodes);
      after := ToLeaf(g, store, path);
      LeafAdvances(g, store, nodes, after);
    } else {
      ExpandAdvances(g, store, nodes);
      after := Expand(g, store, path);
      next := SortBy(Replaced(nodes), ByDecrease(g, after));
    }
  }

  /** The worklist is sorted, so when its head gains too little, so does everything behind it. */
  lemma {:induction false} RestIsSmall<N(!new), S, V>(g: Rules<N, S, V>, store: Store<N, V>, nodes: seq<Path>)
    requires nodes != [] && SortedBy(nodes, ByDecrease(g, store)) && forall path | path in nodes :: path in store
    requires g.decrease(store[nodes[0]].content) <= g.minDecrease
    ensures forall path | path in nodes :: g.decrease(store[path].content) <= g.minDecrease
  {
  }
}
