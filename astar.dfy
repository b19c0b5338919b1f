/**
 * A generic A* search. Open and closed nodes are kept in two maps keyed by node value; each step takes the
 * open node of least cost, stops with the path to it when it is an end node, and otherwise closes it and
 * merges its expansions into the open map. Topology and costs come from three hooks.
 */
module AStarSearch {
  import opened Wrappers

  /**
   * A search node: the value it stands for, its predecessor on the best path found, its priority (`cost`,
   * path cost plus the estimate to the goal) and the accumulated `pathCost` from the start.
   */
  datatype AStarNode<V> = AStarNode(value: V, previous: Option<AStarNode<V>>, cost: real, pathCost: real)

  /** The `(cost, pathCost)` pair CostNode returns. */
  datatype Costs = Costs(cost: real, pathCost: real)

  /** The values of the search's `start` and `end` nodes, which every hook may read. */
  datatype Ends<V> = Ends(startValue: V, endValue: V)

  /**
   * The three overridable hooks. Each also receives the start and end values, which an override may read.
   * - costNode: the costs of a node, or None for an impossible move;
   * - expand: the nodes branching from a node, with their members set;
   * - isEndNode: whether a node ends the search.
   */
  datatype Hooks<!V> = Hooks(
    costNode: (AStarNode<V>, Ends<V>) -> Option<Costs>,
    expand: (AStarNode<V>, Ends<V>) -> seq<AStarNode<V>>,
    isEndNode: (AStarNode<V>, Ends<V>) -> bool)

  /** The default CostNode: no estimate, and the predecessor's path cost (or 0 at the start). */
  function DefaultCostNode<V>(node: AStarNode<V>, ends: Ends<V>): (costs: Option<Costs>)
    ensures costs.Some? && costs.value.cost == 0.0
    ensures node.previous.None? ==> costs.value.pathCost == 0.0
    ensures node.previous.Some? ==> costs.value.pathCost == node.previous.value.pathCost
  {
    Some(Costs(0.0, if node.previous.Some? then node.previous.value.pathCost else 0.0))
  }

  /** The default Expand: no branches. */
  function DefaultExpand<V>(node: AStarNode<V>, ends: Ends<V>): (branches: seq<AStarNode<V>>)
    ensures |branches| == 0
  {
    []
  }

  /** The default IsEndNode: the node holds the end value. */
  function DefaultIsEndNode<V(==)>(node: AStarNode<V>, ends: Ends<V>): (isEnd: bool)
    ensures isEnd <==> node.value == ends.endValue
  {
    node.value == ends.endValue
  }

  function DefaultHooks<V(==)>(): Hooks<V>
  {
    Hooks(DefaultCostNode, DefaultExpand, DefaultIsEndNode)
  }

  function Last<T>(s: seq<T>): T
    requires |s| > 0
  {
    s[|s| - 1]
  }

  /** The nodes from the first ancestor (the one with no predecessor) down to `node` itself. */
  function Ancestry<V>(node: Option<AStarNode<V>>): seq<AStarNode<V>>
    decreases node
  {
    match node
    case None => []
    case Some(n) => Ancestry(n.previous) + [n]
  }

  function Chain<V>(node: AStarNode<V>): seq<AStarNode<V>>
  {
    Ancestry(Some(node))
  }

  /** A well-formed path: non-empty, its first node has no predecessor and each node's predecessor is the one before. */
  ghost predicate IsChain<V>(path: seq<AStarNode<V>>)
  {
    && |path| > 0
    && path[0].previous == None
    && forall i :: 0 <= i < |path| - 1 ==> path[i + 1].previous == Some(path[i])
  }

  /** Walking the predecessors of a node gives a well-formed path ending in that node. */
  lemma {:induction false} ChainShape<V>(node: AStarNode<V>)
    ensures IsChain(Chain(node)) && Last(Chain(node)) == node
    decreases node
  {
    match node.previous
    case None =>
      assert Ancestry(node.previous) == [];
      assert Chain(node) == Ancestry(node.previous) + [node];
    case Some(p) =>
      ChainShape(p);
      var c := Chain(node);
      assert c == Chain(p) + [node];
      assert c[0] == Chain(p)[0];
      forall i | 0 <= i < |c| - 1 ensures c[i + 1].previous == Some(c[i]) {
        if i < |c| - 2 {
          assert c[i + 1] == Chain(p)[i + 1] && c[i] == Chain(p)[i];
        } else {
          assert c[i] == Last(Chain(p));
        }
      }
  }

  /** No value occurs twice on the path. */
  ghost predicate DistinctValues<V>(path: seq<AStarNode<V>>)
  {
    forall i, j :: 0 <= i < j < |path| ==> path[i].value != path[j].value
  }

  /** CompletePath: the path to `endNode`, built by prepending predecessors until one has none. */
  method CompletePath<V>(endNode: AStarNode<V>) returns (path: seq<AStarNode<V>>)
    ensures path == Chain(endNode)
  {
    path := [endNode];
    var next := endNode.previous;
    while next.Some?
      invariant Chain(endNode) == Ancestry(next) + path
      decreases next
    {
      path := [next.value] + path;
      next := next.value.previous;
    }
  }

  /** The least-cost open node, ties broken by whichever the map yields first (unspecified). */
  method LowestCost<V>(open: map<V, AStarNode<V>>) returns (best: AStarNode<V>)
    requires open != map[]
    ensures best in open.Values
    ensures forall n :: n in open.Values ==> best.cost <= n.cost
  {
    var keys := open.Keys;
    var first :| first in keys;
    best := open[first];
    keys := keys - {first};
    while keys != {}
      invariant keys <= open.Keys
      invariant best in open.Values
      invariant forall v :: v in open && v !in keys ==> best.cost <= open[v].cost
      decreases keys
    {
      var k :| k in keys;
      if open[k].cost < best.cost {
        best := open[k];
      }
      keys := keys - {k};
    }
  }

  /** Each open or closed node is stored under its own value. */
  ghost predicate KeysMatch<V>(m: map<V, AStarNode<V>>)
  {
    forall v :: v in m ==> m[v].value == v
  }

  /** One branch offered to the open map: skipped if closed or not strictly cheaper than the open entry. */
  function Offer<V>(open: map<V, AStarNode<V>>, closed: map<V, AStarNode<V>>, candidate: AStarNode<V>)
    : map<V, AStarNode<V>>
  {
    if candidate.value in closed then open
    else if candidate.value in open && open[candidate.value].pathCost <= candidate.pathCost then open
    else open[candidate.value := candidate]
  }

  /** The branches offered in order, first to last. */
  function Merge<V>(open: map<V, AStarNode<V>>, closed: map<V, AStarNode<V>>, candidates: seq<AStarNode<V>>)
    : map<V, AStarNode<V>>
    decreases |candidates|
  {
    if candidates == [] then open
    else Offer(Merge(open, closed, candidates[..|candidates| - 1]), closed, candidates[|candidates| - 1])
  }

  /**
   * Offering a branch touches only its own key; it never opens a closed value; it replaces an open entry only
   * with a strictly cheaper path; and afterwards an open, non-closed value costs no more than the branch.
   */
  lemma OfferSpec<V>(open: map<V, AStarNode<V>>, closed: map<V, AStarNode<V>>, candidate: AStarNode<V>)
    ensures var r := Offer(open, closed, candidate);
      && (forall v :: v != candidate.value ==> (v in r <==> v in open) && (v in r ==> r[v] == open[v]))
      && (candidate.value in closed ==> r == open)
      && (candidate.value !in closed ==> candidate.value in r && r[candidate.value].pathCost <= candidate.pathCost)
      && (candidate.value in open ==>
            r[candidate.value] == open[candidate.value] || r[candidate.value].pathCost < open[candidate.value].pathCost)
      && (candidate.value in r ==> r[candidate.value] == candidate || r[candidate.value] == open[candidate.value])
  {
  }

  /**
   * Merging branches: keys stay matched to values, open entries only get cheaper, every entry is the old one
   * or a branch of an unclosed value, a closed value is never opened, and every unclosed branch's value ends
   * up open at no more than the branch's path cost.
   */
  lemma {:induction false} MergeSpec<V>(open: map<V, AStarNode<V>>, closed: map<V, AStarNode<V>>,
                                        candidates: seq<AStarNode<V>>)
    requires KeysMatch(open)
    ensures var r := Merge(open, closed, candidates);
      && KeysMatch(r)
      && (forall v :: v in open ==> v in r && r[v].pathCost <= open[v].pathCost)
      && (forall v :: v in r ==> (v in open && r[v] == open[v]) || (r[v] in candidates && v !in closed))
      && (forall v :: v in closed ==> (v in r <==> v in open))
      && (forall c :: c in candidates && c.value !in closed ==> c.value in r && r[c.value].pathCost <= c.pathCost)
    decreases |candidates|
  {
    if candidates != [] {
      var init := candidates[..|candidates| - 1];
      var c := candidates[|candidates| - 1];
      MergeSpec(open, closed, init);
      var m := Merge(open, closed, init);
      OfferSpec(m, closed, c);
      assert forall x :: x in candidates <==> x in init || x == c;
    }
  }

  /** Every branch Expand produces holds a value of `universe`: the search space is finite. */
  ghost predicate ExpandsWithin<V(!new)>(expand: (AStarNode<V>, Ends<V>) -> seq<AStarNode<V>>, ends: Ends<V>, universe: set<V>)
  {
    forall n, c :: c in expand(n, ends) ==> c.value in universe
  }

  /** Expand sets every branch's predecessor to the node expanded, as the hook's contract asks. */
  ghost predicate ParentLinked<V(!new)>(expand: (AStarNode<V>, Ends<V>) -> seq<AStarNode<V>>, ends: Ends<V>)
  {
    forall n, c :: c in expand(n, ends) ==> c.previous == Some(n)
  }

  /** `node` is `root` or a branch Expand produced from a reachable node. */
  ghost predicate Reachable<V>(expand: (AStarNode<V>, Ends<V>) -> seq<AStarNode<V>>, ends: Ends<V>,
                               root: AStarNode<V>, node: AStarNode<V>)
    decreases node
  {
    match node.previous
    case None => node == root
    case Some(p) => node in expand(p, ends) && Reachable(expand, ends, root, p)
  }

  /** Consecutive nodes of the path are linked by Expand. */
  ghost predicate FollowsExpand<V>(expand: (AStarNode<V>, Ends<V>) -> seq<AStarNode<V>>, ends: Ends<V>,
                                   path: seq<AStarNode<V>>)
  {
    forall i :: 0 <= i < |path| - 1 ==> path[i + 1] in expand(path[i], ends)
  }

  /** The path to a reachable node starts at the root and moves along Expand. */
  lemma {:induction false} ReachableChain<V>(expand: (AStarNode<V>, Ends<V>) -> seq<AStarNode<V>>, ends: Ends<V>,
                                             root: AStarNode<V>, node: AStarNode<V>)
    requires Reachable(expand, ends, root, node)
    ensures Chain(node)[0] == root && FollowsExpand(expand, ends, Chain(node))
    decreases node
  {
    match node.previous
    case None =>
      assert Ancestry(node.previous) == [];
      assert Chain(node) == [node];
    case Some(p) =>
      ReachableChain(expand, ends, root, p);
      ChainShape(p);
      var c := Chain(node);
      assert c == Chain(p) + [node];
      forall i | 0 <= i < |c| - 1 ensures c[i + 1] in expand(c[i], ends) {
        if i < |c| - 2 {
          assert c[i + 1] == Chain(p)[i + 1] && c[i] == Chain(p)[i];
        } else {
          assert c[i] == Last(Chain(p)) == p;
        }
      }
  }

  /** The start node costed by CostNode, or None when the start is an impossible move. */
  function Seed<V>(hooks: Hooks<V>, ends: Ends<V>): Option<AStarNode<V>>
  {
    var start := AStarNode(ends.startValue, None, 0.0, 0.0);
    match hooks.costNode(start, ends)
    case None => None
    case Some(c) => Some(start.(cost := c.cost, pathCost := c.pathCost))
  }

  /** Every branch of a closed node holds a closed value or one in `frontier`. */
  ghost predicate BranchesCovered<V>(expand: (AStarNode<V>, Ends<V>) -> seq<AStarNode<V>>, ends: Ends<V>,
                                     closed: map<V, AStarNode<V>>, frontier: set<V>)
  {
    forall v, c :: v in closed && c in expand(closed[v], ends) ==> c.value in closed || c.value in frontier
  }

  /** No closed node is an end node. */
  ghost predicate NoEndClosed<V>(isEndNode: (AStarNode<V>, Ends<V>) -> bool, ends: Ends<V>, closed: map<V, AStarNode<V>>)
  {
    forall v :: v in closed ==> !isEndNode(closed[v], ends)
  }

  /** IsEndNode looks only at a node's value. */
  ghost predicate EndByValue<V(!new)>(isEndNode: (AStarNode<V>, Ends<V>) -> bool, ends: Ends<V>)
  {
    forall n: AStarNode<V>, m: AStarNode<V> :: n.value == m.value ==> isEndNode(n, ends) == isEndNode(m, ends)
  }

  /** Expand looks only at a node's value: nodes with equal values have branches with the same values. */
  ghost predicate ExpandByValue<V(!new)>(expand: (AStarNode<V>, Ends<V>) -> seq<AStarNode<V>>, ends: Ends<V>)
  {
    forall n: AStarNode<V>, m: AStarNode<V> :: n.value == m.value ==>
      ValuesOf(expand(n, ends)) == ValuesOf(expand(m, ends))
  }

  ghost function ValuesOf<V>(nodes: seq<AStarNode<V>>): set<V>
  {
    set c | c in nodes :: c.value
  }

  /** A branch of any node whose value is closed holds a closed value, when Expand looks only at values. */
  lemma ClosedBranch<V(!new)>(expand: (AStarNode<V>, Ends<V>) -> seq<AStarNode<V>>, ends: Ends<V>,
                              closed: map<V, AStarNode<V>>, node: AStarNode<V>, branch: AStarNode<V>)
    requires KeysMatch(closed) && BranchesCovered(expand, ends, closed, {}) && ExpandByValue(expand, ends)
    requires node.value in closed && branch in expand(node, ends)
    ensures branch.value in closed
  {
    assert branch.value in ValuesOf(expand(node, ends));
    assert closed[node.value].value == node.value;
    var d :| d in expand(closed[node.value], ends) && d.value == branch.value;
  }

  /**
   * What an exhausted search means: when the closed nodes hold the start, cover all their branches and
   * contain no end node, and the hooks look only at values, then no walk along Expand from the start ever
   * meets an end node.
   */
  lemma {:induction false} ExhaustedMeansUnreachable<V(!new)>(hooks: Hooks<V>, ends: Ends<V>,
                                                            closed: map<V, AStarNode<V>>, startValue: V,
                                                            walk: seq<AStarNode<V>>)
    requires KeysMatch(closed) && startValue in closed
    requires BranchesCovered(hooks.expand, ends, closed, {})
    requires NoEndClosed(hooks.isEndNode, ends, closed)
    requires EndByValue(hooks.isEndNode, ends) && ExpandByValue(hooks.expand, ends)
    requires |walk| > 0 && walk[0].value == startValue && FollowsExpand(hooks.expand, ends, walk)
    ensures forall i :: 0 <= i < |walk| ==> walk[i].value in closed && !hooks.isEndNode(walk[i], ends)
    decreases |walk|
  {
    if |walk| > 1 {
      var init := walk[..|walk| - 1];
      assert FollowsExpand(hooks.expand, ends, init) by {
        forall i | 0 <= i < |init| - 1 ensures init[i + 1] in hooks.expand(init[i], ends) {
          assert init[i] == walk[i] && init[i + 1] == walk[i + 1];
        }
      }
      ExhaustedMeansUnreachable(hooks, ends, closed, startValue, init);
      var k := |walk| - 2;
      assert walk[k] == init[k];
      ClosedBranch(hooks.expand, ends, closed, walk[k], walk[k + 1]);
      forall i | 0 <= i < |walk| ensures walk[i].value in closed {
        if i < |walk| - 1 {
          assert walk[i] == init[i];
        }
      }
    }
    forall i | 0 <= i < |walk| ensures !hooks.isEndNode(walk[i], ends) {
      var node := closed[walk[i].value];
      assert node.value == walk[i].value;
      assert !hooks.isEndNode(node, ends);
    }
  }

  /** What holds of the open and closed maps between two steps of a search that has not yet found its end. */
  ghost predicate SearchState<V(!new)>(hooks: Hooks<V>, ends: Ends<V>, seed: Option<AStarNode<V>>, universe: set<V>,
                                 open: map<V, AStarNode<V>>, closed: map<V, AStarNode<V>>)
  {
    && open.Keys !! closed.Keys
    && KeysMatch(open) && KeysMatch(closed)
    && open.Keys <= universe && closed.Keys <= universe
    && NoEndClosed(hooks.isEndNode, ends, closed)
    && BranchesCovered(hooks.expand, ends, closed, open.Keys)
    && (seed.None? ==> open == map[] && closed == map[])
    && (seed.Some? ==> seed.value.value in open || seed.value.value in closed)
    && (seed.Some? && ParentLinked(hooks.expand, ends) ==>
          forall v :: v in open ==> Reachable(hooks.expand, ends, seed.value, open[v]))
    && (ParentLinked(hooks.expand, ends) ==> ChainsFresh(open, closed))
  }

  /** A path that visits each value once and whose nodes before the last are all closed. */
  ghost predicate FreshChain<V>(path: seq<AStarNode<V>>, closed: map<V, AStarNode<V>>)
  {
    && DistinctValues(path)
    && forall i :: 0 <= i < |path| - 1 ==> path[i].value in closed
  }

  /** The path to every open node is fresh: a node is closed before any of its branches is opened. */
  ghost predicate ChainsFresh<V>(open: map<V, AStarNode<V>>, closed: map<V, AStarNode<V>>)
  {
    forall v :: v in open ==> FreshChain(Chain(open[v]), closed)
  }

  /**
   * Closing `best` and merging its branches keeps the open paths fresh when Expand links each branch to its
   * parent: a newly opened entry is a branch of `best` with an unclosed value, and every value on the path to
   * `best` is closed once `best` is.
   */
  lemma FreshAfterStep<V(!new)>(expand: (AStarNode<V>, Ends<V>) -> seq<AStarNode<V>>, ends: Ends<V>,
                                open: map<V, AStarNode<V>>, closed: map<V, AStarNode<V>>, best: AStarNode<V>)
    requires ParentLinked(expand, ends)
    requires KeysMatch(open) && open.Keys !! closed.Keys && ChainsFresh(open, closed)
    requires best.value in open && open[best.value] == best
    ensures var closed' := closed[best.value := best];
      ChainsFresh(Merge(open - {best.value}, closed', expand(best, ends)), closed')
  {
    var b := best.value;
    var open0 := open - {b};
    var closed' := closed[b := best];
    var branches := expand(best, ends);
    MergeSpec(open0, closed', branches);
    var r := Merge(open0, closed', branches);
    var cb := Chain(best);
    ChainShape(best);
    assert FreshChain(cb, closed);
    forall v | v in r ensures FreshChain(Chain(r[v]), closed') {
      if v in open0 && r[v] == open0[v] {
        assert FreshChain(Chain(open[v]), closed);
      } else {
        var c := r[v];
        assert c in branches && c.value == v && v !in closed';
        assert c.previous == Some(best);
        var cc := Chain(c);
        assert cc == cb + [c];
        forall i | 0 <= i < |cc| - 1 ensures cc[i].value in closed' {
          assert cc[i] == cb[i];
          if i == |cb| - 1 {
            assert cb[i] == Last(cb);
          }
        }
        forall i, j | 0 <= i < j < |cc| ensures cc[i].value != cc[j].value {
          if j < |cb| {
            assert cc[i] == cb[i] && cc[j] == cb[j];
          } else {
            assert cc[i].value in closed' && cc[j] == c;
          }
        }
      }
    }
  }

  /** InitSearch's state: the costed start alone in open, or nothing open when it cannot be costed. */
  lemma InitialState<V(!new)>(hooks: Hooks<V>, ends: Ends<V>, universe: set<V>)
    requires ends.startValue in universe
    ensures var seed := Seed(hooks, ends);
      SearchState(hooks, ends, seed, universe,
                  if seed.Some? then map[ends.startValue := seed.value] else map[], map[])
  {
    var seed := Seed(hooks, ends);
    if seed.Some? {
      assert Ancestry(seed.value.previous) == [];
      assert Chain(seed.value) == [seed.value];
    }
  }

  /**
   * One step on a non-end node: closing it and merging its branches keeps the search state, and closes one
   * more value of the finite universe.
   */
  lemma ExpandStep<V(!new)>(hooks: Hooks<V>, ends: Ends<V>, seed: Option<AStarNode<V>>, universe: set<V>,
                      open: map<V, AStarNode<V>>, closed: map<V, AStarNode<V>>, best: AStarNode<V>)
    requires SearchState(hooks, ends, seed, universe, open, closed)
    requires ExpandsWithin(hooks.expand, ends, universe)
    requires best in open.Values && !hooks.isEndNode(best, ends)
    ensures best.value in open && open[best.value] == best
    ensures var closed' := closed[best.value := best];
      && SearchState(hooks, ends, seed, universe,
                     Merge(open - {best.value}, closed', hooks.expand(best, ends)), closed')
      && |universe - closed'.Keys| < |universe - closed.Keys|
  {
    var b := best.value;
    var k :| k in open && open[k] == best;
    assert k == b;
    var open0 := open - {b};
    var closed' := closed[b := best];
    var branches := hooks.expand(best, ends);
    MergeSpec(open0, closed', branches);
    var r := Merge(open0, closed', branches);
    assert r.Keys !! closed'.Keys;
    forall v | v in r ensures v in universe {
      if r[v] in branches {
        assert r[v].value == v;
      }
    }
    assert BranchesCovered(hooks.expand, ends, closed', r.Keys) by {
      forall v, c | v in closed' && c in hooks.expand(closed'[v], ends)
        ensures c.value in closed' || c.value in r
      {
        if v != b {
          assert c in hooks.expand(closed[v], ends);
          assert c.value in closed || c.value in open;
        }
      }
    }
    if seed.Some? && ParentLinked(hooks.expand, ends) {
      forall v | v in r ensures Reachable(hooks.expand, ends, seed.value, r[v]) {
        if v !in open0 || r[v] != open0[v] {
          assert r[v] in branches;
          assert r[v].previous == Some(best);
        }
      }
    }
    if ParentLinked(hooks.expand, ends) {
      FreshAfterStep(hooks.expand, ends, open, closed, best);
    }
    assert universe - closed'.Keys == (universe - closed.Keys) - {b};
  }

  /**
   * The default hooks cost the start at zero, produce no branches (so every search space is finite and every
   * branch is linked to its parent), and look only at node values.
   */
  lemma DefaultHooksShape<V(!new)>(ends: Ends<V>, universe: set<V>)
    ensures Seed(DefaultHooks(), ends) == Some(AStarNode(ends.startValue, None, 0.0, 0.0))
    ensures ExpandsWithin(DefaultHooks<V>().expand, ends, universe)
    ensures ParentLinked(DefaultHooks<V>().expand, ends)
    ensures EndByValue(DefaultHooks<V>().isEndNode, ends) && ExpandByValue(DefaultHooks<V>().expand, ends)
  {
  }

  /** The search engine; the hooks stand for the overridable members, and the three maps for its fields. */
  class AStar<V(==, !new)> {
    const hooks: Hooks<V>
    var openNodes: map<V, AStarNode<V>>
    var closedNodes: map<V, AStarNode<V>>
    var foundPath: seq<AStarNode<V>>

    constructor (hooks: Hooks<V>)
      ensures this.hooks == hooks && openNodes == map[] && closedNodes == map[] && foundPath == []
    {
      this.hooks := hooks;
      openNodes := map[];
      closedNodes := map[];
      foundPath := [];
    }

    /** The state once an end node has been dequeued: nothing open, and the path to it recorded. */
    ghost predicate Found(ends: Ends<V>, seed: Option<AStarNode<V>>)
      reads this
    {
      && openNodes == map[]
      && |foundPath| > 0
      && foundPath == Chain(Last(foundPath))
      && hooks.isEndNode(Last(foundPath), ends)
      && (seed.Some? && ParentLinked(hooks.expand, ends) ==>
            Reachable(hooks.expand, ends, seed.value, Last(foundPath)))
      && (ParentLinked(hooks.expand, ends) ==> DistinctValues(foundPath))
    }

    /**
     * Search: a path from the start value to a node satisfying IsEndNode, or None. Every call starts afresh.
     * None means the start cannot be costed, or that the open map ran empty: then the closed nodes hold the
     * start, none of them is an end node, and every branch of a closed node is itself closed.
     */
    method Search(startValue: V, endValue: V, ghost universe: set<V>) returns (path: Option<seq<AStarNode<V>>>)
      requires startValue in universe && ExpandsWithin(hooks.expand, Ends(startValue, endValue), universe)
      modifies this
      ensures var ends := Ends(startValue, endValue);
        && openNodes == map[] && KeysMatch(closedNodes)
        && (Seed(hooks, ends).None? ==> path.None? && closedNodes == map[])
        && (path.None? && Seed(hooks, ends).Some? ==>
              && startValue in closedNodes
              && NoEndClosed(hooks.isEndNode, ends, closedNodes)
              && BranchesCovered(hooks.expand, ends, closedNodes, {}))
        && (path.Some? ==> IsChain(path.value) && hooks.isEndNode(Last(path.value), ends))
        && (path.Some? ==> path.value == Chain(Last(path.value)))
        && (path.Some? && ParentLinked(hooks.expand, ends) ==>
              && Seed(hooks, ends).Some?
              && Reachable(hooks.expand, ends, Seed(hooks, ends).value, Last(path.value))
              && path.value[0] == Seed(hooks, ends).value
              && FollowsExpand(hooks.expand, ends, path.value)
              && DistinctValues(path.value))
    {
      openNodes := map[];
      closedNodes := map[];
      foundPath := [];
      var start := AStarNode(startValue, None, 0.0, 0.0);
      var end := AStarNode(endValue, None, 0.0, 0.0);
      var ends := Ends(start.value, end.value);
      ghost var seed := Seed(hooks, ends);
      InitSearch(start, ends, universe);
      DoSearch(ends, seed, universe);
      path := if |foundPath| > 0 then Some(foundPath) else None;
      if path.None? && seed.Some? {
        assert seed.value.value == startValue;
        assert openNodes.Keys == {};
      }
      if path.Some? {
        ChainShape(Last(foundPath));
        if ParentLinked(hooks.expand, ends) {
          ReachableChain(hooks.expand, ends, seed.value, Last(foundPath));
        }
      }
    }

    /** Costs the start node and opens it, unless CostNode rules it out. */
    method InitSearch(start: AStarNode<V>, ends: Ends<V>, ghost universe: set<V>)
      requires start == AStarNode(ends.startValue, None, 0.0, 0.0) && start.value in universe
      requires openNodes == map[] && closedNodes == map[] && foundPath == []
      modifies this
      ensures closedNodes == map[] && foundPath == []
      ensures var seed := Seed(hooks, ends);
        openNodes == (if seed.Some? then map[start.value := seed.value] else map[])
      ensures SearchState(hooks, ends, Seed(hooks, ends), universe, openNodes, closedNodes)
    {
      InitialState(hooks, ends, universe);
      var startCosts := hooks.costNode(start, ends);
      if startCosts.None? {
        return;
      }
      var costed := start.(cost := startCosts.value.cost, pathCost := startCosts.value.pathCost);
      openNodes := openNodes[costed.value := costed];
    }

    /** Expands nodes until the open map is empty (an end node found empties it). */
    method DoSearch(ends: Ends<V>, ghost seed: Option<AStarNode<V>>, ghost universe: set<V>)
      requires ExpandsWithin(hooks.expand, ends, universe)
      requires SearchState(hooks, ends, seed, universe, openNodes, closedNodes) && foundPath == []
      modifies this
      ensures openNodes == map[] && KeysMatch(closedNodes)
      ensures foundPath == [] ==> SearchState(hooks, ends, seed, universe, openNodes, closedNodes)
      ensures foundPath != [] ==> Found(ends, seed)
      ensures seed.None? ==> foundPath == [] && closedNodes == map[]
    {
      while |openNodes| > 0
        invariant foundPath == [] ==> SearchState(hooks, ends, seed, universe, openNodes, closedNodes)
        invariant foundPath != [] ==> Found(ends, seed)
        invariant KeysMatch(closedNodes)
        invariant seed.None? ==> foundPath == [] && closedNodes == map[]
        decreases |universe - closedNodes.Keys|, |openNodes|
      {
        ghost var best := ExpandNextNode(ends, seed, universe);
      }
    }

    /**
     * One step: take a least-cost open node; if it is an end node, record the path to it and empty the open
     * map; otherwise close it and offer each of its branches to the open map.
     */
    method ExpandNextNode(ends: Ends<V>, ghost seed: Option<AStarNode<V>>, ghost universe: set<V>)
      returns (ghost best: AStarNode<V>)
      requires ExpandsWithin(hooks.expand, ends, universe)
      requires SearchState(hooks, ends, seed, universe, openNodes, closedNodes) && foundPath == []
      requires openNodes != map[]
      modifies this
      ensures best in old(openNodes).Values && forall n :: n in old(openNodes).Values ==> best.cost <= n.cost
      ensures hooks.isEndNode(best, ends) ==>
        foundPath == Chain(best) && Found(ends, seed) && closedNodes == old(closedNodes)
      ensures !hooks.isEndNode(best, ends) ==>
        && foundPath == []
        && closedNodes == old(closedNodes)[best.value := best]
        && openNodes == Merge(old(openNodes) - {best.value}, closedNodes, hooks.expand(best, ends))
        && SearchState(hooks, ends, seed, universe, openNodes, closedNodes)
        && |universe - closedNodes.Keys| < |universe - old(closedNodes).Keys|
    {
      var bestNode := LowestCost(openNodes);
      best := bestNode;

      if hooks.isEndNode(bestNode, ends) {
        foundPath := CompletePath(bestNode);
        openNodes := map[];
        ChainShape(bestNode);
        if ParentLinked(hooks.expand, ends) {
          var k :| k in old(openNodes) && old(openNodes)[k] == bestNode;
        }
        return;
      }

      ExpandStep(hooks, ends, seed, universe, openNodes, closedNodes, bestNode);
      openNodes := openNodes - {bestNode.value};
      closedNodes := closedNodes[bestNode.value := bestNode];

      MergeBranches(hooks.expand(bestNode, ends));
    }

    /** Offers each branch in turn to the open map (the loop at the end of ExpandNextNode). */
    method MergeBranches(branches: seq<AStarNode<V>>)
      modifies this
      ensures openNodes == Merge(old(openNodes), closedNodes, branches)
      ensures closedNodes == old(closedNodes) && foundPath == old(foundPath)
    {
      ghost var open0 := openNodes;
      for i := 0 to |branches|
        invariant openNodes == Merge(open0, closedNodes, branches[..i])
        invariant closedNodes == old(closedNodes) && foundPath == old(foundPath)
      {
        var nextNode := branches[i];
        assert branches[..i + 1][..i] == branches[..i];
        if nextNode.value in closedNodes {
          continue;
        }
        if nextNode.value in openNodes && openNodes[nextNode.value].pathCost <= nextNode.pathCost {
          continue;
        }
        openNodes := openNodes[nextNode.value := nextNode];
      }
      assert branches[..|branches|] == branches;
    }
  }

  /**
   * The engine with its default hooks: searching from a value to itself gives the one-node path of the
   * costed start (path cost 0); searching between two different values finds nothing.
   */
  method DefaultSearch<V(==, !new)>(startValue: V, endValue: V) returns (path: Option<seq<AStarNode<V>>>)
    ensures startValue == endValue ==> path == Some([AStarNode(startValue, None, 0.0, 0.0)])
    ensures startValue != endValue ==> path == None
  {
    var search := new AStar(DefaultHooks());
    path := search.Search(startValue, endValue, {startValue});
    ghost var ends := Ends(startValue, endValue);
    assert Seed(search.hooks, ends) == Some(AStarNode(startValue, None, 0.0, 0.0));
    assert ParentLinked(search.hooks.expand, ends);
    if path.Some? {
      var p := path.value;
      assert Last(p).previous == None;
      assert Ancestry(Last(p).previous) == [];
      assert Chain(Last(p)) == Ancestry(Last(p).previous) + [Last(p)];
      assert Last(p) == AStarNode(startValue, None, 0.0, 0.0);
      assert p == [Last(p)];
    } else {
      assert search.closedNodes[startValue].value == startValue;
      assert !search.hooks.isEndNode(search.closedNodes[startValue], ends);
      assert search.hooks.isEndNode(search.closedNodes[startValue], ends) == (startValue == endValue);
    }
  }
}
