/**
 * `TreeLog` and its construction from search results: for every iteration,
 * walk that iteration's tree into fresh node and edge accumulators, wrap
 * them in a snapshot, annotate each node's best outgoing edge, and append
 * the snapshot to the log.
 */
module TreeLog {
  import opened Wrappers
  import opened MctsNodes
  import opened TreeSnapshots
  import opened DataFactories
  import opened Walk
  import opened BestEdge

  /**
   * The accumulators that the walk `all_nodes` updates and the construction
   * loop empties before each iteration's walk: the node dictionary, as its
   * entries `nodes` and its key order `keyOrder` (a dictionary lists its keys
   * in the order they were first inserted), and the edge list `edges`.
   */
  class SnapshotBuilder {
    var nodes: map<NodeId, Node>
    var keyOrder: seq<NodeId>
    var edges: seq<Edge>

    constructor ()
      ensures nodes == map[] && keyOrder == [] && edges == []
    {
      nodes := map[];
      keyOrder := [];
      edges := [];
    }

    /**
     * The accumulators hold what they held before (`nodes0`, `keyOrder0`,
     * `edges0`) extended by visiting the nodes `visited` and appending the
     * edges for the parent/child pairs `pairs`.
     */
    ghost predicate Reached(nodes0: map<NodeId, Node>, keyOrder0: seq<NodeId>, edges0: seq<Edge>,
                            visited: seq<MctsNode>, pairs: seq<Pair>)
      reads this
    {
      Extends(nodes, keyOrder, edges, nodes0, keyOrder0, edges0, visited, pairs)
    }

    /** `Reached` by the subtrees of the first `k` children of `t` and by their pairs. */
    ghost predicate ReachedChildren(nodes0: map<NodeId, Node>, keyOrder0: seq<NodeId>, edges0: seq<Edge>,
                                    t: MctsNode, k: nat)
      reads this
    {
      ExtendsByChildren(nodes, keyOrder, edges, nodes0, keyOrder0, edges0, t, k)
    }

    /**
     * `all_nodes`: record `node`, then for each child in order append the
     * edge into it, whose id is the current length of the edge list, and
     * walk the child. `ok` is false when some edge payload cannot be built
     * (the original raises there); otherwise the accumulators are extended by
     * the pre-order visit of the subtree and the edges of its parent/child
     * pairs.
     */
    method AllNodes(node: MctsNode) returns (ok: bool)
      modifies this
      decreases node, 2
      ensures ok <==> Rewarded(Pairs(node))
      ensures ok ==> Reached(old(nodes), old(keyOrder), old(edges), Preorder(node), Pairs(node))
    {
      ghost var nodes0, keyOrder0 := nodes, keyOrder;
      if node.id !in nodes {
        keyOrder := keyOrder + [node.id];
      }
      nodes := nodes[node.id := NodeOf(node)];
      match node.children
      case Absent =>
        ok := true;
        FirstVisit(nodes0, keyOrder0, node, []);
        assert Preorder(node) == [node] + [];
      case Present(cs) =>
        ok := AllChildren(node);
        if ok {
          FirstVisit(nodes0, keyOrder0, node, PreorderOf(node, |cs|));
        }
    }

    /** The loop of `all_nodes` over the children of `node`, in order. */
    method AllChildren(node: MctsNode) returns (ok: bool)
      requires node.children.Present?
      modifies this
      decreases node, 1
      ensures ok <==> Rewarded(Pairs(node))
      ensures ok ==> ReachedChildren(old(nodes), old(keyOrder), old(edges), node, |node.children.nodes|)
    {
      ghost var nodes0, keyOrder0, edges0 := nodes, keyOrder, edges;
      var n := |node.children.nodes|;
      var i := 0;
      ok := true;
      while ok && i < n
        invariant i <= n
        invariant ok ==> ReachedChildren(nodes0, keyOrder0, edges0, node, i)
        invariant !ok ==> !Rewarded(Pairs(node))
      {
        ok := VisitChild(node, i, nodes0, keyOrder0, edges0);
        i := i + 1;
      }
      if ok {
        assert i == n;
        ChildrenRewarded(nodes, keyOrder, edges, nodes0, keyOrder0, edges0, node);
      }
    }

    /**
     * One iteration of that loop for child `i`: append the edge into it,
     * whose id is the current length of the edge list, then walk it; the
     * accumulators, extended so far by the first `i` children's subtrees,
     * are extended by this child's subtree too.
     */
    method VisitChild(node: MctsNode, i: nat,
                      ghost nodes0: map<NodeId, Node>, ghost keyOrder0: seq<NodeId>, ghost edges0: seq<Edge>)
      returns (ok: bool)
      requires node.children.Present? && i < |node.children.nodes|
      requires ReachedChildren(nodes0, keyOrder0, edges0, node, i)
      modifies this
      decreases node, 0
      ensures !ok ==> !Rewarded(Pairs(node))
      ensures ok ==> ReachedChildren(nodes0, keyOrder0, edges0, node, i + 1)
    {
      var child := node.children.nodes[i];
      ChildStep(node, i);
      var data := EdgeDataOf(child);
      if data.None? {
        return false;
      }
      var edge := Edge(|edges|, node.id, child.id, data.value);
      edges := edges + [edge];
      ok := AllNodes(child);
      if ok {
        NodesStep(nodes0, PreorderOf(node, i), Preorder(child));
        KeyOrderStep(nodes0, keyOrder0, PreorderOf(node, i), Preorder(child));
        EdgeFirst(old(edges), Pair(node, child), Pairs(child));
        EdgesStep(edges0, PairsOf(node, i), [Pair(node, child)] + Pairs(child));
      }
    }
  }

  /** Recording `n` and then visiting `rest` is visiting `[n] + rest`. */
  lemma FirstVisit(m: map<NodeId, Node>, order: seq<NodeId>, n: MctsNode, rest: seq<MctsNode>)
    ensures InsertAll(m[n.id := NodeOf(n)], rest) == InsertAll(m, [n] + rest)
    ensures (if n.id in m then order else order + [n.id]) + NewIds(m[n.id := NodeOf(n)].Keys, rest)
            == order + NewIds(m.Keys, [n] + rest)
  {
    var ns := [n] + rest;
    assert ns[0] == n && ns[1..] == rest;
    assert m.Keys + {n.id} == m[n.id := NodeOf(n)].Keys;
    var tail := NewIds(m.Keys + {n.id}, rest);
    if n.id !in m {
      assert order + [n.id] + tail == order + ([n.id] + tail);
    }
  }

  /**
   * Handling child `i` of `t` appends its pair and then its subtree's pairs,
   * and visits its subtree; the whole walk of `t` fails if the child or a
   * node below it carries no reward diagnostics.
   */
  lemma ChildStep(t: MctsNode, i: nat)
    requires t.children.Present? && i < |t.children.nodes|
    ensures var c := t.children.nodes[i];
      PairsOf(t, i + 1) == PairsOf(t, i) + ([Pair(t, c)] + Pairs(c)) &&
      PreorderOf(t, i + 1) == PreorderOf(t, i) + Preorder(c) &&
      (Rewarded(Pairs(t)) ==> EdgeDataOf(c).Some? && Rewarded(Pairs(c)))
  {
    var c := t.children.nodes[i];
    var before := PairsOf(t, i);
    PairsOfPrefix(t, i + 1, |t.children.nodes|);
    if Rewarded(Pairs(t)) {
      assert Pairs(t)[|before|] == Pair(t, c);
      forall j | 0 <= j < |Pairs(c)| ensures EdgeDataOf(Pairs(c)[j].child).Some? {
        assert Pairs(t)[|before| + 1 + j] == Pairs(c)[j];
      }
    }
  }

  /** Walking a child after the nodes `a` continues the node map. */
  lemma NodesStep(m: map<NodeId, Node>, a: seq<MctsNode>, b: seq<MctsNode>)
    ensures InsertAll(InsertAll(m, a), b) == InsertAll(m, a + b)
  {
    InsertAllConcat(m, a, b);
  }

  /** Walking a child after the nodes `a` continues the dictionary's key order. */
  lemma KeyOrderStep(m: map<NodeId, Node>, order: seq<NodeId>, a: seq<MctsNode>, b: seq<MctsNode>)
    ensures order + NewIds(m.Keys, a) + NewIds(InsertAll(m, a).Keys, b) == order + NewIds(m.Keys, a + b)
  {
    NewIdsConcat(m.Keys, a, b);
    var seen := InsertAll(m, a).Keys;
    assert seen == m.Keys + Ids(a);
    var x, y := NewIds(m.Keys, a), NewIds(seen, b);
    assert order + x + y == order + (x + y);
  }

  /** The edges for one child's pair and subtree follow the edges appended before them. */
  lemma EdgesStep(prefix: seq<Edge>, before: seq<Pair>, more: seq<Pair>)
    requires Rewarded(before) && Rewarded(more)
    ensures Rewarded(before + more)
    ensures prefix + MakeEdges(|prefix|, before) + MakeEdges(|prefix + MakeEdges(|prefix|, before)|, more)
            == prefix + MakeEdges(|prefix|, before + more)
  {
    MakeEdgesConcat(|prefix|, before, more);
    AppendJoin(prefix, MakeEdges(|prefix|, before), MakeEdges(|prefix| + |before|, more), MakeEdges(|prefix|, before + more));
  }

  /**
   * Appending the edge into a child, whose id is the current length of the
   * edge list, and then the child's subtree edges appends the edges for
   * the pair followed by the subtree's pairs.
   */
  lemma EdgeFirst(prefix: seq<Edge>, p: Pair, sub: seq<Pair>)
    requires EdgeDataOf(p.child).Some? && Rewarded(sub)
    ensures Rewarded([p] + sub)
    ensures var mid := prefix + [Edge(|prefix|, p.parent.id, p.child.id, EdgeDataOf(p.child).value)];
            mid + MakeEdges(|mid|, sub) == prefix + MakeEdges(|prefix|, [p] + sub)
  {
    var ps := [p] + sub;
    assert ps[0] == p && ps[1..] == sub;
    var e := Edge(|prefix|, p.parent.id, p.child.id, EdgeDataOf(p.child).value);
    assert MakeEdges(|prefix|, ps) == [e] + MakeEdges(|prefix| + 1, sub);
    AppendJoin(prefix, [e], MakeEdges(|prefix| + 1, sub), MakeEdges(|prefix|, ps));
  }

  /** Appending `x` and then `y` appends their concatenation `z`. */
  lemma AppendJoin<T>(prefix: seq<T>, x: seq<T>, y: seq<T>, z: seq<T>)
    requires z == x + y
    ensures prefix + x + y == prefix + z
  {
  }

  /**
   * The annotation pass: every node that has no selected edge yet and has at
   * least one outgoing edge gets the id of its first outgoing edge with the
   * largest "Q".
   */
  method SelectBestEdges(tree: TreeSnapshot)
    modifies tree
    ensures tree.selected == Selection(NodeIds(tree.nodeList), tree.edges) + old(tree.selected)
  {
    for i := 0 to |tree.nodeList|
      invariant tree.selected == Written(tree.nodeList, tree.edges, i) + old(tree.selected)
    {
      var node := tree.nodeList[i];
      var best := SelectFor(tree.edges, node.id);
      SettleStep(tree.nodeList, tree.edges, i, tree.selected, old(tree.selected));
      if node.id !in tree.selected && best.Some? {
        tree.selected := tree.selected[node.id := best.value];
      }
    }
    WrittenAll(tree.nodeList, tree.edges);
  }

  /** The annotations written after handling the first `i` nodes of `ns`. */
  ghost function Written(ns: seq<Node>, edges: seq<Edge>, i: nat): map<NodeId, EdgeId>
    requires i <= |ns|
  {
    Settled(Selection(NodeIds(ns), edges), NodeIds(ns[..i]))
  }

  /** After every node is handled, the whole selection is written. */
  lemma WrittenAll(ns: seq<Node>, edges: seq<Edge>)
    ensures Written(ns, edges, |ns|) == Selection(NodeIds(ns), edges)
  {
    assert ns[..|ns|] == ns;
  }

  /** The part of the selection `sel` already written: the entries for the nodes handled so far. */
  ghost function Settled(sel: map<NodeId, EdgeId>, handled: set<NodeId>): map<NodeId, EdgeId>
  {
    map k | k in sel && k in handled :: sel[k]
  }

  /** Handling node `key` writes its selection exactly when none is there yet. */
  lemma SettleOne(sel: map<NodeId, EdgeId>, handled: set<NodeId>, key: NodeId,
                  cur: map<NodeId, EdgeId>, orig: map<NodeId, EdgeId>)
    requires cur == Settled(sel, handled) + orig
    ensures key in cur ==> Settled(sel, handled + {key}) + orig == cur
    ensures key !in cur && key in sel ==> Settled(sel, handled + {key}) + orig == cur[key := sel[key]]
    ensures key !in cur && key !in sel ==> Settled(sel, handled + {key}) + orig == cur
  {
  }

  /** One step of the annotation loop: handling node `i` extends the written part of the selection by that node. */
  lemma SettleStep(ns: seq<Node>, edges: seq<Edge>, i: nat, cur: map<NodeId, EdgeId>, orig: map<NodeId, EdgeId>)
    requires i < |ns|
    requires cur == Written(ns, edges, i) + orig
    ensures var best := SelectFor(edges, ns[i].id);
            (if ns[i].id !in cur && best.Some? then cur[ns[i].id := best.value] else cur)
            == Written(ns, edges, i + 1) + orig
  {
    SettleOne(Selection(NodeIds(ns), edges), NodeIds(ns[..i]), ns[i].id, cur, orig);
    SelectionAt(ns, edges, i);
    NodeIdsSnoc(ns, i);
  }

  /** Node `i` of `ns` has an entry in the selection over `ns` exactly when it has a best edge, and the entry is that edge. */
  lemma SelectionAt(ns: seq<Node>, edges: seq<Edge>, i: nat)
    requires i < |ns|
    ensures ns[i].id in Selection(NodeIds(ns), edges) <==> SelectFor(edges, ns[i].id).Some?
    ensures ns[i].id in Selection(NodeIds(ns), edges) ==> Selection(NodeIds(ns), edges)[ns[i].id] == SelectFor(edges, ns[i].id).value
  {
    assert ns[i] in ns;
  }

  /** The ids of the first `i + 1` nodes are those of the first `i` and node `i`'s. */
  lemma NodeIdsSnoc(ns: seq<Node>, i: nat)
    requires i < |ns|
    ensures NodeIds(ns[..i + 1]) == NodeIds(ns[..i]) + {ns[i].id}
  {
    assert ns[..i + 1] == ns[..i] + [ns[i]];
  }

  /** The snapshot `tree` is the one built from `root`: its walk, its edges, its annotation. */
  ghost predicate BuiltFrom(tree: TreeSnapshot, root: MctsNode)
    reads tree
  {
    Rewarded(Pairs(root)) &&
    tree.nodeList == WalkedNodeList(root) &&
    tree.edges == WalkedEdges(root) &&
    tree.selected == Selection(NodeIds(tree.nodeList), tree.edges)
  }

  /** `list(nodes.values())`, read from the node dictionary's entries in key order. */
  method NodeValues(nodes: map<NodeId, Node>, keyOrder: seq<NodeId>) returns (r: seq<Node>)
    requires forall k :: k in keyOrder ==> k in nodes
    ensures r == Values(nodes, keyOrder)
  {
    r := [];
    for i := 0 to |keyOrder|
      invariant r == Values(nodes, keyOrder[..i])
    {
      var key := keyOrder[i];
      assert key in keyOrder;
      assert key in nodes;
      assert keyOrder[..i + 1][..i] == keyOrder[..i];
      r := r + [nodes[key]];
    }
    assert keyOrder[..|keyOrder|] == keyOrder;
  }

  /** The ordered snapshots, one per search iteration. */
  class TreeLog {
    const snapshots: seq<TreeSnapshot>

    constructor (snapshots: seq<TreeSnapshot>)
      ensures this.snapshots == snapshots
    {
      this.snapshots := snapshots;
    }

    /** `len(log)`: the number of snapshots. */
    function Length(): (n: nat)
      ensures n == |snapshots|
    {
      |snapshots|
    }

    /**
     * `log[item]` for an integer index, with the original's reading of
     * negative indices as counting from the end; `None` where it raises.
     */
    function Get(item: int): (r: Option<TreeSnapshot>)
      ensures r.Some? <==> -|snapshots| <= item < |snapshots|
      ensures 0 <= item < |snapshots| ==> r == Some(snapshots[item])
      ensures -|snapshots| <= item < 0 ==> r == Some(snapshots[|snapshots| + item])
    {
      var n := |snapshots|;
      if -n <= item < n then Some(snapshots[item % n]) else None
    }

    /** `iter(log)`: the snapshots in order, agreeing with indexing. */
    function Elements(): (r: seq<TreeSnapshot>)
      ensures |r| == Length()
      ensures forall i :: 0 <= i < |r| ==> Get(i) == Some(r[i]) && Get(i - |r|) == Some(r[i])
    {
      snapshots
    }
  }

  /**
   * One iteration of the construction loop: empty the accumulators, walk
   * `root`, build the snapshot from the node dictionary's values and the
   * edge list, and annotate it. `None` where the walk raises.
   */
  method BuildSnapshot(builder: SnapshotBuilder, root: MctsNode) returns (tree: Option<TreeSnapshot>)
    modifies builder
    ensures tree.Some? <==> Rewarded(Pairs(root))
    ensures tree.Some? ==> fresh(tree.value) && BuiltFrom(tree.value, root)
  {
    builder.edges := [];
    builder.nodes, builder.keyOrder := map[], [];
    var ok := builder.AllNodes(root);
    if !ok {
      return None;
    }
    WalkedKeysPresent(root);
    var empty: map<NodeId, Node> := map[];
    assert empty.Keys == {};
    assert builder.keyOrder == NewIds({}, Preorder(root));
    var nodeList := NodeValues(builder.nodes, builder.keyOrder);
    var snapshot := new TreeSnapshot(nodeList, builder.edges);
    SelectBestEdges(snapshot);
    NothingAdded(Selection(NodeIds(nodeList), snapshot.edges));
    tree := Some(snapshot);
  }

  /** Overlaying an empty map changes nothing. */
  lemma NothingAdded<K, V>(m: map<K, V>)
    ensures m + map[] == m
  {
  }

  /** After a walk from empty accumulators, every listed key has an entry. */
  lemma WalkedKeysPresent(root: MctsNode)
    ensures forall k :: k in NewIds({}, Preorder(root)) ==> k in WalkedNodes(root)
  {
    NewIdsSpec({}, Preorder(root));
  }

  /**
   * The construction loop: one snapshot per iteration's root, in iteration
   * order, each built only from its own root into emptied accumulators and
   * each a distinct new object. `ok` is false exactly when some iteration's
   * tree has a node below its root without reward diagnostics.
   */
  method BuildAll(roots: seq<MctsNode>) returns (snapshots: seq<TreeSnapshot>, ok: bool)
    ensures ok <==> forall i :: 0 <= i < |roots| ==> Rewarded(Pairs(roots[i]))
    ensures ok ==> |snapshots| == |roots|
    ensures ok ==> forall i :: 0 <= i < |roots| ==> fresh(snapshots[i]) && BuiltFrom(snapshots[i], roots[i])
    ensures ok ==> forall j :: 0 <= j < |roots| ==> snapshots[j] !in snapshots[..j]
  {
    var builder := new SnapshotBuilder();
    snapshots := [];
    ok := true;
    var step := 0;
    while ok && step < |roots|
      invariant step <= |roots| && |snapshots| == step
      invariant forall i :: 0 <= i < step ==> fresh(snapshots[i]) && BuiltFrom(snapshots[i], roots[i])
      invariant forall j :: 0 <= j < step ==> snapshots[j] !in snapshots[..j]
      invariant !ok ==> step < |roots| && !Rewarded(Pairs(roots[step]))
      decreases |roots| - step, ok
    {
      var tree := BuildSnapshot(builder, roots[step]);
      if tree.None? {
        ok := false;
      } else {
        assert tree.value !in snapshots;
        ghost var before := snapshots;
        snapshots := snapshots + [tree.value];
        assert forall j :: 0 <= j <= step ==> snapshots[..j] == before[..j];
        step := step + 1;
      }
    }
  }

  /** `from_mcts_results`: the log of the snapshots the construction loop builds; `None` where it raises. */
  method FromMctsResults(roots: seq<MctsNode>) returns (log: Option<TreeLog>)
    ensures log.Some? <==> forall i :: 0 <= i < |roots| ==> Rewarded(Pairs(roots[i]))
    ensures log.Some? ==> fresh(log.value) && |log.value.snapshots| == |roots|
    ensures log.Some? ==> forall i :: 0 <= i < |roots| ==>
      fresh(log.value.snapshots[i]) && BuiltFrom(log.value.snapshots[i], roots[i])
    ensures log.Some? ==> forall j :: 0 <= j < |roots| ==> log.value.snapshots[j] !in log.value.snapshots[..j]
  {
    var snapshots, ok := BuildAll(roots);
    if !ok {
      return None;
    }
    var result := new TreeLog(snapshots);
    log := Some(result);
  }
}
