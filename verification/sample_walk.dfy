/** A worked iteration: a three-level tree, its walk and its best-edge annotation. */
module SampleWalk {
  import opened Wrappers
  import opened MctsNodes
  import opened TreeSnapshots
  import opened DataFactories
  import opened Walk
  import opened BestEdge
  import opened TreeLog

  /** A node with value estimate `q`, empty reward diagnostics and the given children. */
  function Sample(id: int, q: real, children: ChildList): MctsNode
  {
    MctsNode(id, None, q, Some(map[]), None, children)
  }

  /** Root 0 with children 1 (Q 0.5) and 2 (Q 0.9); node 1 has the one child 3 (Q 0.2). */
  function SampleRoot(): MctsNode
  {
    Sample(0, 0.0, Present([Sample(1, 0.5, Present([Sample(3, 0.2, Absent)])), Sample(2, 0.9, Absent)]))
  }

  /** A sample node's edge payload is its "Q" alone. */
  lemma SampleData(id: int, q: real, children: ChildList)
    ensures EdgeDataOf(Sample(id, q, children)) == Some(map["Q" := q])
  {
    assert map["Q" := q] + map[] == map["Q" := q];
  }

  /** The walk visits 0, 1, 3, 2; its pairs are 0 -> 1, 1 -> 3, 0 -> 2 in that order. */
  lemma SampleOrder()
    ensures var r := SampleRoot();
            var a, b := r.children.nodes[0], r.children.nodes[1];
            var c := a.children.nodes[0];
            Pairs(r) == [Pair(r, a), Pair(a, c), Pair(r, b)] && Preorder(r) == [r, a, c, b]
  {
    var r := SampleRoot();
    var a, b := r.children.nodes[0], r.children.nodes[1];
    var c := a.children.nodes[0];
    assert Pairs(c) == [] && Pairs(b) == [];
    assert PairsOf(a, 1) == [Pair(a, c)];
    assert PairsOf(r, 1) == [Pair(r, a), Pair(a, c)];
    assert Preorder(a) == [a, c];
    assert PreorderOf(r, 1) == [a, c];
  }

  /** The edges 0 -> 1 (Q 0.5), 1 -> 3 (Q 0.2) and 0 -> 2 (Q 0.9), with ids 0, 1, 2. */
  function SampleEdgeList(): seq<Edge>
  {
    [Edge(0, 0, 1, map["Q" := 0.5]), Edge(1, 1, 3, map["Q" := 0.2]), Edge(2, 0, 2, map["Q" := 0.9])]
  }

  /** The walk numbers the edges in the order 0 -> 1, 1 -> 3, 0 -> 2, each carrying its child's "Q". */
  lemma SampleEdges()
    ensures Rewarded(Pairs(SampleRoot()))
    ensures WalkedEdges(SampleRoot()) == SampleEdgeList()
  {
    var r := SampleRoot();
    var a, b := r.children.nodes[0], r.children.nodes[1];
    var c := a.children.nodes[0];
    SampleOrder();
    SampleData(1, 0.5, a.children);
    SampleData(3, 0.2, c.children);
    SampleData(2, 0.9, b.children);
    MakeEdgesAt(0, Pairs(r));
  }

  /** The snapshot's nodes are 0, 1, 2 and 3. */
  lemma SampleIds()
    ensures NodeIds(WalkedNodeList(SampleRoot())) == {0, 1, 2, 3}
  {
    SampleOrder();
    WalkedNodeListIds(SampleRoot());
  }

  /** Node 0's out-edges are edges 0 and 2, node 1's is edge 1, and nodes 2 and 3 have none. */
  lemma SampleOutEdges()
    ensures var es := SampleEdgeList();
      OutEdges(es, 0) == [es[0], es[2]] && OutEdges(es, 1) == [es[1]] &&
      Children(es, 2) == [] && Children(es, 3) == []
  {
    var es := SampleEdgeList();
    assert es[1..] == [es[1], es[2]] && es[1..][1..] == [es[2]] && es[1..][1..][1..] == [];
  }

  /** Per node: the root's best edge is edge 2 (Q 0.9 beats 0.5), node 1's is its only edge 1, and the leaves have none. */
  lemma SampleSelectFor()
    ensures var es := SampleEdgeList();
      SelectFor(es, 0) == Some(2) && SelectFor(es, 1) == Some(1) && SelectFor(es, 2) == None && SelectFor(es, 3) == None
  {
    var es := SampleEdgeList();
    SampleOutEdges();
    assert Score(es[0]) == Some(0.5) && Score(es[2]) == Some(0.9);
    assert [es[0], es[2]][..1] == [es[0]];
    assert FirstMaxIndex([es[0], es[2]]) == 1;
  }

  /**
   * The annotation of the sample snapshot, node by node: the root selects
   * edge 2, node 1 selects edge 1, and the leaves 2 and 3 select nothing.
   */
  lemma SampleSelection()
    ensures var sel := Selection({0, 1, 2, 3}, SampleEdgeList());
      0 in sel && sel[0] == 2 && 1 in sel && sel[1] == 1 && 2 !in sel && 3 !in sel
  {
    SampleSelectFor();
  }

  /** Any snapshot the construction builds from the sample root carries exactly that walk and that annotation. */
  lemma SampleSnapshot(tree: TreeSnapshot)
    requires BuiltFrom(tree, SampleRoot())
    ensures NodeIds(tree.nodeList) == {0, 1, 2, 3}
    ensures tree.edges == SampleEdgeList()
    ensures 0 in tree.selected && tree.selected[0] == 2 && 1 in tree.selected && tree.selected[1] == 1
    ensures 2 !in tree.selected && 3 !in tree.selected
  {
    SampleIds();
    SampleEdges();
    SampleSelection();
  }
}
