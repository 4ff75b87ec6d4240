/**
 * The best-edge annotation: for each node with outgoing edges, the id of the
 * first outgoing edge (in edge order) whose "Q" is largest, where a missing
 * "Q" ranks below every present value.
 */
module BestEdge {
  import opened Wrappers
  import opened TreeSnapshots

  /** The edge's ranking key: its "Q" entry, or `None` (minus infinity) when it has none. */
  function Score(e: Edge): Option<real>
  {
    if "Q" in e.data then Some(e.data["Q"]) else None
  }

  /** `a < b` on keys where `None` lies below every present value. */
  predicate Below(a: Option<real>, b: Option<real>)
  {
    b.Some? && (a.None? || a.value < b.value)
  }

  /** `a <= b` on the same order. */
  predicate AtMost(a: Option<real>, b: Option<real>)
  {
    a.None? || (b.Some? && a.value <= b.value)
  }

  /** Edge `i` has the largest key of `es`, and every edge before it has a strictly smaller key. */
  ghost predicate IsFirstBest(es: seq<Edge>, i: nat)
  {
    i < |es| &&
    (forall j :: 0 <= j < |es| ==> AtMost(Score(es[j]), Score(es[i]))) &&
    (forall j :: 0 <= j < i ==> Below(Score(es[j]), Score(es[i])))
  }

  /**
   * The position `max(es, key=Score)` returns: a left-to-right scan that
   * replaces the current candidate only by a strictly larger key.
   */
  function FirstMaxIndex(es: seq<Edge>): (r: nat)
    requires |es| > 0
    decreases |es|
    ensures IsFirstBest(es, r)
  {
    if |es| == 1 then 0
    else
      var r := FirstMaxIndex(es[..|es| - 1]);
      if Below(Score(es[r]), Score(es[|es| - 1])) then |es| - 1 else r
  }

  /**
   * One node's annotation: none when the node has no children, otherwise the
   * id of `max(out_edges(k), key=Score)`.
   */
  function SelectFor(edges: seq<Edge>, k: NodeId): Option<EdgeId>
  {
    if Children(edges, k) == [] then None
    else
      var out := OutEdges(edges, k);
      Some(out[FirstMaxIndex(out)].id)
  }

  /** The annotation a fresh snapshot with node ids `ids` ends up with: `SelectFor` at every node that has a selection. */
  ghost function Selection(ids: set<NodeId>, edges: seq<Edge>): map<NodeId, EdgeId>
  {
    map k | k in ids && SelectFor(edges, k).Some? :: SelectFor(edges, k).value
  }

  /**
   * Best-edge correctness on a snapshot whose edge ids are their positions
   * (as every walked snapshot's are): a node is annotated exactly when it has
   * an outgoing edge, and its selected edge `s` is an edge out of that node
   * whose key is at least that of every edge out of the node and strictly
   * above that of every earlier edge out of the node, so ties go to the
   * lowest edge id.
   */
  lemma SelectionIsFirstBest(ids: set<NodeId>, edges: seq<Edge>, k: NodeId)
    requires IdsAreIndices(edges)
    requires k in ids
    ensures k in Selection(ids, edges) <==> exists j :: 0 <= j < |edges| && edges[j].source == k
    ensures k in Selection(ids, edges) ==>
      var s := Selection(ids, edges)[k];
      s < |edges| && edges[s].source == k &&
      (forall j :: 0 <= j < |edges| && edges[j].source == k ==> AtMost(Score(edges[j]), Score(edges[s]))) &&
      (forall j :: 0 <= j < s && edges[j].source == k ==> Below(Score(edges[j]), Score(edges[s])))
  {
    var out := OutEdges(edges, k);
    var sel := Selection(ids, edges);
    if exists j :: 0 <= j < |edges| && edges[j].source == k {
      var j :| 0 <= j < |edges| && edges[j].source == k;
      assert edges[j] in out;
    }
    assert |Children(edges, k)| == |out|;
    if out != [] {
      var r := FirstMaxIndex(out);
      assert sel[k] == out[r].id;
      OutEdgesIndexed(edges, k);
      FirstBestById(edges, k, r);
    }
  }

  /** On a snapshot whose edge ids are positions, each out-edge sits at its own id and the out-edges keep ascending ids. */
  lemma OutEdgesIndexed(edges: seq<Edge>, k: NodeId)
    requires IdsAreIndices(edges)
    ensures Ascending(OutEdges(edges, k))
    ensures forall q :: 0 <= q < |OutEdges(edges, k)| ==>
      OutEdges(edges, k)[q].id < |edges| && edges[OutEdges(edges, k)[q].id] == OutEdges(edges, k)[q]
  {
    var out := OutEdges(edges, k);
    OutEdgesAscending(edges, k);
    forall q | 0 <= q < |out| ensures out[q].id < |edges| && edges[out[q].id] == out[q] {
      assert out[q] in edges;
    }
  }

  /** The first best out-edge, read back through the edge list by its id. */
  lemma FirstBestById(edges: seq<Edge>, k: NodeId, r: nat)
    requires IdsAreIndices(edges)
    requires Ascending(OutEdges(edges, k))
    requires forall q :: 0 <= q < |OutEdges(edges, k)| ==>
      OutEdges(edges, k)[q].id < |edges| && edges[OutEdges(edges, k)[q].id] == OutEdges(edges, k)[q]
    requires IsFirstBest(OutEdges(edges, k), r)
    ensures var s := OutEdges(edges, k)[r].id;
      s < |edges| && edges[s].source == k &&
      (forall j :: 0 <= j < |edges| && edges[j].source == k ==> AtMost(Score(edges[j]), Score(edges[s]))) &&
      (forall j :: 0 <= j < s && edges[j].source == k ==> Below(Score(edges[j]), Score(edges[s])))
  {
    var out := OutEdges(edges, k);
    var s := out[r].id;
    assert out[r] in out;
    forall j | 0 <= j < |edges| && edges[j].source == k
      ensures AtMost(Score(edges[j]), Score(edges[s]))
      ensures j < s ==> Below(Score(edges[j]), Score(edges[s]))
    {
      assert edges[j] in out;
      var q :| 0 <= q < |out| && out[q] == edges[j];
      assert out[q].id == j;
    }
  }
}
