/**
 * The snapshot of one search iteration: a node map, an edge list in
 * discovery order, and a per-node "selected edge" annotation that is the
 * only thing written after construction.
 */
module TreeSnapshots {
  import opened Wrappers

  type NodeId = int
  type EdgeId = nat

  /** `{"state": ...}`: the payload recorded for a node. */
  type NodeData = map<string, Option<string>>
  /** `{"Q": ..., <reward diagnostics>...}`: the statistics recorded for an edge. */
  type EdgeData = map<string, real>

  datatype Node = Node(id: NodeId, data: NodeData)
  datatype Edge = Edge(id: EdgeId, source: NodeId, target: NodeId, data: EdgeData)

  /** The edges whose source is `id`, in edge order; empty for a leaf or an unknown id. */
  function OutEdges(edges: seq<Edge>, id: NodeId): (r: seq<Edge>)
    ensures |r| <= |edges|
    ensures forall e :: e in r <==> e in edges && e.source == id
  {
    if edges == [] then []
    else (if edges[0].source == id then [edges[0]] else []) + OutEdges(edges[1..], id)
  }

  /** The targets of the edges whose source is `id`, in edge order. */
  function Children(edges: seq<Edge>, id: NodeId): (r: seq<NodeId>)
    ensures |r| == |OutEdges(edges, id)|
    ensures forall i :: 0 <= i < |r| ==> r[i] == OutEdges(edges, id)[i].target
  {
    if edges == [] then []
    else (if edges[0].source == id then [edges[0].target] else []) + Children(edges[1..], id)
  }

  /** Edge ids strictly increase along the sequence. */
  ghost predicate Ascending(edges: seq<Edge>)
  {
    forall i, j :: 0 <= i < j < |edges| ==> edges[i].id < edges[j].id
  }

  /** Every edge's id is its position: ids are exactly 0 .. |edges| - 1, in order. */
  ghost predicate IdsAreIndices(edges: seq<Edge>)
  {
    forall i :: 0 <= i < |edges| ==> edges[i].id == i
  }

  /** Every edge joins two nodes of the map, and every node is stored under its own id. */
  ghost predicate WellFormed(nodes: map<NodeId, Node>, edges: seq<Edge>)
  {
    (forall k :: k in nodes ==> nodes[k].id == k) &&
    (forall e :: e in edges ==> e.source in nodes && e.target in nodes)
  }

  /** `OutEdges` keeps the edge order: ascending ids stay ascending. */
  lemma {:induction false} OutEdgesAscending(edges: seq<Edge>, id: NodeId)
    requires Ascending(edges)
    ensures Ascending(OutEdges(edges, id))
  {
    if edges != [] {
      var rest := OutEdges(edges[1..], id);
      OutEdgesAscending(edges[1..], id);
      forall j | 0 <= j < |rest| ensures edges[0].id < rest[j].id {
        assert rest[j] in edges[1..];
        var p :| 0 <= p < |edges[1..]| && edges[1..][p] == rest[j];
        assert edges[p + 1] == rest[j];
      }
    }
  }

  /** The ids of a list of nodes. */
  function NodeIds(ns: seq<Node>): set<NodeId>
  {
    set n | n in ns :: n.id
  }

  /** The node map of a snapshot built from a node list: keyed by id, a later entry for an id replacing an earlier one. */
  function NodesById(ns: seq<Node>): (m: map<NodeId, Node>)
    decreases |ns|
    ensures m.Keys == NodeIds(ns)
    ensures forall k :: k in m ==> m[k].id == k
    ensures forall k :: k in m ==> m[k] in ns
  {
    if ns == [] then map[]
    else
      var last := ns[|ns| - 1];
      assert ns == ns[..|ns| - 1] + [last];
      NodesById(ns[..|ns| - 1])[last.id := last]
  }

  /**
   * A snapshot. The node list and the edge list are fixed at construction;
   * `selected` holds, per node id, the node's `selected_edge` (a missing key
   * is an absent selection).
   */
  class TreeSnapshot {
    const nodeList: seq<Node>
    const edges: seq<Edge>
    var selected: map<NodeId, EdgeId>

    constructor (nodeList: seq<Node>, edges: seq<Edge>)
      ensures this.nodeList == nodeList && this.edges == edges
      ensures selected == map[]
    {
      this.nodeList := nodeList;
      this.edges := edges;
      selected := map[];
    }
  }
}
