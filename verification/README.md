# TreeLog snapshot construction, modelled in Dafny

This project models `TreeLog.from_mcts_results` from `rap/visualization/tree_log.py`. It turns the search trees recorded after each iteration of a Monte-Carlo tree search into a log of tree snapshots, and it proves properties of that model.

For each iteration, the construction does four things:

1. It empties two accumulators: a node dictionary and an edge list.
2. It walks the iteration's tree depth-first in pre-order (`all_nodes`).
   - Each visited node is stored in the dictionary under its native id.
   - Each parent→child entry appends an edge to the list. The edge's id is the length of the list at that moment.
3. It wraps the dictionary's values and the edge list in a snapshot.
4. It annotates every node that has children with its best outgoing edge. The best edge is the first one in edge order with the largest `"Q"`; a missing `"Q"` ranks below every value.

The log is a thin wrapper over the resulting sequence of snapshots.

Layout, one module per file:

- `wrappers.dfy` (`Wrappers`): `Option`.
- `mcts_node.dfy` (`MctsNodes`): the search-tree node the construction reads.
  - It holds the id, the state, `Q`, the two optional reward-diagnostic dictionaries, and the children collection.
  - The children collection is either absent or a list.
- `tree_snapshot.dfy` (`TreeSnapshots`): the snapshot.
  - Nodes and edges.
  - `out_edges` and `children` as functions.
  - The node map as the id-keyed view of the node list.
  - The class `TreeSnapshot`. Its only mutable field is the per-node selection.
- `data_factories.dfy` (`DataFactories`): `get_reward`, `node_data_factory` and `edge_data_factory`.
- `walk.dfy` (`Walk`): the specification of one walk.
  - Pre-order visit order, the parent/child pairs in edge order, the node map, the dictionary's key order and the edge list.
  - The lemmas about them.
- `best_edge.dfy` (`BestEdge`): the `max(..., key=...)` scan and the annotation it produces, with its correctness lemma.
- `tree_log.dfy` (`TreeLog`): the imperative construction.
  - `SnapshotBuilder` holds the mutable accumulators; `all_nodes` is written as its methods.
  - The annotation loop mutates a `TreeSnapshot`.
  - The per-iteration loop is `BuildAll`.
  - The class `TreeLog` holds the accessors.
- `sample_walk.dfy` (`SampleWalk`): one worked iteration.
  - A root with children 1 (Q 0.5) and 2 (Q 0.9), where node 1 has child 3 (Q 0.2).
  - The walk yields the edges 0→1, 1→3 and 0→2, with ids 0, 1 and 2.
  - The annotation selects edge 2 for the root and edge 1 for node 1.

Errors are modelled as values. Where the original raises (spreading a missing reward dictionary into the edge payload), the method returns `false` or `None`.

The original keeps two accumulators. The model splits the Python dictionary into two fields:
- its entries, `nodes`;
- its key order, `keyOrder`.
An overwritten key keeps its first position, as a Python `dict` does.
The snapshot's node list is then `list(nodes.values())`.

## Model

| member | source | states |
|---|---|---|
| TreeLog.TreeLog.constructor | rap/visualization/tree_log.py:8-9 | The log holds exactly the given snapshot sequence. |
| TreeLog.TreeLog.Get | rap/visualization/tree_log.py:11-12 | Indexing succeeds exactly for `-len <= item < len`. A non-negative index reads that position; a negative one counts from the end. Any other index is an error (`None`). |
| TreeLog.TreeLog.Elements | rap/visualization/tree_log.py:14-15 | Iteration yields `len(log)` snapshots. The `i`-th agrees with both `log[i]` and `log[i - len]`. |
| TreeLog.TreeLog.Length | rap/visualization/tree_log.py:17-18 | `len(log)` is the number of snapshots. |
| DataFactories.GetReward | rap/visualization/tree_log.py:23-26 | Returns the full reward diagnostics when the node has them; otherwise the fast-reward diagnostics; `None` exactly when the node has neither. |
| DataFactories.NodeDataOf | rap/visualization/tree_log.py:28-29 | The node payload has the single key `"state"`, holding the node's state or `None`. |
| DataFactories.EdgeDataOf | rap/visualization/tree_log.py:31-32 | The payload exists exactly when a reward dictionary exists. Its keys are `"Q"` plus the reward keys. Every reward entry is copied. `"Q"` holds the node's `Q` unless the reward dictionary has its own `"Q"`, which then overrides it. |
| TreeLog.SnapshotBuilder.constructor | rap/visualization/tree_log.py:48-49 | The accumulators start empty. |
| TreeLog.SnapshotBuilder.AllNodes | rap/visualization/tree_log.py:36-45 | `all_nodes(node)` fails exactly when some node below `node` lacks reward diagnostics. On success it has done three things, whatever the accumulators held before: it inserted the pre-order visit of the subtree into the dictionary; it extended the key order by the ids that were new, in first-visit order; it appended one edge per parent/child pair, in pair order, each with the id equal to the list's length when it was appended. |
| TreeLog.SnapshotBuilder.AllChildren | rap/visualization/tree_log.py:42-45 | The loop over `node.children` fails exactly when the subtree lacks a reward. On success the accumulators are extended by every child's edge and subtree, in child order. |
| TreeLog.SnapshotBuilder.VisitChild | rap/visualization/tree_log.py:43-45 | One iteration for child `i`. It appends the edge into the child, with id `len(edges)`, then walks the child. The accumulators go from "first `i` children handled" to "first `i + 1` children handled", or the step fails and the whole walk fails. |
| Walk.NewIdsSpec | rap/visualization/tree_log.py:39 | The keys a visit adds to the dictionary are exactly the visited ids not already present, each listed once. |
| Walk.MakeEdgesAt | rap/visualization/tree_log.py:43-44 | Edge `i` appended after `base` earlier edges has id `base + i`. It runs from the `i`-th pair's parent to its child and carries the child's payload. |
| Walk.MakeEdgesConcat | rap/visualization/tree_log.py:43-44 | Appending the edges of `a` and then those of `b` gives the edges of `a + b`; the ids continue from `base + |a|`. |
| Walk.NewIdsConcat | rap/visualization/tree_log.py:39 | Visiting `a` and then `b` adds the same keys, in the same order, as visiting `a + b`. |
| Walk.InsertAllConcat | rap/visualization/tree_log.py:39 | Inserting `a` and then `b` gives the same dictionary entries as inserting `a + b`. |
| Walk.PairsFollowPreorder | rap/visualization/tree_log.py:36-45 | A walk visits exactly one more node than it appends edges. The first node visited is the root. Edge `i` leads into the node visited `(i+1)`-th. |
| Walk.PairsAreTreeEdges | rap/visualization/tree_log.py:42-44 | Every edge joins a visited node to an entry of that node's own children collection. |
| Walk.AllEntriesHavePairs | rap/visualization/tree_log.py:42-45 | The converse of `PairsAreTreeEdges`: every entry of the children collection of every visited node gets its parent/child pair. |
| Walk.AllEntriesHaveEdges | rap/visualization/tree_log.py:42-44 | Every such entry gets an edge from the visited node to it, carrying the entry's payload. |
| Walk.PairsCountChildEntries | rap/visualization/tree_log.py:42-44 | The number of edges equals the total number of entries in all children collections of the tree. |
| Walk.PairsOfPrefix | rap/visualization/tree_log.py:42-45 | Edges appended for earlier children are a prefix of those appended for later ones. |
| Walk.SiblingOrder | rap/visualization/tree_log.py:42-45 | For each child, three things hold: the edge into the child comes before all edges of its subtree; those edges follow it immediately; the edge into the next sibling comes right after them. |
| Walk.LeafWalk | rap/visualization/tree_log.py:39-41 | A node with no children collection produces one node entry and no edge. |
| Walk.RewardedIff | rap/visualization/tree_log.py:31-32 | The walk succeeds exactly when every node below the root has reward diagnostics. The root's own are never read. |
| Walk.WalkedNodesMatchTree | rap/visualization/tree_log.py:37-39 | The node map's keys are exactly the ids reachable from the root, each entry stored under its own id. When ids are unique there is one entry per tree node, holding that node's record. |
| Walk.WalkedKeyOrder | rap/visualization/tree_log.py:39 | After a walk from empty accumulators, the dictionary's key order lists each key of the map exactly once. |
| Walk.WalkedNodeListMatchesMap | rap/visualization/tree_log.py:53 | Keyed by id, `list(nodes.values())` gives back the walk's node map exactly. |
| Walk.WalkedNodeListIds | rap/visualization/tree_log.py:53 | The snapshot's node list holds each reachable id exactly once. |
| Walk.WalkedEdgesShape | rap/visualization/tree_log.py:42-44 | Over a whole walk, with one edge per child entry: edge ids are exactly `0 .. |edges|-1`, in order; edge `i` goes from a visited node to one of its children (the node visited `(i+1)`-th); it carries that child's payload, which always has a `"Q"`. |
| Walk.WalkedSnapshotWellFormed | rap/visualization/tree_log.py:39-44 | Both ends of every edge are keys of the node map. |
| TreeSnapshots.OutEdges | rap/visualization/tree_log.py:59 | `out_edges(id)` holds exactly the edges whose source is `id`. |
| TreeSnapshots.Children | rap/visualization/tree_log.py:57 | `children(id)` lists the targets of `out_edges(id)`, position by position. |
| TreeSnapshots.OutEdgesAscending | rap/visualization/tree_log.py:59 | `out_edges` keeps edge order. |
| TreeSnapshots.NodesById | rap/visualization/tree_log.py:53 | The node map of a snapshot built from a node list is keyed by exactly the list's ids. Each entry is a node of the list and is stored under its own id. |
| TreeSnapshots.TreeSnapshot.constructor | rap/visualization/tree_log.py:53 | A new snapshot holds the given nodes and edges, and no node has a selected edge. |
| TreeLog.NodeValues | rap/visualization/tree_log.py:53 | `list(nodes.values())`: the dictionary's entries, read in its key order. |
| BestEdge.FirstMaxIndex | rap/visualization/tree_log.py:58-61 | The position `max` returns has a key at least every other key, and strictly above the key of every earlier edge. So ties go to the first maximal edge. |
| BestEdge.SelectionIsFirstBest | rap/visualization/tree_log.py:56-61 | On a walked snapshot, a node is annotated exactly when it has an outgoing edge. Its selected edge goes out of it, has the largest `"Q"` among its out-edges (a missing `"Q"` counting as below every value), and is the first such in edge order. |
| TreeLog.SelectBestEdges | rap/visualization/tree_log.py:56-61 | After the annotation loop, each node already holding a selection keeps it. Every other node with children gets its best out-edge. Every other childless node stays unannotated. |
| TreeLog.BuildSnapshot | rap/visualization/tree_log.py:48-61 | One iteration fails exactly when the walk raises. Otherwise it yields a new snapshot: its node list is the walk's dictionary values, its edges the walk's edge list, its selection the best-edge annotation. It depends only on this iteration's root. |
| TreeLog.BuildAll | rap/visualization/tree_log.py:47-63 | On success there is one new snapshot per iteration, in iteration order; snapshot `i` is built from root `i` alone; no snapshot object appears twice. The loop fails exactly when some iteration's walk raises. |
| TreeLog.FromMctsResults | rap/visualization/tree_log.py:20-65 | The log holds exactly those snapshots, one per iteration and in order, or is `None` when the construction raises. |
| SampleWalk.SampleEdges | rap/visualization/tree_log.py:36-45 | On the sample tree the walk appends 0→1, 1→3 and 0→2, with ids 0, 1 and 2 and payloads `{"Q": 0.5}`, `{"Q": 0.2}` and `{"Q": 0.9}`. |
| SampleWalk.SampleSnapshot | rap/visualization/tree_log.py:47-61 | The snapshot built from the sample tree has nodes 0–3 and those edges. The root selects edge 2 (0.9 beats 0.5), node 1 selects edge 1, and the leaves select nothing. |

## Left out

- The search algorithm that produces the trees (expansion, back-propagation, reward computation) is not part of this model. Each iteration's tree is an input value (`MctsNode`). The input is a finite tree, so the model's walk always ends.
- `rap/visualization/tree_snapshot.py` is not part of this model. The snapshot keeps the following, and nothing further is assumed:
  - the node list it is given, with the id-keyed map `NodesById` as its node view;
  - the edge list;
  - `out_edges` and `children` as edges filtered by source;
  - one selection per node, as the map `selected`.
- Floating point: `Q` and reward values are `real`. `-float("inf")` is the bottom element of `Option<real>`. NaN, and the comparisons `max` makes with it, are not modelled.
- `hasattr` probing is modelled by optional fields on the node. A node whose attribute exists but holds `None` is not modelled; the original would return that `None` and then raise in the merge.
- `n.state.blocks_state` is modelled as an optional string; the state object itself is opaque. The root's own `Q` and reward fields are never read, as in the original.
- `DataFactories.EdgeDataOf`: a `"Q"` value of a non-numeric type in the reward dictionary is not modelled; all reward values are `real`.
- Exceptions are modelled as a failure value, `false` or `None`. Partial effects of a failed iteration are not stated: the accumulators are left as they are, and the snapshots built so far are discarded.
- `DataFactories.EdgeDataOf`: a node with neither reward dictionary makes the code spread `None` into the payload and raise (`**None`). The model returns `None`. No empty-dictionary fallback is modelled.
- `TreeLog.SnapshotBuilder.AllNodes`: Python's recursion-depth limit is not modelled. `all_nodes` calls itself once per tree level, so a tree deeper than the limit (1000 frames by default), or a cyclic children structure, raises `RecursionError`. The model has no such failure: `AllNodes`, `BuildSnapshot` and `TreeLog.FromMctsResults` succeed on every finite tree whose non-root nodes all carry reward diagnostics, however deep.
- `TreeLog.TreeLog.Get`: slices and non-integer keys of `__getitem__` are not modelled; only integer indices are.
- `TreeLog.TreeLog.Elements`: the iterator protocol of `__iter__` is modelled as the sequence it yields.
- `TreeLog.SelectBestEdges`: iterates over the node list. The original iterates over the snapshot's id-keyed node dictionary. After a walk the ids in the list are distinct (`Walk.WalkedNodeListIds`), so both visit the same nodes in the same order.
- Objects: each snapshot is a new object with its own `selected` map. Nodes and edges are values, so aliasing between a snapshot's `Node` objects and other code is not modelled.
