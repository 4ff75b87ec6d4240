/**
 * The native search-tree node consumed by the snapshot construction.
 * The search algorithm that builds these trees is not part of this model;
 * only the fields that the construction reads are kept.
 */
module MctsNodes {
  import opened Wrappers

  /**
   * One node of the search tree as it stood after an iteration.
   *  - `id`: the node's native identifier, reused as the snapshot's node id.
   *  - `state`: the `blocks_state` of the node's state, absent while the node is unexpanded.
   *  - `q`: the node's value estimate `Q` (a float in the original, a real here).
   *  - `rewardDetails`, `fastRewardDetails`: the reward-diagnostic dictionaries;
   *    `None` stands for a node that does not carry the attribute at all.
   *  - `children`: the children collection, or `Absent` for a node that has none.
   */
  datatype MctsNode = MctsNode(
    id: int,
    state: Option<string>,
    q: real,
    rewardDetails: Option<map<string, real>>,
    fastRewardDetails: Option<map<string, real>>,
    children: ChildList)

  /** A node's children collection: `None` in the original, or a list in native order. */
  datatype ChildList = Absent | Present(nodes: seq<MctsNode>)
}
