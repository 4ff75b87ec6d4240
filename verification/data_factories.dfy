/**
 * The three extraction helpers of the snapshot construction: the reward
 * fallback, the node payload and the edge payload.
 */
module DataFactories {
  import opened Wrappers
  import opened MctsNodes
  import opened TreeSnapshots

  /**
   * `get_reward`: the full reward diagnostics when the node carries them,
   * otherwise the fast-reward diagnostics when it carries those, otherwise none.
   */
  function GetReward(n: MctsNode): (r: Option<map<string, real>>)
    ensures r.None? <==> n.rewardDetails.None? && n.fastRewardDetails.None?
    ensures n.rewardDetails.Some? ==> r == n.rewardDetails
    ensures r.Some? && n.rewardDetails.None? ==> r == n.fastRewardDetails
  {
    if n.rewardDetails.Some? then n.rewardDetails else n.fastRewardDetails
  }

  /** `node_data_factory`: a one-key payload holding the node's state, or none before expansion. */
  function NodeDataOf(n: MctsNode): (d: NodeData)
    ensures d.Keys == {"state"}
    ensures d["state"] == n.state
  {
    map["state" := n.state]
  }

  /**
   * `edge_data_factory`: `{"Q": n.Q, **get_reward(n)}`. The reward fields are
   * merged after `Q`, so a reward key named "Q" replaces the node's own value;
   * spreading an absent reward fails (`None` here).
   */
  function EdgeDataOf(n: MctsNode): (r: Option<EdgeData>)
    ensures r.Some? <==> GetReward(n).Some?
    ensures r.Some? ==> r.value.Keys == {"Q"} + GetReward(n).value.Keys
    ensures r.Some? ==> r.value["Q"] == (if "Q" in GetReward(n).value then GetReward(n).value["Q"] else n.q)
    ensures r.Some? ==> forall k :: k in GetReward(n).value ==> r.value[k] == GetReward(n).value[k]
  {
    match GetReward(n)
    case None => None
    case Some(reward) => Some(map["Q" := n.q] + reward)
  }
}
