/**
 * The view of a sorted k-mer graph that the two backward dynamic programs
 * index: for each position, the ids of its out-neighbours.
 */
module SuccessorLists {
  import opened KmerNodes

  /** Every edge goes to a strictly higher index inside the graph. */
  ghost predicate Forward(succ: seq<seq<nat>>) {
    forall j, i :: 0 <= j < |succ| && 0 <= i < |succ[j]| ==> j < succ[j][i] < |succ|
  }

  /** For each position of the vector, the ids of the node's out-neighbours. */
  function SuccessorIds<P>(arena: seq<KmerNode<P>>, nodes: seq<Handle>): (succ: seq<seq<nat>>)
    requires WellFormed(arena, nodes)
    ensures |succ| == |nodes|
    ensures forall j :: 0 <= j < |nodes| ==> |succ[j]| == |arena[nodes[j]].outNodes|
  {
    seq(|nodes|, j requires 0 <= j < |nodes| =>
      var outs := arena[nodes[j]].outNodes;
      seq(|outs|, i requires 0 <= i < |outs| => arena[outs[i]].id))
  }

  /** When ids are positions and increase along every edge, the successor
      lists only point forward. */
  lemma SuccessorIdsForward<P>(arena: seq<KmerNode<P>>, nodes: seq<Handle>)
    requires WellFormed(arena, nodes) && IdsArePositions(arena, nodes) && EdgesIncreaseInId(arena)
    ensures Forward(SuccessorIds(arena, nodes))
  {
    var succ := SuccessorIds(arena, nodes);
    forall j, i | 0 <= j < |succ| && 0 <= i < |succ[j]|
      ensures j < succ[j][i] < |succ|
    {
      var o := arena[nodes[j]].outNodes[i];
      PositionOfHandle(arena, nodes, o);
      assert succ[j][i] == arena[o].id;
      assert arena[nodes[j]].id == j;
    }
  }
}
