/**
 * The consistency check of a k-mer graph: the node count matches the number
 * of minikmers expected (when one is given), only the node with id 0 may lack
 * in-edges, only the node with the last id may lack out-edges, and every edge
 * increases both Path and id. The original aborts on the first failed
 * assertion; here the first failure is returned.
 */
module Consistency {
  import opened KmerNodes

  datatype Violation =
    | NodeCountMismatch(actual: nat, expected: nat)
    | NoInEdges(id: nat)
    | NoOutEdges(id: nat)
    | PathNotIncreasing(fromId: nat, toId: nat)
    | IdNotIncreasing(fromId: nat, toId: nat)

  datatype CheckOutcome = Pass | Fail(violation: Violation)

  ghost predicate EdgeConsistent<P>(arena: seq<KmerNode<P>>, n: KmerNode<P>, d: Handle, less: (P, P) -> bool)
    requires d < |arena|
  {
    less(n.path, arena[d].path) && n.id < arena[d].id
  }

  /** `v` is the report of edge n -> d failing one of the two edge clauses. */
  ghost predicate EdgeViolation<P>(arena: seq<KmerNode<P>>, n: KmerNode<P>, d: Handle, less: (P, P) -> bool, v: Violation)
    requires d < |arena|
  {
    || (v == PathNotIncreasing(n.id, arena[d].id) && !less(n.path, arena[d].path))
    || (v == IdNotIncreasing(n.id, arena[d].id) && n.id >= arena[d].id)
  }

  ghost predicate NodeConsistent<P>(arena: seq<KmerNode<P>>, n: KmerNode<P>, count: nat, less: (P, P) -> bool)
    requires forall j :: 0 <= j < |n.outNodes| ==> n.outNodes[j] < |arena|
  {
    && (|n.inNodes| > 0 || n.id == 0)
    && (|n.outNodes| > 0 || n.id + 1 == count)
    && forall j :: 0 <= j < |n.outNodes| ==> EdgeConsistent(arena, n, n.outNodes[j], less)
  }

  /** The declarative form of what the check asserts. */
  ghost predicate Consistent<P>(arena: seq<KmerNode<P>>, nodes: seq<Handle>, expected: nat, less: (P, P) -> bool)
    requires WellFormed(arena, nodes)
  {
    && (expected == 0 || |nodes| == expected)
    && forall i :: 0 <= i < |nodes| ==> NodeConsistent(arena, arena[nodes[i]], |nodes|, less)
  }

  /** The reported violation is real: some node of the graph exhibits it. */
  ghost predicate Exhibits<P>(arena: seq<KmerNode<P>>, nodes: seq<Handle>, expected: nat, less: (P, P) -> bool, v: Violation)
    requires WellFormed(arena, nodes)
  {
    match v
    case NodeCountMismatch(actual, e) => e == expected && e != 0 && actual == |nodes| != e
    case NoInEdges(id) => exists i :: 0 <= i < |nodes| && arena[nodes[i]].id == id != 0 && arena[nodes[i]].inNodes == []
    case NoOutEdges(id) => exists i :: 0 <= i < |nodes| && arena[nodes[i]].id == id && id + 1 != |nodes| && arena[nodes[i]].outNodes == []
    case PathNotIncreasing(f, t) =>
      exists i, j :: 0 <= i < |nodes| && 0 <= j < |arena[nodes[i]].outNodes|
        && arena[nodes[i]].id == f && arena[arena[nodes[i]].outNodes[j]].id == t
        && !less(arena[nodes[i]].path, arena[arena[nodes[i]].outNodes[j]].path)
    case IdNotIncreasing(f, t) =>
      exists i, j :: 0 <= i < |nodes| && 0 <= j < |arena[nodes[i]].outNodes|
        && arena[nodes[i]].id == f && arena[arena[nodes[i]].outNodes[j]].id == t && f >= t
  }

  /** The edge assertions for node `n`, over its out-list from position `j` on. */
  function CheckEdges<P>(arena: seq<KmerNode<P>>, n: KmerNode<P>, j: nat, less: (P, P) -> bool): (r: CheckOutcome)
    requires forall m :: 0 <= m < |n.outNodes| ==> n.outNodes[m] < |arena|
    requires j <= |n.outNodes|
    ensures r.Pass? <==> forall m :: j <= m < |n.outNodes| ==> EdgeConsistent(arena, n, n.outNodes[m], less)
    ensures r.Fail? ==> exists m :: j <= m < |n.outNodes| && EdgeViolation(arena, n, n.outNodes[m], less, r.violation)
    decreases |n.outNodes| - j
  {
    if j == |n.outNodes| then Pass
    else
      var d := arena[n.outNodes[j]];
      if !less(n.path, d.path) then Fail(PathNotIncreasing(n.id, d.id))
      else if n.id >= d.id then Fail(IdNotIncreasing(n.id, d.id))
      else CheckEdges(arena, n, j + 1, less)
  }

  /** The inner loop of check: the out-edges of `n` in order, stopping at the
      first one whose Path or id does not increase. */
  method ScanEdges<P>(arena: seq<KmerNode<P>>, n: KmerNode<P>, less: (P, P) -> bool) returns (r: CheckOutcome)
    requires forall m :: 0 <= m < |n.outNodes| ==> n.outNodes[m] < |arena|
    ensures r == CheckEdges(arena, n, 0, less)
  {
    var j := 0;
    while j != |n.outNodes|
      invariant 0 <= j <= |n.outNodes|
      invariant CheckEdges(arena, n, j, less) == CheckEdges(arena, n, 0, less)
    {
      var d := arena[n.outNodes[j]];
      if !less(n.path, d.path) {
        return Fail(PathNotIncreasing(n.id, d.id));
      }
      if n.id >= d.id {
        return Fail(IdNotIncreasing(n.id, d.id));
      }
      j := j + 1;
    }
    return Pass;
  }

  /** The per-node assertions, over the node vector from position `i` on. */
  function CheckNodes<P>(arena: seq<KmerNode<P>>, nodes: seq<Handle>, i: nat, less: (P, P) -> bool): (r: CheckOutcome)
    requires WellFormed(arena, nodes)
    requires i <= |nodes|
    ensures r.Pass? <==> forall m :: i <= m < |nodes| ==> NodeConsistent(arena, arena[nodes[m]], |nodes|, less)
    ensures r.Fail? ==> Exhibits(arena, nodes, 0, less, r.violation) && !r.violation.NodeCountMismatch?
    decreases |nodes| - i
  {
    if i == |nodes| then Pass
    else
      var n := arena[nodes[i]];
      if |n.inNodes| == 0 && n.id != 0 then Fail(NoInEdges(n.id))
      else if |n.outNodes| == 0 && n.id + 1 != |nodes| then Fail(NoOutEdges(n.id))
      else
        var edges := CheckEdges(arena, n, 0, less);
        if edges.Fail? then edges
        else CheckNodes(arena, nodes, i + 1, less)
  }

  /** The outer loop of check: the nodes in vector order, stopping at the
      first one without in-edges that is not node 0, without out-edges that is
      not the last, or with an out-edge that does not increase. */
  method ScanNodes<P>(arena: seq<KmerNode<P>>, nodes: seq<Handle>, less: (P, P) -> bool) returns (r: CheckOutcome)
    requires WellFormed(arena, nodes)
    ensures r == CheckNodes(arena, nodes, 0, less)
  {
    var i := 0;
    while i != |nodes|
      invariant 0 <= i <= |nodes|
      invariant CheckNodes(arena, nodes, i, less) == CheckNodes(arena, nodes, 0, less)
    {
      var n := arena[nodes[i]];
      if |n.inNodes| == 0 && n.id != 0 {
        return Fail(NoInEdges(n.id));
      }
      if |n.outNodes| == 0 && n.id + 1 != |nodes| {
        return Fail(NoOutEdges(n.id));
      }
      var edges := ScanEdges(arena, n, less);
      if edges.Fail? {
        return edges;
      }
      i := i + 1;
    }
    return Pass;
  }

  /** The consistency check: Pass exactly when the graph is consistent, and
      otherwise a violation that the graph really exhibits. */
  function Check<P>(arena: seq<KmerNode<P>>, nodes: seq<Handle>, expected: nat, less: (P, P) -> bool): (r: CheckOutcome)
    requires WellFormed(arena, nodes)
    ensures r.Pass? <==> Consistent(arena, nodes, expected, less)
    ensures r.Fail? ==> Exhibits(arena, nodes, expected, less, r.violation)
  {
    if expected != 0 && |nodes| != expected then Fail(NodeCountMismatch(|nodes|, expected))
    else CheckNodes(arena, nodes, 0, less)
  }
}
