/**
 * Structural comparison of two k-mer graphs (the graph equality operator).
 * Nodes are compared by Path: a node of the first graph is looked up in the
 * second by Path equality, the first match wins, and the two must agree on
 * out-degree and in-degree and every out-neighbour's Path must occur among
 * the match's out-neighbours. The comparison only runs from the first graph
 * to the second.
 */
module Equality {
  import opened Wrappers
  import opened KmerNodes

  /** Some entry of `outs` carries Path `path`. */
  predicate SomeWithPath<P(==)>(arena: seq<KmerNode<P>>, outs: seq<Handle>, path: P)
    requires forall i :: 0 <= i < |outs| ==> outs[i] < |arena|
  {
    exists i :: 0 <= i < |outs| && arena[outs[i]].path == path
  }

  /** Node x of the first graph has a counterpart in the second: the first node
      with an equal Path, with the same degrees and every out-neighbour's
      Path among its own out-neighbours. */
  predicate NodeMatched<P(==)>(arenaX: seq<KmerNode<P>>, x: Handle, arenaY: seq<KmerNode<P>>, nodesY: seq<Handle>)
    requires x < |arenaX| && EdgesInRange(arenaX) && EdgesInRange(arenaY)
    requires forall j :: 0 <= j < |nodesY| ==> nodesY[j] < |arenaY|
  {
    match FirstWithPath(arenaY, nodesY, arenaX[x].path)
    case None => false
    case Some(j) =>
      var u := arenaX[x];
      var v := arenaY[nodesY[j]];
      && |u.outNodes| == |v.outNodes|
      && |u.inNodes| == |v.inNodes|
      && forall o :: 0 <= o < |u.outNodes| ==> SomeWithPath(arenaY, v.outNodes, arenaX[u.outNodes[o]].path)
  }

  /** The equality operator: equal node counts and every node matched. */
  predicate GraphsEqual<P(==)>(arenaX: seq<KmerNode<P>>, nodesX: seq<Handle>, arenaY: seq<KmerNode<P>>, nodesY: seq<Handle>)
    requires WellFormed(arenaX, nodesX) && WellFormed(arenaY, nodesY)
  {
    && |nodesY| == |nodesX|
    && forall i :: 0 <= i < |nodesX| ==> NodeMatched(arenaX, nodesX[i], arenaY, nodesY)
  }

  /** The search of a match's out-neighbours for a Path. */
  method HasPath<P(==)>(arena: seq<KmerNode<P>>, outs: seq<Handle>, path: P) returns (b: bool)
    requires forall i :: 0 <= i < |outs| ==> outs[i] < |arena|
    ensures b == SomeWithPath(arena, outs, path)
  {
    var i := 0;
    while i != |outs|
      invariant 0 <= i <= |outs|
      invariant forall q :: 0 <= q < i ==> arena[outs[q]].path != path
    {
      if arena[outs[i]].path == path {
        return true;
      }
      i := i + 1;
    }
    return false;
  }

  /** Every handle of the arena sits at some position of the vector. */
  lemma HandleListed(nodes: seq<Handle>, n: nat, h: Handle) returns (i: nat)
    requires HandlesPermuted(nodes, n) && h < n
    ensures i < |nodes| && nodes[i] == h
  {
    assert multiset(nodes)[h] == 1;
    assert h in multiset(nodes);
    i :| 0 <= i < |nodes| && nodes[i] == h;
  }

  /** With distinct Paths, a Path identifies its node. */
  lemma SamePathSameHandle<P>(arena: seq<KmerNode<P>>, nodes: seq<Handle>, h1: Handle, h2: Handle)
    requires WellFormed(arena, nodes) && DistinctPaths(arena, nodes)
    requires h1 < |arena| && h2 < |arena| && arena[h1].path == arena[h2].path
    ensures h1 == h2
  {
    var m1 := HandleListed(nodes, |arena|, h1);
    var m2 := HandleListed(nodes, |arena|, h2);
    assert arena[nodes[m1]].path == arena[nodes[m2]].path;
    assert m1 == m2;
  }

  /** A graph with distinct Paths equals any graph holding the same nodes and
      edges, whatever the order of its node vector and whatever the ids; in
      particular such a graph equals itself, and equals itself after sorting. */
  lemma {:induction false} EqualUpToOrder<P>(arenaX: seq<KmerNode<P>>, nodesX: seq<Handle>, arenaY: seq<KmerNode<P>>, nodesY: seq<Handle>)
    requires WellFormed(arenaX, nodesX) && WellFormed(arenaY, nodesY)
    requires DistinctPaths(arenaX, nodesX)
    requires |arenaY| == |arenaX|
    requires forall h :: 0 <= h < |arenaX| ==>
      && arenaY[h].path == arenaX[h].path
      && arenaY[h].outNodes == arenaX[h].outNodes
      && arenaY[h].inNodes == arenaX[h].inNodes
    ensures GraphsEqual(arenaX, nodesX, arenaY, nodesY)
  {
    forall i | 0 <= i < |nodesX|
      ensures NodeMatched(arenaX, nodesX[i], arenaY, nodesY)
    {
      var x := nodesX[i];
      var j := HandleListed(nodesY, |arenaY|, x);
      var found := FirstWithPath(arenaY, nodesY, arenaX[x].path);
      assert arenaY[nodesY[j]].path == arenaX[x].path;
      var k := found.value;
      SamePathSameHandle(arenaX, nodesX, nodesY[k], x);
      var outs := arenaX[x].outNodes;
      forall o | 0 <= o < |outs|
        ensures SomeWithPath(arenaY, outs, arenaX[outs[o]].path)
      {
        assert arenaY[outs[o]].path == arenaX[outs[o]].path;
      }
    }
  }

  /** The comparison is not symmetric. The first graph has two nodes with Path
      1, the second one node with Path 1 and one with Path 2, none with edges:
      both nodes of the first graph find the second graph's Path-1 node, while
      the second graph's Path-2 node has no counterpart in the first. */
  lemma EqualityNotSymmetric()
    ensures WellFormed(Duplicated(), [0, 1]) && WellFormed(Spread(), [0, 1])
    ensures GraphsEqual(Duplicated(), [0, 1], Spread(), [0, 1])
    ensures !GraphsEqual(Spread(), [0, 1], Duplicated(), [0, 1])
  {
    DuplicatedMatched();
    SpreadUnmatched();
  }

  /** Both nodes of Duplicated() find the Path-1 node of Spread(). */
  lemma DuplicatedMatched()
    ensures WellFormed(Duplicated(), [0, 1]) && WellFormed(Spread(), [0, 1])
    ensures GraphsEqual(Duplicated(), [0, 1], Spread(), [0, 1])
  {
    TwoIsolatedNodes(Duplicated());
    TwoIsolatedNodes(Spread());
    DuplicatedNodeMatched(0);
    DuplicatedNodeMatched(1);
  }

  /** Each node of Duplicated() is matched by the first node of Spread(). */
  lemma DuplicatedNodeMatched(h: Handle)
    requires h < 2
    ensures EdgesInRange(Duplicated()) && EdgesInRange(Spread())
    ensures NodeMatched(Duplicated(), h, Spread(), [0, 1])
  {
    var x, y := Duplicated(), Spread();
    TwoIsolatedNodes(x);
    TwoIsolatedNodes(y);
    assert FirstFrom(y, [0, 1], 1, 0) == Some(0);
  }

  /** The Path-2 node of Spread() has no counterpart in Duplicated(). */
  lemma SpreadUnmatched()
    ensures WellFormed(Duplicated(), [0, 1]) && WellFormed(Spread(), [0, 1])
    ensures !GraphsEqual(Spread(), [0, 1], Duplicated(), [0, 1])
  {
    var x, y := Duplicated(), Spread();
    TwoIsolatedNodes(x);
    TwoIsolatedNodes(y);
    assert FirstFrom(x, [0, 1], 2, 2) == None;
    assert FirstFrom(x, [0, 1], 2, 1) == None;
    assert FirstFrom(x, [0, 1], 2, 0) == None;
    assert !NodeMatched(y, [0, 1][1], x, [0, 1]);
  }

  /** Two edgeless nodes that both carry Path 1. */
  function Duplicated(): seq<KmerNode<int>> {
    [NewNode(0, 1), NewNode(1, 1)]
  }

  /** Two edgeless nodes with Paths 1 and 2. */
  function Spread(): seq<KmerNode<int>> {
    [NewNode(0, 1), NewNode(1, 2)]
  }

  lemma TwoIsolatedNodes(arena: seq<KmerNode<int>>)
    requires |arena| == 2
    requires arena[0].outNodes == [] && arena[0].inNodes == []
    requires arena[1].outNodes == [] && arena[1].inNodes == []
    ensures WellFormed(arena, [0, 1])
  {
    assert multiset([0, 1])[0] == 1 && multiset([0, 1])[1] == 1;
  }
}
