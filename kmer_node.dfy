/**
 * The node arena of a k-mer graph.
 *
 * The original graph owns heap-allocated nodes and links them by pointer. Here
 * every node lives in an arena at a stable index, its handle (the order in
 * which nodes were created), and the graph's node vector is a sequence of
 * handles. Reordering the vector (sorting) permutes handles and leaves the
 * adjacency lists untouched, exactly as reordering a vector of pointers does.
 */
module KmerNodes {
  import opened Wrappers

  type Handle = nat

  /** One vertex: its id, its Path, the two coverage slots, the A/T tag, the
      content hash and its adjacency lists (handles of other arena nodes). */
  datatype KmerNode<P> = KmerNode(
    id: nat,
    path: P,
    covg0: nat,
    covg1: nat,
    numAT: nat,
    khash: Option<nat>,
    outNodes: seq<Handle>,
    inNodes: seq<Handle>)

  /** A node as freshly created for `id` and `path`: no coverage, no tag, no
      hash stamped yet and no edges. */
  function NewNode<P>(id: nat, path: P): (n: KmerNode<P>)
    ensures n.id == id && n.path == path
    ensures n.covg0 == 0 && n.covg1 == 0 && n.outNodes == [] && n.inNodes == []
  {
    KmerNode(id, path, 0, 0, 0, None, [], [])
  }

  /** The k-mer size is fixed by the first non-empty Path. */
  function FixK(k: nat, length: nat): (r: nat)
    ensures k != 0 ==> r == k
    ensures k == 0 ==> r == length
  {
    if k == 0 && length > 0 then length else k
  }

  /** The vector `nodes` holds every handle of an arena of size `n` exactly once. */
  ghost predicate HandlesPermuted(nodes: seq<Handle>, n: nat) {
    && |nodes| == n
    && (forall i :: 0 <= i < |nodes| ==> nodes[i] < n)
    && (forall h :: 0 <= h < n ==> multiset(nodes)[h] == 1)
  }

  /** Every adjacency entry refers to a node of the arena. */
  ghost predicate EdgesInRange<P>(arena: seq<KmerNode<P>>) {
    && (forall u, j :: 0 <= u < |arena| && 0 <= j < |arena[u].outNodes| ==> arena[u].outNodes[j] < |arena|)
    && (forall u, j :: 0 <= u < |arena| && 0 <= j < |arena[u].inNodes| ==> arena[u].inNodes[j] < |arena|)
  }

  /** The out-lists and in-lists are mirror images: v occurs in u's out-list as
      often as u occurs in v's in-list. */
  ghost predicate Mirrored<P>(arena: seq<KmerNode<P>>) {
    forall u, v {:trigger multiset(arena[u].outNodes)[v]} {:trigger multiset(arena[v].inNodes)[u]} ::
      0 <= u < |arena| && 0 <= v < |arena| ==>
      multiset(arena[u].outNodes)[v] == multiset(arena[v].inNodes)[u]
  }

  ghost predicate WellFormed<P>(arena: seq<KmerNode<P>>, nodes: seq<Handle>) {
    HandlesPermuted(nodes, |arena|) && EdgesInRange(arena) && Mirrored(arena)
  }

  /** Every node's id is its position in the node vector. */
  ghost predicate IdsArePositions<P>(arena: seq<KmerNode<P>>, nodes: seq<Handle>) {
    forall i :: 0 <= i < |nodes| ==> nodes[i] < |arena| && arena[nodes[i]].id == i
  }

  /** No two nodes of the vector carry equal Paths. */
  ghost predicate DistinctPaths<P>(arena: seq<KmerNode<P>>, nodes: seq<Handle>)
    requires forall i :: 0 <= i < |nodes| ==> nodes[i] < |arena|
  {
    forall i, j :: 0 <= i < j < |nodes| ==> arena[nodes[i]].path != arena[nodes[j]].path
  }

  /** Every edge goes from a smaller Path to a larger one. */
  ghost predicate EdgesIncreaseInPath<P>(arena: seq<KmerNode<P>>, less: (P, P) -> bool)
    requires EdgesInRange(arena)
  {
    forall u, j :: 0 <= u < |arena| && 0 <= j < |arena[u].outNodes| ==>
      less(arena[u].path, arena[arena[u].outNodes[j]].path)
  }

  /** Every edge goes from a smaller id to a larger one. */
  ghost predicate EdgesIncreaseInId<P>(arena: seq<KmerNode<P>>)
    requires EdgesInRange(arena)
  {
    forall u, j :: 0 <= u < |arena| && 0 <= j < |arena[u].outNodes| ==>
      arena[u].id < arena[arena[u].outNodes[j]].id
  }

  lemma DistinctHandles(nodes: seq<Handle>, n: nat, i: nat, j: nat)
    requires HandlesPermuted(nodes, n)
    requires i < j < |nodes|
    ensures nodes[i] != nodes[j]
  {
    var x := nodes[j];
    assert nodes == nodes[..j] + nodes[j..];
    assert multiset(nodes) == multiset(nodes[..j]) + multiset(nodes[j..]);
    assert nodes[j..][0] == x;
    assert multiset(nodes[j..])[x] >= 1;
    assert x < n && multiset(nodes)[x] == 1;
    assert multiset(nodes[..j])[x] == 0;
    assert nodes[..j][i] == nodes[i];
  }

  /** Appending an edgeless node to the arena and its handle to the vector
      keeps the graph well formed. */
  lemma AppendNodeWellFormed<P>(arena: seq<KmerNode<P>>, nodes: seq<Handle>, n: KmerNode<P>)
    requires WellFormed(arena, nodes)
    requires n.outNodes == [] && n.inNodes == []
    ensures WellFormed(arena + [n], nodes + [|arena|])
  {
    var m := |arena|;
    var ns := nodes + [m];
    assert multiset(ns) == multiset(nodes) + multiset{m};
    assert m !in multiset(nodes);
    AppendNodeMirrored(arena, n);
  }

  lemma AppendNodeMirrored<P>(arena: seq<KmerNode<P>>, n: KmerNode<P>)
    requires EdgesInRange(arena) && Mirrored(arena)
    requires n.outNodes == [] && n.inNodes == []
    ensures Mirrored(arena + [n])
  {
    var m := |arena|;
    var a := arena + [n];
    forall u, v | 0 <= u < |a| && 0 <= v < |a|
      ensures multiset(a[u].outNodes)[v] == multiset(a[v].inNodes)[u]
    {
      if u < m && v < m {
        assert a[u] == arena[u] && a[v] == arena[v];
        assert multiset(arena[u].outNodes)[v] == multiset(arena[v].inNodes)[u];
      } else if v < m {
        assert m !in arena[v].inNodes;
      } else if u < m {
        assert m !in arena[u].outNodes;
      }
    }
  }

  /** With ids equal to positions, the id of any handle is the position at which
      the vector holds it. */
  lemma PositionOfHandle<P>(arena: seq<KmerNode<P>>, nodes: seq<Handle>, h: Handle)
    requires WellFormed(arena, nodes) && IdsArePositions(arena, nodes)
    requires h < |arena|
    ensures arena[h].id < |nodes| && nodes[arena[h].id] == h
  {
    assert multiset(nodes)[h] == 1;
    assert h in multiset(nodes);
    var i :| 0 <= i < |nodes| && nodes[i] == h;
  }

  function FirstFrom<P(==)>(arena: seq<KmerNode<P>>, nodes: seq<Handle>, path: P, i: nat): (r: Option<nat>)
    requires forall j :: 0 <= j < |nodes| ==> nodes[j] < |arena|
    requires i <= |nodes|
    ensures r.Some? ==> i <= r.value < |nodes| && arena[nodes[r.value]].path == path
    ensures r.Some? ==> forall j :: i <= j < r.value ==> arena[nodes[j]].path != path
    ensures r.None? ==> forall j :: i <= j < |nodes| ==> arena[nodes[j]].path != path
    decreases |nodes| - i
  {
    if i == |nodes| then None
    else if arena[nodes[i]].path == path then Some(i)
    else FirstFrom(arena, nodes, path, i + 1)
  }

  /** The position of the first node of the vector whose Path equals `path`:
      the node a search by Path equality finds. */
  function FirstWithPath<P(==)>(arena: seq<KmerNode<P>>, nodes: seq<Handle>, path: P): (r: Option<nat>)
    requires forall j :: 0 <= j < |nodes| ==> nodes[j] < |arena|
    ensures r.Some? ==> r.value < |nodes| && arena[nodes[r.value]].path == path
    ensures r.Some? ==> forall j :: 0 <= j < r.value ==> arena[nodes[j]].path != path
    ensures r.None? <==> forall j :: 0 <= j < |nodes| ==> arena[nodes[j]].path != path
  {
    FirstFrom(arena, nodes, path, 0)
  }

  /** Record the edge f -> t: t is appended to f's out-list and f to t's in-list. */
  function LinkNodes<P>(arena: seq<KmerNode<P>>, f: Handle, t: Handle): (r: seq<KmerNode<P>>)
    requires f < |arena| && t < |arena|
    ensures |r| == |arena|
  {
    var a1 := arena[f := arena[f].(outNodes := arena[f].outNodes + [t])];
    a1[t := a1[t].(inNodes := a1[t].inNodes + [f])]
  }

  /** Linking changes exactly the two lists involved. */
  lemma LinkNodesLists<P>(arena: seq<KmerNode<P>>, f: Handle, t: Handle, h: Handle)
    requires f < |arena| && t < |arena| && h < |arena|
    ensures var r := LinkNodes(arena, f, t);
      && r[h].outNodes == (if h == f then arena[h].outNodes + [t] else arena[h].outNodes)
      && r[h].inNodes == (if h == t then arena[h].inNodes + [f] else arena[h].inNodes)
      && r[h] == arena[h].(outNodes := r[h].outNodes, inNodes := r[h].inNodes)
  {
  }

  lemma LinkNodesInRange<P>(arena: seq<KmerNode<P>>, f: Handle, t: Handle)
    requires EdgesInRange(arena)
    requires f < |arena| && t < |arena|
    ensures EdgesInRange(LinkNodes(arena, f, t))
  {
    var r := LinkNodes(arena, f, t);
    forall u, j | 0 <= u < |r| && 0 <= j < |r[u].outNodes|
      ensures r[u].outNodes[j] < |r|
    {
      LinkNodesLists(arena, f, t, u);
    }
    forall u, j | 0 <= u < |r| && 0 <= j < |r[u].inNodes|
      ensures r[u].inNodes[j] < |r|
    {
      LinkNodesLists(arena, f, t, u);
    }
  }

  lemma LinkNodesMirrored<P>(arena: seq<KmerNode<P>>, f: Handle, t: Handle)
    requires Mirrored(arena)
    requires f < |arena| && t < |arena|
    ensures Mirrored(LinkNodes(arena, f, t))
  {
    var r := LinkNodes(arena, f, t);
    forall u, v | 0 <= u < |r| && 0 <= v < |r|
      ensures multiset(r[u].outNodes)[v] == multiset(r[v].inNodes)[u]
    {
      LinkNodesLists(arena, f, t, u);
      LinkNodesLists(arena, f, t, v);
      assert multiset(arena[u].outNodes)[v] == multiset(arena[v].inNodes)[u];
    }
  }

  /** Linking keeps the arena well formed. */
  lemma LinkNodesWellFormed<P>(arena: seq<KmerNode<P>>, nodes: seq<Handle>, f: Handle, t: Handle)
    requires WellFormed(arena, nodes)
    requires f < |arena| && t < |arena|
    ensures WellFormed(LinkNodes(arena, f, t), nodes)
  {
    LinkNodesInRange(arena, f, t);
    LinkNodesMirrored(arena, f, t);
  }

  /** Add the edge f -> t unless t already is an out-neighbour of f. */
  function WithEdge<P>(arena: seq<KmerNode<P>>, f: Handle, t: Handle): (r: seq<KmerNode<P>>)
    requires f < |arena| && t < |arena|
    ensures |r| == |arena|
  {
    if t in arena[f].outNodes then arena else LinkNodes(arena, f, t)
  }

  /** After adding an edge it is present in both lists, and adding it again
      changes nothing. */
  lemma WithEdgeIdempotent<P>(arena: seq<KmerNode<P>>, f: Handle, t: Handle)
    requires f < |arena| && t < |arena|
    requires Mirrored(arena)
    ensures var r := WithEdge(arena, f, t);
      && t in r[f].outNodes && f in r[t].inNodes
      && WithEdge(r, f, t) == r
  {
    var r := WithEdge(arena, f, t);
    if t !in arena[f].outNodes {
      LinkNodesLists(arena, f, t, f);
      LinkNodesLists(arena, f, t, t);
    }
    LinkNodesMirrored(arena, f, t);
    assert multiset(r[f].outNodes)[t] == multiset(r[t].inNodes)[f];
  }

  /** Adding an edge keeps the graph well formed, and an edge between a
      smaller and a larger Path keeps every edge increasing in Path. */
  lemma WithEdgeKeeps<P>(arena: seq<KmerNode<P>>, nodes: seq<Handle>, f: Handle, t: Handle, less: (P, P) -> bool)
    requires WellFormed(arena, nodes) && f < |arena| && t < |arena|
    ensures WellFormed(WithEdge(arena, f, t), nodes)
    ensures forall h :: 0 <= h < |arena| ==> WithEdge(arena, f, t)[h].path == arena[h].path && WithEdge(arena, f, t)[h].id == arena[h].id
    ensures EdgesIncreaseInPath(arena, less) && less(arena[f].path, arena[t].path) ==>
      EdgesIncreaseInPath(WithEdge(arena, f, t), less)
  {
    var r := WithEdge(arena, f, t);
    if t !in arena[f].outNodes {
      LinkNodesWellFormed(arena, nodes, f, t);
      forall h | 0 <= h < |arena| {
        LinkNodesLists(arena, f, t, h);
      }
      if EdgesIncreaseInPath(arena, less) && less(arena[f].path, arena[t].path) {
        forall u, j | 0 <= u < |r| && 0 <= j < |r[u].outNodes|
          ensures less(r[u].path, r[r[u].outNodes[j]].path)
        {
          LinkNodesLists(arena, f, t, u);
          if u == f && j == |arena[f].outNodes| {
            assert r[u].outNodes[j] == t;
          } else {
            assert r[u].outNodes[j] == arena[u].outNodes[j];
          }
        }
      }
    }
  }
}
