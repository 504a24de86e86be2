/**
 * Topological finalisation: the node vector is sorted by Path order and every
 * node then takes its position as id. Because every edge goes from a smaller
 * Path to a larger one, ids then increase along every edge.
 */
module TopoSort {
  import opened PathOrder
  import opened KmerNodes

  ghost predicate InArena<P>(arena: seq<KmerNode<P>>, s: seq<Handle>) {
    forall i :: 0 <= i < |s| ==> s[i] < |arena|
  }

  /** No node of `s` has a Path smaller than that of a node before it. */
  ghost predicate SortedByPath<P>(arena: seq<KmerNode<P>>, s: seq<Handle>, less: (P, P) -> bool)
    requires InArena(arena, s)
  {
    forall i, j :: 0 <= i < j < |s| ==> !less(arena[s[j]].path, arena[s[i]].path)
  }

  /** Insert handle `h` into the Path-sorted `s`, before the first node whose Path is larger. */
  function InsertByPath<P(!new)>(arena: seq<KmerNode<P>>, s: seq<Handle>, h: Handle, less: (P, P) -> bool): (r: seq<Handle>)
    requires InArena(arena, s) && h < |arena|
    requires Irreflexive(less) && Transitive(less)
    requires SortedByPath(arena, s, less)
    ensures InArena(arena, r)
    ensures multiset(r) == multiset(s) + multiset{h}
    ensures SortedByPath(arena, r, less)
  {
    if s == [] then [h]
    else if less(arena[h].path, arena[s[0]].path) then
      InsertAtFront(arena, s, h, less);
      [h] + s
    else
      var tail := InsertByPath(arena, s[1..], h, less);
      InsertBehind(arena, s, h, tail, less);
      [s[0]] + tail
  }

  lemma InsertAtFront<P(!new)>(arena: seq<KmerNode<P>>, s: seq<Handle>, h: Handle, less: (P, P) -> bool)
    requires InArena(arena, s) && h < |arena| && s != []
    requires Irreflexive(less) && Transitive(less)
    requires SortedByPath(arena, s, less)
    requires less(arena[h].path, arena[s[0]].path)
    ensures SortedByPath(arena, [h] + s, less)
  {
    var r := [h] + s;
    forall i, j | 0 <= i < j < |r|
      ensures !less(arena[r[j]].path, arena[r[i]].path)
    {
      if i == 0 {
        assert r[j] == s[j - 1];
        assert j - 1 > 0 ==> !less(arena[s[j - 1]].path, arena[s[0]].path);
      } else {
        assert r[i] == s[i - 1] && r[j] == s[j - 1];
      }
    }
  }

  lemma InsertBehind<P(!new)>(arena: seq<KmerNode<P>>, s: seq<Handle>, h: Handle, tail: seq<Handle>, less: (P, P) -> bool)
    requires InArena(arena, s) && h < |arena| && s != []
    requires InArena(arena, tail)
    requires SortedByPath(arena, s, less)
    requires !less(arena[h].path, arena[s[0]].path)
    requires multiset(tail) == multiset(s[1..]) + multiset{h}
    requires SortedByPath(arena, tail, less)
    ensures SortedByPath(arena, [s[0]] + tail, less)
    ensures multiset([s[0]] + tail) == multiset(s) + multiset{h}
  {
    assert s == [s[0]] + s[1..];
    var r := [s[0]] + tail;
    forall i, j | 0 <= i < j < |r|
      ensures !less(arena[r[j]].path, arena[r[i]].path)
    {
      if i == 0 {
        var y := tail[j - 1];
        assert y in multiset(tail);
        assert y == h || y in s[1..];
        if y != h {
          var m :| 0 <= m < |s[1..]| && s[1..][m] == y;
          assert s[m + 1] == y;
        }
      } else {
        assert r[i] == tail[i - 1] && r[j] == tail[j - 1];
      }
    }
  }

  /** Sorts a vector of handles by Path order (the library sort of the source). */
  method SortByPath<P(!new)>(arena: seq<KmerNode<P>>, order: seq<Handle>, less: (P, P) -> bool) returns (sorted: seq<Handle>)
    requires InArena(arena, order)
    requires Irreflexive(less) && Transitive(less)
    ensures InArena(arena, sorted)
    ensures multiset(sorted) == multiset(order)
    ensures SortedByPath(arena, sorted, less)
  {
    sorted := [];
    var i := 0;
    while i < |order|
      invariant 0 <= i <= |order|
      invariant InArena(arena, sorted)
      invariant multiset(sorted) == multiset(order[..i])
      invariant SortedByPath(arena, sorted, less)
    {
      assert order[..i + 1] == order[..i] + [order[i]];
      sorted := InsertByPath(arena, sorted, order[i], less);
      i := i + 1;
    }
    assert order[..i] == order;
  }

  /** Give every node of the vector its position as id; nothing else changes. */
  method Renumber<P>(arena: seq<KmerNode<P>>, order: seq<Handle>) returns (r: seq<KmerNode<P>>)
    requires HandlesPermuted(order, |arena|)
    ensures |r| == |arena|
    ensures forall h :: 0 <= h < |r| ==> r[h] == arena[h].(id := r[h].id)
    ensures IdsArePositions(r, order)
  {
    r := arena;
    var i := 0;
    while i != |order|
      invariant 0 <= i <= |order|
      invariant |r| == |arena|
      invariant forall h :: 0 <= h < |r| ==> r[h] == arena[h].(id := r[h].id)
      invariant forall j :: 0 <= j < i ==> r[order[j]].id == j
    {
      forall j | 0 <= j < i
        ensures order[j] != order[i]
      {
        DistinctHandles(order, |arena|, j, i);
      }
      r := r[order[i] := r[order[i]].(id := i)];
      i := i + 1;
    }
  }

  /** In a Path-sorted vector a strictly smaller Path stands strictly earlier. */
  lemma SortedPositions<P(!new)>(arena: seq<KmerNode<P>>, s: seq<Handle>, less: (P, P) -> bool, a: nat, b: nat)
    requires InArena(arena, s) && SortedByPath(arena, s, less) && Irreflexive(less)
    requires a < |s| && b < |s|
    requires less(arena[s[a]].path, arena[s[b]].path)
    ensures a < b
  {
  }

  /** After sorting and renumbering, ids increase along every edge: the edge
      clause of the consistency check holds. */
  lemma SortedEdgesForward<P(!new)>(arena: seq<KmerNode<P>>, nodes: seq<Handle>, less: (P, P) -> bool)
    requires WellFormed(arena, nodes)
    requires IdsArePositions(arena, nodes)
    requires SortedByPath(arena, nodes, less)
    requires EdgesIncreaseInPath(arena, less)
    requires Irreflexive(less)
    ensures EdgesIncreaseInId(arena)
  {
    forall u, j | 0 <= u < |arena| && 0 <= j < |arena[u].outNodes|
      ensures arena[u].id < arena[arena[u].outNodes[j]].id
    {
      var v := arena[u].outNodes[j];
      PositionOfHandle(arena, nodes, u);
      PositionOfHandle(arena, nodes, v);
      SortedPositions(arena, nodes, less, arena[u].id, arena[v].id);
    }
  }

  /** With ids increasing along every edge, a node with an in-edge has a
      predecessor of smaller id, so its own id is not 0. */
  lemma InEdgeAfterFirst<P>(arena: seq<KmerNode<P>>, nodes: seq<Handle>, h: Handle)
    requires WellFormed(arena, nodes) && EdgesIncreaseInId(arena) && h < |arena|
    ensures arena[h].inNodes == [] || arena[h].id > 0
  {
    if arena[h].inNodes != [] {
      var u := arena[h].inNodes[0];
      assert multiset(arena[h].inNodes)[u] > 0;
      assert multiset(arena[u].outNodes)[h] > 0;
      var j :| 0 <= j < |arena[u].outNodes| && arena[u].outNodes[j] == h;
      assert arena[u].id < arena[h].id;
    }
  }

  /** With ids increasing along every edge and ids as positions, a node with an
      out-edge has a successor of larger id, so it is not the last node. */
  lemma OutEdgeBeforeLast<P>(arena: seq<KmerNode<P>>, nodes: seq<Handle>, h: Handle)
    requires WellFormed(arena, nodes) && IdsArePositions(arena, nodes)
    requires EdgesIncreaseInId(arena) && h < |arena|
    ensures arena[h].outNodes == [] || arena[h].id < |nodes| - 1
  {
    if arena[h].outNodes != [] {
      PositionOfHandle(arena, nodes, arena[h].outNodes[0]);
    }
  }

  /** When ids are positions and increase along every edge, the first node
      has no in-edges and the last node has no out-edges: they are the source
      and the sink that the consistency check exempts. */
  lemma SortedEnds<P>(arena: seq<KmerNode<P>>, nodes: seq<Handle>)
    requires WellFormed(arena, nodes) && IdsArePositions(arena, nodes)
    requires EdgesIncreaseInId(arena)
    ensures |nodes| > 0 ==> arena[nodes[0]].inNodes == [] && arena[nodes[|nodes| - 1]].outNodes == []
  {
    if |nodes| > 0 {
      InEdgeAfterFirst(arena, nodes, nodes[0]);
      OutEdgeBeforeLast(arena, nodes, nodes[|nodes| - 1]);
    }
  }
}
