/**
 * The k-mer graph: an owned vector of nodes with the bookkeeping the graph
 * updates in place (next id, k-mer size, read count, error probability and
 * the cached path length). Every operation that changes the graph is a
 * method on the class; the read-only queries are the functions of the
 * modules imported below.
 */
module KmerGraphs {
  import opened Wrappers
  import opened PathOrder
  import opened KmerNodes
  import opened TopoSort
  import opened Probability
  import opened SuccessorLists
  import opened Decoder
  import opened PathLength
  import opened Equality
  import Consistency
  import Serialisation

  /** Largest value of a 64-bit unsigned hash. */
  const MaxHash: nat := 0xFFFF_FFFF_FFFF_FFFF
  /** One more than the largest 8-bit A/T tag. */
  const TagLimit: nat := 0x100

  /** k is still 0 only while every Path is empty. */
  ghost predicate KFixed<P>(arena: seq<KmerNode<P>>, k: nat, pathLength: P -> nat) {
    k == 0 ==> forall h :: 0 <= h < |arena| ==> pathLength(arena[h].path) == 0
  }

  /** Every Path is empty or of length k. */
  ghost predicate Uniform<P>(arena: seq<KmerNode<P>>, k: nat, pathLength: P -> nat) {
    forall h :: 0 <= h < |arena| ==> pathLength(arena[h].path) == 0 || pathLength(arena[h].path) == k
  }

  /** Two arenas of the same size whose nodes agree on Path and id. */
  ghost predicate SamePathsAndIds<P>(a: seq<KmerNode<P>>, b: seq<KmerNode<P>>) {
    |a| == |b| && forall h :: 0 <= h < |a| ==> a[h].path == b[h].path && a[h].id == b[h].id
  }

  /** What depends only on Paths and ids carries over between such arenas. */
  lemma PathsAndIdsCarry<P>(a: seq<KmerNode<P>>, b: seq<KmerNode<P>>, nodes: seq<Handle>, k: nat, pathLength: P -> nat)
    requires SamePathsAndIds(a, b)
    requires forall i :: 0 <= i < |nodes| ==> nodes[i] < |a|
    ensures DistinctPaths(a, nodes) ==> DistinctPaths(b, nodes)
    ensures IdsArePositions(a, nodes) ==> IdsArePositions(b, nodes)
    ensures KFixed(a, k, pathLength) ==> KFixed(b, k, pathLength)
    ensures Uniform(a, k, pathLength) ==> Uniform(b, k, pathLength)
  {
  }

  /** Appending a new node for a Path not yet present keeps the graph sound. */
  lemma NodeAppended<P>(arena: seq<KmerNode<P>>, nodes: seq<Handle>, path: P, k: nat, pathLength: P -> nat)
    requires WellFormed(arena, nodes) && KFixed(arena, k, pathLength)
    requires FirstWithPath(arena, nodes, path).None?
    requires k == 0 || pathLength(path) == 0 || pathLength(path) == k
    ensures var a := arena + [NewNode(|nodes|, path)];
      var ns := nodes + [|arena|];
      var k' := FixK(k, pathLength(path));
      && WellFormed(a, ns)
      && KFixed(a, k', pathLength)
      && (DistinctPaths(arena, nodes) ==> DistinctPaths(a, ns))
      && (IdsArePositions(arena, nodes) ==> IdsArePositions(a, ns))
      && (Uniform(arena, k, pathLength) ==> Uniform(a, k', pathLength))
  {
    AppendNodeWellFormed(arena, nodes, NewNode(|nodes|, path));
  }

  /** What an operation that does not touch Paths or ids keeps. */
  ghost predicate Keeps<P>(a0: seq<KmerNode<P>>, a1: seq<KmerNode<P>>, nodes: seq<Handle>, less: (P, P) -> bool)
    requires EdgesInRange(a0) && EdgesInRange(a1)
    requires forall i :: 0 <= i < |nodes| ==> nodes[i] < |a0| && nodes[i] < |a1|
  {
    && (EdgesIncreaseInPath(a0, less) ==> EdgesIncreaseInPath(a1, less))
    && (DistinctPaths(a0, nodes) ==> DistinctPaths(a1, nodes))
    && (IdsArePositions(a0, nodes) ==> IdsArePositions(a1, nodes))
  }

  /** Adding an edge from a smaller to a larger Path keeps the graph sound. */
  lemma EdgeAdded<P>(arena: seq<KmerNode<P>>, nodes: seq<Handle>, f: Handle, t: Handle, less: (P, P) -> bool, k: nat, pathLength: P -> nat)
    requires WellFormed(arena, nodes) && KFixed(arena, k, pathLength)
    requires f < |arena| && t < |arena| && less(arena[f].path, arena[t].path)
    ensures var a := WithEdge(arena, f, t);
      && WellFormed(a, nodes) && KFixed(a, k, pathLength)
      && Keeps(arena, a, nodes, less)
  {
    WithEdgeKeeps(arena, nodes, f, t, less);
    PathsAndIdsCarry(arena, WithEdge(arena, f, t), nodes, k, pathLength);
  }

  /** Stamping a node's hash and tag keeps the graph sound. */
  lemma NodeStamped<P>(arena: seq<KmerNode<P>>, nodes: seq<Handle>, h: Handle, kh: nat, num: nat, k: nat, pathLength: P -> nat)
    requires WellFormed(arena, nodes) && KFixed(arena, k, pathLength) && h < |arena|
    ensures var a := arena[h := arena[h].(khash := Some(kh), numAT := num)];
      && WellFormed(a, nodes) && KFixed(a, k, pathLength)
      && (DistinctPaths(arena, nodes) ==> DistinctPaths(a, nodes))
      && (IdsArePositions(arena, nodes) ==> IdsArePositions(a, nodes))
      && (Uniform(arena, k, pathLength) ==> Uniform(a, k, pathLength))
  {
    var a := arena[h := arena[h].(khash := Some(kh), numAT := num)];
    forall u | 0 <= u < |a|
      ensures a[u].outNodes == arena[u].outNodes && a[u].inNodes == arena[u].inNodes
    {
    }
    PathsAndIdsCarry(arena, a, nodes, k, pathLength);
  }

  /** Arenas that agree on every node's Path and adjacency lists. */
  ghost predicate SameShape<P>(a0: seq<KmerNode<P>>, a1: seq<KmerNode<P>>) {
    && |a1| == |a0|
    && forall h :: 0 <= h < |a0| ==>
      a1[h].path == a0[h].path && a1[h].outNodes == a0[h].outNodes && a1[h].inNodes == a0[h].inNodes
  }

  /** What depends only on Paths and adjacency carries over between such arenas. */
  lemma SameShapeCarry<P>(a0: seq<KmerNode<P>>, a1: seq<KmerNode<P>>, nodes: seq<Handle>, less: (P, P) -> bool, k: nat, pathLength: P -> nat)
    requires SameShape(a0, a1) && WellFormed(a0, nodes)
    ensures WellFormed(a1, nodes)
    ensures KFixed(a0, k, pathLength) ==> KFixed(a1, k, pathLength)
    ensures Uniform(a0, k, pathLength) ==> Uniform(a1, k, pathLength)
    ensures EdgesIncreaseInPath(a0, less) ==> EdgesIncreaseInPath(a1, less)
    ensures SortedByPath(a0, nodes, less) ==> SortedByPath(a1, nodes, less)
  {
  }

  /** Rewriting ids only keeps everything that depends on Paths and adjacency. */
  lemma IdsRewritten<P>(a0: seq<KmerNode<P>>, a1: seq<KmerNode<P>>, nodes: seq<Handle>, less: (P, P) -> bool, k: nat, pathLength: P -> nat)
    requires |a1| == |a0| && forall h :: 0 <= h < |a0| ==> a1[h] == a0[h].(id := a1[h].id)
    requires WellFormed(a0, nodes)
    ensures WellFormed(a1, nodes)
    ensures KFixed(a0, k, pathLength) ==> KFixed(a1, k, pathLength)
    ensures Uniform(a0, k, pathLength) ==> Uniform(a1, k, pathLength)
    ensures EdgesIncreaseInPath(a0, less) ==> EdgesIncreaseInPath(a1, less)
    ensures SortedByPath(a0, nodes, less) ==> SortedByPath(a1, nodes, less)
  {
    forall h | 0 <= h < |a0|
      ensures a1[h].path == a0[h].path && a1[h].outNodes == a0[h].outNodes && a1[h].inNodes == a0[h].inNodes
    {
      assert a1[h] == a0[h].(id := a1[h].id);
    }
    SameShapeCarry(a0, a1, nodes, less, k, pathLength);
  }

  /** The segment pass keeps k fixed by the first non-empty Path. */
  lemma {:induction false} LoadSegmentsKFixed<P>(g: Serialisation.Loaded<P>, recs: seq<Serialisation.Record<P>>, pathLength: P -> nat)
    requires KFixed(g.arena, g.k, pathLength)
    ensures var r := Serialisation.LoadSegments(g, recs, pathLength);
      KFixed(r.arena, r.k, pathLength)
    decreases |recs|
  {
    if recs != [] {
      match recs[0]
      case Segment(_, path, rc, numAT) =>
        var n := Serialisation.SegmentNode(|g.nodes|, path, rc, numAT);
        var g' := Serialisation.Loaded(g.arena + [n], g.nodes + [|g.arena|], FixK(g.k, pathLength(path)));
        assert KFixed(g'.arena, g'.k, pathLength);
        LoadSegmentsKFixed(g', recs[1..], pathLength);
      case _ =>
        LoadSegmentsKFixed(g, recs[1..], pathLength);
    }
  }

  /** Loading keeps k fixed by the first non-empty Path. */
  lemma LoadKFixed<P>(g: Serialisation.Loaded<P>, recs: seq<Serialisation.Record<P>>, pathLength: P -> nat)
    requires forall i :: 0 <= i < |g.nodes| ==> g.nodes[i] < |g.arena|
    requires Serialisation.LinksInRange(recs, |g.nodes| + Serialisation.SegmentCount(recs))
    requires KFixed(g.arena, g.k, pathLength)
    ensures var r := Serialisation.Load(g, recs, pathLength);
      KFixed(r.arena, r.k, pathLength)
  {
    var s := Serialisation.LoadSegments(g, recs, pathLength);
    LoadSegmentsKFixed(g, recs, pathLength);
    Serialisation.LoadLinksKeepsNodes(s.arena, s.nodes, recs);
    var r := Serialisation.Load(g, recs, pathLength);
    forall h | 0 <= h < |r.arena|
      ensures r.arena[h].path == s.arena[h].path
    {
    }
  }

  /** k is 0 or the length of some Path of the arena. */
  ghost predicate KFromPath<P>(arena: seq<KmerNode<P>>, k: nat, pathLength: P -> nat) {
    k == 0 || exists h :: 0 <= h < |arena| && pathLength(arena[h].path) == k
  }

  /** The segment pass takes k only from the length of a Path it holds. */
  lemma {:induction false} LoadSegmentsKFromPath<P>(g: Serialisation.Loaded<P>, recs: seq<Serialisation.Record<P>>, pathLength: P -> nat)
    requires KFromPath(g.arena, g.k, pathLength)
    ensures var r := Serialisation.LoadSegments(g, recs, pathLength);
      KFromPath(r.arena, r.k, pathLength)
    decreases |recs|
  {
    if recs != [] {
      match recs[0]
      case Segment(_, path, rc, numAT) =>
        var n := Serialisation.SegmentNode(|g.nodes|, path, rc, numAT);
        var g' := Serialisation.Loaded(g.arena + [n], g.nodes + [|g.arena|], FixK(g.k, pathLength(path)));
        if g.k == 0 {
          assert g'.arena[|g.arena|].path == path;
        } else {
          var h :| 0 <= h < |g.arena| && pathLength(g.arena[h].path) == g.k;
          assert g'.arena[h] == g.arena[h];
        }
        LoadSegmentsKFromPath(g', recs[1..], pathLength);
      case _ =>
        LoadSegmentsKFromPath(g, recs[1..], pathLength);
    }
  }

  /** Saving a graph whose non-empty Paths all have length k and loading the
      file into an empty graph gives back k when some Path is non-empty, and
      0 when every Path is empty. */
  lemma SaveLoadKeepsK<P>(arena: seq<KmerNode<P>>, nodes: seq<Handle>, k: nat, pathLength: P -> nat)
    requires WellFormed(arena, nodes) && IdsArePositions(arena, nodes) && Uniform(arena, k, pathLength)
    ensures Serialisation.LinksInRange(Serialisation.Saved(arena, nodes), Serialisation.SegmentCount(Serialisation.Saved(arena, nodes)))
    ensures var l := Serialisation.Load(Serialisation.Loaded([], [], 0), Serialisation.Saved(arena, nodes), pathLength);
      && ((exists h :: 0 <= h < |arena| && pathLength(arena[h].path) != 0) ==> l.k == k)
      && ((forall h :: 0 <= h < |arena| ==> pathLength(arena[h].path) == 0) ==> l.k == 0)
  {
    var recs := Serialisation.Saved(arena, nodes);
    var g0: Serialisation.Loaded<P> := Serialisation.Loaded([], [], 0);
    Serialisation.SavedFile(arena, nodes);
    Serialisation.LoadSaved(arena, nodes, pathLength);
    LoadKFixed(g0, recs, pathLength);
    LoadSegmentsKFromPath(g0, recs, pathLength);
    var s := Serialisation.LoadSegments(g0, recs, pathLength);
    var l := Serialisation.Load(g0, recs, pathLength);
    Serialisation.LoadLinksKeepsNodes(s.arena, s.nodes, recs);
    if l.k != 0 {
      var h :| 0 <= h < |s.arena| && pathLength(s.arena[h].path) == l.k;
      assert l.arena[h].path == arena[nodes[h]].path;
      assert pathLength(arena[nodes[h]].path) == l.k;
    }
    forall h | 0 <= h < |arena|
      ensures l.k == 0 ==> pathLength(arena[h].path) == 0
    {
      PositionOfHandle(arena, nodes, h);
      assert l.arena[arena[h].id].path == arena[h].path;
    }
  }

  /** sort_topologically on the arena and vector: the Path-sorted vector and
      the arena with every id rewritten to its node's new position. */
  method SortAndRenumber<P(==,!new)>(arena: seq<KmerNode<P>>, nodes: seq<Handle>, less: (P, P) -> bool, k: nat, pathLength: P -> nat)
    returns (a: seq<KmerNode<P>>, sorted: seq<Handle>)
    requires WellFormed(arena, nodes) && IsStrictTotalOrder(less)
    ensures WellFormed(a, sorted) && |sorted| == |nodes|
    ensures multiset(sorted) == multiset(nodes)
    ensures SortedByPath(a, sorted, less)
    ensures IdsArePositions(a, sorted)
    ensures |a| == |arena| && forall h :: 0 <= h < |a| ==> a[h] == arena[h].(id := a[h].id)
    ensures KFixed(arena, k, pathLength) ==> KFixed(a, k, pathLength)
    ensures Uniform(arena, k, pathLength) ==> Uniform(a, k, pathLength)
    ensures EdgesIncreaseInPath(arena, less) ==> EdgesIncreaseInPath(a, less) && EdgesIncreaseInId(a)
    ensures EdgesIncreaseInPath(arena, less) && |sorted| > 0 ==>
      a[sorted[0]].inNodes == [] && a[sorted[|sorted| - 1]].outNodes == []
  {
    sorted := SortByPath(arena, nodes, less);
    assert |sorted| == |multiset(sorted)| == |arena|;
    assert HandlesPermuted(sorted, |arena|);
    a := Renumber(arena, sorted);
    IdsRewritten(arena, a, sorted, less, k, pathLength);
    if EdgesIncreaseInPath(arena, less) {
      SortedEdgesForward(a, sorted, less);
      SortedEnds(a, sorted);
    }
  }

  /** The dynamic program and path extraction of find_max_path, on a graph
      sorted and renumbered so that ids are positions: `given` followed by the
      handles along the best chain. */
  method BestPath<P>(arena: seq<KmerNode<P>>, nodes: seq<Handle>, numReads: nat, p: real, num: Numerics, given: seq<Handle>)
    returns (maxpath: seq<Handle>, score: Mean, ghost M: seq<real>, ghost len: seq<nat>, ghost prev: seq<nat>, ghost path: seq<nat>)
    requires WellFormed(arena, nodes) && |nodes| > 0
    requires IdsArePositions(arena, nodes) && EdgesIncreaseInId(arena)
    ensures Solved(SuccessorIds(arena, nodes), Probs(arena, nodes, numReads, p, num), M, len, prev)
    ensures |prev| > 0 && IsChain(prev, path)
    ensures score == MeanOf(M[0], len[0])
    ensures |maxpath| == |given| + |path| && maxpath[..|given|] == given
    ensures forall i :: 0 <= i < |path| ==> maxpath[|given| + i] == nodes[path[i]]
  {
    var succ := SuccessorIds(arena, nodes);
    SuccessorIdsForward(arena, nodes);
    var prob := Probs(arena, nodes, numReads, p, num);
    var chain;
    M, len, prev, chain, score := Decode(succ, prob);
    assert |prev| == |nodes|;
    path := chain;
    maxpath := given + seq(|chain|, i requires 0 <= i < |chain| => nodes[chain[i]]);
  }

  /** The error-rate default for p: 1 / exp(eRate * k), written exp(-eRate * k). */
  function DefaultP(eRate: real, k: nat, num: Numerics): real {
    num.exp(-(eRate * k as real))
  }

  class KmerGraph<P(==,!new)> {
    /** The strict total order on Paths and the Path length. */
    const less: (P, P) -> bool
    const pathLength: P -> nat

    var arena: seq<KmerNode<P>>
    var nodes: seq<Handle>
    var nextId: nat
    var numReads: nat
    var p: real
    var shortestPathLength: nat
    var k: nat

    /** The vector holds every node exactly once, edges are mirrored, the next
        id is the node count, and k is still 0 only while every Path is empty. */
    ghost predicate Valid()
      reads this
    {
      && WellFormed(arena, nodes)
      && nextId == |nodes|
      && KFixed(arena, k, pathLength)
    }

    /** Every Path is empty or of length k. */
    ghost predicate UniformLength()
      reads this
    {
      Uniform(arena, k, pathLength)
    }

    constructor(less: (P, P) -> bool, pathLength: P -> nat)
      ensures Valid() && UniformLength()
      ensures this.less == less && this.pathLength == pathLength
      ensures arena == [] && nodes == [] && nextId == 0
      ensures numReads == 0 && shortestPathLength == 0 && k == 0 && p == 1.0
    {
      this.less := less;
      this.pathLength := pathLength;
      arena := [];
      nodes := [];
      nextId := 0;
      numReads := 0;
      shortestPathLength := 0;
      k := 0;
      p := 1.0;
    }

    /** Drop every node and reset the bookkeeping to that of a new graph. */
    method Clear()
      requires Valid()
      modifies this
      ensures Valid() && UniformLength()
      ensures arena == [] && nodes == [] && nextId == 0
      ensures numReads == 0 && shortestPathLength == 0 && k == 0 && p == 1.0
    {
      arena := [];
      nodes := [];
      nextId := 0;
      numReads := 0;
      shortestPathLength := 0;
      k := 0;
      p := 1.0;
    }

    /** The linear search by Path equality. */
    method FindByPath(path: P) returns (r: Option<nat>)
      requires Valid()
      ensures r == FirstWithPath(arena, nodes, path)
    {
      var i := 0;
      while i != |nodes|
        invariant 0 <= i <= |nodes|
        invariant FirstFrom(arena, nodes, path, i) == FirstWithPath(arena, nodes, path)
      {
        if arena[nodes[i]].path == path {
          return Some(i);
        }
        i := i + 1;
      }
      return None;
    }

    /** Insert a node for `path` unless one with an equal Path exists, in which
        case that node is returned and nothing changes. A new node takes the
        next id, and the first non-empty Path fixes k. */
    method AddNode(path: P) returns (h: Handle)
      requires Valid()
      requires FirstWithPath(arena, nodes, path).None? ==>
        k == 0 || pathLength(path) == 0 || pathLength(path) == k
      modifies this
      ensures Valid()
      ensures h < |arena| && arena[h].path == path
      ensures old(FirstWithPath(arena, nodes, path)).Some? ==>
        && h == old(nodes[FirstWithPath(arena, nodes, path).value])
        && arena == old(arena) && nodes == old(nodes) && nextId == old(nextId) && k == old(k)
      ensures old(FirstWithPath(arena, nodes, path)).None? ==>
        && h == old(|arena|)
        && arena == old(arena) + [NewNode(old(nextId), path)]
        && nodes == old(nodes) + [h]
        && nextId == old(nextId) + 1
        && k == FixK(old(k), pathLength(path))
      ensures numReads == old(numReads) && p == old(p) && shortestPathLength == old(shortestPathLength)
      ensures old(DistinctPaths(arena, nodes)) ==> DistinctPaths(arena, nodes)
      ensures old(IdsArePositions(arena, nodes)) ==> IdsArePositions(arena, nodes)
      ensures old(UniformLength()) ==> UniformLength()
    {
      var found := FindByPath(path);
      if found.None? {
        var n := NewNode(nextId, path);
        NodeAppended(arena, nodes, path, k, pathLength);
        h := |arena|;
        arena := arena + [n];
        nodes := nodes + [h];
        if k == 0 && pathLength(path) > 0 {
          k := pathLength(path);
        }
        nextId := nextId + 1;
      } else {
        h := nodes[found.value];
      }
    }

    /** Insert as `AddNode` does, then stamp the node found or made with the
        content hash and the A/T tag. */
    method AddNodeWithKh(path: P, kh: nat, num: nat) returns (h: Handle)
      requires Valid()
      requires FirstWithPath(arena, nodes, path).None? ==>
        k == 0 || pathLength(path) == 0 || pathLength(path) == k
      requires kh < MaxHash && num < TagLimit
      modifies this
      ensures Valid()
      ensures old(FirstWithPath(arena, nodes, path)).Some? ==>
        && h == old(nodes[FirstWithPath(arena, nodes, path).value])
        && arena == old(arena)[h := old(arena)[h].(khash := Some(kh), numAT := num)]
        && nodes == old(nodes) && nextId == old(nextId) && k == old(k)
      ensures old(FirstWithPath(arena, nodes, path)).None? ==>
        && h == old(|arena|)
        && arena == old(arena) + [NewNode(old(nextId), path).(khash := Some(kh), numAT := num)]
        && nodes == old(nodes) + [h]
        && nextId == old(nextId) + 1
        && k == FixK(old(k), pathLength(path))
      ensures numReads == old(numReads) && p == old(p) && shortestPathLength == old(shortestPathLength)
      ensures old(DistinctPaths(arena, nodes)) ==> DistinctPaths(arena, nodes)
      ensures old(IdsArePositions(arena, nodes)) ==> IdsArePositions(arena, nodes)
      ensures old(UniformLength()) ==> UniformLength()
    {
      h := AddNode(path);
      NodeStamped(arena, nodes, h, kh, num, k, pathLength);
      arena := arena[h := arena[h].(khash := Some(kh), numAT := num)];
    }

    /** Add the edge between the nodes with Paths `from` and `to` unless it is
        already there; equal Paths add nothing. */
    method AddEdgeByPath(from: P, to: P)
      requires Valid()
      requires less(from, to)
      requires FirstWithPath(arena, nodes, from).Some? && FirstWithPath(arena, nodes, to).Some?
      modifies this
      ensures Valid()
      ensures from == to ==> arena == old(arena)
      ensures from != to ==> arena == WithEdge(old(arena),
        old(nodes[FirstWithPath(arena, nodes, from).value]),
        old(nodes[FirstWithPath(arena, nodes, to).value]))
      ensures nodes == old(nodes) && nextId == old(nextId) && k == old(k)
      ensures numReads == old(numReads) && p == old(p) && shortestPathLength == old(shortestPathLength)
      ensures Keeps(old(arena), arena, nodes, less)
    {
      if from == to {
        return;
      }
      var fromAt := FindByPath(from);
      var toAt := FindByPath(to);
      var f, t := nodes[fromAt.value], nodes[toAt.value];
      EdgeAdded(arena, nodes, f, t, less, k, pathLength);
      if t !in arena[f].outNodes {
        arena := LinkNodes(arena, f, t);
      }
    }

    /** Add the edge f -> t between two nodes unless it is already there. */
    method AddEdge(f: Handle, t: Handle)
      requires Valid()
      requires f < |arena| && t < |arena| && less(arena[f].path, arena[t].path)
      modifies this
      ensures Valid()
      ensures arena == WithEdge(old(arena), f, t)
      ensures nodes == old(nodes) && nextId == old(nextId) && k == old(k)
      ensures numReads == old(numReads) && p == old(p) && shortestPathLength == old(shortestPathLength)
      ensures Keeps(old(arena), arena, nodes, less)
    {
      EdgeAdded(arena, nodes, f, t, less, k, pathLength);
      if t !in arena[f].outNodes {
        arena := LinkNodes(arena, f, t);
      }
    }
      /** The equality operator: the node counts agree and every node of this
        graph finds, by Path, a node of `y` with the same degrees whose
        out-neighbours include every one of its out-neighbours' Paths. */
    method Equals(y: KmerGraph<P>) returns (r: bool)
      requires Valid() && y.Valid()
      ensures r == GraphsEqual(arena, nodes, y.arena, y.nodes)
    {
      var ax, nx, ay, ny := arena, nodes, y.arena, y.nodes;
      if |ny| != |nx| {
        return false;
      }
      var i := 0;
      while i != |nx|
        invariant 0 <= i <= |nx|
        invariant forall q :: 0 <= q < i ==> NodeMatched(ax, nx[q], ay, ny)
      {
        var found := y.FindByPath(ax[nx[i]].path);
        if found.None? {
          assert !NodeMatched(ax, nx[i], ay, ny);
          return false;
        }
        var u, v := ax[nx[i]], ay[ny[found.value]];
        if |u.outNodes| != |v.outNodes| || |u.inNodes| != |v.inNodes| {
          assert !NodeMatched(ax, nx[i], ay, ny);
          return false;
        }
        var j := 0;
        while j != |u.outNodes|
          invariant 0 <= j <= |u.outNodes|
          invariant forall o :: 0 <= o < j ==> SomeWithPath(ay, v.outNodes, ax[u.outNodes[o]].path)
        {
          var hit := HasPath(ay, v.outNodes, ax[u.outNodes[j]].path);
          if !hit {
            assert !NodeMatched(ax, nx[i], ay, ny);
            return false;
          }
          j := j + 1;
        }
        i := i + 1;
      }
      return true;
    }

    /** The consistency check, stopping at the first failed assertion: the
        node count against `expected` (unless 0), then node by node the
        degree conditions and, edge by edge, increasing Path and id. */
    method Check(expected: nat) returns (r: Consistency.CheckOutcome)
      requires Valid()
      ensures r == Consistency.Check(arena, nodes, expected, less)
    {
      if expected != 0 && |nodes| != expected {
        return Consistency.Fail(Consistency.NodeCountMismatch(|nodes|, expected));
      }
      r := Consistency.ScanNodes(arena, nodes, less);
    }

    /** Sort the vector by Path and renumber every node with its position. */
    method SortTopologically()
      requires Valid() && IsStrictTotalOrder(less)
      modifies this
      ensures Valid()
      ensures multiset(nodes) == multiset(old(nodes))
      ensures SortedByPath(arena, nodes, less)
      ensures IdsArePositions(arena, nodes)
      ensures |arena| == old(|arena|)
      ensures forall h :: 0 <= h < |arena| ==> arena[h] == old(arena[h]).(id := arena[h].id)
      ensures nextId == old(nextId) && k == old(k)
      ensures numReads == old(numReads) && p == old(p) && shortestPathLength == old(shortestPathLength)
      ensures old(UniformLength()) ==> UniformLength()
      ensures old(EdgesIncreaseInPath(arena, less)) ==> EdgesIncreaseInPath(arena, less) && EdgesIncreaseInId(arena)
      ensures old(EdgesIncreaseInPath(arena, less)) && |nodes| > 0 ==>
        arena[nodes[0]].inNodes == [] && arena[nodes[|nodes| - 1]].outNodes == []
    {
      arena, nodes := SortAndRenumber(arena, nodes, less, k, pathLength);
    }

    /** Set p from the error rate, then, with more than 40 reads and some node
        over the coverage floor, from the mean coverage of those nodes. */
    method DiscoverP(eRate: real, num: Numerics)
      requires Valid()
      requires numReads > RecalibrationReads ==> |nodes| > 0
      modifies this
      ensures arena == old(arena) && nodes == old(nodes) && nextId == old(nextId) && k == old(k)
      ensures numReads == old(numReads) && shortestPathLength == old(shortestPathLength)
      ensures Valid()
      ensures numReads <= RecalibrationReads ==> p == DefaultP(eRate, k, num)
      ensures numReads > RecalibrationReads ==>
        var c := Collected(arena, nodes, |nodes| - 1);
        p == if c != [] then Probability.Mean(c) / numReads as real else DefaultP(eRate, k, num)
    {
      p := EstimateP(arena, nodes, numReads, DefaultP(eRate, k, num));
    }

    /** Calibrate p, solve the backward dynamic program over the sorted graph
        and append the best path's interior nodes to `given`; the score is the
        source's mean log-likelihood M[0] / len[0]. */
    method FindMaxPath(eRate: real, num: Numerics, given: seq<Handle>)
      returns (maxpath: seq<Handle>, score: Mean, ghost M: seq<real>, ghost len: seq<nat>, ghost prev: seq<nat>, ghost path: seq<nat>)
      requires Valid() && |nodes| > 0
      requires IdsArePositions(arena, nodes) && EdgesIncreaseInId(arena)
      modifies this
      ensures Valid()
      ensures arena == old(arena) && nodes == old(nodes) && nextId == old(nextId) && k == old(k)
      ensures numReads == old(numReads) && shortestPathLength == old(shortestPathLength)
      ensures numReads <= RecalibrationReads ==> p == DefaultP(eRate, k, num)
      ensures numReads > RecalibrationReads ==>
        var c := Collected(arena, nodes, |nodes| - 1);
        p == if c != [] then Probability.Mean(c) / numReads as real else DefaultP(eRate, k, num)
      ensures Solved(SuccessorIds(arena, nodes), Probs(arena, nodes, numReads, p, num), M, len, prev)
      ensures |prev| > 0 && IsChain(prev, path)
      ensures score == MeanOf(M[0], len[0])
      ensures |maxpath| == |given| + |path| && maxpath[..|given|] == given
      ensures forall i :: 0 <= i < |path| ==> maxpath[|given| + i] == nodes[path[i]]
    {
      DiscoverP(eRate, num);
      maxpath, score, M, len, prev, path := BestPath(arena, nodes, numReads, p, num, given);
    }

    /** The cached length when one is set; otherwise the number of edges of a
        longest walk from the first node, computed by the backward pass and
        cached. The name notwithstanding, the pass keeps the larger value. */
    method MinPathLength() returns (r: nat)
      requires Valid()
      requires shortestPathLength == 0 ==>
        |nodes| > 0 && IdsArePositions(arena, nodes) && EdgesIncreaseInId(arena)
      modifies this
      ensures Valid()
      ensures old(shortestPathLength) > 0 ==> r == old(shortestPathLength)
      ensures arena == old(arena) && nodes == old(nodes) && nextId == old(nextId) && k == old(k)
      ensures numReads == old(numReads) && p == old(p)
      ensures old(shortestPathLength) == 0 ==>
        |nodes| > 0 && Forward(SuccessorIds(arena, nodes)) && r == Longest(SuccessorIds(arena, nodes), 0)
      ensures shortestPathLength == r
    {
      if shortestPathLength > 0 {
        return shortestPathLength;
      }
      var succ := SuccessorIds(arena, nodes);
      SuccessorIdsForward(arena, nodes);
      var len := LongestPathLengths(succ);
      shortestPathLength := len[0];
      r := len[0];
    }

    /** The records of the graph file: a header, then for each node of the
        vector its segment followed by one link per out-edge. */
    method Save() returns (recs: seq<Serialisation.Record<P>>)
      requires Valid()
      ensures recs == Serialisation.Saved(arena, nodes)
    {
      var a, ns := arena, nodes;
      recs := [Serialisation.Header];
      var i := 0;
      while i != |ns|
        invariant 0 <= i <= |ns|
        invariant recs == [Serialisation.Header] + Serialisation.SavedBlocks(a, ns, i)
      {
        recs := Serialisation.AppendNodeRecords(recs, a, ns[i]);
        i := i + 1;
      }
    }

    /** Read a graph file into this graph: one pass appending a node per
        segment, a second pass adding one edge per link. Nothing is cleared
        first and links are not deduplicated. */
    method Load(recs: seq<Serialisation.Record<P>>)
      requires Valid()
      requires Serialisation.SegmentIdsFrom(recs, nextId)
      requires Serialisation.LinksInRange(recs, |nodes| + Serialisation.SegmentCount(recs))
      modifies this
      ensures Valid()
      ensures var l := Serialisation.Load(Serialisation.Loaded(old(arena), old(nodes), old(k)), recs, pathLength);
        arena == l.arena && nodes == l.nodes && k == l.k
      ensures nextId == old(nextId) + Serialisation.SegmentCount(recs)
      ensures numReads == old(numReads) && p == old(p) && shortestPathLength == old(shortestPathLength)
      ensures old(IdsArePositions(arena, nodes)) ==> IdsArePositions(arena, nodes)
    {
      var g0 := Serialisation.Loaded(arena, nodes, k);
      var l, next := Serialisation.SegmentPass(g0, nextId, recs, pathLength);
      var a := Serialisation.LinkPass(l.arena, l.nodes, recs);
      Serialisation.LoadWellFormed(g0, recs, pathLength);
      LoadKFixed(g0, recs, pathLength);
      arena, nodes, nextId, k := a, l.nodes, next, l.k;
    }
  }
}
