/**
 * The line-oriented graph file, at the level of records: a header line, one
 * segment line per node (id, Path, read count, A/T tag) and one link line per
 * edge (two endpoint ids, each with an orientation column).
 */
module Serialisation {
  import opened Wrappers
  import opened KmerNodes
  import opened Equality

  datatype Record<P> =
    | Header
    | Segment(id: nat, path: P, rc: nat, numAT: Option<nat>)
    | Link(from: nat, fromOrient: char, to: nat, toOrient: char)

  /** The ids of the nodes behind a list of handles. */
  function IdsOf<P>(arena: seq<KmerNode<P>>, s: seq<Handle>): (r: seq<nat>)
    requires forall i :: 0 <= i < |s| ==> s[i] < |arena|
    ensures |r| == |s| && forall i :: 0 <= i < |s| ==> r[i] == arena[s[i]].id
  {
    seq(|s|, i requires 0 <= i < |s| => arena[s[i]].id)
  }

  /* ---------------------------------------------------------------- save */

  /** The links of one node, as saved. */
  function LinksFor<P>(from: nat, targets: seq<nat>): (r: seq<Record<P>>)
    ensures |r| == |targets|
  {
    seq(|targets|, j requires 0 <= j < |targets| => Link(from, '+', targets[j], '+'))
  }

  /** The lines written for one node: its segment (the read count written is
      the second coverage slot), then one forward link per out-edge. */
  function NodeRecords<P>(arena: seq<KmerNode<P>>, h: Handle): (r: seq<Record<P>>)
    requires h < |arena| && EdgesInRange(arena)
    ensures |r| == 1 + |arena[h].outNodes|
  {
    var n := arena[h];
    [Segment(n.id, n.path, n.covg1, Some(n.numAT))] + LinksFor(n.id, IdsOf(arena, n.outNodes))
  }

  /** Write the lines of one node: its segment, then one link per out-edge. */
  method AppendNodeRecords<P>(recs: seq<Record<P>>, arena: seq<KmerNode<P>>, h: Handle) returns (r: seq<Record<P>>)
    requires h < |arena| && EdgesInRange(arena)
    ensures r == recs + NodeRecords(arena, h)
  {
    var n := arena[h];
    ghost var block := NodeRecords(arena, h);
    r := recs + [Segment(n.id, n.path, n.covg1, Some(n.numAT))];
    var j := 0;
    while j != |n.outNodes|
      invariant 0 <= j <= |n.outNodes|
      invariant r == recs + block[..j + 1]
    {
      var link := Link(n.id, '+', arena[n.outNodes[j]].id, '+');
      assert block[j + 1] == link;
      assert block[..j + 2] == block[..j + 1] + [link];
      r := r + [link];
      j := j + 1;
    }
    assert block[..j + 1] == block;
  }

  /** Every handle of the vector and every adjacency entry names an arena node. */
  ghost predicate Listed<P>(arena: seq<KmerNode<P>>, nodes: seq<Handle>) {
    EdgesInRange(arena) && forall i :: 0 <= i < |nodes| ==> nodes[i] < |arena|
  }

  /** The blocks of the first n nodes of the vector, in vector order. */
  function SavedBlocks<P>(arena: seq<KmerNode<P>>, nodes: seq<Handle>, n: nat): seq<Record<P>>
    requires Listed(arena, nodes) && n <= |nodes|
  {
    if n == 0 then [] else SavedBlocks(arena, nodes, n - 1) + NodeRecords(arena, nodes[n - 1])
  }

  /** The whole file: a header and then every node's block. */
  function Saved<P>(arena: seq<KmerNode<P>>, nodes: seq<Handle>): seq<Record<P>>
    requires Listed(arena, nodes)
  {
    [Header] + SavedBlocks(arena, nodes, |nodes|)
  }

  function SegmentCount<P>(recs: seq<Record<P>>): nat {
    if recs == [] then 0 else (if recs[0].Segment? then 1 else 0) + SegmentCount(recs[1..])
  }

  function LinkCount<P>(recs: seq<Record<P>>): nat {
    if recs == [] then 0 else (if recs[0].Link? then 1 else 0) + LinkCount(recs[1..])
  }

  /** The number of out-edges of the first n nodes of the vector. */
  function OutDegreeSum<P>(arena: seq<KmerNode<P>>, nodes: seq<Handle>, n: nat): nat
    requires Listed(arena, nodes) && n <= |nodes|
  {
    if n == 0 then 0 else OutDegreeSum(arena, nodes, n - 1) + |arena[nodes[n - 1]].outNodes|
  }

  /* ---------------------------------------------------------------- load */

  /** The node a segment record creates as the `id`-th node: the read count
      goes into the FIRST coverage slot, and a missing tag column leaves the
      tag at 0. */
  function SegmentNode<P>(id: nat, path: P, rc: nat, numAT: Option<nat>): (n: KmerNode<P>)
    ensures n.id == id && n.path == path && n.covg0 == rc && n.covg1 == 0
    ensures n.numAT == (if numAT.Some? then numAT.value else 0)
    ensures n.outNodes == [] && n.inNodes == []
  {
    NewNode(id, path).(covg0 := rc, numAT := if numAT.Some? then numAT.value else 0)
  }

  /** The part of a graph that loading changes. */
  datatype Loaded<P> = Loaded(arena: seq<KmerNode<P>>, nodes: seq<Handle>, k: nat)

  /** Segment ids are the positions the nodes will take, counting on from `next`. */
  ghost predicate SegmentIdsFrom<P>(recs: seq<Record<P>>, next: nat) {
    if recs == [] then true
    else if recs[0].Segment? then recs[0].id == next && SegmentIdsFrom(recs[1..], next + 1)
    else SegmentIdsFrom(recs[1..], next)
  }

  /** Every link names two of the first n nodes. */
  ghost predicate LinksInRange<P>(recs: seq<Record<P>>, n: nat) {
    forall i :: 0 <= i < |recs| && recs[i].Link? ==> recs[i].from < n && recs[i].to < n
  }

  /** The first pass: every segment appends a new node to the vector. */
  function LoadSegments<P>(g: Loaded<P>, recs: seq<Record<P>>, pathLength: P -> nat): (r: Loaded<P>)
    ensures |r.arena| == |g.arena| + SegmentCount(recs)
    ensures |r.nodes| == |g.nodes| + SegmentCount(recs)
    ensures |r.arena| >= |g.arena| && r.arena[..|g.arena|] == g.arena
    ensures (forall i :: 0 <= i < |g.nodes| ==> g.nodes[i] < |g.arena|) ==>
      forall i :: 0 <= i < |r.nodes| ==> r.nodes[i] < |r.arena|
    decreases |recs|
  {
    if recs == [] then g
    else match recs[0]
      case Segment(_, path, rc, numAT) =>
        var n := SegmentNode(|g.nodes|, path, rc, numAT);
        LoadSegments(Loaded(g.arena + [n], g.nodes + [|g.arena|], FixK(g.k, pathLength(path))), recs[1..], pathLength)
      case _ => LoadSegments(g, recs[1..], pathLength)
  }

  /** A link's edge: as written when both orientation columns agree, reversed
      otherwise. */
  function Endpoints<P>(r: Record<P>): (e: (nat, nat))
    requires r.Link?
    ensures r.fromOrient == r.toOrient ==> e == (r.from, r.to)
    ensures r.fromOrient != r.toOrient ==> e == (r.to, r.from)
  {
    if r.fromOrient == r.toOrient then (r.from, r.to) else (r.to, r.from)
  }

  /** The second pass: every link adds its edge between the nodes at the two
      positions, without looking for an existing copy. */
  function LoadLinks<P>(arena: seq<KmerNode<P>>, nodes: seq<Handle>, recs: seq<Record<P>>): (r: seq<KmerNode<P>>)
    requires forall i :: 0 <= i < |nodes| ==> nodes[i] < |arena|
    requires LinksInRange(recs, |nodes|)
    ensures |r| == |arena|
    decreases |recs|
  {
    if recs == [] then arena
    else if recs[0].Link? then
      var (f, t) := Endpoints(recs[0]);
      LoadLinks(LinkNodes(arena, nodes[f], nodes[t]), nodes, recs[1..])
    else LoadLinks(arena, nodes, recs[1..])
  }

  /** Loading a file into a graph: both passes. */
  function Load<P>(g: Loaded<P>, recs: seq<Record<P>>, pathLength: P -> nat): Loaded<P>
    requires forall i :: 0 <= i < |g.nodes| ==> g.nodes[i] < |g.arena|
    requires LinksInRange(recs, |g.nodes| + SegmentCount(recs))
  {
    var s := LoadSegments(g, recs, pathLength);
    s.(arena := LoadLinks(s.arena, s.nodes, recs))
  }

  /** The first pass over the file: each segment appends a node with the next
      id, whose value must be the id the record carries. */
  method SegmentPass<P>(g: Loaded<P>, nextId: nat, recs: seq<Record<P>>, pathLength: P -> nat) returns (r: Loaded<P>, next: nat)
    requires nextId == |g.nodes|
    requires SegmentIdsFrom(recs, nextId)
    ensures r == LoadSegments(g, recs, pathLength)
    ensures next == |r.nodes|
  {
    var a, ns, k := g.arena, g.nodes, g.k;
    next := nextId;
    var i := 0;
    while i != |recs|
      invariant 0 <= i <= |recs|
      invariant LoadSegments(Loaded(a, ns, k), recs[i..], pathLength) == LoadSegments(g, recs, pathLength)
      invariant SegmentIdsFrom(recs[i..], next)
      invariant next == |ns|
    {
      assert recs[i..][1..] == recs[i + 1..];
      match recs[i] {
        case Segment(id, path, rc, numAT) =>
          var n := SegmentNode(next, path, rc, numAT);
          a, ns := a + [n], ns + [|a|];
          next := next + 1;
          if k == 0 && pathLength(path) > 0 {
            k := pathLength(path);
          }
          assert a[ns[|ns| - 1]].id == id;
        case _ =>
      }
      i := i + 1;
    }
    r := Loaded(a, ns, k);
  }

  /** The second pass over the file: each link adds its edge, reversed when
      the orientation columns differ, with no check for an existing edge. */
  method LinkPass<P>(arena: seq<KmerNode<P>>, nodes: seq<Handle>, recs: seq<Record<P>>) returns (r: seq<KmerNode<P>>)
    requires forall i :: 0 <= i < |nodes| ==> nodes[i] < |arena|
    requires LinksInRange(recs, |nodes|)
    ensures r == LoadLinks(arena, nodes, recs)
  {
    r := arena;
    assert recs[0..] == recs;
    var i := 0;
    while i != |recs|
      invariant 0 <= i <= |recs|
      invariant |r| == |arena|
      invariant LinksInRange(recs[i..], |nodes|)
      invariant LoadLinks(r, nodes, recs[i..]) == LoadLinks(arena, nodes, recs)
    {
      assert recs[i..][1..] == recs[i + 1..];
      if recs[i].Link? {
        var from, to := recs[i].from, recs[i].to;
        if recs[i].fromOrient != recs[i].toOrient {
          from, to := recs[i].to, recs[i].from;
        }
        r := LinkNodes(r, nodes[from], nodes[to]);
      }
      i := i + 1;
    }
  }

  /* ------------------------------------------- load keeps the graph sound */

  /** The segment pass keeps the graph well formed, and ids equal to
      positions when they were so before. */
  lemma {:induction false} LoadSegmentsWellFormed<P>(g: Loaded<P>, recs: seq<Record<P>>, pathLength: P -> nat)
    requires WellFormed(g.arena, g.nodes)
    ensures var r := LoadSegments(g, recs, pathLength);
      && WellFormed(r.arena, r.nodes)
      && (IdsArePositions(g.arena, g.nodes) ==> IdsArePositions(r.arena, r.nodes))
    decreases |recs|
  {
    if recs != [] {
      match recs[0]
      case Segment(_, path, rc, numAT) =>
        var n := SegmentNode(|g.nodes|, path, rc, numAT);
        var g' := Loaded(g.arena + [n], g.nodes + [|g.arena|], FixK(g.k, pathLength(path)));
        AppendNodeWellFormed(g.arena, g.nodes, n);
        assert IdsArePositions(g.arena, g.nodes) ==> IdsArePositions(g'.arena, g'.nodes);
        LoadSegmentsWellFormed(g', recs[1..], pathLength);
      case _ =>
        LoadSegmentsWellFormed(g, recs[1..], pathLength);
    }
  }

  /** The link pass changes nothing but adjacency lists. */
  lemma {:induction false} LoadLinksKeepsNodes<P>(arena: seq<KmerNode<P>>, nodes: seq<Handle>, recs: seq<Record<P>>)
    requires forall i :: 0 <= i < |nodes| ==> nodes[i] < |arena|
    requires LinksInRange(recs, |nodes|)
    ensures var r := LoadLinks(arena, nodes, recs);
      forall h :: 0 <= h < |arena| ==>
        r[h] == arena[h].(outNodes := r[h].outNodes, inNodes := r[h].inNodes)
    decreases |recs|
  {
    if recs != [] {
      if recs[0].Link? {
        var (f, t) := Endpoints(recs[0]);
        forall h | 0 <= h < |arena| {
          LinkNodesLists(arena, nodes[f], nodes[t], h);
        }
        LoadLinksKeepsNodes(LinkNodes(arena, nodes[f], nodes[t]), nodes, recs[1..]);
      } else {
        LoadLinksKeepsNodes(arena, nodes, recs[1..]);
      }
    }
  }

  /** The link pass keeps the graph well formed. */
  lemma {:induction false} LoadLinksWellFormed<P>(arena: seq<KmerNode<P>>, nodes: seq<Handle>, recs: seq<Record<P>>)
    requires WellFormed(arena, nodes)
    requires LinksInRange(recs, |nodes|)
    ensures WellFormed(LoadLinks(arena, nodes, recs), nodes)
    decreases |recs|
  {
    if recs != [] {
      if recs[0].Link? {
        var (f, t) := Endpoints(recs[0]);
        LinkNodesWellFormed(arena, nodes, nodes[f], nodes[t]);
        LoadLinksWellFormed(LinkNodes(arena, nodes[f], nodes[t]), nodes, recs[1..]);
      } else {
        LoadLinksWellFormed(arena, nodes, recs[1..]);
      }
    }
  }

  /** Loading keeps a well-formed graph well formed, whatever the file holds,
      and keeps ids equal to positions. It does not keep Paths distinct: a
      segment whose Path is already present makes a second node. */
  lemma LoadWellFormed<P>(g: Loaded<P>, recs: seq<Record<P>>, pathLength: P -> nat)
    requires WellFormed(g.arena, g.nodes)
    requires LinksInRange(recs, |g.nodes| + SegmentCount(recs))
    ensures var r := Load(g, recs, pathLength);
      && WellFormed(r.arena, r.nodes)
      && (IdsArePositions(g.arena, g.nodes) ==> IdsArePositions(r.arena, r.nodes))
  {
    var s := LoadSegments(g, recs, pathLength);
    LoadSegmentsWellFormed(g, recs, pathLength);
    LoadLinksWellFormed(s.arena, s.nodes, recs);
    LoadLinksKeepsNodes(s.arena, s.nodes, recs);
  }

  /* ------------------------------------------ relabelling by id preserves equality */

  /** The identity vector: handle i at position i. */
  function Iota(n: nat): (r: seq<Handle>)
    ensures |r| == n && forall i :: 0 <= i < n ==> r[i] == i
  {
    seq(n, i => i)
  }

  /** Graph y (whose vector is the identity) is graph x with every node moved
      to the handle equal to its id: same Paths, the same out-edges by id and
      the same in-degrees. */
  ghost predicate RelabelledById<P>(arenaX: seq<KmerNode<P>>, nodesX: seq<Handle>, arenaY: seq<KmerNode<P>>)
    requires WellFormed(arenaX, nodesX)
  {
    && |arenaY| == |nodesX|
    && forall i :: 0 <= i < |nodesX| ==>
         && arenaY[i].path == arenaX[nodesX[i]].path
         && arenaY[i].outNodes == IdsOf(arenaX, arenaX[nodesX[i]].outNodes)
  }

  /** Mapping handles to ids counts position i as often as handle nodes[i]. */
  lemma {:induction false} IdsOfCount<P>(arena: seq<KmerNode<P>>, nodes: seq<Handle>, s: seq<Handle>, i: nat)
    requires WellFormed(arena, nodes) && IdsArePositions(arena, nodes)
    requires forall j :: 0 <= j < |s| ==> s[j] < |arena|
    requires i < |nodes|
    ensures multiset(IdsOf(arena, s))[i] == multiset(s)[nodes[i]]
    decreases |s|
  {
    if s != [] {
      var s' := s[..|s| - 1];
      var h := s[|s| - 1];
      IdsOfCount(arena, nodes, s', i);
      assert s == s' + [h];
      assert IdsOf(arena, s) == IdsOf(arena, s') + [arena[h].id];
      PositionOfHandle(arena, nodes, h);
    }
  }

  /** Ids of handles are positions of the vector. */
  lemma IdsOfBelow<P>(arena: seq<KmerNode<P>>, nodes: seq<Handle>, s: seq<Handle>)
    requires WellFormed(arena, nodes) && IdsArePositions(arena, nodes)
    requires forall j :: 0 <= j < |s| ==> s[j] < |arena|
    ensures forall j :: 0 <= j < |s| ==> IdsOf(arena, s)[j] < |nodes|
  {
    forall j | 0 <= j < |s| ensures IdsOf(arena, s)[j] < |nodes| {
      PositionOfHandle(arena, nodes, s[j]);
    }
  }

  /** A relabelled graph has the original in-degrees, because in-lists mirror
      out-lists on both sides. */
  lemma RelabelledInDegree<P>(arenaX: seq<KmerNode<P>>, nodesX: seq<Handle>, arenaY: seq<KmerNode<P>>, i: nat)
    requires WellFormed(arenaX, nodesX) && IdsArePositions(arenaX, nodesX)
    requires WellFormed(arenaY, Iota(|nodesX|)) && RelabelledById(arenaX, nodesX, arenaY)
    requires i < |nodesX|
    ensures |arenaY[i].inNodes| == |arenaX[nodesX[i]].inNodes|
  {
    var n := |nodesX|;
    var ins := arenaX[nodesX[i]].inNodes;
    var mapped: seq<nat> := IdsOf(arenaX, ins);
    IdsOfBelow(arenaX, nodesX, ins);
    forall u: nat
      ensures multiset(arenaY[i].inNodes)[u] == multiset(mapped)[u]
    {
      if u < n {
        var outs := arenaX[nodesX[u]].outNodes;
        assert multiset(arenaY[u].outNodes)[i] == multiset(arenaY[i].inNodes)[u];
        IdsOfCount(arenaX, nodesX, outs, i);
        assert multiset(outs)[nodesX[i]] == multiset(ins)[nodesX[u]];
        IdsOfCount(arenaX, nodesX, ins, u);
      } else {
        assert u !in multiset(arenaY[i].inNodes);
        assert u !in multiset(mapped);
      }
    }
    assert multiset(arenaY[i].inNodes) == multiset(mapped);
    assert |multiset(arenaY[i].inNodes)| == |arenaY[i].inNodes|;
    assert |multiset(mapped)| == |mapped|;
  }

  /** A graph with distinct Paths and ids equal to positions compares equal,
      in both directions, with its relabelling by id. */
  lemma RelabelledEqual<P>(arenaX: seq<KmerNode<P>>, nodesX: seq<Handle>, arenaY: seq<KmerNode<P>>)
    requires WellFormed(arenaX, nodesX) && IdsArePositions(arenaX, nodesX) && DistinctPaths(arenaX, nodesX)
    requires WellFormed(arenaY, Iota(|nodesX|)) && RelabelledById(arenaX, nodesX, arenaY)
    ensures GraphsEqual(arenaX, nodesX, arenaY, Iota(|nodesX|))
    ensures GraphsEqual(arenaY, Iota(|nodesX|), arenaX, nodesX)
  {
    var n := |nodesX|;
    var nodesY := Iota(n);
    forall i | 0 <= i < n
      ensures NodeMatched(arenaX, nodesX[i], arenaY, nodesY)
      ensures NodeMatched(arenaY, nodesY[i], arenaX, nodesX)
    {
      var x := nodesX[i];
      var outs := arenaX[x].outNodes;
      RelabelledInDegree(arenaX, nodesX, arenaY, i);
      var k := FirstWithPath(arenaY, nodesY, arenaX[x].path);
      assert arenaY[nodesY[i]].path == arenaX[x].path;
      assert arenaX[nodesX[k.value]].path == arenaX[nodesX[i]].path;
      assert k.value == i;
      var k' := FirstWithPath(arenaX, nodesX, arenaY[i].path);
      assert arenaX[nodesX[k'.value]].path == arenaX[nodesX[i]].path;
      assert k'.value == i;
      forall o | 0 <= o < |outs|
        ensures arenaY[arenaY[i].outNodes[o]].path == arenaX[outs[o]].path
      {
        PositionOfHandle(arenaX, nodesX, outs[o]);
      }
      assert forall o :: 0 <= o < |outs| ==> SomeWithPath(arenaY, arenaY[i].outNodes, arenaX[outs[o]].path);
      assert forall o :: 0 <= o < |outs| ==> SomeWithPath(arenaX, outs, arenaY[arenaY[i].outNodes[o]].path);
    }
  }

  /* ------------------------------------------------------------- round trip */

  lemma {:induction false} LoadSegmentsAppend<P>(g: Loaded<P>, a: seq<Record<P>>, b: seq<Record<P>>, pathLength: P -> nat)
    ensures LoadSegments(g, a + b, pathLength) == LoadSegments(LoadSegments(g, a, pathLength), b, pathLength)
    decreases |a|
  {
    if a != [] {
      assert (a + b)[1..] == a[1..] + b;
      match a[0]
      case Segment(_, path, rc, numAT) =>
        var n := SegmentNode(|g.nodes|, path, rc, numAT);
        LoadSegmentsAppend(Loaded(g.arena + [n], g.nodes + [|g.arena|], FixK(g.k, pathLength(path))), a[1..], b, pathLength);
      case _ =>
        LoadSegmentsAppend(g, a[1..], b, pathLength);
    } else {
      assert a + b == b;
    }
  }

  lemma {:induction false} LoadSegmentsSkipsLinks<P>(g: Loaded<P>, from: nat, targets: seq<nat>, pathLength: P -> nat)
    ensures LoadSegments(g, LinksFor(from, targets), pathLength) == g
    decreases |targets|
  {
    if targets != [] {
      assert LinksFor<P>(from, targets)[1..] == LinksFor(from, targets[1..]);
      LoadSegmentsSkipsLinks(g, from, targets[1..], pathLength);
    }
  }

  /** What the segment pass makes of the first n saved blocks of a graph
      whose ids are positions: node i of the loaded arena carries the Path,
      the second coverage slot (now in the first) and the tag of the i-th
      node, and the vector is the identity. */
  function LoadedArena<P>(arena: seq<KmerNode<P>>, nodes: seq<Handle>, n: nat): (r: seq<KmerNode<P>>)
    requires Listed(arena, nodes) && n <= |nodes|
    ensures |r| == n
  {
    seq(n, i requires 0 <= i < n =>
      var x := arena[nodes[i]];
      SegmentNode(i, x.path, x.covg1, Some(x.numAT)))
  }

  /** The segment pass over one saved block appends one node. */
  lemma NodeSegments<P>(g: Loaded<P>, arena: seq<KmerNode<P>>, h: Handle, pathLength: P -> nat)
    requires h < |arena| && EdgesInRange(arena)
    ensures var x := arena[h];
      LoadSegments(g, NodeRecords(arena, h), pathLength)
      == Loaded(g.arena + [SegmentNode(|g.nodes|, x.path, x.covg1, Some(x.numAT))], g.nodes + [|g.arena|], FixK(g.k, pathLength(x.path)))
  {
    var x := arena[h];
    var links := LinksFor<P>(x.id, IdsOf(arena, x.outNodes));
    var seg := Segment(x.id, x.path, x.covg1, Some(x.numAT));
    LoadSegmentsAppend(g, [seg], links, pathLength);
    var g1 := LoadSegments(g, [seg], pathLength);
    LoadSegmentsSkipsLinks(g1, x.id, IdsOf(arena, x.outNodes), pathLength);
  }

  lemma IotaGrows(n: nat)
    requires n > 0
    ensures Iota(n) == Iota(n - 1) + [n - 1]
  {
  }

  lemma LoadedArenaGrows<P>(arena: seq<KmerNode<P>>, nodes: seq<Handle>, n: nat)
    requires Listed(arena, nodes) && 0 < n <= |nodes|
    ensures var x := arena[nodes[n - 1]];
      LoadedArena(arena, nodes, n) == LoadedArena(arena, nodes, n - 1) + [SegmentNode(n - 1, x.path, x.covg1, Some(x.numAT))]
  {
  }

  lemma {:induction false} SegmentsOfSaved<P>(arena: seq<KmerNode<P>>, nodes: seq<Handle>, n: nat, pathLength: P -> nat)
    requires Listed(arena, nodes) && n <= |nodes|
    ensures var r := LoadSegments(Loaded([], [], 0), SavedBlocks(arena, nodes, n), pathLength);
      r.arena == LoadedArena(arena, nodes, n) && r.nodes == Iota(n)
    decreases n
  {
    if n > 0 {
      SegmentsOfSaved(arena, nodes, n - 1, pathLength);
      SegmentsOfSavedStep(arena, nodes, n, pathLength);
    } else {
      assert SavedBlocks(arena, nodes, 0) == [];
      assert LoadedArena(arena, nodes, 0) == [] && Iota(0) == [];
    }
  }

  /** The inductive step of SegmentsOfSaved: block n - 1 adds node n - 1. */
  lemma SegmentsOfSavedStep<P>(arena: seq<KmerNode<P>>, nodes: seq<Handle>, n: nat, pathLength: P -> nat)
    requires Listed(arena, nodes) && 0 < n <= |nodes|
    requires var g := LoadSegments(Loaded([], [], 0), SavedBlocks(arena, nodes, n - 1), pathLength);
      g.arena == LoadedArena(arena, nodes, n - 1) && g.nodes == Iota(n - 1)
    ensures var r := LoadSegments(Loaded([], [], 0), SavedBlocks(arena, nodes, n), pathLength);
      r.arena == LoadedArena(arena, nodes, n) && r.nodes == Iota(n)
  {
    var g := LoadSegments(Loaded([], [], 0), SavedBlocks(arena, nodes, n - 1), pathLength);
    var block := NodeRecords(arena, nodes[n - 1]);
    assert SavedBlocks(arena, nodes, n) == SavedBlocks(arena, nodes, n - 1) + block;
    LoadSegmentsAppend(Loaded([], [], 0), SavedBlocks(arena, nodes, n - 1), block, pathLength);
    NodeSegments(g, arena, nodes[n - 1], pathLength);
    LoadedArenaGrows(arena, nodes, n);
    IotaGrows(n);
  }

  lemma {:induction false} LinksInRangeSplit<P>(a: seq<Record<P>>, b: seq<Record<P>>, n: nat)
    requires LinksInRange(a + b, n)
    ensures LinksInRange(a, n) && LinksInRange(b, n)
  {
    forall i | 0 <= i < |b| && b[i].Link? ensures b[i].from < n && b[i].to < n {
      assert b[i] == (a + b)[|a| + i];
    }
    forall i | 0 <= i < |a| && a[i].Link? ensures a[i].from < n && a[i].to < n {
      assert a[i] == (a + b)[i];
    }
  }

  lemma {:induction false} LoadLinksAppend<P>(arena: seq<KmerNode<P>>, nodes: seq<Handle>, a: seq<Record<P>>, b: seq<Record<P>>)
    requires forall i :: 0 <= i < |nodes| ==> nodes[i] < |arena|
    requires LinksInRange(a + b, |nodes|)
    ensures LinksInRange(a, |nodes|) && LinksInRange(b, |nodes|)
    ensures LoadLinks(arena, nodes, a + b) == LoadLinks(LoadLinks(arena, nodes, a), nodes, b)
    decreases |a|
  {
    LinksInRangeSplit(a, b, |nodes|);
    if a != [] {
      assert (a + b)[1..] == a[1..] + b;
      assert (a + b)[0] == a[0];
      if a[0].Link? {
        var (f, t) := Endpoints(a[0]);
        LoadLinksAppend(LinkNodes(arena, nodes[f], nodes[t]), nodes, a[1..], b);
      } else {
        LoadLinksAppend(arena, nodes, a[1..], b);
      }
    } else {
      assert a + b == b;
    }
  }

  /** Loading the saved links of node u appends their targets to u's out-list
      and leaves every other out-list alone. */
  lemma {:induction false} NodeLinks<P>(arena: seq<KmerNode<P>>, u: nat, targets: seq<nat>)
    requires u < |arena|
    requires LinksInRange(LinksFor<P>(u, targets), |arena|)
    ensures var r := LoadLinks(arena, Iota(|arena|), LinksFor<P>(u, targets));
      forall v :: 0 <= v < |arena| ==>
        r[v].outNodes == (if v == u then arena[v].outNodes + targets else arena[v].outNodes)
    decreases |targets|
  {
    var links := LinksFor<P>(u, targets);
    if targets != [] {
      assert links[0] == Link(u, '+', targets[0], '+');
      assert links[1..] == LinksFor(u, targets[1..]);
      var t := targets[0];
      var a := LinkNodes(arena, u, t);
      NodeLinks(a, u, targets[1..]);
      forall v | 0 <= v < |arena| {
        LinkNodesLists(arena, u, t, v);
      }
      assert targets == [t] + targets[1..];
    }
  }

  lemma {:induction false} LinksInRangeJoin<P>(a: seq<Record<P>>, b: seq<Record<P>>, n: nat)
    requires LinksInRange(a, n) && LinksInRange(b, n)
    ensures LinksInRange(a + b, n)
  {
    forall i | 0 <= i < |a + b| && (a + b)[i].Link? ensures (a + b)[i].from < n && (a + b)[i].to < n {
      if i < |a| {
        assert (a + b)[i] == a[i];
      } else {
        assert (a + b)[i] == b[i - |a|];
      }
    }
  }

  /** Every saved link names two nodes of the graph. */
  lemma {:induction false} SavedLinksInRange<P>(arena: seq<KmerNode<P>>, nodes: seq<Handle>, n: nat)
    requires WellFormed(arena, nodes) && IdsArePositions(arena, nodes) && n <= |nodes|
    ensures LinksInRange(SavedBlocks(arena, nodes, n), |nodes|)
    decreases n
  {
    if n > 0 {
      SavedLinksInRange(arena, nodes, n - 1);
      var x := arena[nodes[n - 1]];
      var targets := IdsOf(arena, x.outNodes);
      var block := NodeRecords(arena, nodes[n - 1]);
      IdsOfBelow(arena, nodes, x.outNodes);
      assert block == [Segment(x.id, x.path, x.covg1, Some(x.numAT))] + LinksFor(x.id, targets);
      forall i | 0 <= i < |block| && block[i].Link?
        ensures block[i].from < |nodes| && block[i].to < |nodes|
      {
        assert block[i] == LinksFor<P>(x.id, targets)[i - 1];
      }
      LinksInRangeJoin(SavedBlocks(arena, nodes, n - 1), block, |nodes|);
    }
  }

  /** Every link goes from a smaller id to a larger one and loads in the
      direction it is written. */
  ghost predicate LinksForward<P>(recs: seq<Record<P>>) {
    forall i :: 0 <= i < |recs| && recs[i].Link? ==>
      recs[i].from < recs[i].to && Endpoints(recs[i]) == (recs[i].from, recs[i].to)
  }

  lemma {:induction false} LinksForwardJoin<P>(a: seq<Record<P>>, b: seq<Record<P>>)
    requires LinksForward(a) && LinksForward(b)
    ensures LinksForward(a + b)
  {
    forall i | 0 <= i < |a + b| && (a + b)[i].Link?
      ensures (a + b)[i].from < (a + b)[i].to && Endpoints((a + b)[i]) == ((a + b)[i].from, (a + b)[i].to)
    {
      if i < |a| {
        assert (a + b)[i] == a[i];
      } else {
        assert (a + b)[i] == b[i - |a|];
      }
    }
  }

  /** In a graph whose ids are positions and increase along every edge, each
      saved link carries '+' in both orientation columns, so loading adds it
      as written, from the smaller id to the larger. */
  lemma {:induction false} SavedLinksForward<P>(arena: seq<KmerNode<P>>, nodes: seq<Handle>, n: nat)
    requires WellFormed(arena, nodes) && IdsArePositions(arena, nodes) && EdgesIncreaseInId(arena)
    requires n <= |nodes|
    ensures LinksForward(SavedBlocks(arena, nodes, n))
    decreases n
  {
    if n > 0 {
      SavedLinksForward(arena, nodes, n - 1);
      var x := arena[nodes[n - 1]];
      var targets := IdsOf(arena, x.outNodes);
      var block := NodeRecords(arena, nodes[n - 1]);
      assert block == [Segment(x.id, x.path, x.covg1, Some(x.numAT))] + LinksFor(x.id, targets);
      forall i | 0 <= i < |block| && block[i].Link?
        ensures block[i].from < block[i].to && Endpoints(block[i]) == (block[i].from, block[i].to)
      {
        assert block[i] == LinksFor<P>(x.id, targets)[i - 1];
        assert targets[i - 1] == arena[x.outNodes[i - 1]].id;
      }
      LinksForwardJoin(SavedBlocks(arena, nodes, n - 1), block);
    }
  }

  lemma {:induction false} SegmentCountAppend<P>(a: seq<Record<P>>, b: seq<Record<P>>)
    ensures SegmentCount(a + b) == SegmentCount(a) + SegmentCount(b)
    ensures LinkCount(a + b) == LinkCount(a) + LinkCount(b)
    decreases |a|
  {
    if a != [] {
      assert (a + b)[1..] == a[1..] + b;
      SegmentCountAppend(a[1..], b);
    } else {
      assert a + b == b;
    }
  }

  lemma {:induction false} LinksForCounts<P>(u: nat, targets: seq<nat>)
    ensures SegmentCount(LinksFor<P>(u, targets)) == 0
    ensures LinkCount(LinksFor<P>(u, targets)) == |targets|
    decreases |targets|
  {
    if targets != [] {
      assert LinksFor<P>(u, targets)[1..] == LinksFor(u, targets[1..]);
      LinksForCounts<P>(u, targets[1..]);
    }
  }

  /** The saved file has one segment line per node and one link line per
      out-edge. */
  lemma {:induction false} SavedCounts<P>(arena: seq<KmerNode<P>>, nodes: seq<Handle>, n: nat)
    requires Listed(arena, nodes) && n <= |nodes|
    ensures SegmentCount(SavedBlocks(arena, nodes, n)) == n
    ensures LinkCount(SavedBlocks(arena, nodes, n)) == OutDegreeSum(arena, nodes, n)
    decreases n
  {
    if n > 0 {
      SavedCounts(arena, nodes, n - 1);
      var x := arena[nodes[n - 1]];
      var seg: Record<P> := Segment(x.id, x.path, x.covg1, Some(x.numAT));
      var links := LinksFor<P>(x.id, IdsOf(arena, x.outNodes));
      SegmentCountAppend(SavedBlocks(arena, nodes, n - 1), [seg] + links);
      SegmentCountAppend([seg], links);
      LinksForCounts<P>(x.id, IdsOf(arena, x.outNodes));
      assert SegmentCount([seg]) == 1 && LinkCount([seg]) == 0;
    }
  }

  /** Loading the saved block of the node at position u appends the ids of
      its out-neighbours to out-list u. */
  lemma BlockLinks<P>(arena: seq<KmerNode<P>>, nodes: seq<Handle>, u: nat, b: seq<KmerNode<P>>)
    requires Listed(arena, nodes) && IdsArePositions(arena, nodes) && u < |nodes|
    requires |b| == |nodes| && LinksInRange(NodeRecords(arena, nodes[u]), |nodes|)
    ensures var r := LoadLinks(b, Iota(|b|), NodeRecords(arena, nodes[u]));
      forall v :: 0 <= v < |b| ==>
        r[v].outNodes == b[v].outNodes + (if v == u then IdsOf(arena, arena[nodes[u]].outNodes) else [])
  {
    var ns := Iota(|b|);
    var x := arena[nodes[u]];
    var seg: Record<P> := Segment(x.id, x.path, x.covg1, Some(x.numAT));
    var targets := IdsOf(arena, x.outNodes);
    var links := LinksFor<P>(u, targets);
    var block := NodeRecords(arena, nodes[u]);
    assert block == [seg] + links;
    LinksInRangeSplit([seg], links, |b|);
    assert block[1..] == links;
    assert LoadLinks(b, ns, block) == LoadLinks(b, ns, links);
    NodeLinks(b, u, targets);
    var r := LoadLinks(b, ns, links);
    forall v | 0 <= v < |b|
      ensures r[v].outNodes == b[v].outNodes + (if v == u then targets else [])
    {
      if v != u {
        assert b[v].outNodes + [] == b[v].outNodes;
      }
    }
  }

  /** Loading the first n saved blocks into nodes laid out by id appends, to
      the out-list of every one of those nodes, the ids of its out-neighbours. */
  lemma {:induction false} LinksOfSaved<P>(arena: seq<KmerNode<P>>, nodes: seq<Handle>, n: nat, a: seq<KmerNode<P>>)
    requires Listed(arena, nodes) && IdsArePositions(arena, nodes) && n <= |nodes|
    requires |a| == |nodes| && LinksInRange(SavedBlocks(arena, nodes, n), |nodes|)
    ensures var r := LoadLinks(a, Iota(|a|), SavedBlocks(arena, nodes, n));
      forall v :: 0 <= v < |a| ==>
        r[v].outNodes == a[v].outNodes + (if v < n then IdsOf(arena, arena[nodes[v]].outNodes) else [])
    decreases n
  {
    if n > 0 {
      LoadLinksAppend(a, Iota(|a|), SavedBlocks(arena, nodes, n - 1), NodeRecords(arena, nodes[n - 1]));
      LinksOfSaved(arena, nodes, n - 1, a);
      LinksOfSavedStep(arena, nodes, n, a);
    } else {
      assert SavedBlocks(arena, nodes, 0) == [];
      forall v | 0 <= v < |a| ensures a[v].outNodes + [] == a[v].outNodes { }
    }
  }

  /** The inductive step of LinksOfSaved: the links of block n - 1 loaded
      after those of the blocks before it. */
  lemma LinksOfSavedStep<P>(arena: seq<KmerNode<P>>, nodes: seq<Handle>, n: nat, a: seq<KmerNode<P>>)
    requires Listed(arena, nodes) && IdsArePositions(arena, nodes) && 0 < n <= |nodes| && |a| == |nodes|
    requires LinksInRange(SavedBlocks(arena, nodes, n - 1), |nodes|)
    requires LinksInRange(NodeRecords(arena, nodes[n - 1]), |nodes|)
    requires var b := LoadLinks(a, Iota(|a|), SavedBlocks(arena, nodes, n - 1));
      forall v :: 0 <= v < |a| ==>
        b[v].outNodes == a[v].outNodes + (if v < n - 1 then IdsOf(arena, arena[nodes[v]].outNodes) else [])
    ensures var r := LoadLinks(LoadLinks(a, Iota(|a|), SavedBlocks(arena, nodes, n - 1)), Iota(|a|), NodeRecords(arena, nodes[n - 1]));
      forall v :: 0 <= v < |a| ==>
        r[v].outNodes == a[v].outNodes + (if v < n then IdsOf(arena, arena[nodes[v]].outNodes) else [])
  {
    var ns := Iota(|a|);
    var b := LoadLinks(a, ns, SavedBlocks(arena, nodes, n - 1));
    BlockLinks(arena, nodes, n - 1, b);
    AppendOutLists(arena, nodes, a, b, LoadLinks(b, ns, NodeRecords(arena, nodes[n - 1])), n);
  }

  /** Two rounds of appending to out-lists, the first to those below n - 1 and
      the second to n - 1, append to every out-list below n. */
  lemma AppendOutLists<P>(arena: seq<KmerNode<P>>, nodes: seq<Handle>, a: seq<KmerNode<P>>, b: seq<KmerNode<P>>, r: seq<KmerNode<P>>, n: nat)
    requires Listed(arena, nodes) && |a| == |nodes| && |b| == |a| && |r| == |a| && 0 < n <= |a|
    requires forall v :: 0 <= v < |a| ==>
      b[v].outNodes == a[v].outNodes + (if v < n - 1 then IdsOf(arena, arena[nodes[v]].outNodes) else [])
    requires forall v :: 0 <= v < |b| ==>
      r[v].outNodes == b[v].outNodes + (if v == n - 1 then IdsOf(arena, arena[nodes[n - 1]].outNodes) else [])
    ensures forall v :: 0 <= v < |a| ==>
      r[v].outNodes == a[v].outNodes + (if v < n then IdsOf(arena, arena[nodes[v]].outNodes) else [])
  {
    forall v | 0 <= v < |a|
      ensures r[v].outNodes == a[v].outNodes + (if v < n then IdsOf(arena, arena[nodes[v]].outNodes) else [])
    {
      if v >= n {
        assert a[v].outNodes + [] + [] == a[v].outNodes + [];
      } else if v == n - 1 {
        assert a[v].outNodes + [] == a[v].outNodes;
      } else {
        assert b[v].outNodes + [] == b[v].outNodes;
      }
    }
  }

  /** The saved file has the line counts of the graph and can be loaded. */
  lemma SavedFile<P>(arena: seq<KmerNode<P>>, nodes: seq<Handle>)
    requires WellFormed(arena, nodes) && IdsArePositions(arena, nodes)
    ensures SegmentCount(Saved(arena, nodes)) == |nodes|
    ensures LinkCount(Saved(arena, nodes)) == OutDegreeSum(arena, nodes, |nodes|)
    ensures LinksInRange(Saved(arena, nodes), |nodes|)
  {
    var n := |nodes|;
    var blocks := SavedBlocks(arena, nodes, n);
    var recs := Saved(arena, nodes);
    assert recs[1..] == blocks && recs[0] == Header;
    SavedCounts(arena, nodes, n);
    SavedLinksInRange(arena, nodes, n);
    LinksInRangeJoin([Header], blocks, n);
  }

  /** Loading a saved graph runs the link pass over the saved blocks on the
      nodes the segment pass laid out by id. */
  lemma LoadSavedPasses<P>(arena: seq<KmerNode<P>>, nodes: seq<Handle>, pathLength: P -> nat)
    requires WellFormed(arena, nodes) && IdsArePositions(arena, nodes)
    requires LinksInRange(Saved(arena, nodes), SegmentCount(Saved(arena, nodes)))
    ensures LinksInRange(SavedBlocks(arena, nodes, |nodes|), |nodes|)
    ensures var l := Load(Loaded([], [], 0), Saved(arena, nodes), pathLength);
      && l.nodes == Iota(|nodes|)
      && l.arena == LoadLinks(LoadedArena(arena, nodes, |nodes|), Iota(|nodes|), SavedBlocks(arena, nodes, |nodes|))
  {
    var n := |nodes|;
    var blocks := SavedBlocks(arena, nodes, n);
    var recs := Saved(arena, nodes);
    assert recs[1..] == blocks && recs[0] == Header;
    SavedFile(arena, nodes);
    SavedLinksInRange(arena, nodes, n);
    var g0: Loaded<P> := Loaded([], [], 0);
    assert LoadSegments(g0, recs, pathLength) == LoadSegments(g0, blocks, pathLength);
    SegmentsOfSaved(arena, nodes, n, pathLength);
  }

  /** What loading a saved graph into a fresh graph produces: node i is the
      i-th node of the original with its out-edges by id; the read count comes
      back in the first coverage slot although it was written from the second. */
  lemma LoadSaved<P>(arena: seq<KmerNode<P>>, nodes: seq<Handle>, pathLength: P -> nat)
    requires WellFormed(arena, nodes) && IdsArePositions(arena, nodes)
    requires LinksInRange(Saved(arena, nodes), SegmentCount(Saved(arena, nodes)))
    ensures var l := Load(Loaded([], [], 0), Saved(arena, nodes), pathLength);
      && l.nodes == Iota(|nodes|)
      && WellFormed(l.arena, l.nodes)
      && RelabelledById(arena, nodes, l.arena)
      && forall i :: 0 <= i < |nodes| ==>
           && l.arena[i].id == i
           && l.arena[i].covg0 == arena[nodes[i]].covg1
           && l.arena[i].covg1 == 0
           && l.arena[i].numAT == arena[nodes[i]].numAT
  {
    var n := |nodes|;
    var blocks := SavedBlocks(arena, nodes, n);
    LoadSavedPasses(arena, nodes, pathLength);
    var a0 := LoadedArena(arena, nodes, n);
    var l := Load(Loaded([], [], 0), Saved(arena, nodes), pathLength);
    LinksOfSaved(arena, nodes, n, a0);
    LoadLinksKeepsNodes(a0, Iota(n), blocks);
    assert HandlesPermuted([], 0);
    LoadWellFormed(Loaded([], [], 0), Saved(arena, nodes), pathLength);
    forall i | 0 <= i < n
      ensures l.arena[i].path == arena[nodes[i]].path
      ensures l.arena[i].outNodes == IdsOf(arena, arena[nodes[i]].outNodes)
    {
      assert [] + IdsOf(arena, arena[nodes[i]].outNodes) == IdsOf(arena, arena[nodes[i]].outNodes);
    }
  }

  /** Saving a graph whose ids are positions and whose Paths are distinct and
      loading the file into a fresh graph gives a graph equal to the original
      in both directions, with every node at its old position under its old
      id and Path. */
  lemma SaveLoadRoundTrip<P>(arena: seq<KmerNode<P>>, nodes: seq<Handle>, pathLength: P -> nat)
    requires WellFormed(arena, nodes) && IdsArePositions(arena, nodes) && DistinctPaths(arena, nodes)
    ensures LinksInRange(Saved(arena, nodes), SegmentCount(Saved(arena, nodes)))
    ensures var l := Load(Loaded([], [], 0), Saved(arena, nodes), pathLength);
      && WellFormed(l.arena, l.nodes)
      && GraphsEqual(arena, nodes, l.arena, l.nodes)
      && GraphsEqual(l.arena, l.nodes, arena, nodes)
      && |l.nodes| == |nodes|
      && forall i :: 0 <= i < |nodes| ==>
           l.arena[l.nodes[i]].id == arena[nodes[i]].id && l.arena[l.nodes[i]].path == arena[nodes[i]].path
  {
    SavedFile(arena, nodes);
    LoadSaved(arena, nodes, pathLength);
    var l := Load(Loaded([], [], 0), Saved(arena, nodes), pathLength);
    RelabelledEqual(arena, nodes, l.arena);
  }
}
