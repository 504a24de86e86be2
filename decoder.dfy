/**
 * The maximum-probability path decoder: a backward dynamic program over a
 * topologically sorted graph (every edge goes to a higher index), choosing for
 * each node the successor whose continuation has the best mean
 * log-probability per edge, with a tolerance and a longest-path tie-break,
 * followed by the extraction of the chosen path from node 0.
 *
 * Graph input: `succ[j]` lists the ids of node j's out-neighbours and
 * `prob[j]` is node j's log-likelihood; the last index is the sink.
 */
module Decoder {
  import opened Wrappers
  import opened SuccessorLists

  /** Tolerance of every mean comparison (1e-6). */
  const Tolerance: real := 0.000001
  /** An edge straight to the sink is only taken while the best mean is below -25. */
  const SinkEdgeFloor: real := -25.0
  /** The mean assigned once an edge to the sink is chosen: log(0.005) in single precision. */
  const StopPenalty: real := -5.2983174

  /** A single-precision quotient M / len: 0 / 0 is NaN, against which every comparison is false. */
  datatype Mean = NaN | Finite(value: real)

  /** The running best mean of a node's candidates: it starts at the lowest float. */
  datatype Best = Lowest | Level(value: real)

  function MeanOf(m: real, l: nat): (r: Mean)
    ensures r.Finite? <==> l > 0
  {
    if l == 0 then NaN else Finite(m / l as real)
  }

  /** -25 > max_mean + 1e-6 */
  predicate FloorAbove(b: Best) {
    b.Lowest? || SinkEdgeFloor > b.value + Tolerance
  }

  /** mean > max_mean + 1e-6 */
  predicate Exceeds(m: Mean, b: Best) {
    m.Finite? && (b.Lowest? || m.value > b.value + Tolerance)
  }

  /** max_mean - mean <= 1e-6 */
  predicate NearOrAbove(m: Mean, b: Best) {
    m.Finite? && (b.Lowest? || b.value - m.value <= Tolerance)
  }

  /** The state of one node's scan of its successors. */
  datatype Choice = Choice(maxMean: Best, maxLen: nat, chosen: Option<nat>)

  const Unchosen := Choice(Lowest, 0, None)

  /** The selection rule: does successor s replace the current choice? */
  predicate Replaces(s: nat, sink: nat, M: seq<real>, len: seq<nat>, maxMean: Best, maxLen: nat)
    requires s < |M| && s < |len|
  {
    var mean := MeanOf(M[s], len[s]);
    || (s == sink && FloorAbove(maxMean))
    || Exceeds(mean, maxMean)
    || (NearOrAbove(mean, maxMean) && len[s] > maxLen)
  }

  /** One step of the scan: a replacing successor becomes the choice; a real
      successor sets the best mean and length to its own, the sink sets the
      best mean to the stop penalty. */
  function Consider(s: nat, sink: nat, M: seq<real>, len: seq<nat>, c: Choice): Choice
    requires s < |M| && s < |len|
  {
    if !Replaces(s, sink, M, len, c.maxMean, c.maxLen) then c
    else if s == sink then c.(maxMean := Level(StopPenalty), chosen := Some(s))
    else Choice(Level(M[s] / len[s] as real), len[s], Some(s))
  }

  ghost predicate Indexes(outs: seq<nat>, n: nat) {
    forall i :: 0 <= i < |outs| ==> outs[i] < n
  }

  /** The scan of `outs` in order, from state `c`: the final choice is the
      starting one or one of the successors scanned. */
  function ChooseFrom(outs: seq<nat>, sink: nat, M: seq<real>, len: seq<nat>, c: Choice): (r: Choice)
    requires Indexes(outs, |M|) && Indexes(outs, |len|)
    ensures r.chosen == c.chosen || (r.chosen.Some? && r.chosen.value in outs)
  {
    if outs == [] then c
    else ChooseFrom(outs[1..], sink, M, len, Consider(outs[0], sink, M, len, c))
  }

  /** A node's choice: none, or one of its successors. */
  function Choose(outs: seq<nat>, sink: nat, M: seq<real>, len: seq<nat>): (r: Choice)
    requires Indexes(outs, |M|) && Indexes(outs, |len|)
    ensures r.chosen.Some? ==> r.chosen.value in outs
  {
    ChooseFrom(outs, sink, M, len, Unchosen)
  }

  ghost predicate Sized(succ: seq<seq<nat>>, prob: seq<real>, M: seq<real>, len: seq<nat>, prev: seq<nat>) {
    |succ| > 0 && |prob| == |M| == |len| == |prev| == |succ| && Forward(succ)
  }

  /** The recurrence at node j: the node takes the choice of its scan, with
      len[j] = 1 + len[s], M[j] = prob[j] + M[s] and prev[j] = s; without a
      choice it keeps M = 0, len = 0 and prev = the sink. */
  ghost predicate StepHolds(succ: seq<seq<nat>>, prob: seq<real>, M: seq<real>, len: seq<nat>, prev: seq<nat>, j: nat)
    requires Sized(succ, prob, M, len, prev) && j < |succ|
  {
    match Choose(succ[j], |succ| - 1, M, len).chosen
    case None => M[j] == 0.0 && len[j] == 0 && prev[j] == |succ| - 1
    case Some(s) => prev[j] == s && len[j] == 1 + len[s] && M[j] == prob[j] + M[s]
  }

  /** The dynamic program's tables are a fixed point of the recurrence. */
  ghost predicate Solved(succ: seq<seq<nat>>, prob: seq<real>, M: seq<real>, len: seq<nat>, prev: seq<nat>) {
    && Sized(succ, prob, M, len, prev)
    && M[|succ| - 1] == 0.0 && len[|succ| - 1] == 0 && prev[|succ| - 1] == |succ| - 1
    && forall j :: 0 <= j < |succ| - 1 ==> StepHolds(succ, prob, M, len, prev, j)
  }

  /** `path` is what following prev from node 0 collects: the nodes strictly
      between the source and the sink, in increasing order, each linked to the
      next by prev, the last one pointing at the sink. */
  ghost predicate IsChain(prev: seq<nat>, path: seq<nat>)
    requires |prev| > 0
  {
    && (forall i :: 0 <= i < |path| ==> 0 < path[i] < |prev| - 1)
    && (forall i, k :: 0 <= i < k < |path| ==> path[i] < path[k])
    && (path == [] ==> prev[0] == |prev| - 1)
    && (path != [] ==> path[0] == prev[0] && prev[path[|path| - 1]] == |prev| - 1)
    && (forall i :: 0 <= i < |path| - 1 ==> prev[path[i]] == path[i + 1])
  }

  /** Path extraction: follow prev from node 0 until the sink. It terminates
      because prev always points to a higher index. */
  method ExtractPath(prev: seq<nat>) returns (path: seq<nat>)
    requires |prev| > 0
    requires forall j :: 0 <= j < |prev| ==> prev[j] < |prev|
    requires forall j :: 0 <= j < |prev| - 1 ==> j < prev[j]
    ensures IsChain(prev, path)
  {
    path := [];
    var prevNode := prev[0];
    while prevNode < |prev| - 1
      invariant prevNode < |prev|
      invariant |prev| > 1 ==> 0 < prevNode
      invariant forall i :: 0 <= i < |path| ==> 0 < path[i] < prevNode
      invariant path == [] ==> prevNode == prev[0]
      invariant path != [] ==> path[0] == prev[0] && prev[path[|path| - 1]] == prevNode
      invariant forall i :: 0 <= i < |path| - 1 ==> prev[path[i]] == path[i + 1]
      decreases |prev| - prevNode
    {
      ghost var before := path;
      path := path + [prevNode];
      assert forall i :: 0 <= i < |before| ==> path[i] == before[i];
      prevNode := prev[prevNode];
    }
    IncreasingFromAdjacent(path);
  }

  /** A sequence whose neighbours increase is increasing throughout. */
  lemma {:induction false} IncreasingFromAdjacent(s: seq<nat>)
    requires forall i :: 0 <= i < |s| - 1 ==> s[i] < s[i + 1]
    ensures forall i, k :: 0 <= i < k < |s| ==> s[i] < s[k]
  {
    if |s| > 1 {
      var t := s[1..];
      assert forall i :: 0 <= i < |t| - 1 ==> t[i] < t[i + 1] by {
        forall i | 0 <= i < |t| - 1 ensures t[i] < t[i + 1] {
          assert t[i] == s[i + 1] && t[i + 1] == s[i + 2];
        }
      }
      IncreasingFromAdjacent(t);
      forall i, k | 0 <= i < k < |s| ensures s[i] < s[k] {
        if i == 0 {
          if k > 1 {
            assert t[0] < t[k - 1];
          }
        } else {
          assert t[i - 1] < t[k - 1];
        }
      }
    }
  }

  lemma {:induction false} ChooseFromFrame(outs: seq<nat>, sink: nat, M: seq<real>, len: seq<nat>, M': seq<real>, len': seq<nat>, c: Choice)
    requires Indexes(outs, |M|) && Indexes(outs, |len|) && Indexes(outs, |M'|) && Indexes(outs, |len'|)
    requires forall i :: 0 <= i < |outs| ==> M[outs[i]] == M'[outs[i]] && len[outs[i]] == len'[outs[i]]
    ensures ChooseFrom(outs, sink, M, len, c) == ChooseFrom(outs, sink, M', len', c)
  {
    if outs != [] {
      ChooseFromFrame(outs[1..], sink, M, len, M', len', Consider(outs[0], sink, M, len, c));
    }
  }

  /** The recurrence at j only looks at j and higher indices. */
  lemma StepHoldsFrame(succ: seq<seq<nat>>, prob: seq<real>, M: seq<real>, len: seq<nat>, prev: seq<nat>,
                       M': seq<real>, len': seq<nat>, prev': seq<nat>, j: nat)
    requires Sized(succ, prob, M, len, prev) && Sized(succ, prob, M', len', prev') && j < |succ|
    requires forall t :: j <= t < |succ| ==> M[t] == M'[t] && len[t] == len'[t] && prev[t] == prev'[t]
    ensures StepHolds(succ, prob, M, len, prev, j) == StepHolds(succ, prob, M', len', prev', j)
  {
    ChooseFromFrame(succ[j], |succ| - 1, M, len, M', len', Unchosen);
  }

  /** In solved tables prev points from every node but the sink to a higher
      index: to a successor, or to the sink. */
  lemma SolvedPrevForward(succ: seq<seq<nat>>, prob: seq<real>, M: seq<real>, len: seq<nat>, prev: seq<nat>)
    requires Solved(succ, prob, M, len, prev)
    ensures forall j :: 0 <= j < |prev| ==> prev[j] < |prev|
    ensures forall j :: 0 <= j < |prev| - 1 ==> j < prev[j]
  {
    forall j | 0 <= j < |prev| - 1
      ensures j < prev[j] < |prev|
    {
      assert StepHolds(succ, prob, M, len, prev, j);
      var c := Choose(succ[j], |succ| - 1, M, len);
      if c.chosen.Some? {
        var i :| 0 <= i < |succ[j]| && succ[j][i] == c.chosen.value;
      }
    }
  }

  /** Once node `node` has taken the choice of its scan, the recurrence holds
      from `node` up to the sink. */
  lemma NodeSolved(succ: seq<seq<nat>>, prob: seq<real>, M0: seq<real>, len0: seq<nat>, prev0: seq<nat>,
                   M: seq<real>, len: seq<nat>, prev: seq<nat>, node: nat, c: Choice)
    requires Sized(succ, prob, M0, len0, prev0) && Sized(succ, prob, M, len, prev)
    requires node < |succ| - 1
    requires forall t :: 0 <= t < |succ| && t != node ==> M[t] == M0[t] && len[t] == len0[t] && prev[t] == prev0[t]
    requires forall t :: node < t < |succ| - 1 ==> StepHolds(succ, prob, M0, len0, prev0, t)
    requires c == Choose(succ[node], |succ| - 1, M0, len0)
    requires c.chosen.None? ==> M[node] == 0.0 && len[node] == 0 && prev[node] == |succ| - 1
    requires c.chosen.Some? ==> (prev[node] == c.chosen.value
      && len[node] == 1 + len0[c.chosen.value] && M[node] == prob[node] + M0[c.chosen.value])
    ensures forall t :: node <= t < |succ| - 1 ==> StepHolds(succ, prob, M, len, prev, t)
  {
    ChooseFromFrame(succ[node], |succ| - 1, M, len, M0, len0, Unchosen);
    forall t | node < t < |succ| - 1
      ensures StepHolds(succ, prob, M, len, prev, t)
    {
      StepHoldsFrame(succ, prob, M0, len0, prev0, M, len, prev, t);
    }
  }

  /** The inner loop of the decoder at `node`: scan its successors in order,
      rewriting M, len and prev at `node` whenever a successor replaces the
      best so far; the tables end as the scan's choice says, and no other
      entry changes. */
  method ScanSuccessors(succ: seq<seq<nat>>, prob: seq<real>, M0: seq<real>, len0: seq<nat>, prev0: seq<nat>, node: nat)
    returns (M: seq<real>, len: seq<nat>, prev: seq<nat>)
    requires Sized(succ, prob, M0, len0, prev0) && node < |succ| - 1
    requires M0[node] == 0.0 && len0[node] == 0 && prev0[node] == |succ| - 1
    ensures Sized(succ, prob, M, len, prev)
    ensures forall t :: 0 <= t < |succ| && t != node ==> M[t] == M0[t] && len[t] == len0[t] && prev[t] == prev0[t]
    ensures var c := Choose(succ[node], |succ| - 1, M0, len0);
      && (c.chosen.None? ==> M[node] == 0.0 && len[node] == 0 && prev[node] == |succ| - 1)
      && (c.chosen.Some? ==>
            prev[node] == c.chosen.value && len[node] == 1 + len0[c.chosen.value] && M[node] == prob[node] + M0[c.chosen.value])
  {
    var sink := |succ| - 1;
    M, len, prev := M0, len0, prev0;
    var outs := succ[node];
    var maxMean := Lowest;
    var maxLen := 0;
    ghost var chosen: Option<nat> := None;
    var i := 0;
    while i != |outs|
      invariant 0 <= i <= |outs|
      invariant |M| == |len| == |prev| == |succ|
      invariant forall t :: 0 <= t < |succ| && t != node ==> M[t] == M0[t] && len[t] == len0[t] && prev[t] == prev0[t]
      invariant ChooseFrom(outs[i..], sink, M0, len0, Choice(maxMean, maxLen, chosen)) == Choose(outs, sink, M0, len0)
      invariant chosen.None? ==> M[node] == 0.0 && len[node] == 0 && prev[node] == sink
      invariant chosen.Some? ==> (chosen.value in outs && prev[node] == chosen.value
        && len[node] == 1 + len0[chosen.value] && M[node] == prob[node] + M0[chosen.value])
    {
      var s := outs[i];
      assert s != node && M[s] == M0[s] && len[s] == len0[s];
      if Replaces(s, sink, M, len, maxMean, maxLen) {
        M := M[node := prob[node] + M[s]];
        len := len[node := 1 + len[s]];
        prev := prev[node := s];
        if s != sink {
          maxMean := Level(M[s] / len[s] as real);
          maxLen := len[s];
        } else {
          maxMean := Level(StopPenalty);
        }
        chosen := Some(s);
      }
      assert outs[i..][1..] == outs[i + 1..];
      i := i + 1;
    }
    assert outs[i..] == [];
  }

  /** The decoder: fills M, len and prev backwards from the node before the
      sink down to node 0, extracts the path from node 0 and returns the mean
      log-probability per edge M[0] / len[0]. */
  method Decode(succ: seq<seq<nat>>, prob: seq<real>) returns (M: seq<real>, len: seq<nat>, prev: seq<nat>, path: seq<nat>, score: Mean)
    requires |succ| > 0 && |prob| == |succ| && Forward(succ)
    ensures Solved(succ, prob, M, len, prev)
    ensures IsChain(prev, path)
    ensures score == MeanOf(M[0], len[0])
  {
    var n := |succ|;
    var sink := n - 1;
    M := seq(n, _ => 0.0);
    len := seq(n, _ => 0);
    prev := seq(n, _ => sink);
    var j := n - 1;
    while j != 0
      invariant 0 <= j <= sink
      invariant |M| == |len| == |prev| == n
      invariant forall t :: 0 <= t < j ==> M[t] == 0.0 && len[t] == 0 && prev[t] == sink
      invariant M[sink] == 0.0 && len[sink] == 0 && prev[sink] == sink
      invariant forall t :: j <= t < sink ==> StepHolds(succ, prob, M, len, prev, t)
    {
      ghost var M0, len0, prev0 := M, len, prev;
      var node := j - 1;
      M, len, prev := ScanSuccessors(succ, prob, M, len, prev, node);
      NodeSolved(succ, prob, M0, len0, prev0, M, len, prev, node, Choose(succ[node], sink, M0, len0));
      j := j - 1;
    }
    SolvedPrevForward(succ, prob, M, len, prev);
    path := ExtractPath(prev);
    score := MeanOf(M[0], len[0]);
  }

  lemma {:induction false} ChooseFromKeepsLength(outs: seq<nat>, sink: nat, M: seq<real>, len: seq<nat>, c: Choice)
    requires Indexes(outs, |M|) && Indexes(outs, |len|)
    requires c.chosen.Some? && c.chosen.value != sink ==> c.chosen.value < |len| && len[c.chosen.value] > 0
    ensures var r := ChooseFrom(outs, sink, M, len, c);
      r.chosen.Some? && r.chosen.value != sink ==> r.chosen.value < |len| && len[r.chosen.value] > 0
  {
    if outs != [] {
      ChooseFromKeepsLength(outs[1..], sink, M, len, Consider(outs[0], sink, M, len, c));
    }
  }

  /** A node with a choice points either at the sink or at a node that has a
      choice itself: a real successor is only taken when its mean is a number. */
  lemma ChosenHasLength(succ: seq<seq<nat>>, prob: seq<real>, M: seq<real>, len: seq<nat>, prev: seq<nat>, j: nat)
    requires Solved(succ, prob, M, len, prev)
    requires j < |succ| - 1 && len[j] > 0
    ensures prev[j] < |succ| && (prev[j] == |succ| - 1 || len[prev[j]] > 0)
  {
    assert StepHolds(succ, prob, M, len, prev, j);
    ChooseFromKeepsLength(succ[j], |succ| - 1, M, len, Unchosen);
  }

  /** The summed log-probability of path[k..]. */
  function SumAlong(prob: seq<real>, path: seq<nat>, k: nat): real
    requires Indexes(path, |prob|)
    decreases |path| - k
  {
    if k >= |path| then 0.0 else prob[path[k]] + SumAlong(prob, path, k + 1)
  }

  /** Along the extracted chain each node's length counts the edges left to
      the sink and its M sums the log-probabilities left on the chain. */
  lemma {:induction false} SuffixValues(succ: seq<seq<nat>>, prob: seq<real>, M: seq<real>, len: seq<nat>, prev: seq<nat>,
                                        path: seq<nat>, k: nat)
    requires Solved(succ, prob, M, len, prev) && IsChain(prev, path)
    requires k < |path| && len[path[k]] > 0
    ensures len[path[k]] == |path| - k
    ensures M[path[k]] == SumAlong(prob, path, k)
    decreases |path| - k
  {
    var sink := |succ| - 1;
    var x := path[k];
    assert StepHolds(succ, prob, M, len, prev, x);
    var c := Choose(succ[x], sink, M, len);
    assert c.chosen == Some(prev[x]);
    if k == |path| - 1 {
      assert prev[x] == sink;
    } else {
      assert prev[x] == path[k + 1] < sink;
      ChosenHasLength(succ, prob, M, len, prev, x);
      SuffixValues(succ, prob, M, len, prev, path, k + 1);
    }
  }

  /** The decoder's score: when node 0 has a choice, len[0] is the number of
      edges of the extracted path, one more than its interior nodes, and M[0]
      is prob[0] plus the log-probabilities of those nodes; so the score is
      their sum divided by |path| + 1. Without a choice the path is empty and
      the score is NaN. */
  lemma DecodedScore(succ: seq<seq<nat>>, prob: seq<real>, M: seq<real>, len: seq<nat>, prev: seq<nat>, path: seq<nat>)
    requires Solved(succ, prob, M, len, prev) && IsChain(prev, path)
    ensures len[0] > 0 ==> len[0] == |path| + 1 && M[0] == prob[0] + SumAlong(prob, path, 0)
    ensures len[0] == 0 ==> path == [] && MeanOf(M[0], len[0]) == NaN
  {
    var sink := |succ| - 1;
    if |succ| == 1 {
      assert len[0] == 0 && prev[0] == sink;
    } else {
      assert StepHolds(succ, prob, M, len, prev, 0);
      if len[0] > 0 {
        if path == [] {
          assert prev[0] == sink;
        } else {
          assert prev[0] == path[0] < sink;
          ChosenHasLength(succ, prob, M, len, prev, 0);
          SuffixValues(succ, prob, M, len, prev, path, 0);
        }
      }
    }
  }

  /** Successor s is a real node whose mean is a number and, unless it is
      `best` itself, trails the mean of `best` by more than the tolerance. */
  ghost predicate Trails(s: nat, best: nat, sink: nat, M: seq<real>, len: seq<nat>)
    requires s < |M| && s < |len| && best < |M| && best < |len| && len[best] > 0
  {
    s != sink && len[s] > 0 && (s == best || M[best] / len[best] as real > M[s] / len[s] as real + Tolerance)
  }

  lemma {:induction false} WinnerStays(outs: seq<nat>, sink: nat, M: seq<real>, len: seq<nat>, best: nat)
    requires Indexes(outs, |M|) && Indexes(outs, |len|) && best < |M| && best < |len|
    requires best != sink && len[best] > 0
    requires forall i :: 0 <= i < |outs| ==> Trails(outs[i], best, sink, M, len)
    ensures var acc := Choice(Level(M[best] / len[best] as real), len[best], Some(best));
      ChooseFrom(outs, sink, M, len, acc) == acc
  {
    if outs != [] {
      WinnerStays(outs[1..], sink, M, len, best);
    }
  }

  lemma {:induction false} WinnerReached(outs: seq<nat>, sink: nat, M: seq<real>, len: seq<nat>, best: nat, acc: Choice)
    requires Indexes(outs, |M|) && Indexes(outs, |len|) && best < |M| && best < |len|
    requires best in outs && best != sink && len[best] > 0
    requires forall i :: 0 <= i < |outs| ==> Trails(outs[i], best, sink, M, len)
    requires acc.maxMean.Level? ==> acc.maxMean.value + Tolerance < M[best] / len[best] as real
    ensures ChooseFrom(outs, sink, M, len, acc).chosen == Some(best)
  {
    var s := outs[0];
    var next := Consider(s, sink, M, len, acc);
    if s == best {
      assert next == Choice(Level(M[best] / len[best] as real), len[best], Some(best));
      WinnerStays(outs[1..], sink, M, len, best);
    } else {
      assert Trails(s, best, sink, M, len);
      assert best in outs[1..];
      WinnerReached(outs[1..], sink, M, len, best, next);
    }
  }

  /** A real successor whose mean beats every other successor's by more than
      the tolerance is the one chosen, wherever it stands in the out-list. */
  lemma ChooseClearWinner(outs: seq<nat>, sink: nat, M: seq<real>, len: seq<nat>, best: nat)
    requires Indexes(outs, |M|) && Indexes(outs, |len|) && best < |M| && best < |len|
    requires best in outs && best != sink && len[best] > 0
    requires forall i :: 0 <= i < |outs| ==> Trails(outs[i], best, sink, M, len)
    ensures Choose(outs, sink, M, len).chosen == Some(best)
  {
    WinnerReached(outs, sink, M, len, best, Unchosen);
  }

  /** Tie-break: of two real successors with equal means, the one with the
      longer continuation is chosen, and on equal lengths the first. */
  lemma ChooseTieBreak(a: nat, b: nat, sink: nat, M: seq<real>, len: seq<nat>)
    requires a < |M| && a < |len| && b < |M| && b < |len|
    requires a != sink && b != sink && len[a] > 0 && len[b] > 0
    requires MeanOf(M[a], len[a]) == MeanOf(M[b], len[b])
    ensures Choose([a, b], sink, M, len).chosen == Some(if len[b] > len[a] then b else a)
  {
    var first := Consider(a, sink, M, len, Unchosen);
    assert first == Choice(Level(M[a] / len[a] as real), len[a], Some(a));
    assert [a, b][1..] == [b];
    ChooseSingle(b, sink, M, len, first);
  }

  lemma ChooseSingle(x: nat, sink: nat, M: seq<real>, len: seq<nat>, c: Choice)
    requires x < |M| && x < |len|
    ensures ChooseFrom([x], sink, M, len, c) == Consider(x, sink, M, len, c)
  {
    assert [x][1..] == [];
  }

  /** A straight line source -> 1 -> 2 -> 3 -> sink decodes to [1, 2, 3] over
      four edges: the score divides the three interior log-probabilities by 4. */
  lemma StraightLine(prob: seq<real>, M: seq<real>, len: seq<nat>, prev: seq<nat>, path: seq<nat>)
    requires Solved([[1], [2], [3], [4], []], prob, M, len, prev) && IsChain(prev, path)
    ensures path == [1, 2, 3]
    ensures len[0] == 4 && M[0] == prob[0] + prob[1] + prob[2] + prob[3]
  {
    var succ: seq<seq<nat>> := [[1], [2], [3], [4], []];
    assert StepHolds(succ, prob, M, len, prev, 3);
    ChooseSingle(4, 4, M, len, Unchosen);
    assert prev[3] == 4 && len[3] == 1;
    assert StepHolds(succ, prob, M, len, prev, 2);
    ChooseSingle(3, 4, M, len, Unchosen);
    assert prev[2] == 3 && len[2] == 2;
    assert StepHolds(succ, prob, M, len, prev, 1);
    ChooseSingle(2, 4, M, len, Unchosen);
    assert prev[1] == 2 && len[1] == 3;
    assert StepHolds(succ, prob, M, len, prev, 0);
    ChooseSingle(1, 4, M, len, Unchosen);
    assert prev[0] == 1 && len[0] == 4;
    assert path[0] == 1;
    assert |path| > 1 && path[1] == 2;
    assert |path| > 2 && path[2] == 3;
    assert |path| == 3;
  }

  /** Every node of a chain but the last links by prev to a node before the
      sink, so the chain ends at the first node whose prev is the sink. */
  lemma ChainLinksBeforeSink(prev: seq<nat>, path: seq<nat>, i: nat)
    requires |prev| > 0 && IsChain(prev, path) && i < |path|
    ensures i + 1 == |path| || prev[path[i]] < |prev| - 1
  {
    if i + 1 < |path| {
      assert prev[path[i]] == path[i + 1];
    }
  }

  /** The choice is greedy in the successor's own mean M[s] / len[s], not the
      best mean over whole walks: the source prefers 1 (mean -2) to 3 (mean
      -2.5), so the decoded walk 0 -> 1 -> 2 -> sink scores -4 / 3, although
      the walk 0 -> 3 -> sink has the higher mean -2.5 / 2. */
  lemma GreedyNotBestMean(prob: seq<real>, M: seq<real>, len: seq<nat>, prev: seq<nat>, path: seq<nat>)
    requires prob == [0.0, -2.0, -2.0, -2.5, 0.0]
    requires Solved([[1, 3], [2], [4], [4], []], prob, M, len, prev) && IsChain(prev, path)
    ensures path == [1, 2] && len[0] == 3 && M[0] == -4.0
    ensures MeanOf(M[0], len[0]).value < (prob[0] + prob[3] + prob[4]) / 2.0
  {
    var succ: seq<seq<nat>> := [[1, 3], [2], [4], [4], []];
    assert StepHolds(succ, prob, M, len, prev, 3);
    ChooseSingle(4, 4, M, len, Unchosen);
    assert prev[3] == 4 && len[3] == 1 && M[3] == -2.5;
    assert StepHolds(succ, prob, M, len, prev, 2);
    assert prev[2] == 4 && len[2] == 1 && M[2] == -2.0;
    assert StepHolds(succ, prob, M, len, prev, 1);
    ChooseSingle(2, 4, M, len, Unchosen);
    assert prev[1] == 2 && len[1] == 2 && M[1] == -4.0;
    assert StepHolds(succ, prob, M, len, prev, 0);
    var first := Consider(1, 4, M, len, Unchosen);
    assert first == Choice(Level(-2.0), 2, Some(1));
    assert [1, 3][1..] == [3];
    ChooseSingle(3, 4, M, len, first);
    assert prev[0] == 1 && len[0] == 3;
    assert path[0] == 1;
    assert |path| > 1 && path[1] == 2;
    ChainLinksBeforeSink(prev, path, 1);
  }
}
