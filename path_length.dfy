/**
 * The memoised path length of a sorted k-mer graph. Despite its name the
 * original computes, for every node, one more than the largest value among
 * its successors (0 for a node without successors): the LONGEST number of
 * edges from the node to a node without successors.
 */
module PathLength {
  import opened SuccessorLists

  ghost predicate Targets(succ: seq<seq<nat>>, j: nat, outs: seq<nat>) {
    forall i :: 0 <= i < |outs| ==> j < outs[i] < |succ|
  }

  /** The value the backward pass assigns to node j. */
  function Longest(succ: seq<seq<nat>>, j: nat): nat
    requires Forward(succ) && j < |succ|
    decreases |succ| - j, |succ[j]| + 1
  {
    LongestOver(succ, j, succ[j], 0)
  }

  /** The largest of `acc` and 1 + Longest(s) over the successors s in `outs`. */
  function LongestOver(succ: seq<seq<nat>>, j: nat, outs: seq<nat>, acc: nat): nat
    requires Forward(succ) && j < |succ| && Targets(succ, j, outs)
    decreases |succ| - j, |outs|
  {
    if outs == [] then acc
    else
      var candidate := Longest(succ, outs[0]) + 1;
      LongestOver(succ, j, outs[1..], if candidate > acc then candidate else acc)
  }

  /** The backward pass of the original, over a local table of lengths. */
  method LongestPathLengths(succ: seq<seq<nat>>) returns (len: seq<nat>)
    requires |succ| > 0 && Forward(succ)
    ensures |len| == |succ|
    ensures forall j :: 0 <= j < |succ| ==> len[j] == Longest(succ, j)
  {
    var n := |succ|;
    len := seq(n, _ => 0);
    LongestAtMost(succ, n - 1);
    var j := n - 1;
    while j != 0
      invariant 0 <= j < n && |len| == n
      invariant forall t :: 0 <= t < j ==> len[t] == 0
      invariant forall t :: j <= t < n ==> len[t] == Longest(succ, t)
    {
      var node := j - 1;
      var outs := succ[node];
      assert Targets(succ, node, outs);
      var i := 0;
      while i != |outs|
        invariant 0 <= i <= |outs| && |len| == n
        invariant forall t :: 0 <= t < n && t != node ==> len[t] == (if t < j then 0 else Longest(succ, t))
        invariant LongestOver(succ, node, outs[i..], len[node]) == Longest(succ, node)
      {
        assert outs[i..][1..] == outs[i + 1..];
        if len[outs[i]] + 1 > len[node] {
          len := len[node := len[outs[i]] + 1];
        }
        i := i + 1;
      }
      assert outs[i..] == [];
      j := j - 1;
    }
  }

  lemma {:induction false} LongestOverAtMost(succ: seq<seq<nat>>, j: nat, outs: seq<nat>, acc: nat, bound: nat)
    requires Forward(succ) && j < |succ| && Targets(succ, j, outs)
    requires acc <= bound
    requires forall i :: 0 <= i < |outs| ==> Longest(succ, outs[i]) + 1 <= bound
    ensures LongestOver(succ, j, outs, acc) <= bound
    decreases |outs|
  {
    if outs != [] {
      var candidate := Longest(succ, outs[0]) + 1;
      LongestOverAtMost(succ, j, outs[1..], if candidate > acc then candidate else acc, bound);
    }
  }

  /** A node's length never exceeds the number of nodes after it. */
  lemma {:induction false} LongestAtMost(succ: seq<seq<nat>>, j: nat)
    requires Forward(succ) && j < |succ|
    ensures Longest(succ, j) <= |succ| - 1 - j
    decreases |succ| - j
  {
    forall i | 0 <= i < |succ[j]|
      ensures Longest(succ, succ[j][i]) + 1 <= |succ| - 1 - j
    {
      LongestAtMost(succ, succ[j][i]);
    }
    LongestOverAtMost(succ, j, succ[j], 0, |succ| - 1 - j);
  }

  /** A walk through the graph along its edges. */
  ghost predicate IsWalk(succ: seq<seq<nat>>, w: seq<nat>) {
    && |w| > 0
    && (forall i :: 0 <= i < |w| ==> w[i] < |succ|)
    && (forall i :: 0 <= i < |w| - 1 ==> w[i + 1] in succ[w[i]])
  }

  lemma {:induction false} LongestOverBounds(succ: seq<seq<nat>>, j: nat, outs: seq<nat>, acc: nat)
    requires Forward(succ) && j < |succ| && Targets(succ, j, outs)
    ensures LongestOver(succ, j, outs, acc) >= acc
    ensures forall i :: 0 <= i < |outs| ==> LongestOver(succ, j, outs, acc) >= Longest(succ, outs[i]) + 1
    ensures LongestOver(succ, j, outs, acc) == acc
         || exists i :: 0 <= i < |outs| && LongestOver(succ, j, outs, acc) == Longest(succ, outs[i]) + 1
    decreases |outs|
  {
    if outs != [] {
      var candidate := Longest(succ, outs[0]) + 1;
      var acc' := if candidate > acc then candidate else acc;
      LongestOverBounds(succ, j, outs[1..], acc');
      forall i | 1 <= i < |outs|
        ensures LongestOver(succ, j, outs, acc) >= Longest(succ, outs[i]) + 1
      {
        assert outs[i] == outs[1..][i - 1];
      }
      var r := LongestOver(succ, j, outs, acc);
      if r != acc && r != acc' {
        var i :| 0 <= i < |outs[1..]| && r == Longest(succ, outs[1..][i]) + 1;
        assert outs[1..][i] == outs[i + 1];
      }
    }
  }

  /** No walk from j has more edges than Longest(j). */
  lemma {:induction false} LongestBoundsWalks(succ: seq<seq<nat>>, w: seq<nat>)
    requires Forward(succ) && IsWalk(succ, w)
    ensures |w| - 1 <= Longest(succ, w[0])
    decreases |w|
  {
    if |w| > 1 {
      LongestBoundsWalks(succ, w[1..]);
      var i :| 0 <= i < |succ[w[0]]| && succ[w[0]][i] == w[1];
      LongestOverBounds(succ, w[0], succ[w[0]], 0);
    }
  }

  /** Some walk from j ending at a node without successors has exactly
      Longest(j) edges. */
  lemma {:induction false} LongestAttained(succ: seq<seq<nat>>, j: nat) returns (w: seq<nat>)
    requires Forward(succ) && j < |succ|
    ensures IsWalk(succ, w) && w[0] == j && succ[w[|w| - 1]] == []
    ensures |w| - 1 == Longest(succ, j)
    decreases |succ| - j
  {
    LongestOverBounds(succ, j, succ[j], 0);
    if succ[j] == [] {
      w := [j];
    } else {
      assert Longest(succ, j) >= Longest(succ, succ[j][0]) + 1;
      var i :| 0 <= i < |succ[j]| && Longest(succ, j) == Longest(succ, succ[j][i]) + 1;
      var rest := LongestAttained(succ, succ[j][i]);
      w := [j] + rest;
      assert w[1..] == rest;
    }
  }
}
