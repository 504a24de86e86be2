/**
 * The coverage model of the k-mer graph: the per-node log-likelihood of the
 * observed coverage, and the calibration of the per-k-mer success
 * probability `p` from coverage. The transcendental functions (exp, log and
 * the log multinomial coefficient) are foreign and enter as parameters; only
 * the branch structure, the sentinel case and the integer filtering are
 * modelled.
 */
module Probability {
  import opened KmerNodes

  /** The foreign numerics the model calls. */
  datatype Numerics = Numerics(
    exp: real -> real,
    log: real -> real,
    logNChooseK2: (nat, nat, nat) -> real)

  /** Threshold on read count above which p is recalibrated from coverage. */
  const RecalibrationReads: nat := 40
  /** A node's total coverage must exceed this to take part in the calibration. */
  const CoverageFloor: nat := 4

  /** Log-likelihood of the coverage (covg0, covg1) of node j of `count` nodes. */
  function Prob(j: nat, count: nat, covg0: nat, covg1: nat, numReads: nat, p: real, num: Numerics): (r: real)
    requires j < count
    ensures j == 0 || j + 1 == count ==> r == 0.0
  {
    var total := covg0 + covg1;
    if j == 0 || j + 1 == count then 0.0
    else if total > numReads then
      num.logNChooseK2(total, covg0, covg1) + total as real * num.log(p / 2.0)
    else
      num.logNChooseK2(numReads, covg0, covg1) + total as real * num.log(p / 2.0)
        + (numReads - total) as real * num.log(1.0 - p)
  }

  /** With no coverage at all the likelihood is that of `numReads` misses. */
  lemma ProbAtZeroCoverage(j: nat, count: nat, numReads: nat, p: real, num: Numerics)
    requires 0 < j && j + 1 < count
    ensures Prob(j, count, 0, 0, numReads, p, num)
         == num.logNChooseK2(numReads, 0, 0) + numReads as real * num.log(1.0 - p)
  {
  }

  /** The log-likelihood of every node of the vector, by position. */
  function Probs<P>(arena: seq<KmerNode<P>>, nodes: seq<Handle>, numReads: nat, p: real, num: Numerics): (r: seq<real>)
    requires forall i :: 0 <= i < |nodes| ==> nodes[i] < |arena|
    ensures |r| == |nodes|
  {
    seq(|nodes|, j requires 0 <= j < |nodes| =>
      Prob(j, |nodes|, arena[nodes[j]].covg0, arena[nodes[j]].covg1, numReads, p, num))
  }

  function Total<P>(n: KmerNode<P>): nat {
    n.covg0 + n.covg1
  }

  /** The totals over the coverage floor of the nodes at positions j down to 1,
      in the order the calibration visits them. */
  function Collected<P>(arena: seq<KmerNode<P>>, nodes: seq<Handle>, j: nat): (r: seq<nat>)
    requires forall i :: 0 <= i < |nodes| ==> nodes[i] < |arena|
    requires j < |nodes|
    ensures forall i :: 0 <= i < |r| ==> r[i] > CoverageFloor
  {
    if j == 0 then []
    else
      var t := Total(arena[nodes[j]]);
      (if t > CoverageFloor then [t] else []) + Collected(arena, nodes, j - 1)
  }

  function Sum(s: seq<nat>): nat {
    if s == [] then 0 else s[0] + Sum(s[1..])
  }

  /** The mean of a non-empty list of totals. */
  function Mean(s: seq<nat>): real
    requires s != []
  {
    Sum(s) as real / |s| as real
  }

  /** The calibration: from the default `fallback`, and with more than 40 reads
      and some node over the coverage floor, the mean of those nodes' totals
      divided by the read count. */
  method EstimateP<P>(arena: seq<KmerNode<P>>, nodes: seq<Handle>, numReads: nat, fallback: real) returns (p: real)
    requires forall i :: 0 <= i < |nodes| ==> nodes[i] < |arena|
    requires numReads > RecalibrationReads ==> |nodes| > 0
    ensures numReads <= RecalibrationReads ==> p == fallback
    ensures numReads > RecalibrationReads ==>
      var c := Collected(arena, nodes, |nodes| - 1);
      p == if c != [] then Mean(c) / numReads as real else fallback
  {
    p := fallback;
    if numReads > RecalibrationReads {
      var kmerCovgs := CollectTotals(arena, nodes);
      if |kmerCovgs| == 0 {
        return;
      }
      var mean := Mean(kmerCovgs);
      p := mean / numReads as real;
    }
  }

  /** The backward scan from the last node down to position 1 that keeps the
      totals over the coverage floor. */
  method CollectTotals<P>(arena: seq<KmerNode<P>>, nodes: seq<Handle>) returns (kmerCovgs: seq<nat>)
    requires forall i :: 0 <= i < |nodes| ==> nodes[i] < |arena|
    requires |nodes| > 0
    ensures kmerCovgs == Collected(arena, nodes, |nodes| - 1)
  {
    kmerCovgs := [];
    var j := |nodes| - 1;
    while j != 0
      invariant 0 <= j < |nodes|
      invariant kmerCovgs + Collected(arena, nodes, j) == Collected(arena, nodes, |nodes| - 1)
    {
      var t := arena[nodes[j]].covg0 + arena[nodes[j]].covg1;
      ghost var rest := Collected(arena, nodes, j - 1);
      if t > CoverageFloor {
        assert Collected(arena, nodes, j) == [t] + rest;
        assert kmerCovgs + ([t] + rest) == (kmerCovgs + [t]) + rest;
        kmerCovgs := kmerCovgs + [t];
      } else {
        assert Collected(arena, nodes, j) == [] + rest == rest;
      }
      j := j - 1;
    }
    assert kmerCovgs + [] == kmerCovgs;
  }

  lemma {:induction false} SumAboveFloor(s: seq<nat>)
    requires forall i :: 0 <= i < |s| ==> s[i] > CoverageFloor
    ensures Sum(s) >= (CoverageFloor + 1) * |s|
  {
    if s != [] {
      SumAboveFloor(s[1..]);
    }
  }

  lemma DivAtLeast(x: real, n: real, b: real)
    requires n > 0.0 && x >= b * n
    ensures x / n >= b
  {
    var q := x / n;
    assert q * n == x;
    assert (q - b) * n >= 0.0;
  }

  /** The mean that recalibrates p exceeds the coverage floor, so a
      recalibrated p is more than 4 / numReads. */
  lemma RecalibratedMeanAboveFloor(s: seq<nat>)
    requires s != []
    requires forall i :: 0 <= i < |s| ==> s[i] > CoverageFloor
    ensures Mean(s) > CoverageFloor as real
  {
    SumAboveFloor(s);
    DivAtLeast(Sum(s) as real, |s| as real, (CoverageFloor + 1) as real);
  }
}
