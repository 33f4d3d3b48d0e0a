/**
 * The two filters sample_decode applies to the probabilities after sorting them in descending
 * order: top-p (nucleus) and top-k. Weights are exact reals; the input is what a descending sort
 * of a softmax produces: non-negative and non-increasing.
 */
module Sampling {
  import opened Wrappers

  function Sum(p: seq<real>): real
  {
    if p == [] then 0.0 else Sum(p[..|p| - 1]) + p[|p| - 1]
  }

  predicate NonNegative(p: seq<real>)
  {
    forall j :: 0 <= j < |p| ==> 0.0 <= p[j]
  }

  predicate NonIncreasing(p: seq<real>)
  {
    forall i, j :: 0 <= i <= j < |p| ==> p[j] <= p[i]
  }

  lemma SumStep(p: seq<real>, j: nat)
    requires j < |p|
    ensures Sum(p[..j + 1]) == Sum(p[..j]) + p[j]
  {
    assert p[..j + 1][..j] == p[..j];
  }

  /** Over non-negative weights a longer prefix never has less mass. */
  lemma {:induction false} SumPrefixMonotone(p: seq<real>, i: nat, j: nat)
    requires NonNegative(p) && i <= j <= |p|
    ensures Sum(p[..i]) <= Sum(p[..j])
    decreases j - i
  {
    if i < j {
      SumPrefixMonotone(p, i, j - 1);
      SumStep(p, j - 1);
    }
  }

  /** Over non-negative weights the total is at least any single weight. */
  lemma SumAtLeastEach(p: seq<real>, j: nat)
    requires NonNegative(p) && j < |p|
    ensures p[j] <= Sum(p)
  {
    SumStep(p, j);
    SumPrefixMonotone(p, 0, j);
    SumPrefixMonotone(p, j + 1, |p|);
    assert p[..|p|] == p;
  }

  /** The top-p mask: sorted position `j` is zeroed when the running sum up to and including `j`,
      less the weight at `j`, is above `topP`. */
  function TopP(p: seq<real>, topP: real): (r: seq<real>)
    ensures |r| == |p|
  {
    seq(|p|, j requires 0 <= j < |p| => if Sum(p[..j + 1]) - p[j] > topP then 0.0 else p[j])
  }

  /** Position `j` survives exactly when the weights before it add up to at most `topP`;
      in particular position 0 survives whenever `topP` is not negative. */
  lemma TopPKeepsIff(p: seq<real>, topP: real)
    ensures forall j :: 0 <= j < |p| ==> TopP(p, topP)[j] == if Sum(p[..j]) <= topP then p[j] else 0.0
    ensures |p| > 0 && 0.0 <= topP ==> TopP(p, topP)[0] == p[0]
  {
    forall j | 0 <= j < |p|
      ensures TopP(p, topP)[j] == if Sum(p[..j]) <= topP then p[j] else 0.0
    {
      SumStep(p, j);
    }
  }

  /** The number of positions the top-p mask keeps: the first position whose earlier weights
      exceed `topP`, counting from `m` on. */
  function NucleusFrom(p: seq<real>, topP: real, m: nat): (n: nat)
    requires m <= |p|
    ensures m <= n <= |p|
    decreases |p| - m
  {
    if m == |p| || Sum(p[..m]) > topP then m else NucleusFrom(p, topP, m + 1)
  }

  function NucleusSize(p: seq<real>, topP: real): nat
  {
    NucleusFrom(p, topP, 0)
  }

  lemma {:induction false} NucleusFromFacts(p: seq<real>, topP: real, m: nat)
    requires m <= |p|
    ensures forall j :: m <= j < NucleusFrom(p, topP, m) ==> Sum(p[..j]) <= topP
    ensures NucleusFrom(p, topP, m) < |p| ==> Sum(p[..NucleusFrom(p, topP, m)]) > topP
    decreases |p| - m
  {
    if m < |p| && Sum(p[..m]) <= topP {
      NucleusFromFacts(p, topP, m + 1);
    }
  }

  /** Over non-negative sorted weights the survivors of top-p form a prefix: the shortest prefix
      whose mass exceeds `topP` (the whole sequence if none does), including the weight that
      crosses the threshold. */
  lemma TopPIsNucleus(p: seq<real>, topP: real)
    requires NonNegative(p)
    ensures var m := NucleusSize(p, topP);
            && (forall j :: 0 <= j < m ==> TopP(p, topP)[j] == p[j])
            && (forall j :: m <= j < |p| ==> TopP(p, topP)[j] == 0.0)
            && (m < |p| ==> Sum(p[..m]) > topP)
            && (m > 0 ==> Sum(p[..m - 1]) <= topP)
            && (|p| > 0 && 0.0 <= topP ==> m > 0)
  {
    var m := NucleusSize(p, topP);
    NucleusFromFacts(p, topP, 0);
    TopPKeepsIff(p, topP);
    forall j | m <= j < |p|
      ensures TopP(p, topP)[j] == 0.0
    {
      SumPrefixMonotone(p, m, j);
    }
    assert p[..0] == [];
  }

  /** Masking keeps the weights non-negative and in non-increasing order. */
  lemma TopPSorted(p: seq<real>, topP: real)
    requires NonNegative(p) && NonIncreasing(p)
    ensures NonNegative(TopP(p, topP)) && NonIncreasing(TopP(p, topP))
  {
    TopPIsNucleus(p, topP);
  }

  /** The top-k filter on a non-increasing sequence: the smallest of the `k` largest values is
      the one at position `k - 1`, and every weight strictly below it is zeroed. */
  function TopK(q: seq<real>, k: nat): (r: seq<real>)
    requires NonIncreasing(q) && 1 <= k <= |q|
    ensures |r| == |q|
    ensures forall j :: 0 <= j < k ==> r[j] == q[j]
    ensures forall j :: 0 <= j < |q| && q[j] == q[k - 1] ==> r[j] == q[j]
    ensures forall j :: 0 <= j < |q| ==> r[j] == q[j] || (r[j] == 0.0 && k <= j && q[j] < q[k - 1])
    ensures forall j :: 0 <= j < |q| && q[j] < q[k - 1] ==> r[j] == 0.0
    ensures NonNegative(q) ==> NonNegative(r) && NonIncreasing(r)
  {
    var threshold := q[k - 1];
    seq(|q|, j requires 0 <= j < |q| => if q[j] < threshold then 0.0 else q[j])
  }

  /** The two filters in the order sample_decode applies them: top-p, then top-k when one is given. */
  function Filter(p: seq<real>, topP: real, topK: Option<nat>): (r: seq<real>)
    requires NonNegative(p) && NonIncreasing(p)
    requires topK.Some? ==> 1 <= topK.value <= |p|
    ensures |r| == |p|
    ensures NonNegative(r) && NonIncreasing(r)
  {
    TopPSorted(p, topP);
    var q := TopP(p, topP);
    match topK
    case None => q
    case Some(k) => TopK(q, k)
  }

  /** The largest weight survives both filters when `topP` is not negative, so when it is
      positive the filtered weights have positive mass and the renormalisation is defined. */
  lemma FilterKeepsLargest(p: seq<real>, topP: real, topK: Option<nat>)
    requires NonNegative(p) && NonIncreasing(p)
    requires topK.Some? ==> 1 <= topK.value <= |p|
    requires |p| > 0 && 0.0 <= topP
    ensures Filter(p, topP, topK)[0] == p[0]
    ensures 0.0 < p[0] ==> 0.0 < Sum(Filter(p, topP, topK))
  {
    TopPKeepsIff(p, topP);
    SumAtLeastEach(Filter(p, topP, topK), 0);
  }

  /** With `topP` at least the total mass, top-p zeroes nothing. */
  lemma TopPKeepsAllWhenMassFits(p: seq<real>, topP: real)
    requires NonNegative(p) && Sum(p) <= topP
    ensures TopP(p, topP) == p
  {
    TopPKeepsIff(p, topP);
    forall j | 0 <= j < |p|
      ensures TopP(p, topP)[j] == p[j]
    {
      SumPrefixMonotone(p, j, |p|);
      assert p[..|p|] == p;
    }
  }

  /** With `topP` at least the total mass and `k` equal to the vocabulary size (or no top-k),
      neither filter zeroes anything. */
  lemma PermissiveFilterIsIdentity(p: seq<real>, topP: real, topK: Option<nat>)
    requires NonNegative(p) && NonIncreasing(p)
    requires topK == None || topK == Some(|p|)
    requires |p| > 0 && Sum(p) <= topP
    ensures Filter(p, topP, topK) == p
  {
    TopPKeepsAllWhenMassFits(p, topP);
  }

  /** The top-p mask applied in place (`probs_sort[mask] = 0.0`), with the running sum taken over
      the unmasked weights as `torch.cumsum` computes it before the mask is applied. */
  method MaskTopP(a: array<real>, topP: real)
    modifies a
    ensures a[..] == TopP(old(a[..]), topP)
  {
    ghost var p := a[..];
    var cumsum := 0.0;
    var j := 0;
    while j < a.Length
      invariant 0 <= j <= a.Length
      invariant cumsum == Sum(p[..j])
      invariant forall i :: 0 <= i < j ==> a[i] == TopP(p, topP)[i]
      invariant forall i :: j <= i < a.Length ==> a[i] == p[i]
    {
      var w := a[j];
      SumStep(p, j);
      cumsum := cumsum + w;
      if cumsum - w > topP {
        a[j] := 0.0;
      }
      j := j + 1;
    }
  }
}
