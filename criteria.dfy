/** The scoring formulas of the selectors, over exact reals. */
module Criteria {

  /** Number of free parameters of an `n`-state HMM with diagonal Gaussian emissions over `d` features. */
  function FreeParameters(n: int, d: nat): int {
    n * n + 2 * n * d - 1
  }

  /** Bayesian Information Criterion `-2 * logL + p * logN`; lower is better. */
  function BicScore(logL: real, p: int, logN: real): real {
    -2.0 * logL + p as real * logN
  }

  /** The parameter count splits into the free transition probabilities (n rows of n entries
      summing to one), the free initial probabilities (n entries summing to one), and a mean
      and a variance per state and feature. */
  lemma FreeParametersByKind(n: int, d: nat)
    ensures FreeParameters(n, d) == n * (n - 1) + (n - 1) + n * d + n * d
  {
  }

  /** More states always mean strictly more free parameters, for any number of features. */
  lemma {:induction false} FreeParametersGrow(n: nat, m: nat, d: nat)
    requires n < m
    ensures FreeParameters(n, d) < FreeParameters(m, d)
    decreases m - n
  {
    if n + 1 < m {
      FreeParametersGrow(n + 1, m, d);
    }
    assert FreeParameters(n + 1, d) - FreeParameters(n, d) == 2 * n + 1 + 2 * d;
  }

  /** With equal fit and more than one frame (`logN > 0`), a model with more states has a
      strictly higher, hence worse, BIC: the penalty suppresses needless states. */
  lemma BicPenalizesStates(logL: real, n: nat, m: nat, d: nat, logN: real)
    requires n < m && logN > 0.0
    ensures BicScore(logL, FreeParameters(n, d), logN) < BicScore(logL, FreeParameters(m, d), logN)
  {
    FreeParametersGrow(n, m, d);
    var pn, pm := FreeParameters(n, d) as real, FreeParameters(m, d) as real;
    assert (pm - pn) * logN > 0.0;
    assert pm * logN - pn * logN == (pm - pn) * logN;
  }

  /** BIC prefers the first candidate exactly when its log-likelihood gain pays for its
      extra parameters: `2 * (logL1 - logL2) > (p1 - p2) * logN`. */
  lemma BicLikelihoodRatio(logL1: real, p1: int, logL2: real, p2: int, logN: real)
    ensures BicScore(logL1, p1, logN) < BicScore(logL2, p2, logN)
            <==> 2.0 * (logL1 - logL2) > (p1 - p2) as real * logN
  {
    assert (p1 - p2) as real * logN == p1 as real * logN - p2 as real * logN;
  }

  function Sum(xs: seq<real>): real {
    if xs == [] then 0.0 else Sum(xs[..|xs| - 1]) + xs[|xs| - 1]
  }

  /** Arithmetic mean (`np.mean`, `np.average`) of a non-empty list; numpy's NaN for an empty
      list is modelled by the callers. */
  function Mean(xs: seq<real>): real
    requires |xs| > 0
  {
    Sum(xs) / |xs| as real
  }

  lemma {:induction false} SumBetween(xs: seq<real>, lo: real, hi: real)
    requires forall i :: 0 <= i < |xs| ==> lo <= xs[i] <= hi
    ensures |xs| as real * lo <= Sum(xs) <= |xs| as real * hi
  {
    if xs != [] {
      SumBetween(xs[..|xs| - 1], lo, hi);
    }
  }

  /** The mean lies between any lower and upper bound of the values: the averaged held-out
      score of a candidate is never better than its best fold nor worse than its worst. */
  lemma MeanBetween(xs: seq<real>, lo: real, hi: real)
    requires |xs| > 0
    requires forall i :: 0 <= i < |xs| ==> lo <= xs[i] <= hi
    ensures lo <= Mean(xs) <= hi
  {
    SumBetween(xs, lo, hi);
    var c := |xs| as real;
    assert Mean(xs) * c == Sum(xs);
  }

  /** Discriminative Information Criterion: own log-likelihood minus the mean log-likelihood
      the same model gives every other word; higher is better. */
  function DicScore(own: real, others: seq<real>): real
    requires |others| > 0
  {
    own - Mean(others)
  }

  /** The log-likelihood ratios of the own data against each other word's data. */
  function Margins(own: real, others: seq<real>): (r: seq<real>)
  {
    seq(|others|, i requires 0 <= i < |others| => own - others[i])
  }

  lemma {:induction false} SumOfMargins(own: real, others: seq<real>)
    ensures Sum(Margins(own, others)) == |others| as real * own - Sum(others)
  {
    if others != [] {
      var init := others[..|others| - 1];
      SumOfMargins(own, init);
      assert Margins(own, others)[..|others| - 1] == Margins(own, init);
    }
  }

  /** DIC is the average margin by which the model prefers its own word over each other word. */
  lemma DicIsMeanMargin(own: real, others: seq<real>)
    requires |others| > 0
    ensures DicScore(own, others) == Mean(Margins(own, others))
  {
    SumOfMargins(own, others);
    var c := |others| as real;
    assert (c * own - Sum(others)) / c == own - Sum(others) / c;
  }

  /** Number of cross-validation folds: three, or fewer when the word has fewer examples. */
  function FoldCount(examples: nat): (k: nat)
    ensures k <= 3 && k <= examples
    ensures k == 3 || k == examples
  {
    if examples < 3 then examples else 3
  }
}
