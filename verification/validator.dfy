/** `is_valid_mixed_strategy(A, support, prob)`: computes the payoff vector
    `A @ prob`, takes its maximum over all n strategies, and checks every
    strategy in turn against that maximum. */
module Validator {
  import opened Vectors

  /** The loop over `range(n)` from index `i` on. A strategy in the support
      must earn a payoff `isclose` to the maximum; a strategy outside it must
      not earn strictly more than the maximum. The first violation makes the
      answer false. */
  predicate ChecksFrom(payoff: seq<real>, best: real, support: seq<nat>, i: nat)
    requires i <= |payoff|
    decreases |payoff| - i
  {
    if i == |payoff| then true
    else if i in support && !IsClose(payoff[i], best) then false
    else if i !in support && payoff[i] > best then false
    else ChecksFrom(payoff, best, support, i + 1)
  }

  /** `is_valid_mixed_strategy`. Python's `max` of an empty payoff vector
      raises, so the matrix has at least one row; `A @ prob` needs every row
      to be as long as `prob`. */
  predicate IsValidMixedStrategy(A: seq<seq<real>>, support: seq<nat>, prob: seq<real>)
    requires |A| >= 1 && HasColumns(A, |prob|)
  {
    var payoff := MatVec(A, prob);
    ChecksFrom(payoff, Max(payoff), support, 0)
  }

  /** The loop accepts exactly when every in-support payoff from `i` on is
      close to `best` and no out-of-support payoff from `i` on exceeds it. */
  lemma {:induction false} ChecksFromMeaning(payoff: seq<real>, best: real, support: seq<nat>, i: nat)
    requires i <= |payoff|
    ensures ChecksFrom(payoff, best, support, i) <==>
              (forall j :: i <= j < |payoff| && j in support ==> IsClose(payoff[j], best))
              && (forall j :: i <= j < |payoff| && j !in support ==> payoff[j] <= best)
    decreases |payoff| - i
  {
    if i < |payoff| {
      ChecksFromMeaning(payoff, best, support, i + 1);
    }
  }

  /** Because the maximum is taken over all n payoffs, the out-of-support
      test never fails: the strategy is valid exactly when every strategy of
      the support (that is a row of `A`) earns a payoff `isclose` to the
      maximum payoff. */
  lemma ValidIffSupportAtMax(A: seq<seq<real>>, support: seq<nat>, prob: seq<real>)
    requires |A| >= 1 && HasColumns(A, |prob|)
    ensures IsValidMixedStrategy(A, support, prob) <==>
              forall i :: 0 <= i < |A| && i in support ==>
                IsClose(MatVec(A, prob)[i], Max(MatVec(A, prob)))
  {
    var payoff := MatVec(A, prob);
    ChecksFromMeaning(payoff, Max(payoff), support, 0);
  }

  /** What validity means for the game: no strategy outside the support earns
      more than a strategy inside it, up to the tolerance of `isclose` taken
      at the maximum payoff. */
  lemma ValidMeansNoProfitableDeviation(A: seq<seq<real>>, support: seq<nat>, prob: seq<real>)
    requires |A| >= 1 && HasColumns(A, |prob|)
    requires IsValidMixedStrategy(A, support, prob)
    ensures forall i, j :: 0 <= i < |A| && 0 <= j < |A| && j in support ==>
              MatVec(A, prob)[i] <= MatVec(A, prob)[j] + AbsTol + RelTol * Abs(Max(MatVec(A, prob)))
  {
    var payoff := MatVec(A, prob);
    ValidIffSupportAtMax(A, support, prob);
    forall i, j | 0 <= i < |A| && 0 <= j < |A| && j in support
      ensures payoff[i] <= payoff[j] + AbsTol + RelTol * Abs(Max(payoff))
    {
      assert IsClose(payoff[j], Max(payoff));
    }
  }
}
