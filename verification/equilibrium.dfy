/** `brute_force_nash_equilibrium(A)`: for every support in enumeration
    order, solve the restricted system `A[S, S] x = 1`, keep `x` only when it
    is strictly positive and sums to (approximately) one, scatter it into a
    length-n vector, and return the first such vector the validator accepts. */
module Equilibrium {
  import opened Wrappers
  import opened Vectors
  import opened Enumeration
  import opened Validator

  /** `np.linalg.solve(M, np.ones(len(M)))` as an oracle: a solution vector,
      or `None` where numpy raises `LinAlgError`. */
  type Solver = seq<seq<real>> -> Option<seq<real>>

  /** `x` solves `M x = 1` for the square matrix `M`. */
  predicate SolvesOnes(M: seq<seq<real>>, x: seq<real>) {
    IsSquare(M) && |x| == |M| && MatVec(M, x) == Ones(|M|)
  }

  /** `M x = 1` has exactly one solution (for a square matrix: `M` is invertible). */
  ghost predicate UniquelySolvable(M: seq<seq<real>>) {
    exists y :: SolvesOnes(M, y) && forall z :: SolvesOnes(M, z) ==> z == y
  }

  /** All the search needs of the solver: a k x k system yields k values. */
  ghost predicate ShapeCorrect(solve: Solver) {
    forall M :: IsSquare(M) && solve(M).Some? ==> |solve(M).value| == |M|
  }

  /** The solver over exact reals: it fails exactly on the systems without a
      unique solution, and otherwise returns that solution. */
  ghost predicate ExactSolver(solve: Solver) {
    forall M :: IsSquare(M) ==>
      && (solve(M).Some? <==> UniquelySolvable(M))
      && (solve(M).Some? ==> SolvesOnes(M, solve(M).value))
  }

  predicate AllPositive(x: seq<real>) {
    forall t :: 0 <= t < |x| ==> x[t] > 0.0
  }

  /** What a vector returned for `support` satisfies: it is a length-n
      distribution that is zero off the support, strictly positive on it,
      sums to (approximately) one, and passes the validator. */
  predicate AcceptedFor(A: seq<seq<real>>, support: seq<nat>, p: seq<real>)
    requires IsSquare(A) && IsSupport(support, |A|)
  {
    && |p| == |A|
    && (forall j :: 0 <= j < |A| && j !in support ==> p[j] == 0.0)
    && (forall t :: 0 <= t < |support| ==> p[support[t]] > 0.0)
    && (forall j :: 0 <= j < |A| ==> p[j] >= 0.0)
    && IsClose(Sum(p), 1.0)
    && IsValidMixedStrategy(A, support, p)
  }

  lemma SupportIndices(support: seq<nat>, n: nat)
    requires IsSupport(support, n)
    ensures InRange(support, n) && Distinct(support) && n >= 1
  {
    assert support[0] < n;
  }

  /** The scatter of a strictly positive solution that sums to about one is
      a distribution over the n strategies carried by the support. */
  lemma ScatterOfSolution(n: nat, support: seq<nat>, x: seq<real>)
    requires IsSupport(support, n) && |x| == |support|
    requires AllPositive(x) && IsClose(Sum(x), 1.0)
    ensures var p := Scatter(n, support, x);
      && Select(p, support) == x
      && (forall j :: 0 <= j < n && j !in support ==> p[j] == 0.0)
      && (forall t :: 0 <= t < |support| ==> p[support[t]] > 0.0)
      && (forall j :: 0 <= j < n ==> p[j] >= 0.0)
      && IsClose(Sum(p), 1.0)
  {
    SupportIndices(support, n);
    var p := Scatter(n, support, x);
    SelectScatter(n, support, x);
    SumScatter(n, support, x);
    forall j | 0 <= j < n
      ensures (j !in support ==> p[j] == 0.0) && p[j] >= 0.0
    {
      if j in support {
        var t :| 0 <= t < |support| && support[t] == j;
        assert Select(p, support)[t] == x[t];
      } else {
        ScatterOutside(n, support, x, j);
      }
    }
    forall t | 0 <= t < |support|
      ensures p[support[t]] > 0.0
    {
      assert Select(p, support)[t] == x[t];
    }
  }

  /** One pass of the inner loop: restrict `A` to the support, solve, filter
      the solution, scatter it and validate it. `CandidateAccepted` and
      `CandidateRejected` state what it returns. */
  function Candidate(A: seq<seq<real>>, support: seq<nat>, solve: Solver): Option<seq<real>>
    requires IsSquare(A) && IsSupport(support, |A|) && ShapeCorrect(solve)
  {
    SupportIndices(support, |A|);
    var sub := SubMatrix(A, support);
    match solve(sub)
    case None => None
    case Some(x) =>
      if AllPositive(x) && IsClose(Sum(x), 1.0) then
        var full := Scatter(|A|, support, x);
        if IsValidMixedStrategy(A, support, full) then Some(full) else None
      else None
  }

  /** An accepted candidate is the solution of the restricted system
      scattered into n positions: reading it back at the support gives the
      solution, and it satisfies everything `AcceptedFor` lists. */
  lemma CandidateAccepted(A: seq<seq<real>>, support: seq<nat>, solve: Solver)
    requires IsSquare(A) && IsSupport(support, |A|) && ShapeCorrect(solve)
    ensures Candidate(A, support, solve).Some? ==>
              && solve(SubMatrix(A, support)).Some?
              && var x := solve(SubMatrix(A, support)).value;
                 var p := Candidate(A, support, solve).value;
                 && p == Scatter(|A|, support, x)
                 && Select(p, support) == x
                 && AcceptedFor(A, support, p)
  {
    if Candidate(A, support, solve).Some? {
      var x := solve(SubMatrix(A, support)).value;
      ScatterOfSolution(|A|, support, x);
    }
  }

  /** A support is skipped exactly when the solver reports a singular
      sub-matrix, or the solution has an entry that is not strictly
      positive, or its sum is not close to 1, or the validator rejects the
      scattered vector. */
  lemma CandidateRejected(A: seq<seq<real>>, support: seq<nat>, solve: Solver)
    requires IsSquare(A) && IsSupport(support, |A|) && ShapeCorrect(solve)
    ensures Candidate(A, support, solve).None? <==>
              || solve(SubMatrix(A, support)).None?
              || var x := solve(SubMatrix(A, support)).value;
                 || (exists t :: 0 <= t < |x| && x[t] <= 0.0)
                 || !IsClose(Sum(x), 1.0)
                 || !IsValidMixedStrategy(A, support, Scatter(|A|, support, x))
  {
  }

  /** The candidate of the first support in `supports` that yields one.
      `SearchListNone`, `SearchListFound` and `FirstMatch` state what it
      returns. */
  function SearchList(A: seq<seq<real>>, supports: seq<seq<nat>>, solve: Solver): Option<seq<real>>
    requires IsSquare(A) && ShapeCorrect(solve) && AllSupports(supports, |A|)
    decreases |supports|
  {
    if |supports| == 0 then None
    else
      match Candidate(A, supports[0], solve)
      case Some(p) => Some(p)
      case None => SearchList(A, supports[1..], solve)
  }

  /** The search finds nothing exactly when no support yields a candidate:
      a rejected or singular support never stops it. */
  lemma {:induction false} SearchListNone(A: seq<seq<real>>, supports: seq<seq<nat>>, solve: Solver)
    requires IsSquare(A) && ShapeCorrect(solve) && AllSupports(supports, |A|)
    ensures SearchList(A, supports, solve).None? <==>
              forall i :: 0 <= i < |supports| ==> Candidate(A, supports[i], solve).None?
    decreases |supports|
  {
    if |supports| > 0 {
      SearchListNone(A, supports[1..], solve);
      assert forall i :: 1 <= i < |supports| ==> supports[i] == supports[1..][i - 1];
    }
  }

  /** What the search returns is the candidate of one of the supports. */
  lemma {:induction false} SearchListFound(A: seq<seq<real>>, supports: seq<seq<nat>>, solve: Solver)
    requires IsSquare(A) && ShapeCorrect(solve) && AllSupports(supports, |A|)
    ensures SearchList(A, supports, solve).Some? ==>
              exists i :: 0 <= i < |supports| && Candidate(A, supports[i], solve) == SearchList(A, supports, solve)
    decreases |supports|
  {
    if |supports| > 0 && Candidate(A, supports[0], solve).None? {
      SearchListFound(A, supports[1..], solve);
      if SearchList(A, supports, solve).Some? {
        var i :| 0 <= i < |supports| - 1 && Candidate(A, supports[1..][i], solve) == SearchList(A, supports, solve);
        assert supports[1..][i] == supports[i + 1];
      }
    }
  }

  /** First match: when support `i` is the first that yields a candidate,
      the search returns exactly that candidate. */
  lemma {:induction false} FirstMatch(A: seq<seq<real>>, supports: seq<seq<nat>>, solve: Solver, i: nat)
    requires IsSquare(A) && ShapeCorrect(solve) && AllSupports(supports, |A|)
    requires i < |supports| && Candidate(A, supports[i], solve).Some?
    requires forall j :: 0 <= j < i ==> Candidate(A, supports[j], solve).None?
    ensures SearchList(A, supports, solve) == Candidate(A, supports[i], solve)
    decreases i
  {
    if i > 0 {
      assert Candidate(A, supports[0], solve).None?;
      assert forall j :: 0 <= j < i - 1 ==> supports[1..][j] == supports[j + 1];
      FirstMatch(A, supports[1..], solve, i - 1);
    }
  }

  /** `brute_force_nash_equilibrium(A)` with the solver as a parameter. The
      lemmas below state what it returns. */
  function BruteForce(A: seq<seq<real>>, solve: Solver): Option<seq<real>>
    requires IsSquare(A) && ShapeCorrect(solve)
  {
    SearchList(A, Supports(|A|), solve)
  }

  /** "No equilibrium found" exactly when no support, of any size, passes
      every filter. */
  lemma BruteForceNone(A: seq<seq<real>>, solve: Solver)
    requires IsSquare(A) && ShapeCorrect(solve)
    ensures BruteForce(A, solve).None? <==>
              forall i :: 0 <= i < |Supports(|A|)| ==> Candidate(A, Supports(|A|)[i], solve).None?
  {
    SearchListNone(A, Supports(|A|), solve);
  }

  /** A returned vector is a length-n distribution, zero off some support
      and strictly positive on it, whose sum is close to 1 and which the
      validator accepts for that support. */
  lemma BruteForceResult(A: seq<seq<real>>, solve: Solver)
    requires IsSquare(A) && ShapeCorrect(solve)
    ensures BruteForce(A, solve).Some? ==>
              exists s :: IsSupport(s, |A|) && AcceptedFor(A, s, BruteForce(A, solve).value)
  {
    var S := Supports(|A|);
    SearchListFound(A, S, solve);
    if BruteForce(A, solve).Some? {
      var i :| 0 <= i < |S| && Candidate(A, S[i], solve) == BruteForce(A, solve);
      CandidateAccepted(A, S[i], solve);
    }
  }

  /** The search restricted to the supports of size k and larger. */
  function SearchFrom(A: seq<seq<real>>, k: nat, solve: Solver): Option<seq<real>>
    requires IsSquare(A) && ShapeCorrect(solve) && k >= 1
  {
    SupportsFromValid(|A|, k);
    SearchList(A, SupportsFrom(|A|, k), solve)
  }

  /** The loops of `brute_force_nash_equilibrium` as written: support sizes
      `k = 1..n` in increasing order, and an early return of the first
      accepted candidate. It computes what `BruteForce` specifies. */
  method Search(A: seq<seq<real>>, solve: Solver) returns (r: Option<seq<real>>)
    requires IsSquare(A) && ShapeCorrect(solve)
    ensures r == BruteForce(A, solve)
  {
    var n := |A|;
    var k := 1;
    while k <= n
      invariant 1 <= k <= n + 1
      invariant SearchFrom(A, k, solve) == BruteForce(A, solve)
    {
      r := SearchSize(A, k, solve);
      if r.Some? {
        return;
      }
      k := k + 1;
    }
    return None;
  }

  /** The inner loop over `itertools.combinations(range(n), k)`: it returns
      the first accepted candidate among the supports of size k, or `None`
      when the search has to go on with the larger supports. */
  method SearchSize(A: seq<seq<real>>, k: nat, solve: Solver) returns (r: Option<seq<real>>)
    requires IsSquare(A) && ShapeCorrect(solve) && 1 <= k <= |A|
    ensures r.Some? ==> r == SearchFrom(A, k, solve)
    ensures r.None? ==> SearchFrom(A, k, solve) == SearchFrom(A, k + 1, solve)
  {
    var n := |A|;
    var combos := Combinations(n, k);
    var rest := SupportsFrom(n, k + 1);
    SupportsFromValid(n, k);
    SupportsFromValid(n, k + 1);
    assert SupportsFrom(n, k) == combos + rest;
    assert combos[0..] + rest == combos + rest;
    var i := 0;
    while i < |combos|
      invariant 0 <= i <= |combos|
      invariant AllSupports(combos[i..] + rest, n)
      invariant SearchList(A, combos[i..] + rest, solve) == SearchFrom(A, k, solve)
    {
      var candidate := Candidate(A, combos[i], solve);
      SearchListStep(A, combos, i, rest, solve);
      if candidate.Some? {
        return candidate;
      }
      i := i + 1;
    }
    assert combos[i..] + rest == rest;
    return None;
  }

  /** One step of the inner loop: the search over the remaining supports
      either returns the candidate of the next one or moves past it. */
  lemma SearchListStep(A: seq<seq<real>>, combos: seq<seq<nat>>, i: nat, rest: seq<seq<nat>>, solve: Solver)
    requires IsSquare(A) && ShapeCorrect(solve)
    requires i < |combos| && AllSupports(combos[i..] + rest, |A|)
    ensures IsSupport(combos[i], |A|) && AllSupports(combos[i + 1..] + rest, |A|)
    ensures SearchList(A, combos[i..] + rest, solve)
         == if Candidate(A, combos[i], solve).Some? then Candidate(A, combos[i], solve)
            else SearchList(A, combos[i + 1..] + rest, solve)
  {
    var remaining := combos[i..] + rest;
    assert remaining[0] == combos[i];
    assert remaining[1..] == combos[i + 1..] + rest;
  }

  /** Determinism and first match at the top level: the result is the
      candidate of the earliest support, in enumeration order, that passes
      every filter. */
  lemma BruteForceFirstMatch(A: seq<seq<real>>, solve: Solver, i: nat)
    requires IsSquare(A) && ShapeCorrect(solve)
    requires i < |Supports(|A|)|
    requires Candidate(A, Supports(|A|)[i], solve).Some?
    requires forall j :: 0 <= j < i ==> Candidate(A, Supports(|A|)[j], solve).None?
    ensures BruteForce(A, solve) == Candidate(A, Supports(|A|)[i], solve)
  {
    FirstMatch(A, Supports(|A|), solve, i);
  }

  lemma ExactIsShapeCorrect(solve: Solver)
    requires ExactSolver(solve)
    ensures ShapeCorrect(solve)
  {
  }

  /** With exact arithmetic, a solution of the restricted system gives every
      strategy of the support a payoff of exactly 1 against the scattered
      vector: the in-support payoffs are all equal. */
  lemma ExactSolveEqualizes(A: seq<seq<real>>, support: seq<nat>, x: seq<real>)
    requires IsSquare(A) && IsSupport(support, |A|)
    requires SolvesOnes(SubMatrix(A, support), x)
    ensures forall t :: 0 <= t < |support| ==> MatVec(A, Scatter(|A|, support, x))[support[t]] == 1.0
  {
    SupportIndices(support, |A|);
    var sub := SubMatrix(A, support);
    var p := Scatter(|A|, support, x);
    forall t | 0 <= t < |support|
      ensures MatVec(A, p)[support[t]] == 1.0
    {
      var row := A[support[t]];
      DotScatter(row, support, x);
      assert Select(row, support) == sub[t];
      assert MatVec(sub, x)[t] == Dot(sub[t], x);
      assert Ones(|sub|)[t] == 1.0;
    }
  }

  /** With an exact solver, every strategy the returned vector plays with
      positive probability earns a payoff of exactly 1 against it. */
  lemma BruteForceEqualizes(A: seq<seq<real>>, solve: Solver)
    requires IsSquare(A) && ExactSolver(solve)
    ensures ShapeCorrect(solve)
    ensures BruteForce(A, solve).Some? ==>
              var p := BruteForce(A, solve).value;
              |p| == |A| && forall j :: 0 <= j < |A| && p[j] > 0.0 ==> MatVec(A, p)[j] == 1.0
  {
    ExactIsShapeCorrect(solve);
    var r := BruteForce(A, solve);
    SearchListFound(A, Supports(|A|), solve);
    if r.Some? {
      var S := Supports(|A|);
      var i :| 0 <= i < |S| && Candidate(A, S[i], solve) == r;
      var s := S[i];
      var x := solve(SubMatrix(A, s)).value;
      CandidateAccepted(A, s, solve);
      ExactSolveEqualizes(A, s, x);
      var p := r.value;
      forall j | 0 <= j < |A| && p[j] > 0.0
        ensures MatVec(A, p)[j] == 1.0
      {
        assert j in s;
        var t :| 0 <= t < |s| && s[t] == j;
      }
    }
  }
}
