# Brute-force symmetric Nash equilibrium, modelled in Dafny

The Python module `123_test.py` looks for a symmetric mixed Nash equilibrium
of a square payoff matrix `A` by brute force. `brute_force_nash_equilibrium`
tries every support (a non-empty set of strategies). It takes the sizes
`k = 1..n` in increasing order and, within one size, the order of
`itertools.combinations`. For each support it:

1. solves the restricted linear system `A[S, S] x = 1`;
2. keeps `x` only when every entry is strictly positive and `sum(x)` is
   `isclose` to 1;
3. writes `x` into a zero vector of length n at the support positions;
4. returns that vector if `is_valid_mixed_strategy` accepts it.

A singular system (`LinAlgError`) only skips the support. When no support
passes, the function returns `None`.

The model has five modules:

- `Wrappers` holds `Option`.
- `Vectors` holds real vectors and matrices: `A @ v`, `sum`, `max`, numpy's
  `isclose` with its default tolerances (`atol = 1e-8`, `rtol = 1e-5`), the
  sub-matrix `A[np.ix_(S, S)]`, and the scatter into `full_prob`.
- `Enumeration` models `itertools.combinations(range(n), k)` as the recursive,
  lexicographically ordered `Combs`. `Supports(n)` chains the sizes `1..n`.
- `Validator` models `is_valid_mixed_strategy` as its literal loop with an
  early `False`.
- `Equilibrium` holds these members:
  - `Candidate`: one pass of the inner loop body.
  - `SearchList` and `BruteForce`: the first-match search, as functions.
  - `Search` and `SearchSize`: the two nested loops, as methods that provably
    compute `BruteForce`.
  - The exact-arithmetic lemmas.

`Scenarios` works concrete and parametric games through the search.

`np.linalg.solve(M, ones)` is a parameter of the model, of type
`Solver = seq<seq<real>> -> Option<seq<real>>`, where `None` stands for
`LinAlgError`.

- The search itself needs only `ShapeCorrect`: a k x k system yields k values.
- The exact-arithmetic results assume `ExactSolver`. Under it the solver fails
  exactly on systems without a unique solution, and otherwise returns the
  solution.

Two consequences of the code as written are stated and proved:

- The out-of-support test of the validator can never fire. The maximum is
  taken over all n payoffs, so no payoff exceeds it. Validity is exactly
  "every support strategy earns a payoff `isclose` to the maximum"
  (`Validator.ValidIffSupportAtMax`).
- The sum check uses the raw solution of `A[S, S] x = 1`, with no
  normalisation. The search therefore only finds equilibria whose value is
  close to 1:
  - `[[3]]` yields `None` (`Scenarios.SingleStrategyPayingThree`).
  - The matching-pennies payoffs `[[0, 1], [1, 0]]` yield `None`
    (`Scenarios.MatchingPennies`).

The model follows the code, including where it departs from what a reader
might expect. For the coordination game `[[1, 0], [0, 1]]` one might expect
the mixed strategy `[0.5, 0.5]`. The code returns the pure strategy `[1, 0]`,
because the support `(0,)` is tried first and already passes every filter.
`Scenarios.CoordinationGame` proves the code's answer.

## Model

| member | source | states |
|---|---|---|
| `Vectors.IsClose` | 123_test.py:13 | numpy's `isclose` with default tolerances, `abs(a - b) <= 1e-8 + 1e-5 * abs(b)`; no contract of its own, used by `ValidIffSupportAtMax` and `CandidateAccepted` |
| `Vectors.MatVec` | 123_test.py:9 | `A @ prob` has one entry per row of `A`; its entries are described by `DotScatter` |
| `Vectors.Sum` | 123_test.py:32 | Python's `sum`; no contract of its own, described by `SumScatter` |
| `Vectors.Scatter` | 123_test.py:33-35 | `full_prob` has length n; its contents are described by `SelectScatter`, `ScatterOutside` and `SumScatter` |
| `Enumeration.Combs` | 123_test.py:26 | the k-combinations of `[lo, n)`; no contract of its own, described by `CombsMembership`, `CombsSorted` and `CombsCount` |
| `Enumeration.Combinations` | 123_test.py:26 | `itertools.combinations(range(n), k)`; no contract of its own, described through `Combs` |
| `Enumeration.Supports` | 123_test.py:25-26 | every visited tuple is a support over `range(n)`; membership, order and count are described by `SupportsMembership`, `SupportsOrdered` and `SupportsCount` |
| `Validator.ChecksFrom` | 123_test.py:12-18 | the validator's loop with early `False`; no contract of its own, described by `ChecksFromMeaning` |
| `Validator.IsValidMixedStrategy` | 123_test.py:4-18 | `is_valid_mixed_strategy`; no contract of its own, described by `ValidIffSupportAtMax` and `ValidMeansNoProfitableDeviation` |
| `Equilibrium.Candidate` | 123_test.py:28-40 | one pass of the inner loop body; no contract of its own, described by `CandidateAccepted`, and a skipped support never stops the search (`SearchListNone`) |
| `Equilibrium.SearchList` | 123_test.py:25-42 | first-match search over a list of supports; no contract of its own, described by `SearchListNone`, `SearchListFound` and `FirstMatch` |
| `Equilibrium.BruteForce` | 123_test.py:20-42 | `brute_force_nash_equilibrium`; no contract of its own, described by `BruteForceNone`, `BruteForceResult`, `BruteForceFirstMatch` and `Search` |
| `Vectors.Max` | 123_test.py:10 | Python's `max` of the payoff vector is one of its entries and no entry exceeds it |
| `Vectors.SubMatrix` | 123_test.py:28 | `A[np.ix_(S, S)]` is a k x k matrix, for a support S of k entries, whose entry (i, j) is `A[S[i]][S[j]]` |
| `Vectors.SelectScatter` | 123_test.py:33-35 | for a support without repetitions, reading `full_prob` back at the support gives the solution `prob` again |
| `Vectors.ScatterOutside` | 123_test.py:33-35 | every position of `full_prob` that the support does not list keeps the 0 of `np.zeros(n)` |
| `Vectors.SumScatter` | 123_test.py:32-35 | `sum(full_prob)` equals `sum(prob)`: scattering adds no mass |
| `Vectors.DotScatter` | 123_test.py:9 | a row of `A` times `full_prob` equals the row restricted to the support times `prob` |
| `Enumeration.CombsMembership` | 123_test.py:26 | a tuple is listed among the k-combinations of `[lo, n)` exactly when it has k entries, is strictly increasing and lies in `[lo, n)` |
| `Enumeration.CombsSorted` | 123_test.py:26 | the k-combinations come in strictly increasing lexicographic order, as `itertools.combinations` emits them |
| `Enumeration.CombsCount` | 123_test.py:26 | there are `C(n - lo, k)` k-combinations of `[lo, n)` |
| `Enumeration.SupportsMembership` | 123_test.py:25-26 | the search visits a support exactly when it is a non-empty strictly increasing tuple over `range(n)`, so every support of size 1..n is tried |
| `Enumeration.SupportsOrdered` | 123_test.py:25-26 | the supports are visited smaller sizes first, lexicographically within a size, and none twice |
| `Enumeration.SupportsCount` | 123_test.py:25-26 | the search visits exactly 2^n - 1 supports |
| `Validator.ChecksFromMeaning` | 123_test.py:12-18 | the loop returns True exactly when every in-support payoff is `isclose` to the given best and no out-of-support payoff exceeds it |
| `Validator.ValidIffSupportAtMax` | 123_test.py:4-18 | a strategy is valid exactly when every support strategy's payoff is `isclose` to the maximum payoff; the out-of-support test is vacuous |
| `Validator.ValidMeansNoProfitableDeviation` | 123_test.py:9-16 | if valid, no strategy earns more than any support strategy beyond the `isclose` tolerance at the maximum |
| `Equilibrium.CandidateAccepted` | 123_test.py:28-38 | an accepted support's vector is the solver's solution scattered into n entries: length n, zero off the support, equal to the solution and strictly positive on it, sum `isclose` to 1, and accepted by the validator |
| `Equilibrium.SearchListNone` | 123_test.py:25-42 | the search over a list of supports finds nothing exactly when every support in it is skipped |
| `Equilibrium.SearchListFound` | 123_test.py:25-38 | a vector the search returns is the candidate of some support of the list |
| `Equilibrium.FirstMatch` | 123_test.py:25-38 | when support i is the first to yield a candidate, the search returns exactly that candidate |
| `Equilibrium.BruteForceNone` | 123_test.py:20-42 | `brute_force_nash_equilibrium` returns `None` exactly when no support of any size passes every filter; singular systems never stop it |
| `Equilibrium.BruteForceResult` | 123_test.py:32-38 | a returned vector has length n, is zero off some support and strictly positive on it, sums close to 1 and passes the validator for that support |
| `Equilibrium.BruteForceFirstMatch` | 123_test.py:25-38 | the result is the candidate of the earliest support, in enumeration order, that passes every filter |
| `Equilibrium.Search` | 123_test.py:20-42 | the nested loops with early return compute the first-match search over all supports |
| `Equilibrium.SearchSize` | 123_test.py:26-40 | the inner loop over the supports of size k returns the first accepted candidate of that size, or leaves the answer to the larger sizes |
| `Equilibrium.ExactSolveEqualizes` | 123_test.py:28-35 | with exact arithmetic, a solution of `A[S, S] x = 1` gives every support strategy a payoff of exactly 1 against `full_prob` |
| `Equilibrium.BruteForceEqualizes` | 123_test.py:28-38 | with an exact solver, a returned vector has length n, and every strategy it plays with positive probability earns a payoff of exactly 1 against it |
| `Scenarios.SingleStrategy` | 123_test.py:20-42 | for a 1 x 1 game `[[a]]` the result is `[1/a]` when `a > 0` and `1/a` is close to 1, and `None` otherwise |
| `Scenarios.SingleStrategyPayingThree` | 123_test.py:32 | `[[3]]` yields `None`: the solution `1/3` fails the sum check |
| `Scenarios.FirstPureStrategy` | 123_test.py:25-38 | if `A[0][0] = 1` and no row earns more than 1 in column 0, the result is the first pure strategy, whatever the rest of `A` holds |
| `Scenarios.CoordinationGame` | 123_test.py:25-38 | `[[1, 0], [0, 1]]` yields the pure strategy `[1, 0]`, not the mixed `[0.5, 0.5]` |
| `Scenarios.DominantStrategy` | 123_test.py:25-38 | a 3 x 3 game whose first row pays 1 everywhere and the others 0 yields `[1, 0, 0]` |
| `Scenarios.MatchingPennies` | 123_test.py:25-42 | `[[0, 1], [1, 0]]` yields `None`: both pure supports are singular, and the full support solves to `[1, 1]`, which fails the sum check |

## Left out

- Floating point: numbers are exact reals. `isclose` is the exact
  inequality `|a - b| <= 1e-8 + 1e-5 * |b|`. Rounding, NaN and infinities are
  not modelled.
- `np.linalg.solve` is not modelled inside. It is a parameter (`Solver`), and
  `LinAlgError` is its `None`. The exact-arithmetic lemmas assume the solver
  returns the unique exact solution. A floating-point solver that returns an
  approximation or declares a nearly singular matrix singular is outside the
  model.
- Input validation: `A` is assumed square. numpy's shape errors for a
  non-square or ragged `A` are not modelled.
- `Validator.IsValidMixedStrategy` requires a non-empty matrix. Python's
  `max` raises `ValueError` on an empty payoff vector. The search never calls
  the validator when `n = 0`, and `BruteForce` then returns `None`.
- Determinism needs no separate statement: every member is a pure function of
  `A` and the solver.
