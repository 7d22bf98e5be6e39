/** Concrete games worked through the search with an exact solver: one
    strategy, the 2 x 2 coordination game, the 2 x 2 matching-pennies
    payoffs, and a 3 x 3 game with a dominant strategy. */
module Scenarios {
  import opened Wrappers
  import opened Vectors
  import opened Enumeration
  import opened Validator
  import opened Equilibrium

  /** The 1 x 1 system `c z = 1`. */
  lemma SolvesOneByOne(c: real, z: seq<real>)
    ensures SolvesOnes([[c]], z) <==> |z| == 1 && c * z[0] == 1.0
  {
    if |z| == 1 {
      var m := MatVec([[c]], z);
      assert m[0] == Dot([c], z);
      assert Dot([c], z) == c * z[0] by {
        assert [c][..0] == [] && z[..0] == [];
      }
      assert Ones(1) == [1.0];
      if m[0] == 1.0 {
        assert m == [1.0];
      }
    }
  }

  /** The only solution of `c z = 1` is `1 / c`. */
  lemma OneByOneSolution(c: real, z: seq<real>)
    requires SolvesOnes([[c]], z)
    ensures c != 0.0 && z == [1.0 / c]
  {
    SolvesOneByOne(c, z);
    assert c != 0.0;
    calc {
      z[0];
      (c * z[0]) / c;
      1.0 / c;
    }
  }

  /** A non-zero 1 x 1 matrix is invertible. */
  lemma OneByOneUnique(c: real)
    requires c != 0.0
    ensures UniquelySolvable([[c]])
  {
    var y := [1.0 / c];
    SolvesOneByOne(c, y);
    forall z | SolvesOnes([[c]], z)
      ensures z == y
    {
      OneByOneSolution(c, z);
    }
  }

  lemma SumOfOne(x: seq<real>)
    requires |x| == 1
    ensures Sum(x) == x[0]
  {
    assert x[..0] == [];
  }

  lemma SumOfTwo(x: seq<real>)
    requires |x| == 2
    ensures Sum(x) == x[0] + x[1]
  {
    SumOfOne(x[..1]);
  }

  /** `Combs` at the end of the range: no tuple of positive size is left. */
  lemma CombsEmpty(lo: nat, n: nat, k: nat)
    requires k >= 1 && lo >= n
    ensures Combs(lo, n, k) == []
  {
  }

  /** The 1-combinations of `[lo, n)`: the singletons in increasing order. */
  lemma {:induction false} CombsSingletons(lo: nat, n: nat)
    ensures |Combs(lo, n, 1)| == if lo < n then n - lo else 0
    ensures forall i :: 0 <= i < |Combs(lo, n, 1)| ==> Combs(lo, n, 1)[i] == [lo + i]
    decreases n - lo
  {
    if lo < n {
      CombsSingletons(lo + 1, n);
      var L := Combs(lo, n, 1);
      var first := Prepend(lo, Combs(lo + 1, n, 0));
      assert Combs(lo + 1, n, 0) == [[]];
      assert [lo] + [] == [lo];
      assert first == [[lo]];
      assert L == first + Combs(lo + 1, n, 1);
    }
  }

  lemma SupportsOfOne()
    ensures Supports(1) == [[0]]
  {
    CombsSingletons(0, 1);
    assert Combinations(1, 1) == [[0]];
    assert SupportsFrom(1, 2) == [];
  }

  lemma SupportsOfTwo()
    ensures Supports(2) == [[0], [1], [0, 1]]
  {
    CombsSingletons(0, 2);
    assert Combinations(2, 1) == [[0], [1]];
    CombsSingletons(1, 2);
    assert Combs(1, 2, 1) == [[1]];
    CombsEmpty(2, 2, 1);
    CombsEmpty(2, 2, 2);
    assert Combs(1, 2, 2) == [];
    assert [0] + [1] == [0, 1];
    assert Prepend(0, [[1]]) == [[0, 1]];
    assert Combinations(2, 2) == [[0, 1]];
    assert SupportsFrom(2, 3) == [];
    assert SupportsFrom(2, 2) == [[0, 1]];
  }

  /** The first support of any game is the first pure strategy. */
  lemma FirstSupport(n: nat)
    requires n >= 1
    ensures |Supports(n)| >= 1 && Supports(n)[0] == [0]
  {
    CombsSingletons(0, n);
    assert Combinations(n, 1)[0] == [0];
  }

  /** A game with one strategy of payoff `a`: the solver returns `1 / a`,
      which survives the filters only when `a` is positive and `1 / a` is
      close to 1. Any other 1 x 1 game yields no equilibrium. */
  lemma SingleStrategy(a: real, solve: Solver)
    requires ExactSolver(solve)
    ensures ShapeCorrect(solve)
    ensures BruteForce([[a]], solve)
         == if a > 0.0 && IsClose(1.0 / a, 1.0) then Some([1.0 / a]) else None
  {
    ExactIsShapeCorrect(solve);
    var A := [[a]];
    SupportsOfOne();
    assert Select([a], [0]) == [a];
    assert SubMatrix(A, [0]) == A;
    var c := Candidate(A, [0], solve);
    assert BruteForce(A, solve) == c by {
      assert [[0]][1..] == [];
    }
    if solve(A).Some? {
      var x := solve(A).value;
      OneByOneSolution(a, x);
      SumOfOne(x);
      if a > 0.0 {
        assert AllPositive(x);
        var full := Scatter(1, [0], x);
        assert full == x;
        assert MatVec(A, full) == [1.0] by {
          SolvesOneByOne(a, full);
        }
        ValidIffSupportAtMax(A, [0], full);
      } else {
        assert !AllPositive(x);
      }
    } else if a != 0.0 {
      OneByOneUnique(a);
    }
  }

  /** A single strategy paying 3: the solution `1/3` does not sum to 1, so
      the search reports no equilibrium. */
  lemma SingleStrategyPayingThree(solve: Solver)
    requires ExactSolver(solve)
    ensures ShapeCorrect(solve)
    ensures BruteForce([[3.0]], solve) == None
  {
    SingleStrategy(3.0, solve);
  }

  lemma DotOfTwo(a: seq<real>, b: seq<real>)
    requires |a| == |b| == 2
    ensures Dot(a, b) == a[0] * b[0] + a[1] * b[1]
  {
    DotLast(a, b, 1, a[1] * b[1]);
    DotLast(a[..1], b[..1], 0, a[0] * b[0]);
    assert a[..1][..0] == [] && b[..1][..0] == [];
  }

  /** Against the first pure strategy, strategy i earns the first entry of
      its row. */
  lemma PayoffAgainstFirstPure(A: seq<seq<real>>)
    requires IsSquare(A) && |A| >= 1
    ensures forall i :: 0 <= i < |A| ==> MatVec(A, Zeros(|A|)[0 := 1.0])[i] == A[i][0]
  {
    var n := |A|;
    forall i | 0 <= i < n
      ensures MatVec(A, Zeros(n)[0 := 1.0])[i] == A[i][0]
    {
      DotUpdate(A[i], Zeros(n), 0, 1.0);
      DotZeros(A[i]);
    }
  }

  /** The first pure strategy as a length-n vector. */
  function FirstPure(n: nat): (e: seq<real>)
    requires n >= 1
    ensures |e| == n && e[0] == 1.0
    ensures forall j :: 1 <= j < n ==> e[j] == 0.0
  {
    Zeros(n)[0 := 1.0]
  }

  /** An entry of 1 in the corner makes the first 1 x 1 system `[[1]] x = 1`,
      which an exact solver answers with `[1]`. */
  lemma CornerSolution(A: seq<seq<real>>, solve: Solver)
    requires IsSquare(A) && |A| >= 1 && ExactSolver(solve) && A[0][0] == 1.0
    ensures SubMatrix(A, [0]) == [[1.0]]
    ensures solve(SubMatrix(A, [0])) == Some([1.0])
  {
    assert Select(A[0], [0]) == [1.0];
    var sub := SubMatrix(A, [0]);
    assert sub == [[1.0]];
    OneByOneUnique(1.0);
    OneByOneSolution(1.0, solve(sub).value);
  }

  /** Against the first pure strategy no strategy earns more than 1, and
      the first strategy earns exactly 1, so the validator accepts it. */
  lemma FirstPureValid(A: seq<seq<real>>)
    requires IsSquare(A) && |A| >= 1 && A[0][0] == 1.0
    requires forall i :: 0 <= i < |A| ==> A[i][0] <= 1.0
    ensures IsValidMixedStrategy(A, [0], FirstPure(|A|))
  {
    var full := FirstPure(|A|);
    PayoffAgainstFirstPure(A);
    var payoff := MatVec(A, full);
    assert Max(payoff) == 1.0 by {
      assert payoff[0] == 1.0;
    }
    ValidIffSupportAtMax(A, [0], full);
  }

  /** When the first strategy pays exactly 1 against itself and no strategy
      earns more than 1 against it, the very first support `(0,)` already
      passes every filter, so the search returns the first pure strategy
      whatever the rest of the matrix holds. */
  lemma FirstPureStrategy(A: seq<seq<real>>, solve: Solver)
    requires IsSquare(A) && |A| >= 1 && ExactSolver(solve)
    requires A[0][0] == 1.0
    requires forall i :: 0 <= i < |A| ==> A[i][0] <= 1.0
    ensures ShapeCorrect(solve)
    ensures BruteForce(A, solve) == Some(FirstPure(|A|))
  {
    ExactIsShapeCorrect(solve);
    var n := |A|;
    FirstSupport(n);
    CornerSolution(A, solve);
    var x := [1.0];
    SumOfOne(x);
    assert Scatter(n, [0], x) == FirstPure(n) by {
      assert [0][..0] == [] && x[..0] == [];
    }
    FirstPureValid(A);
    assert Candidate(A, Supports(n)[0], solve) == Some(FirstPure(n));
  }

  /** The coordination game `[[1, 0], [0, 1]]`: the search stops at the pure
      strategy `(0,)` and returns `[1, 0]`; the mixed equilibrium
      `[0.5, 0.5]` comes later in the enumeration and is never reached. */
  lemma CoordinationGame(solve: Solver)
    requires ExactSolver(solve)
    ensures ShapeCorrect(solve)
    ensures BruteForce([[1.0, 0.0], [0.0, 1.0]], solve) == Some([1.0, 0.0])
  {
    FirstPureStrategy([[1.0, 0.0], [0.0, 1.0]], solve);
    assert FirstPure(2) == [1.0, 0.0];
  }

  /** A 3 x 3 game whose first strategy pays 1 against everything and whose
      other strategies pay 0: the search returns the dominant pure strategy. */
  lemma DominantStrategy(solve: Solver)
    requires ExactSolver(solve)
    ensures ShapeCorrect(solve)
    ensures BruteForce([[1.0, 1.0, 1.0], [0.0, 0.0, 0.0], [0.0, 0.0, 0.0]], solve) == Some([1.0, 0.0, 0.0])
  {
    FirstPureStrategy([[1.0, 1.0, 1.0], [0.0, 0.0, 0.0], [0.0, 0.0, 0.0]], solve);
    assert FirstPure(3) == [1.0, 0.0, 0.0];
  }

  /** `0 z = 1` has no solution. */
  lemma ZeroHasNoSolution()
    ensures forall z :: !SolvesOnes([[0.0]], z)
  {
    forall z
      ensures !SolvesOnes([[0.0]], z)
    {
      SolvesOneByOne(0.0, z);
    }
  }

  /** An exact solver reports the 1 x 1 zero matrix as singular. */
  lemma ZeroIsSingular(solve: Solver)
    requires ExactSolver(solve)
    ensures solve([[0.0]]).None?
  {
    ZeroHasNoSolution();
    assert IsSquare([[0.0]]);
  }

  /** The full support of the matching-pennies payoffs solves to `[1, 1]`,
      whose sum 2 is not close to 1. */
  lemma PenniesFullSupport(solve: Solver)
    requires ExactSolver(solve)
    ensures ShapeCorrect(solve)
    ensures Candidate([[0.0, 1.0], [1.0, 0.0]], [0, 1], solve).None?
  {
    ExactIsShapeCorrect(solve);
    var B := [[0.0, 1.0], [1.0, 0.0]];
    assert Select(B[0], [0, 1]) == B[0] && Select(B[1], [0, 1]) == B[1];
    assert SubMatrix(B, [0, 1]) == B;
    if solve(B).Some? {
      var x := solve(B).value;
      var m := MatVec(B, x);
      assert m == Ones(2);
      assert m[0] == 1.0 && m[1] == 1.0;
      DotOfTwo(B[0], x);
      DotOfTwo(B[1], x);
      SumOfTwo(x);
      assert Sum(x) == 2.0;
    }
  }

  /** The matching-pennies payoffs `[[0, 1], [1, 0]]`: both pure supports
      have a singular 1 x 1 system, and the full support fails the sum
      check. The search finds nothing. */
  lemma MatchingPennies(solve: Solver)
    requires ExactSolver(solve)
    ensures ShapeCorrect(solve)
    ensures BruteForce([[0.0, 1.0], [1.0, 0.0]], solve) == None
  {
    ExactIsShapeCorrect(solve);
    var B := [[0.0, 1.0], [1.0, 0.0]];
    SupportsOfTwo();
    var S := Supports(2);
    ZeroIsSingular(solve);
    assert Select(B[0], [0]) == [0.0] && Select(B[1], [1]) == [0.0];
    assert SubMatrix(B, [0]) == [[0.0]];
    assert SubMatrix(B, [1]) == [[0.0]];
    PenniesFullSupport(solve);
    assert Candidate(B, S[0], solve).None?;
    assert Candidate(B, S[1], solve).None?;
    SearchListNone(B, S, solve);
  }
}
