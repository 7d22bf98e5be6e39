/** Real vectors and square matrices, as the search uses them: the payoff
    product `A @ prob`, `sum`, `max`, numpy's `isclose`, the sub-matrix
    `A[np.ix_(support, support)]` and the scatter of a solution into a
    full-length vector. Floating point is replaced by exact reals. */
module Vectors {

  /** Default absolute and relative tolerances of `np.isclose`. */
  const AbsTol: real := 0.00000001
  const RelTol: real := 0.00001

  function Abs(x: real): real {
    if x < 0.0 then -x else x
  }

  /** `np.isclose(a, b)`: `|a - b| <= atol + rtol * |b|`. The tolerance is
      scaled by the second argument only, so the relation is not symmetric. */
  predicate IsClose(a: real, b: real) {
    Abs(a - b) <= AbsTol + RelTol * Abs(b)
  }

  function Zeros(n: nat): seq<real> {
    seq(n, _ => 0.0)
  }

  function Ones(n: nat): seq<real> {
    seq(n, _ => 1.0)
  }

  /** Every index of `s` lies in `[0, n)`. */
  predicate InRange(s: seq<nat>, n: nat) {
    forall t :: 0 <= t < |s| ==> s[t] < n
  }

  /** No index of `s` occurs twice. */
  predicate Distinct(s: seq<nat>) {
    forall i, j :: 0 <= i < j < |s| ==> s[i] != s[j]
  }

  predicate IsSquare(A: seq<seq<real>>) {
    forall i :: 0 <= i < |A| ==> |A[i]| == |A|
  }

  /** Every row of `A` has `cols` entries, so `A @ v` is defined for `|v| == cols`. */
  predicate HasColumns(A: seq<seq<real>>, cols: nat) {
    forall i :: 0 <= i < |A| ==> |A[i]| == cols
  }

  /** Python's `sum`, accumulated left to right. */
  function Sum(v: seq<real>): real
    decreases |v|
  {
    if |v| == 0 then 0.0 else Sum(v[..|v| - 1]) + v[|v| - 1]
  }

  function Dot(a: seq<real>, b: seq<real>): real
    requires |a| == |b|
    decreases |a|
  {
    if |a| == 0 then 0.0 else Dot(a[..|a| - 1], b[..|b| - 1]) + a[|a| - 1] * b[|b| - 1]
  }

  /** The matrix-vector product `A @ v`. */
  function MatVec(A: seq<seq<real>>, v: seq<real>): (r: seq<real>)
    requires HasColumns(A, |v|)
    ensures |r| == |A|
  {
    seq(|A|, i requires 0 <= i < |A| => Dot(A[i], v))
  }

  /** Python's `max` over a non-empty vector: a member of the vector that no
      member exceeds. */
  function Max(s: seq<real>): (m: real)
    requires |s| > 0
    ensures m in s
    ensures forall i :: 0 <= i < |s| ==> s[i] <= m
    decreases |s|
  {
    if |s| == 1 then s[0]
    else
      var rest := Max(s[1..]);
      if s[0] >= rest then s[0] else rest
  }

  /** The entries of `v` at the positions listed in `s`, in that order. */
  function Select(v: seq<real>, s: seq<nat>): (r: seq<real>)
    requires InRange(s, |v|)
    ensures |r| == |s|
  {
    seq(|s|, t requires 0 <= t < |s| => v[s[t]])
  }

  /** `A[np.ix_(s, s)]`: the rows and the columns of `A` listed in `s`. */
  function SubMatrix(A: seq<seq<real>>, s: seq<nat>): (r: seq<seq<real>>)
    requires IsSquare(A)
    requires InRange(s, |A|)
    ensures |r| == |s| && IsSquare(r)
    ensures forall i, j :: 0 <= i < |s| && 0 <= j < |s| ==> r[i][j] == A[s[i]][s[j]]
  {
    seq(|s|, i requires 0 <= i < |s| => Select(A[s[i]], s))
  }

  /** The scatter into `full_prob`: a zero vector of length n, written at
      `support[i]` with `x[i]` for each i in order, a later write to the same
      position winning. What the result holds is stated by `ScatterOutside`
      and `SelectScatter`. */
  function Scatter(n: nat, support: seq<nat>, x: seq<real>): (r: seq<real>)
    requires |x| == |support|
    requires InRange(support, n)
    ensures |r| == n
    decreases |support|
  {
    if |support| == 0 then Zeros(n)
    else
      var m := |support| - 1;
      Scatter(n, support[..m], x[..m])[support[m] := x[m]]
  }

  /** Positions the support does not list keep the zero of `np.zeros(n)`. */
  lemma {:induction false} ScatterOutside(n: nat, support: seq<nat>, x: seq<real>, j: nat)
    requires |x| == |support| && InRange(support, n)
    requires j < n && j !in support
    ensures Scatter(n, support, x)[j] == 0.0
    decreases |support|
  {
    if |support| > 0 {
      var m := |support| - 1;
      assert j !in support[..m];
      ScatterOutside(n, support[..m], x[..m], j);
    }
  }

  /** The round trip: for a support without repetitions, reading the
      scattered vector back at the support gives `x` again. */
  lemma {:induction false} SelectScatter(n: nat, support: seq<nat>, x: seq<real>)
    requires |x| == |support| && InRange(support, n) && Distinct(support)
    ensures Select(Scatter(n, support, x), support) == x
    decreases |support|
  {
    if |support| > 0 {
      var m := |support| - 1;
      var prev := Scatter(n, support[..m], x[..m]);
      var r := Scatter(n, support, x);
      assert r == prev[support[m] := x[m]];
      SelectScatter(n, support[..m], x[..m]);
      forall t | 0 <= t < |support|
        ensures r[support[t]] == x[t]
      {
        if t < m {
          assert support[..m][t] == support[t] && support[t] != support[m];
          assert Select(prev, support[..m])[t] == x[..m][t];
        }
      }
    }
  }

  /** The last write of the scatter lands on a position the earlier writes
      left at zero. */
  lemma ScatterLast(n: nat, support: seq<nat>, x: seq<real>, m: nat)
    requires |x| == |support| == m + 1 && InRange(support, n) && support[m] !in support[..m]
    ensures Scatter(n, support, x) == Scatter(n, support[..m], x[..m])[support[m] := x[m]]
    ensures Scatter(n, support[..m], x[..m])[support[m]] == 0.0
  {
    ScatterOutside(n, support[..m], x[..m], support[m]);
  }

  lemma {:induction false} DotUpdate(a: seq<real>, w: seq<real>, s: nat, v: real)
    requires |a| == |w| && s < |w|
    ensures Dot(a, w[s := v]) == Dot(a, w) + a[s] * (v - w[s])
    decreases |a|
  {
    var m := |a| - 1;
    if s == m {
      assert w[s := v][..m] == w[..m];
    } else {
      assert w[s := v][..m] == w[..m][s := v];
      DotUpdate(a[..m], w[..m], s, v);
    }
  }

  lemma {:induction false} SumUpdate(w: seq<real>, s: nat, v: real)
    requires s < |w|
    ensures Sum(w[s := v]) == Sum(w) + (v - w[s])
    decreases |w|
  {
    var m := |w| - 1;
    if s == m {
      assert w[s := v][..m] == w[..m];
    } else {
      assert w[s := v][..m] == w[..m][s := v];
      SumUpdate(w[..m], s, v);
    }
  }

  lemma DotUpdateZero(a: seq<real>, w: seq<real>, w': seq<real>, s: nat, v: real, c: real)
    requires |a| == |w| && s < |w| && w[s] == 0.0 && w' == w[s := v] && c == a[s] * v
    ensures Dot(a, w') == Dot(a, w) + c
  {
    DotUpdate(a, w, s, v);
  }

  lemma DotLast(a: seq<real>, b: seq<real>, m: nat, c: real)
    requires |a| == |b| == m + 1 && c == a[m] * b[m]
    ensures Dot(a, b) == Dot(a[..m], b[..m]) + c
  {
  }

  lemma {:induction false} DotZeros(a: seq<real>)
    ensures Dot(a, Zeros(|a|)) == 0.0
    decreases |a|
  {
    if |a| > 0 {
      assert Zeros(|a|)[..|a| - 1] == Zeros(|a| - 1);
      DotZeros(a[..|a| - 1]);
    }
  }

  lemma {:induction false} SumZeros(n: nat)
    ensures Sum(Zeros(n)) == 0.0
    decreases n
  {
    if n > 0 {
      assert Zeros(n)[..n - 1] == Zeros(n - 1);
      SumZeros(n - 1);
    }
  }

  /** Scattering adds no mass: the zeros outside the support do not change
      the sum, so `sum(full)` equals `sum(x)`. */
  lemma {:induction false} SumScatter(n: nat, support: seq<nat>, x: seq<real>)
    requires |x| == |support| && InRange(support, n) && Distinct(support)
    ensures Sum(Scatter(n, support, x)) == Sum(x)
    decreases |support|
  {
    if |support| == 0 {
      SumZeros(n);
    } else {
      var m := |support| - 1;
      var prev := Scatter(n, support[..m], x[..m]);
      assert support[m] !in support[..m];
      ScatterLast(n, support, x, m);
      SumScatter(n, support[..m], x[..m]);
      SumUpdate(prev, support[m], x[m]);
      assert x[..m] == x[..|x| - 1];
    }
  }

  /** A row times the scattered vector only sees the support: it equals the
      row restricted to the support times the short vector. */
  lemma {:induction false} DotScatter(row: seq<real>, support: seq<nat>, x: seq<real>)
    requires |x| == |support| && InRange(support, |row|) && Distinct(support)
    ensures Dot(row, Scatter(|row|, support, x)) == Dot(Select(row, support), x)
    decreases |support|
  {
    if |support| == 0 {
      DotZeros(row);
    } else {
      var m := |support| - 1;
      assert support[m] !in support[..m];
      DotScatter(row, support[..m], x[..m]);
      var prev := Scatter(|row|, support[..m], x[..m]);
      var full := Scatter(|row|, support, x);
      ScatterLast(|row|, support, x, m);
      var s, v := support[m], x[m];
      var c := row[s] * v;
      DotUpdateZero(row, prev, full, s, v, c);
      var sel := Select(row, support);
      assert sel[..m] == Select(row, support[..m]);
      assert sel[m] == row[s];
      DotLast(sel, x, m, c);
    }
  }


}
