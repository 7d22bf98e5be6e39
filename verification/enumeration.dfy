/** The support enumeration of the search: `itertools.combinations(range(n), k)`
    for k = 1, ..., n. `Combs` produces the k-element tuples of an index range in
    lexicographic order, and `Supports` strings the sizes together in
    increasing order. */
module Enumeration {

  /** Strictly increasing: the shape of every tuple `itertools.combinations`
      draws from `range(n)`. */
  predicate Increasing(s: seq<nat>) {
    forall i, j :: 0 <= i < j < |s| ==> s[i] < s[j]
  }

  /** Every entry lies in `[lo, n)`. */
  predicate Within(s: seq<nat>, lo: nat, n: nat) {
    forall t :: 0 <= t < |s| ==> lo <= s[t] < n
  }

  /** `c` is one of the k-combinations of `[lo, n)`. */
  predicate IsComb(c: seq<nat>, lo: nat, n: nat, k: nat) {
    |c| == k && Increasing(c) && Within(c, lo, n)
  }

  /** A support the search can try: a non-empty increasing tuple over `[0, n)`. */
  predicate IsSupport(s: seq<nat>, n: nat) {
    |s| >= 1 && Increasing(s) && Within(s, 0, n)
  }

  predicate AllSupports(L: seq<seq<nat>>, n: nat) {
    forall i :: 0 <= i < |L| ==> IsSupport(L[i], n)
  }

  /** Lexicographic order on tuples of equal length, as Python compares tuples. */
  predicate LexLess(a: seq<nat>, b: seq<nat>)
    decreases |a|
  {
    |a| > 0 && |b| > 0 && (a[0] < b[0] || (a[0] == b[0] && LexLess(a[1..], b[1..])))
  }

  predicate LexSorted(L: seq<seq<nat>>) {
    forall i, j :: 0 <= i < j < |L| ==> LexLess(L[i], L[j])
  }

  /** The enumeration order of the search: smaller supports first, and
      supports of one size in lexicographic order. */
  predicate Before(a: seq<nat>, b: seq<nat>) {
    |a| < |b| || (|a| == |b| && LexLess(a, b))
  }

  predicate Ordered(L: seq<seq<nat>>) {
    forall i, j :: 0 <= i < j < |L| ==> Before(L[i], L[j])
  }

  function Prepend(x: nat, L: seq<seq<nat>>): (r: seq<seq<nat>>)
    ensures |r| == |L|
    ensures forall i :: 0 <= i < |L| ==> r[i] == [x] + L[i]
  {
    seq(|L|, i requires 0 <= i < |L| => [x] + L[i])
  }

  /** The k-combinations of `[lo, n)` in lexicographic order: first those
      that take `lo`, then those that do not. */
  function Combs(lo: nat, n: nat, k: nat): seq<seq<nat>>
    decreases n - lo, k
  {
    if k == 0 then [[]]
    else if lo >= n then []
    else Prepend(lo, Combs(lo + 1, n, k - 1)) + Combs(lo + 1, n, k)
  }

  /** `itertools.combinations(range(n), k)`. */
  function Combinations(n: nat, k: nat): seq<seq<nat>> {
    Combs(0, n, k)
  }

  /** The supports of size k, k + 1, ..., n, in the order the search visits them. */
  function SupportsFrom(n: nat, k: nat): seq<seq<nat>>
    decreases n + 1 - k
  {
    if k > n then [] else Combinations(n, k) + SupportsFrom(n, k + 1)
  }

  /** Every support the search visits, in visiting order (`for k in range(1, n + 1)`). */
  function Supports(n: nat): (r: seq<seq<nat>>)
    ensures AllSupports(r, n)
  {
    SupportsFromValid(n, 1);
    SupportsFrom(n, 1)
  }

  function Binomial(m: nat, k: nat): nat
    decreases m
  {
    if k == 0 then 1
    else if m == 0 then 0
    else Binomial(m - 1, k - 1) + Binomial(m - 1, k)
  }

  function Pow2(m: nat): nat {
    if m == 0 then 1 else 2 * Pow2(m - 1)
  }

  /** `sum(Binomial(m, k) for k in range(K + 1))`. */
  function BinomialSum(m: nat, K: nat): nat {
    Binomial(m, K) + (if K == 0 then 0 else BinomialSum(m, K - 1))
  }

  // ----- shape and completeness -----

  /** A tuple appears among the k-combinations of `[lo, n)` exactly when it
      is increasing, has k entries, and draws them from `[lo, n)`. */
  lemma CombsMembership(lo: nat, n: nat, k: nat, c: seq<nat>)
    ensures c in Combs(lo, n, k) <==> IsComb(c, lo, n, k)
  {
    if c in Combs(lo, n, k) {
      CombsSound(lo, n, k, c);
    }
    if IsComb(c, lo, n, k) {
      CombsComplete(lo, n, k, c);
    }
  }

  /** Everything `Combs` lists is a k-combination of `[lo, n)`. */
  lemma {:induction false} CombsSound(lo: nat, n: nat, k: nat, c: seq<nat>)
    requires c in Combs(lo, n, k)
    ensures IsComb(c, lo, n, k)
    decreases n - lo, k
  {
    if k > 0 {
      var withLo := Prepend(lo, Combs(lo + 1, n, k - 1));
      if c in withLo {
        var i :| 0 <= i < |withLo| && withLo[i] == c;
        var tail := Combs(lo + 1, n, k - 1)[i];
        CombsSound(lo + 1, n, k - 1, tail);
        ConsComb(lo, n, k, tail);
        assert c == [lo] + tail;
      } else {
        CombsSound(lo + 1, n, k, c);
        assert Within(c, lo, n);
      }
    }
  }

  /** A (k - 1)-combination of `[lo + 1, n)` with `lo` in front is a
      k-combination of `[lo, n)`. */
  lemma ConsComb(lo: nat, n: nat, k: nat, tail: seq<nat>)
    requires k >= 1 && lo < n && IsComb(tail, lo + 1, n, k - 1)
    ensures IsComb([lo] + tail, lo, n, k)
  {
    var c := [lo] + tail;
    forall i, j | 0 <= i < j < |c|
      ensures c[i] < c[j]
    {
      assert c[j] == tail[j - 1];
      if i > 0 {
        assert c[i] == tail[i - 1];
      }
    }
  }

  /** Every k-combination of `[lo, n)` is listed by `Combs`. */
  lemma {:induction false} CombsComplete(lo: nat, n: nat, k: nat, c: seq<nat>)
    requires IsComb(c, lo, n, k)
    ensures c in Combs(lo, n, k)
    decreases n - lo, k
  {
    if k > 0 {
      assert lo <= c[0] < n;
      if c[0] == lo {
        var tail := c[1..];
        TailComb(lo, n, k, c);
        CombsComplete(lo + 1, n, k - 1, tail);
        var L := Combs(lo + 1, n, k - 1);
        var i :| 0 <= i < |L| && L[i] == tail;
        assert Prepend(lo, L)[i] == c;
      } else {
        NarrowComb(lo, n, k, c);
        CombsComplete(lo + 1, n, k, c);
      }
    }
  }

  /** A k-combination of `[lo, n)` that starts at `lo` continues with a
      (k - 1)-combination of `[lo + 1, n)`. */
  lemma TailComb(lo: nat, n: nat, k: nat, c: seq<nat>)
    requires k >= 1 && IsComb(c, lo, n, k) && c[0] == lo
    ensures IsComb(c[1..], lo + 1, n, k - 1)
  {
    var tail := c[1..];
    forall t | 0 <= t < |tail|
      ensures lo + 1 <= tail[t] < n
    {
      assert tail[t] == c[t + 1] && c[0] < c[t + 1];
    }
  }

  /** A k-combination of `[lo, n)` that skips `lo` is one of `[lo + 1, n)`. */
  lemma NarrowComb(lo: nat, n: nat, k: nat, c: seq<nat>)
    requires k >= 1 && IsComb(c, lo, n, k) && c[0] != lo
    ensures IsComb(c, lo + 1, n, k)
  {
    forall t | 0 <= t < |c|
      ensures lo + 1 <= c[t]
    {
      if t > 0 {
        assert c[0] < c[t];
      }
    }
  }

  /** Every support the search visits is a non-empty increasing tuple over
      `[0, n)` (hence without repetitions and in range), and every such tuple
      is visited. */
  lemma SupportsMembership(n: nat, s: seq<nat>)
    ensures s in Supports(n) <==> IsSupport(s, n)
  {
    SupportsFromMembership(n, 1, s);
  }

  lemma {:induction false} SupportsFromMembership(n: nat, k: nat, s: seq<nat>)
    requires k >= 1
    ensures s in SupportsFrom(n, k) <==> |s| >= k && IsSupport(s, n)
    decreases n + 1 - k
  {
    if k <= n {
      var here := Combinations(n, k);
      var later := SupportsFrom(n, k + 1);
      assert SupportsFrom(n, k) == here + later;
      assert s in here + later <==> s in here || s in later;
      CombsMembership(0, n, k, s);
      SupportsFromMembership(n, k + 1, s);
      assert IsComb(s, 0, n, k) <==> |s| == k && IsSupport(s, n);
    } else if IsSupport(s, n) {
      SupportLength(n, s);
    }
  }

  /** A support over `[0, n)` has at most n entries: there is no
      combination of more than n of them. */
  lemma SupportLength(n: nat, s: seq<nat>)
    requires IsSupport(s, n)
    ensures |s| <= n
  {
    CombsComplete(0, n, |s|, s);
    CombsCount(0, n, |s|);
    if |s| > n {
      BinomialAbove(n, |s|);
    }
  }

  /** Every entry of the enumeration from size k on is a support over `[0, n)`. */
  lemma SupportsFromValid(n: nat, k: nat)
    requires k >= 1
    ensures AllSupports(SupportsFrom(n, k), n)
  {
    var L := SupportsFrom(n, k);
    forall i | 0 <= i < |L|
      ensures IsSupport(L[i], n)
    {
      SupportsFromMembership(n, k, L[i]);
    }
  }

  // ----- order -----

  lemma {:induction false} LexLessIrreflexive(a: seq<nat>)
    ensures !LexLess(a, a)
    decreases |a|
  {
    if |a| > 0 {
      LexLessIrreflexive(a[1..]);
    }
  }

  lemma PrependSorted(x: nat, L: seq<seq<nat>>)
    requires LexSorted(L)
    ensures LexSorted(Prepend(x, L))
  {
    var P := Prepend(x, L);
    forall i, j | 0 <= i < j < |P|
      ensures LexLess(P[i], P[j])
    {
      assert P[i][1..] == L[i] && P[j][1..] == L[j];
    }
  }

  /** Within one size, `itertools.combinations` yields its tuples in strictly
      increasing lexicographic order. */
  lemma {:induction false} CombsSorted(lo: nat, n: nat, k: nat)
    ensures LexSorted(Combs(lo, n, k))
    decreases n - lo, k
  {
    if k > 0 && lo < n {
      var inner := Combs(lo + 1, n, k - 1);
      var withLo := Prepend(lo, inner);
      var withoutLo := Combs(lo + 1, n, k);
      CombsSorted(lo + 1, n, k - 1);
      CombsSorted(lo + 1, n, k);
      PrependSorted(lo, inner);
      forall i, j | 0 <= i < |withLo| && 0 <= j < |withoutLo|
        ensures LexLess(withLo[i], withoutLo[j])
      {
        CombsMembership(lo + 1, n, k, withoutLo[j]);
        assert withLo[i][0] == lo;
      }
    }
  }

  /** The search visits supports in increasing size and, within a size, in
      lexicographic order; in particular it never visits a support twice. */
  lemma SupportsOrdered(n: nat)
    ensures Ordered(Supports(n))
    ensures forall i, j :: 0 <= i < j < |Supports(n)| ==> Supports(n)[i] != Supports(n)[j]
  {
    SupportsFromOrdered(n, 1);
    var S := Supports(n);
    forall i, j | 0 <= i < j < |S|
      ensures S[i] != S[j]
    {
      LexLessIrreflexive(S[i]);
    }
  }

  lemma {:induction false} SupportsFromOrdered(n: nat, k: nat)
    requires k >= 1
    ensures Ordered(SupportsFrom(n, k))
    decreases n + 1 - k
  {
    if k <= n {
      var here := Combinations(n, k);
      var later := SupportsFrom(n, k + 1);
      SupportsFromOrdered(n, k + 1);
      CombsSorted(0, n, k);
      forall i | 0 <= i < |here|
        ensures |here[i]| == k
      {
        CombsMembership(0, n, k, here[i]);
      }
      forall j | 0 <= j < |later|
        ensures |later[j]| > k
      {
        SupportsFromMembership(n, k + 1, later[j]);
      }
    }
  }

  // ----- counting -----

  lemma {:induction false} BinomialAbove(m: nat, k: nat)
    requires k > m
    ensures Binomial(m, k) == 0
    decreases m
  {
    if m > 0 {
      BinomialAbove(m - 1, k - 1);
      BinomialAbove(m - 1, k);
    }
  }

  /** There are `Binomial(n - lo, k)` k-combinations of `[lo, n)`. */
  lemma {:induction false} CombsCount(lo: nat, n: nat, k: nat)
    requires lo <= n
    ensures |Combs(lo, n, k)| == Binomial(n - lo, k)
    decreases n - lo, k
  {
    if k > 0 && lo < n {
      CombsCount(lo + 1, n, k - 1);
      CombsCount(lo + 1, n, k);
    }
  }

  /** Pascal's rule summed over a row prefix. */
  lemma {:induction false} BinomialSumStep(m: nat, K: nat)
    requires K >= 1
    ensures BinomialSum(m + 1, K) == BinomialSum(m, K - 1) + BinomialSum(m, K)
    decreases K
  {
    if K > 1 {
      BinomialSumStep(m, K - 1);
    }
  }

  /** A full row of Pascal's triangle sums to `2^m`. */
  lemma {:induction false} BinomialRow(m: nat)
    ensures BinomialSum(m, m) == Pow2(m)
    decreases m
  {
    if m > 0 {
      BinomialRow(m - 1);
      BinomialSumStep(m - 1, m);
      BinomialAbove(m - 1, m);
    }
  }

  lemma {:induction false} SupportsFromCount(n: nat, k: nat)
    requires 1 <= k <= n + 1
    ensures |SupportsFrom(n, k)| + BinomialSum(n, k - 1) == BinomialSum(n, n)
    decreases n + 1 - k
  {
    if k <= n {
      CombsCount(0, n, k);
      SupportsFromCount(n, k + 1);
    }
  }

  /** The search tries at most `2^n - 1` supports, one per non-empty subset
      of the strategies, so it terminates. */
  lemma SupportsCount(n: nat)
    ensures |Supports(n)| == Pow2(n) - 1
  {
    SupportsFromCount(n, 1);
    BinomialRow(n);
  }
}
