/**
 * The barycentric evaluator of src/kzg_tools/barycentric.rs: from the FFT values
 * y_i = p(rou^i) it computes (x^n - 1)·n⁻¹ · Σ_i y_i·rou^i·(x - rou^i)⁻¹, failing
 * where either `invert().unwrap()` would panic.
 */
module Barycentric {
  import opened Wrappers
  import opened Field
  import opened Sums
  import opened Poly
  import opened Roots
  import opened Fourier

  /** x - rou^i is invertible for every domain index i < n (line 18 never panics). */
  predicate OffDomain(rou: Fr, x: Fr, n: nat) {
    forall i {:trigger Invert(Sub(x, Pow(rou, i)))} :: 0 <= i < n ==> Invert(Sub(x, Pow(rou, i))).Some?
  }

  /** The i-th pushed term y_i·rou^i·(x - rou^i)⁻¹, zero where it is undefined. */
  function BaryTermAt(y: seq<Fr>, rou: Fr, x: Fr, i: nat): Fr {
    if i < |y| then
      match Invert(Sub(x, Pow(rou, i)))
      case Some(d) => Mul(Mul(y[i], Pow(rou, i)), d)
      case None => 0
    else 0
  }

  function BaryTerms(y: seq<Fr>, rou: Fr, x: Fr): nat -> Fr {
    (i: nat) => BaryTermAt(y, rou, x, i)
  }

  /** What `barycentric(p, rou, num)` returns, None where it panics. */
  function BarycentricSpec(p: seq<Fr>, rou: Fr, x: Fr): Option<Fr>
    requires |p| >= 1
  {
    var n := |p|;
    if !OffDomain(rou, x, n) then None
    else
      match Invert(FromNat(n))
      case None => None
      case Some(nInv) =>
        Some(Mul(Mul(Sub(Pow(x, n), 1), nInv), Sum(n, BaryTerms(FftSpec(p, rou), rou, x))))
  }

  lemma TermOnSuccess(y: seq<Fr>, rou: Fr, x: Fr, i: nat, d: Fr)
    requires i < |y| && Invert(Sub(x, Pow(rou, i))) == Some(d)
    ensures BaryTermAt(y, rou, x, i) == Mul(Mul(y[i], Pow(rou, i)), d)
  {
  }

  lemma SpecOnSuccess(p: seq<Fr>, rou: Fr, x: Fr, nInv: Fr)
    requires |p| >= 1 && OffDomain(rou, x, |p|) && Invert(FromNat(|p|)) == Some(nInv)
    ensures BarycentricSpec(p, rou, x)
         == Some(Mul(Mul(Sub(Pow(x, |p|), 1), nInv), Sum(|p|, BaryTerms(FftSpec(p, rou), rou, x))))
  {
  }

  /** Lines 14-20: one term y_i·rou^i·(x - rou^i)⁻¹ per FFT output, pushed in
    * index order; fails at the first i whose x - rou^i has no inverse. */
  method CollectTerms(y: seq<Fr>, rou: Fr, num: Fr) returns (r: Option<seq<Fr>>)
    ensures r.Some? <==> OffDomain(rou, num, |y|)
    ensures r.Some? ==> |r.value| == |y|
    ensures r.Some? ==> forall k :: 0 <= k < |y| ==> r.value[k] == BaryTermAt(y, rou, num, k)
  {
    var rightRes: seq<Fr> := [];
    var i := 0;
    while i < |y|
      invariant 0 <= i <= |y|
      invariant |rightRes| == i
      invariant forall k {:trigger Invert(Sub(num, Pow(rou, k)))} :: 0 <= k < i ==> Invert(Sub(num, Pow(rou, k))).Some?
      invariant forall k {:trigger rightRes[k]} :: 0 <= k < i ==> rightRes[k] == BaryTermAt(y, rou, num, k)
    {
      var pow := Pow(rou, i);
      var jMulPow := Mul(y[i], pow);
      var numSubPow := Sub(num, pow);
      var inv := Invert(numSubPow);
      if inv.None? {
        return None;
      }
      TermOnSuccess(y, rou, num, i, inv.value);
      rightRes := rightRes + [Mul(jMulPow, inv.value)];
      i := i + 1;
    }
    return Some(rightRes);
  }

  /** Lines 22-26: the running sum of the pushed terms, starting from zero. */
  method SumTerms(terms: seq<Fr>, y: seq<Fr>, rou: Fr, num: Fr) returns (sumRes: Fr)
    requires forall k :: 0 <= k < |terms| ==> terms[k] == BaryTermAt(y, rou, num, k)
    ensures sumRes == Sum(|terms|, BaryTerms(y, rou, num))
  {
    sumRes := 0;
    for k := 0 to |terms|
      invariant sumRes == Sum(k, BaryTerms(y, rou, num))
    {
      sumRes := Add(sumRes, terms[k]);
    }
  }

  /** Lines 9-33: the FFT, the terms, their sum, then the factor (x^n - 1)·n⁻¹. */
  method Barycentric(p: seq<Fr>, rou: Fr, num: Fr) returns (r: Option<Fr>)
    requires |p| >= 1
    ensures r == BarycentricSpec(p, rou, num)
  {
    var len := |p|;
    var eval := Fft(p, rou);
    var rightRes := CollectTerms(eval, rou, num);
    if rightRes.None? {
      return None;
    }
    var sumRes := SumTerms(rightRes.value, eval, rou, num);
    var powNum := Sub(Pow(num, len), 1);
    var lenInv := Invert(FromNat(len));
    if lenInv.None? {
      return None;
    }
    var leftRes := Mul(powNum, lenInv.value);
    SpecOnSuccess(p, rou, num, lenInv.value);
    r := Some(Mul(leftRes, sumRes));
  }

  // ---------------------------------------------------------------------------
  // When it fails and when it succeeds

  /** Line 18 panics when x is a domain point rou^i. */
  lemma BarycentricFailsOnDomain(p: seq<Fr>, rou: Fr, x: Fr, i: nat)
    requires |p| >= 1 && i < |p| && x == Pow(rou, i)
    ensures BarycentricSpec(p, rou, x) == None
  {
    SubSelf(x);
    ZeroNotInvertible();
  }

  /** Line 30 panics when the length is a multiple of P. */
  lemma BarycentricFailsOnZeroLength(p: seq<Fr>, rou: Fr, x: Fr)
    requires |p| >= 1 && FromNat(|p|) == 0
    ensures BarycentricSpec(p, rou, x) == None
  {
    ZeroNotInvertible();
  }

  /** Over a prime field these are the only two failures. */
  lemma BarycentricSomeIff(p: seq<Fr>, rou: Fr, x: Fr)
    requires |p| >= 1 && IsPrime(P)
    ensures BarycentricSpec(p, rou, x).Some?
        <==> (forall i :: 0 <= i < |p| ==> x != Pow(rou, i)) && FromNat(|p|) != 0
  {
    var n := |p|;
    if forall i :: 0 <= i < n ==> x != Pow(rou, i) {
      forall i | 0 <= i < n
        ensures Invert(Sub(x, Pow(rou, i))).Some?
      {
        SubNonzero(x, Pow(rou, i));
        NonzeroInvertible(Sub(x, Pow(rou, i)));
      }
      if FromNat(n) != 0 {
        NonzeroInvertible(FromNat(n));
      } else {
        BarycentricFailsOnZeroLength(p, rou, x);
      }
    } else {
      var i :| 0 <= i < n && x == Pow(rou, i);
      BarycentricFailsOnDomain(p, rou, x, i);
    }
  }

  /** When x^n == 1 the scaling factor x^n - 1 vanishes (lines 28-31). */
  lemma BarycentricZeroAtRootOfUnity(p: seq<Fr>, rou: Fr, x: Fr)
    requires |p| >= 1 && Pow(x, |p|) == 1
    requires BarycentricSpec(p, rou, x).Some?
    ensures BarycentricSpec(p, rou, x).value == 0
  {
    var nInv := Invert(FromNat(|p|)).value;
    SubSelf(1);
    MulZero(nInv);
    MulZero(Sum(|p|, BaryTerms(FftSpec(p, rou), rou, x)));
  }

  // ---------------------------------------------------------------------------
  // The result is p(x)

  /** x^(n-1-k)·a^k, the k-th term of (x^n - a^n)/(x - a). */
  function GeoAt(x: Fr, a: Fr, n: nat, k: nat): Fr {
    if k < n then Mul(Pow(x, n - 1 - k), Pow(a, k)) else 0
  }

  function Geo(x: Fr, a: Fr, n: nat): nat -> Fr {
    (k: nat) => GeoAt(x, a, n, k)
  }

  /** (x - a)·(x·g + a^m) == x^(m+1) - a^(m+1) given (x - a)·g == x^m - a^m. */
  lemma GeoStep(x: Fr, a: Fr, g: Fr, xm: Fr, am: Fr)
    requires Mul(Sub(x, a), g) == Sub(xm, am)
    ensures Mul(Sub(x, a), Add(Mul(x, g), am)) == Sub(Mul(xm, x), Mul(am, a))
  {
    var d := Sub(x, a);
    Distrib(d, Mul(x, g), am);
    MulAssoc(d, x, g);
    MulComm(d, x);
    MulAssoc(x, d, g);
    DistribSub(x, xm, am);
    DistribSub(am, x, a);
    MulComm(x, am);
    SubChain(Mul(x, xm), Mul(x, am), Mul(a, am));
    MulComm(x, xm);
    MulComm(a, am);
  }

  /** Raising the degree by one multiplies the leading terms by x. */
  lemma GeoShift(x: Fr, a: Fr, m: nat, k: nat)
    requires k < m
    ensures GeoAt(x, a, m + 1, k) == Mul(x, GeoAt(x, a, m, k))
  {
    var e := m - 1 - k;
    assert m + 1 - 1 - k == e + 1;
    MulComm(Pow(x, e), x);
    MulAssoc(x, Pow(x, e), Pow(a, k));
  }

  /** (x - a)·Σ_{k<n} x^(n-1-k)·a^k == x^n - a^n */
  lemma {:induction false} Geometric(x: Fr, a: Fr, n: nat)
    ensures Mul(Sub(x, a), Sum(n, Geo(x, a, n))) == Sub(Pow(x, n), Pow(a, n))
    decreases n
  {
    if n == 0 {
      MulZero(Sub(x, a));
      SubSelf(1);
    } else {
      var m := n - 1;
      Geometric(x, a, m);
      forall k | 0 <= k < m
        ensures Geo(x, a, n)(k) == Mul(x, Geo(x, a, m)(k))
      {
        GeoShift(x, a, m, k);
      }
      SumScale(m, x, Geo(x, a, m), Geo(x, a, n));
      MulOne(Pow(a, m));
      assert GeoAt(x, a, n, m) == Pow(a, m);
      GeoStep(x, a, Sum(m, Geo(x, a, m)), Pow(x, m), Pow(a, m));
    }
  }

  /** (s·g)·(c·d) == c·g when s·d == 1 */
  lemma CancelScale(s: Fr, g: Fr, c: Fr, d: Fr)
    requires Mul(s, d) == 1
    ensures Mul(Mul(s, g), Mul(c, d)) == Mul(c, g)
  {
    MulComm(s, g);
    MulAssoc(g, s, Mul(c, d));
    MulAssoc(s, c, d);
    MulComm(s, c);
    MulAssoc(c, s, d);
    MulOne(c);
    MulComm(g, c);
  }

  /** y_i·rou^i·(x^(n-1-k)·(rou^i)^k), the (i, k) entry after expanding each quotient. */
  function GeoGridAt(y: seq<Fr>, rou: Fr, x: Fr, n: nat, i: nat, k: nat): Fr {
    if i < |y| then Mul(Mul(y[i], Pow(rou, i)), GeoAt(x, Pow(rou, i), n, k)) else 0
  }

  function GeoGrid(y: seq<Fr>, rou: Fr, x: Fr, n: nat): nat -> nat -> Fr {
    (i: nat) => (k: nat) => GeoGridAt(y, rou, x, n, i, k)
  }

  /** (x^n - 1) times term i is row i of the expanded grid. */
  lemma ScaledTermRow(y: seq<Fr>, rou: Fr, x: Fr, n: nat, i: nat)
    requires i < |y| == n && IsPowerOfTwo(n) && HalfTurn(rou, n)
    requires Invert(Sub(x, Pow(rou, i))).Some?
    ensures Mul(Sub(Pow(x, n), 1), BaryTermAt(y, rou, x, i)) == RowSums(n, GeoGrid(y, rou, x, n))(i)
  {
    var w := Pow(rou, i);
    var d := Invert(Sub(x, w)).value;
    var c := Mul(y[i], w);
    var g := Sum(n, Geo(x, w, n));
    RootPowN(rou, n, i);
    Geometric(x, w, n);
    CancelScale(Sub(x, w), g, c, d);
    SumScale(n, c, Geo(x, w, n), GeoGrid(y, rou, x, n)(i));
  }

  /** y_i·rou^(i·m), the summand of the inverse transform at frequency m. */
  function DftTermAt(y: seq<Fr>, rou: Fr, m: nat, i: nat): Fr {
    if i < |y| then Mul(y[i], RootPowAt(rou, m, i)) else 0
  }

  function DftTerm(y: seq<Fr>, rou: Fr, m: nat): nat -> Fr {
    (i: nat) => DftTermAt(y, rou, m, i)
  }

  /** (c·w)·(e·w^k) == e·(c·w^(k+1)) */
  lemma GridEntryRing(c: Fr, w: Fr, e: Fr, wk: Fr, wk1: Fr)
    requires wk1 == Mul(w, wk)
    ensures Mul(Mul(c, w), Mul(e, wk)) == Mul(e, Mul(c, wk1))
  {
    MulAssoc(c, w, Mul(e, wk));
    MulAssoc(w, e, wk);
    MulComm(w, e);
    MulAssoc(e, w, wk);
    MulAssoc(c, e, Mul(w, wk));
    MulComm(c, e);
    MulAssoc(e, c, wk1);
  }

  /** Entry (i, k) is x^(n-1-k) times the inverse-transform summand at k+1. */
  lemma GeoGridEntry(y: seq<Fr>, rou: Fr, x: Fr, n: nat, i: nat, k: nat)
    requires i < |y| && k < n
    ensures GeoGridAt(y, rou, x, n, i, k) == Mul(Pow(x, n - 1 - k), DftTermAt(y, rou, k + 1, i))
  {
    var w := Pow(rou, i);
    PowMul(rou, i, k);
    PowAdd(rou, i, i * k);
    assert i + i * k == i * (k + 1);
    GridEntryRing(y[i], w, Pow(x, n - 1 - k), Pow(w, k), RootPowAt(rou, k + 1, i));
  }

  /** Column k of the grid sums to x^(n-1-k)·Σ_i y_i·rou^(i(k+1)). */
  lemma GeoGridColumn(y: seq<Fr>, rou: Fr, x: Fr, n: nat, k: nat)
    requires |y| == n && k < n
    ensures ColumnSums(n, GeoGrid(y, rou, x, n))(k) == Mul(Pow(x, n - 1 - k), Sum(n, DftTerm(y, rou, k + 1)))
  {
    forall i | 0 <= i < n
      ensures Column(GeoGrid(y, rou, x, n), k)(i) == Mul(Pow(x, n - 1 - k), DftTerm(y, rou, k + 1)(i))
    {
      GeoGridEntry(y, rou, x, n, i, k);
    }
    SumScale(n, Pow(x, n - 1 - k), DftTerm(y, rou, k + 1), Column(GeoGrid(y, rou, x, n), k));
  }

  /** p_j·rou^(i(j+m)), entry (i, j) of the inverse transform written out. */
  function DftGridAt(p: seq<Fr>, rou: Fr, m: nat, i: nat, j: nat): Fr {
    if j < |p| then Mul(p[j], RootPowAt(rou, j + m, i)) else 0
  }

  function DftGrid(p: seq<Fr>, rou: Fr, m: nat): nat -> nat -> Fr {
    (i: nat) => (j: nat) => DftGridAt(p, rou, m, i, j)
  }

  /** (rou^i)^j·rou^(im) == rou^(i(j+m)) */
  lemma DftPowers(rou: Fr, i: nat, j: nat, m: nat)
    ensures Mul(Pow(Pow(rou, i), j), RootPowAt(rou, m, i)) == RootPowAt(rou, j + m, i)
  {
    PowMul(rou, i, j);
    PowAdd(rou, i * j, i * m);
    assert i * j + i * m == i * (j + m);
  }

  /** c·(u·a) == u·(a·c) */
  lemma MulRotate(c: Fr, u: Fr, a: Fr)
    ensures Mul(c, Mul(u, a)) == Mul(u, Mul(a, c))
  {
    MulComm(c, Mul(u, a));
    MulAssoc(u, a, c);
  }

  /** rou^(im)·(p_j·(rou^i)^j) == p_j·rou^(i(j+m)) */
  lemma DftGridEntry(p: seq<Fr>, rou: Fr, m: nat, i: nat, j: nat)
    requires j < |p|
    ensures Mul(RootPowAt(rou, m, i), TermAt(p, Pow(rou, i), j)) == DftGridAt(p, rou, m, i, j)
  {
    DftPowers(rou, i, j, m);
    MulRotate(RootPowAt(rou, m, i), p[j], Pow(Pow(rou, i), j));
  }

  /** y holds p's values at the powers of rou: y_i == p(rou^i). */
  predicate ValuesAt(y: seq<Fr>, p: seq<Fr>, rou: Fr) {
    |y| == |p| && forall i :: 0 <= i < |y| ==> y[i] == Eval(p, Pow(rou, i))
  }

  /** The FFT output is the vector of p's values at the powers of rou. */
  lemma FftValues(p: seq<Fr>, rou: Fr)
    requires |p| >= 1 && IsPowerOfTwo(|p|) && HalfTurn(rou, |p|)
    ensures ValuesAt(FftSpec(p, rou), p, rou)
  {
    forall i | 0 <= i < |p|
      ensures FftSpec(p, rou)[i] == Eval(p, Pow(rou, i))
    {
      FftEvaluates(p, rou, i);
    }
  }

  /** Row i of the written-out grid is y_i·rou^(im) when y_i == p(rou^i). */
  lemma DftGridRow(p: seq<Fr>, y: seq<Fr>, rou: Fr, m: nat, i: nat)
    requires i < |p| && ValuesAt(y, p, rou)
    ensures RowSums(|p|, DftGrid(p, rou, m))(i) == DftTermAt(y, rou, m, i)
  {
    var n := |p|;
    var w := Pow(rou, i);
    assert y[i] == Eval(p, w);
    forall j | 0 <= j < n
      ensures DftGrid(p, rou, m)(i)(j) == Mul(RootPowAt(rou, m, i), Term(p, w)(j))
    {
      DftGridEntry(p, rou, m, i, j);
    }
    SumScale(n, RootPowAt(rou, m, i), Term(p, w), DftGrid(p, rou, m)(i));
    MulComm(RootPowAt(rou, m, i), Eval(p, w));
  }

  /** For 1 <= m <= n, j + m is a multiple of n only at j == n - m. */
  lemma OnlyOneMultiple(n: nat, m: nat, j: nat)
    requires 1 <= m <= n && j < n && j != n - m
    ensures (j + m) % n != 0
  {
    if j + m < n {
      Arith.ModSmall(j + m, n);
    } else {
      Arith.ModUnique(j + m, n, 1, j + m - n);
    }
  }

  /** Column j of the written-out grid: p_j·n at j == n - m, zero elsewhere. */
  lemma DftGridColumn(p: seq<Fr>, rou: Fr, m: nat, j: nat)
    requires j < |p| && 1 <= m <= |p| && IsPowerOfTwo(|p|) && HalfTurn(rou, |p|)
    ensures ColumnSums(|p|, DftGrid(p, rou, m))(j)
         == if j == |p| - m then Mul(p[j], FromNat(|p|)) else 0
  {
    var n := |p|;
    forall i | 0 <= i < n
      ensures Column(DftGrid(p, rou, m), j)(i) == Mul(p[j], RootPows(rou, j + m)(i))
    {
    }
    SumScale(n, p[j], RootPows(rou, j + m), Column(DftGrid(p, rou, m), j));
    if j == n - m {
      FullTurnSum(rou, n);
    } else {
      OnlyOneMultiple(n, m, j);
      Orthogonality(rou, n, j + m);
      MulZero(p[j]);
    }
  }

  /** Inverse transform: Σ_i y_i·rou^(im) == n·p_(n-m) for 1 <= m <= n. */
  lemma InverseDft(p: seq<Fr>, y: seq<Fr>, rou: Fr, m: nat)
    requires 1 <= m <= |p| && IsPowerOfTwo(|p|) && HalfTurn(rou, |p|) && ValuesAt(y, p, rou)
    ensures Sum(|p|, DftTerm(y, rou, m)) == Mul(FromNat(|p|), p[|p| - m])
  {
    var n := |p|;
    var grid := DftGrid(p, rou, m);
    forall i | 0 <= i < n
      ensures DftTerm(y, rou, m)(i) == RowSums(n, grid)(i)
    {
      DftGridRow(p, y, rou, m, i);
    }
    SumExt(n, DftTerm(y, rou, m), RowSums(n, grid));
    SumSwap(n, n, grid);
    forall j | 0 <= j < n && j != n - m
      ensures ColumnSums(n, grid)(j) == 0
    {
      DftGridColumn(p, rou, m, j);
    }
    SumSingle(n, n - m, ColumnSums(n, grid));
    DftGridColumn(p, rou, m, n - m);
    MulComm(p[n - m], FromNat(n));
  }

  /** x^(n-1-k)·(n·p_(n-1-k)), column k after the inverse transform. */
  function ColumnValueAt(p: seq<Fr>, x: Fr, k: nat): Fr {
    if k < |p| then Mul(Pow(x, |p| - 1 - k), Mul(FromNat(|p|), p[|p| - 1 - k])) else 0
  }

  function ColumnValue(p: seq<Fr>, x: Fr): nat -> Fr {
    (k: nat) => ColumnValueAt(p, x, k)
  }

  /** p's terms read from the top coefficient down. */
  function ReversedTermAt(p: seq<Fr>, x: Fr, k: nat): Fr {
    if k < |p| then TermAt(p, x, |p| - 1 - k) else 0
  }

  function ReversedTerm(p: seq<Fr>, x: Fr): nat -> Fr {
    (k: nat) => ReversedTermAt(p, x, k)
  }

  /** Σ_k x^(n-1-k)·(n·p_(n-1-k)) == n·p(x) */
  lemma ColumnTotal(p: seq<Fr>, x: Fr)
    ensures Sum(|p|, ColumnValue(p, x)) == Mul(FromNat(|p|), Eval(p, x))
  {
    var n := |p|;
    var N := FromNat(n);
    forall k | 0 <= k < n
      ensures ColumnValue(p, x)(k) == Mul(N, ReversedTerm(p, x)(k))
    {
      var j := n - 1 - k;
      MulAssoc(Pow(x, j), N, p[j]);
      MulComm(Pow(x, j), N);
      MulAssoc(N, Pow(x, j), p[j]);
      MulComm(Pow(x, j), p[j]);
    }
    SumScale(n, N, ReversedTerm(p, x), ColumnValue(p, x));
    SumReverse(n, Term(p, x), ReversedTerm(p, x));
  }

  /** (x^n - 1)·Σ_i term_i is the total of the expanded grid. */
  lemma ScaledSumAsGrid(y: seq<Fr>, rou: Fr, x: Fr)
    requires IsPowerOfTwo(|y|) && HalfTurn(rou, |y|) && OffDomain(rou, x, |y|)
    ensures Mul(Sub(Pow(x, |y|), 1), Sum(|y|, BaryTerms(y, rou, x)))
         == Sum(|y|, ColumnSums(|y|, GeoGrid(y, rou, x, |y|)))
  {
    var n := |y|;
    var grid := GeoGrid(y, rou, x, n);
    forall i | 0 <= i < n
      ensures RowSums(n, grid)(i) == Mul(Sub(Pow(x, n), 1), BaryTerms(y, rou, x)(i))
    {
      assert Invert(Sub(x, Pow(rou, i))).Some?;
      ScaledTermRow(y, rou, x, n, i);
    }
    SumScale(n, Sub(Pow(x, n), 1), BaryTerms(y, rou, x), RowSums(n, grid));
    SumSwap(n, n, grid);
  }

  /** Column k of the expanded grid, once the inverse transform has recovered
    * n·p[n-1-k] from the values y. */
  lemma GridColumnValue(p: seq<Fr>, y: seq<Fr>, rou: Fr, x: Fr, k: nat)
    requires |y| == |p| && k < |p|
    requires Sum(|p|, DftTerm(y, rou, k + 1)) == Mul(FromNat(|p|), p[|p| - (k + 1)])
    ensures ColumnSums(|p|, GeoGrid(y, rou, x, |p|))(k) == ColumnValue(p, x)(k)
  {
    GeoGridColumn(y, rou, x, |p|, k);
  }

  /** The expanded grid totals n·p(x). */
  lemma GridTotal(p: seq<Fr>, y: seq<Fr>, rou: Fr, x: Fr)
    requires |p| >= 1 && IsPowerOfTwo(|p|) && HalfTurn(rou, |p|) && ValuesAt(y, p, rou)
    ensures Sum(|p|, ColumnSums(|p|, GeoGrid(y, rou, x, |p|))) == Mul(FromNat(|p|), Eval(p, x))
  {
    var n := |p|;
    var grid := GeoGrid(y, rou, x, n);
    forall k | 0 <= k < n
      ensures ColumnSums(n, grid)(k) == ColumnValue(p, x)(k)
    {
      InverseDft(p, y, rou, k + 1);
      GridColumnValue(p, y, rou, x, k);
    }
    SumExt(n, ColumnSums(n, grid), ColumnValue(p, x));
    ColumnTotal(p, x);
  }

  /** Whenever it returns, the barycentric evaluator returns p(x) (lines 9-33). */
  lemma BarycentricEvaluates(p: seq<Fr>, rou: Fr, x: Fr)
    requires |p| >= 1 && IsPowerOfTwo(|p|) && HalfTurn(rou, |p|)
    requires BarycentricSpec(p, rou, x).Some?
    ensures BarycentricSpec(p, rou, x).value == Eval(p, x)
  {
    var n := |p|;
    var nInv := Invert(FromNat(n)).value;
    var y := FftSpec(p, rou);
    var s := Sum(n, BaryTerms(y, rou, x));
    var xn1 := Sub(Pow(x, n), 1);
    FftValues(p, rou);
    ScaledSumAsGrid(y, rou, x);
    GridTotal(p, y, rou, x);
    MulComm(xn1, nInv);
    MulAssoc(nInv, xn1, s);
    MulAssoc(nInv, FromNat(n), Eval(p, x));
    MulComm(nInv, FromNat(n));
    MulOne(Eval(p, x));
  }

  // ---------------------------------------------------------------------------
  // Evaluation at a domain point

  /** x == 1 is always a domain point (rou^0), so the evaluator as written never
    * returns p(1), although p(1) is defined for every p. */
  lemma BarycentricFailsAtOne(p: seq<Fr>, rou: Fr)
    requires |p| >= 1
    ensures BarycentricSpec(p, rou, 1) == None
  {
    BarycentricFailsOnDomain(p, rou, 1, 0);
  }

  /** The first i in [k, n) with rou^i == x, if any. */
  function DomainIndexFrom(rou: Fr, x: Fr, n: nat, k: nat): (r: Option<nat>)
    ensures r.Some? ==> k <= r.value < n && Pow(rou, r.value) == x
    ensures r.None? ==> forall i {:trigger Pow(rou, i)} :: k <= i < n ==> Pow(rou, i) != x
    decreases n - k
  {
    if k >= n then None
    else if Pow(rou, k) == x then Some(k)
    else DomainIndexFrom(rou, x, n, k + 1)
  }

  /** Barycentric evaluation that returns the stored value y_i at a domain point
    * rou^i instead of dividing by zero. */
  function BarycentricCorrected(p: seq<Fr>, rou: Fr, x: Fr): Option<Fr>
    requires |p| >= 1
  {
    match DomainIndexFrom(rou, x, |p|, 0)
    case Some(i) => Some(FftSpec(p, rou)[i])
    case None => BarycentricSpec(p, rou, x)
  }

  /** Over a prime field, with n not a multiple of P, the corrected evaluator
    * returns p(x) for every x, on the domain and off it. */
  lemma BarycentricCorrectedEvaluates(p: seq<Fr>, rou: Fr, x: Fr)
    requires |p| >= 1 && IsPowerOfTwo(|p|) && HalfTurn(rou, |p|)
    requires IsPrime(P) && FromNat(|p|) != 0
    ensures BarycentricCorrected(p, rou, x) == Some(Eval(p, x))
  {
    match DomainIndexFrom(rou, x, |p|, 0)
    case Some(i) =>
      FftEvaluates(p, rou, i);
    case None =>
      BarycentricSomeIff(p, rou, x);
      BarycentricEvaluates(p, rou, x);
  }
}
