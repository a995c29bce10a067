/**
 * Dense polynomials over Fr: coefficient i is the coefficient of X^i. The field
 * version of `Polynomial::eval` and `mul_poly` are used by the provers but their
 * code is not part of this model; they are defined here by their mathematical
 * meaning, evaluation as Σ c_i·x^i (the same running sum as the u32 evaluator
 * in src/kzg_tools/polynomial.rs) and multiplication as discrete convolution.
 */
module Poly {
  import opened Field
  import opened Sums

  /** c_j·x^j, and zero past the last coefficient. */
  function TermAt(p: seq<Fr>, x: Fr, j: nat): Fr {
    if j < |p| then Mul(p[j], Pow(x, j)) else 0
  }

  /** The terms of p(x) as a function of the index. */
  function Term(p: seq<Fr>, x: Fr): nat -> Fr {
    (j: nat) => TermAt(p, x, j)
  }

  /** p(x) = Σ_j p[j]·x^j. */
  function Eval(p: seq<Fr>, x: Fr): Fr {
    Sum(|p|, Term(p, x))
  }

  /** The coefficient of X^j, zero outside the stored range. */
  function CoeffAt(p: seq<Fr>, j: int): Fr {
    if 0 <= j < |p| then p[j] else 0
  }

  /** Horner's step: p(x) == p[0] + x·(p[1..])(x). */
  lemma EvalHorner(p: seq<Fr>, x: Fr)
    requires |p| >= 1
    ensures Eval(p, x) == Add(p[0], Mul(x, Eval(p[1..], x)))
  {
    var n := |p|;
    var tail := (i: nat) => TermAt(p, x, 1 + i);
    SumSplit(1, n - 1, Term(p, x), tail);
    forall i | 0 <= i < n - 1
      ensures tail(i) == Mul(x, Term(p[1..], x)(i))
    {
      calc {
        tail(i);
        Mul(p[1 + i], Pow(x, 1 + i));
        { PowAdd(x, i, 1); MulOne(x); MulComm(Pow(x, i), x); }
        Mul(p[1 + i], Mul(x, Pow(x, i)));
        { MulAssoc(p[1 + i], x, Pow(x, i)); MulComm(p[1 + i], x); MulAssoc(x, p[1 + i], Pow(x, i)); }
        Mul(x, Mul(p[1 + i], Pow(x, i)));
      }
    }
    SumScale(n - 1, x, Term(p[1..], x), tail);
    MulOne(p[0]);
    AddZero(p[0]);
  }

  lemma EvalSingleton(c: Fr, x: Fr)
    ensures Eval([c], x) == c
  {
    MulOne(c);
    AddZero(c);
  }

  /** Changing only the constant term by -y lowers every value by y. */
  lemma EvalSubConstant(p: seq<Fr>, q: seq<Fr>, y: Fr, x: Fr)
    requires |p| >= 1 && |q| == |p|
    requires q[0] == Sub(p[0], y) && q[1..] == p[1..]
    ensures Eval(q, x) == Sub(Eval(p, x), y)
  {
    EvalHorner(p, x);
    EvalHorner(q, x);
    var t := Mul(x, Eval(p[1..], x));
    calc {
      Add(Sub(p[0], y), t);
      { SubIsAddNeg(p[0], y); }
      Add(Add(p[0], Neg(y)), t);
      { AddAssoc(p[0], Neg(y), t); AddComm(Neg(y), t); AddAssoc(p[0], t, Neg(y)); }
      Add(Add(p[0], t), Neg(y));
      { SubIsAddNeg(Add(p[0], t), y); }
      Sub(Add(p[0], t), y);
    }
  }

  // ---------------------------------------------------------------------------
  // Multiplication (`mul_poly`) as discrete convolution

  /** Coefficient k of a·b: Σ_i a[i]·b[k-i]. */
  function ConvTerm(a: seq<Fr>, b: seq<Fr>, k: nat): nat -> Fr {
    (i: nat) => if i < |a| then Mul(a[i], CoeffAt(b, k - i)) else 0
  }

  function MulPoly(a: seq<Fr>, b: seq<Fr>): (r: seq<Fr>)
    ensures |a| >= 1 && |b| >= 1 ==> |r| == |a| + |b| - 1
    ensures |a| == 0 || |b| == 0 ==> r == []
  {
    if |a| == 0 || |b| == 0 then []
    else seq(|a| + |b| - 1, k requires 0 <= k => Sum(|a|, ConvTerm(a, b, k)))
  }

  /** Multiplying by the monic linear factor X + c shifts and scales. */
  lemma MulLinearCoeff(c: Fr, b: seq<Fr>, k: nat)
    requires |b| >= 1 && k <= |b|
    ensures MulPoly([c, 1], b)[k] == Add(Mul(c, CoeffAt(b, k)), CoeffAt(b, k - 1))
  {
    var f := ConvTerm([c, 1], b, k);
    assert f(0) == Mul(c, CoeffAt(b, k));
    assert f(1) == Mul(1, CoeffAt(b, k - 1));
    assert Sum(2, f) == Add(Add(0, f(0)), f(1));
    MulOne(CoeffAt(b, k - 1));
    AddZero(f(0));
  }

  /** The terms of c·b. */
  function ScaledTerm(c: Fr, b: seq<Fr>, x: Fr): nat -> Fr {
    (k: nat) => Mul(c, TermAt(b, x, k))
  }

  /** The terms of X·b: x·b[k-1]·x^(k-1). */
  function ShiftedTerm(b: seq<Fr>, x: Fr): nat -> Fr {
    (k: nat) => Mul(x, if k == 0 then 0 else TermAt(b, x, k - 1))
  }

  /** (c·u + v)·w == c·(u·w) + v·w */
  lemma RingLinearTerm(c: Fr, u: Fr, v: Fr, w: Fr)
    ensures Mul(Add(Mul(c, u), v), w) == Add(Mul(c, Mul(u, w)), Mul(v, w))
  {
    Distrib(w, Mul(c, u), v);
    MulAssoc(c, u, w);
  }

  /** v·x^k == x·(v·x^(k-1)) */
  lemma ShiftPow(v: Fr, x: Fr, k: nat)
    requires k >= 1
    ensures Mul(v, Pow(x, k)) == Mul(x, Mul(v, Pow(x, k - 1)))
  {
    var xk1 := Pow(x, k - 1);
    assert Pow(x, k) == Mul(xk1, x);
    MulComm(xk1, x);
    MulAssoc(v, x, xk1);
    MulComm(v, x);
    MulAssoc(x, v, xk1);
  }

  lemma ShiftedTermAt(b: seq<Fr>, x: Fr, k: nat)
    requires k <= |b|
    ensures ShiftedTerm(b, x)(k) == Mul(CoeffAt(b, k - 1), Pow(x, k))
  {
    if k == 0 {
      MulZero(x);
      MulZero(Pow(x, k));
    } else {
      ShiftPow(CoeffAt(b, k - 1), x, k);
    }
  }

  lemma ScaledTermAt(c: Fr, b: seq<Fr>, x: Fr, k: nat)
    requires k <= |b|
    ensures ScaledTerm(c, b, x)(k) == Mul(c, Mul(CoeffAt(b, k), Pow(x, k)))
  {
    if k == |b| {
      MulZero(Pow(x, k));
    }
  }

  lemma MulLinearTerm(c: Fr, b: seq<Fr>, x: Fr, k: nat)
    requires |b| >= 1 && k <= |b|
    ensures Term(MulPoly([c, 1], b), x)(k) == Add(ScaledTerm(c, b, x)(k), ShiftedTerm(b, x)(k))
  {
    MulLinearCoeff(c, b, k);
    RingLinearTerm(c, CoeffAt(b, k), CoeffAt(b, k - 1), Pow(x, k));
    ShiftedTermAt(b, x, k);
    ScaledTermAt(c, b, x, k);
  }

  /** Σ_{k<=m} c·b[k]·x^k == c·b(x) */
  lemma SumScaledTerms(c: Fr, b: seq<Fr>, x: Fr)
    ensures Sum(|b| + 1, ScaledTerm(c, b, x)) == Mul(c, Eval(b, x))
  {
    SumScale(|b| + 1, c, Term(b, x), ScaledTerm(c, b, x));
    MulZero(Pow(x, |b|));
    AddZero(Eval(b, x));
  }

  /** Σ_{k<=m} x·b[k-1]·x^(k-1) == x·b(x) */
  lemma SumShiftedTerms(b: seq<Fr>, x: Fr)
    ensures Sum(|b| + 1, ShiftedTerm(b, x)) == Mul(x, Eval(b, x))
  {
    var hi := ShiftedTerm(b, x);
    var hiTail := (k: nat) => hi(1 + k);
    SumSplit(1, |b|, hi, hiTail);
    SumScale(|b|, x, Term(b, x), hiTail);
    MulZero(x);
    AddZero(0);
    AddZero(Mul(x, Eval(b, x)));
  }

  /** (X + c)·b evaluates to (x + c)·b(x). */
  lemma EvalMulLinear(c: Fr, b: seq<Fr>, x: Fr)
    requires |b| >= 1
    ensures Eval(MulPoly([c, 1], b), x) == Mul(Add(x, c), Eval(b, x))
  {
    var r := MulPoly([c, 1], b);
    forall k | 0 <= k < |b| + 1
      ensures Term(r, x)(k) == Add(ScaledTerm(c, b, x)(k), ShiftedTerm(b, x)(k))
    {
      MulLinearTerm(c, b, x, k);
    }
    SumAdd(|b| + 1, ScaledTerm(c, b, x), ShiftedTerm(b, x), Term(r, x));
    SumScaledTerms(c, b, x);
    SumShiftedTerms(b, x);
    var e := Eval(b, x);
    calc {
      Add(Mul(c, e), Mul(x, e));
      { AddComm(Mul(c, e), Mul(x, e)); }
      Add(Mul(x, e), Mul(c, e));
      { Distrib(e, x, c); }
      Mul(Add(x, c), e);
    }
  }

  /** The monic linear factor X - z, stored as [-z, 1]. */
  function LinearFactor(z: Fr): (r: seq<Fr>)
    ensures |r| == 2 && r[1] == 1
  {
    [Neg(z), 1]
  }

  /** X - z evaluates to x - z. */
  lemma EvalLinearFactor(z: Fr, x: Fr)
    ensures Eval(LinearFactor(z), x) == Sub(x, z)
  {
    MulOne(Neg(z));
    AddZero(Neg(z));
    MulOne(x);
    AddComm(Neg(z), x);
    SubIsAddNeg(x, z);
  }

  /** (X - z)·b evaluates to (x - z)·b(x). */
  lemma EvalMulLinearFactor(z: Fr, b: seq<Fr>, x: Fr)
    requires |b| >= 1
    ensures Eval(MulPoly(LinearFactor(z), b), x) == Mul(Sub(x, z), Eval(b, x))
  {
    EvalMulLinear(Neg(z), b, x);
    SubIsAddNeg(x, z);
  }

  /** The top coefficient of (X - z)·b is the top coefficient of b. */
  lemma MulLinearFactorTop(z: Fr, b: seq<Fr>)
    requires |b| >= 1
    ensures |MulPoly(LinearFactor(z), b)| == |b| + 1
    ensures MulPoly(LinearFactor(z), b)[|b|] == b[|b| - 1]
  {
    var c := Neg(z);
    assert LinearFactor(z) == [c, 1];
    MulLinearCoeff(c, b, |b|);
    assert CoeffAt(b, |b|) == 0 && CoeffAt(b, |b| - 1) == b[|b| - 1];
    MulZero(c);
    AddZero(b[|b| - 1]);
  }
}
