/**
 * The polynomial side of the single-point prover in src/kzg.rs. To open p at z
 * with claim y = p(z), the prover builds the numerator p(X) - y (only the constant
 * coefficient changes), the divisor X - z, divides them, and commits to the
 * quotient q and to p. Division and the choice of p are not modelled: p is a
 * parameter and `div_poly` enters as a function parameter that returns None
 * where the division fails.
 */
module Kzg {
  import opened Wrappers
  import opened Field
  import opened Poly
  import opened Commitments
  import Evaluations

  /** The proof the prover sends: C = [p(s)], π = [q(s)] and the claim y. */
  datatype Proof<G> = Proof(polynomialCommitment: G, quotientCommitment: G, y: Evaluations.Evaluation)

  /** p(X) - y: the constant coefficient lowered by y, the others copied. */
  function Numerator(p: seq<Fr>, y: Fr): seq<Fr>
    requires |p| >= 1
  {
    [Sub(p[0], y)] + p[1..]
  }

  /** Lines 29-35: push p[0] - y, then copy every coefficient after the first.
    * Reading `coeff[0]` of an empty polynomial panics: None. */
  method BuildNumerator(p: seq<Fr>, y: Fr) returns (r: Option<seq<Fr>>)
    ensures r.Some? <==> |p| >= 1
    ensures r.Some? ==> |r.value| == |p| && r.value[0] == Sub(p[0], y)
    ensures r.Some? ==> forall i :: 1 <= i < |p| ==> r.value[i] == p[i]
    ensures r.Some? ==> r.value == Numerator(p, y)
  {
    if |p| == 0 {
      return None;
    }
    var num := [Sub(p[0], y)];
    for i := 1 to |p|
      invariant num == [Sub(p[0], y)] + p[1..i]
    {
      num := num + [p[i]];
    }
    return Some(num);
  }

  /** Lines 36-38: push -z, then one: the monic linear factor X - z. */
  method BuildDivisor(z: Fr) returns (den: seq<Fr>)
    ensures den == LinearFactor(z)
  {
    den := [];
    den := den + [Neg(z)];
    den := den + [1];
  }

  /** The numerator evaluates to p(x) - y everywhere. */
  lemma NumeratorEval(p: seq<Fr>, y: Fr, x: Fr)
    requires |p| >= 1
    ensures Eval(Numerator(p, y), x) == Sub(Eval(p, x), y)
  {
    EvalSubConstant(p, Numerator(p, y), y, x);
  }

  /** z is a root of the numerator exactly when the claim y is p(z). */
  lemma NumeratorRoot(p: seq<Fr>, y: Fr, z: Fr)
    requires |p| >= 1
    ensures Eval(Numerator(p, y), z) == 0 <==> y == Eval(p, z)
  {
    NumeratorEval(p, y, z);
    if y == Eval(p, z) {
      SubSelf(y);
    } else {
      SubNonzero(Eval(p, z), y);
    }
  }

  /** The divisor X - z vanishes at z and nowhere else. */
  lemma DivisorRoot(z: Fr, x: Fr)
    ensures Eval(LinearFactor(z), x) == 0 <==> x == z
  {
    EvalLinearFactor(z, x);
    if x == z {
      SubSelf(z);
    } else {
      SubNonzero(x, z);
    }
  }

  /** Lines 27-49 from y onwards: evaluate, build numerator and divisor, divide,
    * and run the two commitment loops over `s_g1`. Fails where the source
    * panics: an empty p, a failing division, or a setup shorter than q or p. */
  method Prove<G>(p: seq<Fr>, z: Fr, divPoly: (seq<Fr>, seq<Fr>) -> Option<seq<Fr>>,
                  grp: Group<G>, sG1: seq<G>) returns (r: Option<Proof<G>>)
    ensures r.Some? <==>
      |p| >= 1 &&
      var q := divPoly(Numerator(p, Eval(p, z)), LinearFactor(z));
      q.Some? && |q.value| <= |sG1| && |p| <= |sG1|
    ensures r.Some? ==>
      |p| >= 1 &&
      var q := divPoly(Numerator(p, Eval(p, z)), LinearFactor(z));
      q.Some? &&
      r.value == Proof(Commitment(grp, sG1, p), Commitment(grp, sG1, q.value), Evaluations.Evaluation(Eval(p, z)))
  {
    var y := Eval(p, z);
    var num := BuildNumerator(p, y);
    if num.None? {
      return None;
    }
    var den := BuildDivisor(z);
    var q := divPoly(num.value, den);
    if q.None? {
      return None;
    }
    var pi := Commit(grp, sG1, q.value);
    if pi.None? {
      return None;
    }
    var c := Commit(grp, sG1, p);
    if c.None? {
      return None;
    }
    return Some(Proof(c.value, pi.value, Evaluations.Evaluation(y)));
  }

  /** With a setup of powers of s and an exact quotient q·(X - z) == p - p(z),
    * the proof satisfies π·(s - z) == C - y in the exponent: the equation the
    * pairing check e(π, [s - z]) == e(C - [y], H) tests. */
  lemma OpeningIdentity(s: Fr, sG1: seq<Fr>, p: seq<Fr>, z: Fr, q: seq<Fr>)
    requires |p| >= 1 && PowersOf(s, sG1) && |p| <= |sG1| && |q| <= |sG1|
    requires MulPoly(LinearFactor(z), q) == Numerator(p, Eval(p, z))
    ensures Mul(Commitment(Scalars(), sG1, q), Sub(s, z))
         == Sub(Commitment(Scalars(), sG1, p), Eval(p, z))
  {
    var y := Eval(p, z);
    CommitmentInExponent(s, sG1, q);
    CommitmentInExponent(s, sG1, p);
    EvalMulLinearFactor(z, q, s);
    NumeratorEval(p, y, s);
    MulComm(Sub(s, z), Eval(q, s));
  }

  /** Subtracting from the same value is injective. */
  lemma SubCancelLeft(c: Fr, a: Fr, b: Fr)
    requires Sub(c, a) == Sub(c, b)
    ensures a == b
  {
    var d := Sub(c, a);
    SubAddCancel(c, a);
    SubAddCancel(c, b);
    AddComm(d, a);
    AddComm(d, b);
    SubAddCancel(a, d);
    SubAddCancel(b, d);
  }

  /** A claim other than p(z) breaks the same identity: in the exponent the
    * verifier's equation rejects a proof whose y was altered. */
  lemma WrongClaimRejected(s: Fr, sG1: seq<Fr>, p: seq<Fr>, z: Fr, q: seq<Fr>, y: Fr)
    requires |p| >= 1 && PowersOf(s, sG1) && |p| <= |sG1| && |q| <= |sG1|
    requires MulPoly(LinearFactor(z), q) == Numerator(p, Eval(p, z))
    requires y != Eval(p, z)
    ensures Mul(Commitment(Scalars(), sG1, q), Sub(s, z)) != Sub(Commitment(Scalars(), sG1, p), y)
  {
    OpeningIdentity(s, sG1, p, z, q);
    var c := Commitment(Scalars(), sG1, p);
    if Sub(c, Eval(p, z)) == Sub(c, y) {
      SubCancelLeft(c, Eval(p, z), y);
    }
  }
}
