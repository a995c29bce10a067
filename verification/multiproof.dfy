/**
 * The polynomial side of the multi-point prover in src/kzg_multiproof.rs. To
 * open p at points z_0..z_(k-1) the prover evaluates p at each point, builds the
 * zero polynomial Z(X) = Π (X - z_i) by repeated multiplication with monic linear
 * factors, and commits to Z over G2 and to the quotient, to p and to the
 * interpolation polynomial over G1. Lagrange interpolation, `sub_poly` and
 * `div_poly` are not modelled: they enter as function parameters that return
 * None where they fail.
 */
module MultiProofs {
  import opened Wrappers
  import opened Field
  import opened Poly
  import opened Commitments

  /** The four commitments of a multi-point proof. */
  datatype MultiProof<G1, G2> = MultiProof(
    polynomialCommitment: G1,
    quotientCommitment: G1,
    interpolationPolynomialCommitment: G1,
    zeroPolynomialCommitment: G2)

  /** The claimed values: p at each opening point, in order. */
  function Openings(p: seq<Fr>, zs: seq<Fr>): seq<Fr> {
    seq(|zs|, i requires 0 <= i < |zs| => Eval(p, zs[i]))
  }

  /** Lines 28-33: push p(z_i) for each point in turn. */
  method EvaluateAt(p: seq<Fr>, zs: seq<Fr>) returns (ys: seq<Fr>)
    ensures |ys| == |zs|
    ensures forall i :: 0 <= i < |zs| ==> ys[i] == Eval(p, zs[i])
  {
    ys := [];
    for i := 0 to |zs|
      invariant |ys| == i
      invariant forall j :: 0 <= j < i ==> ys[j] == Eval(p, zs[j])
    {
      ys := ys + [Eval(p, zs[i])];
    }
  }

  /** Z after the points zs: [1] for none, then (X - z)·Z for each further z.
    * It has one more coefficient than there are points and is monic. */
  function ZeroPoly(zs: seq<Fr>): (r: seq<Fr>)
    ensures |r| == |zs| + 1 && r[|zs|] == 1
    decreases |zs|
  {
    if |zs| == 0 then [1]
    else
      var prev := ZeroPoly(zs[..|zs| - 1]);
      MulLinearFactorTop(zs[|zs| - 1], prev);
      MulPoly(LinearFactor(zs[|zs| - 1]), prev)
  }

  /** Lines 35-40: start from [1] and multiply by [-z_i, 1] for each point. */
  method BuildZeroPolynomial(zs: seq<Fr>) returns (zp: seq<Fr>)
    ensures zp == ZeroPoly(zs)
  {
    zp := [1];
    for i := 0 to |zs|
      invariant zp == ZeroPoly(zs[..i])
    {
      var factor := [Neg(zs[i]), 1];
      assert zs[..i + 1][..i] == zs[..i];
      zp := MulPoly(factor, zp);
    }
    assert zs[..|zs|] == zs;
  }

  /** Π_i (x - z_i) */
  function Gaps(zs: seq<Fr>, x: Fr): Fr
    decreases |zs|
  {
    if |zs| == 0 then 1 else Mul(Gaps(zs[..|zs| - 1], x), Sub(x, zs[|zs| - 1]))
  }

  /** Z(x) == Π_i (x - z_i). */
  lemma {:induction false} ZeroPolyEval(zs: seq<Fr>, x: Fr)
    ensures Eval(ZeroPoly(zs), x) == Gaps(zs, x)
    decreases |zs|
  {
    if |zs| == 0 {
      EvalSingleton(1, x);
    } else {
      var prefix, z := zs[..|zs| - 1], zs[|zs| - 1];
      ZeroPolyEval(prefix, x);
      EvalMulLinearFactor(z, ZeroPoly(prefix), x);
      MulComm(Sub(x, z), Gaps(prefix, x));
    }
  }

  /** The product vanishes when x is one of the points. */
  lemma {:induction false} GapsVanish(zs: seq<Fr>, i: nat)
    requires i < |zs|
    ensures Gaps(zs, zs[i]) == 0
    decreases |zs|
  {
    var x := zs[i];
    var prefix := zs[..|zs| - 1];
    if i == |zs| - 1 {
      SubSelf(x);
      MulZero(Gaps(prefix, x));
    } else {
      GapsVanish(prefix, i);
      MulZero(Sub(x, zs[|zs| - 1]));
    }
  }

  /** Over a prime field the product is nonzero away from the points. */
  lemma {:induction false} GapsNonzero(zs: seq<Fr>, x: Fr)
    requires IsPrime(P)
    requires forall i :: 0 <= i < |zs| ==> zs[i] != x
    ensures Gaps(zs, x) != 0
    decreases |zs|
  {
    if |zs| > 0 {
      var prefix, z := zs[..|zs| - 1], zs[|zs| - 1];
      GapsNonzero(prefix, x);
      SubNonzero(x, z);
      NoZeroDivisors(Gaps(prefix, x), Sub(x, z));
    }
  }

  /** Z(z_i) == 0 for every opening point. */
  lemma ZeroPolyVanishes(zs: seq<Fr>, i: nat)
    requires i < |zs|
    ensures Eval(ZeroPoly(zs), zs[i]) == 0
  {
    ZeroPolyEval(zs, zs[i]);
    GapsVanish(zs, i);
  }

  /** Over a prime field the opening points are exactly the roots of Z. */
  lemma ZeroPolyRoots(zs: seq<Fr>, x: Fr)
    requires IsPrime(P)
    ensures Eval(ZeroPoly(zs), x) == 0 <==> x in zs
  {
    ZeroPolyEval(zs, x);
    if x in zs {
      var i :| 0 <= i < |zs| && zs[i] == x;
      GapsVanish(zs, i);
    } else {
      GapsNonzero(zs, x);
    }
  }

  /** Lines 28-64: evaluations, interpolation, zero polynomial and its G2
    * commitment, quotient (p - I) / Z, and the three G1 commitments. Fails where
    * interpolation or the quotient fails, or where reading a setup past its end
    * panics. */
  method MultiProve<G1, G2>(p: seq<Fr>, zs: seq<Fr>,
                            lagrange: (seq<Fr>, seq<Fr>, seq<Fr>) -> Option<seq<Fr>>,
                            quotient: (seq<Fr>, seq<Fr>, seq<Fr>) -> Option<seq<Fr>>,
                            g1: Group<G1>, g2: Group<G2>, sG1: seq<G1>, sG2: seq<G2>)
    returns (r: Option<MultiProof<G1, G2>>)
    ensures
      var i := lagrange(p, zs, Openings(p, zs));
      r.Some? <==>
        i.Some? && |zs| + 1 <= |sG2| &&
        var q := quotient(p, i.value, ZeroPoly(zs));
        q.Some? && |q.value| <= |sG1| && |p| <= |sG1| && |i.value| <= |sG1|
    ensures
      var i := lagrange(p, zs, Openings(p, zs));
      r.Some? ==>
        i.Some? &&
        var q := quotient(p, i.value, ZeroPoly(zs));
        q.Some? &&
        r.value == MultiProof(Commitment(g1, sG1, p), Commitment(g1, sG1, q.value),
                              Commitment(g1, sG1, i.value), Commitment(g2, sG2, ZeroPoly(zs)))
  {
    var ys := EvaluateAt(p, zs);
    assert ys == Openings(p, zs);
    var interpolation := lagrange(p, zs, ys);
    if interpolation.None? {
      return None;
    }
    var zp := BuildZeroPolynomial(zs);
    var zc := Commit(g2, sG2, zp);
    if zc.None? {
      return None;
    }
    var q := quotient(p, interpolation.value, zp);
    if q.None? {
      return None;
    }
    var qc := Commit(g1, sG1, q.value);
    if qc.None? {
      return None;
    }
    var pc := Commit(g1, sG1, p);
    if pc.None? {
      return None;
    }
    var ic := Commit(g1, sG1, interpolation.value);
    if ic.None? {
      return None;
    }
    return Some(MultiProof(pc.value, qc.value, ic.value, zc.value));
  }
}
