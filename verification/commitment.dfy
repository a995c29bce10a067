/**
 * The commitment loops of src/kzg.rs and src/kzg_multiproof.rs:
 * `acc = generator * 0; for i in 0..coeffs.len() { acc += setup[i] * coeffs[i] }`.
 * The curve group is foreign code, so it enters as a parameter: a generator, the
 * group addition and the scalar multiplication. Reading `setup[i]` past the end
 * panics, which is modelled as None.
 */
module Commitments {
  import opened Wrappers
  import opened Field
  import opened Sums
  import opened Poly

  /** A group written additively, with scalars from Fr. */
  datatype Group<!G> = Group(generator: G, add: (G, G) -> G, scale: (G, Fr) -> G)

  /** The accumulator after the first k iterations of the loop. */
  function Accumulate<G>(grp: Group<G>, setup: seq<G>, coeffs: seq<Fr>, k: nat): G
    requires k <= |coeffs| && k <= |setup|
    decreases k
  {
    if k == 0 then grp.scale(grp.generator, 0)
    else grp.add(Accumulate(grp, setup, coeffs, k - 1), grp.scale(setup[k - 1], coeffs[k - 1]))
  }

  /** The full commitment Σ_i [coeffs_i]·setup_i, when the setup is long enough. */
  function Commitment<G>(grp: Group<G>, setup: seq<G>, coeffs: seq<Fr>): G
    requires |coeffs| <= |setup|
  {
    Accumulate(grp, setup, coeffs, |coeffs|)
  }

  /** One commitment loop: fails exactly when the setup is shorter than coeffs. */
  method Commit<G>(grp: Group<G>, setup: seq<G>, coeffs: seq<Fr>) returns (r: Option<G>)
    ensures r.Some? <==> |coeffs| <= |setup|
    ensures r.Some? ==> r.value == Commitment(grp, setup, coeffs)
  {
    var acc := grp.scale(grp.generator, 0);
    for i := 0 to |coeffs|
      invariant i <= |setup|
      invariant acc == Accumulate(grp, setup, coeffs, i)
    {
      if i >= |setup| {
        return None;
      }
      acc := grp.add(acc, grp.scale(setup[i], coeffs[i]));
    }
    return Some(acc);
  }

  /** The scalar field itself as the group, generator 1: every group element
    * [a]·G is represented by its discrete logarithm a. */
  function Scalars(): Group<Fr> {
    Group(1, Add, Mul)
  }

  /** setup_i == [s^i]·G, the shape of the trusted setup. */
  predicate PowersOf(s: Fr, setup: seq<Fr>) {
    forall i :: 0 <= i < |setup| ==> setup[i] == Pow(s, i)
  }

  lemma {:induction false} AccumulateInExponent(s: Fr, setup: seq<Fr>, coeffs: seq<Fr>, k: nat)
    requires k <= |coeffs| && k <= |setup| && PowersOf(s, setup)
    ensures Accumulate(Scalars(), setup, coeffs, k) == Sum(k, Term(coeffs, s))
    decreases k
  {
    if k == 0 {
      MulZero(1);
    } else {
      AccumulateInExponent(s, setup, coeffs, k - 1);
      MulComm(setup[k - 1], coeffs[k - 1]);
    }
  }

  /** Against powers of a secret s, the commitment to p is [p(s)]. */
  lemma CommitmentInExponent(s: Fr, setup: seq<Fr>, coeffs: seq<Fr>)
    requires |coeffs| <= |setup| && PowersOf(s, setup)
    ensures Commitment(Scalars(), setup, coeffs) == Eval(coeffs, s)
  {
    AccumulateInExponent(s, setup, coeffs, |coeffs|);
  }
}
