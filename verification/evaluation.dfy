/**
 * `Evaluation` of src/kzg_tools/evaluation.rs: a field value returned by
 * polynomial evaluation, with add, sub, mul and a division that panics on a zero
 * (non-invertible) divisor.
 */
module Evaluations {
  import opened Wrappers
  import Field

  /** `Evaluation::new(e)` is the constructor: it stores e unchanged. */
  datatype Evaluation = Evaluation(evaluation: Field.Fr)
  {
    /** `add`: the unique value that gives back this when rhs is subtracted. */
    function Add(rhs: Evaluation): (r: Evaluation)
      ensures Field.Sub(r.evaluation, rhs.evaluation) == evaluation
    {
      Field.SubAddCancel(evaluation, rhs.evaluation);
      Evaluation(Field.Add(evaluation, rhs.evaluation))
    }

    /** `sub`: the unique value that gives back this when rhs is added. */
    function Sub(rhs: Evaluation): (r: Evaluation)
      ensures Field.Add(r.evaluation, rhs.evaluation) == evaluation
    {
      Field.SubAddCancel(evaluation, rhs.evaluation);
      Evaluation(Field.Sub(evaluation, rhs.evaluation))
    }

    /** `mul`: the value that an invertible rhs divides back to this. */
    function Mul(rhs: Evaluation): (r: Evaluation)
      ensures Field.Invert(rhs.evaluation).Some? ==>
                Field.Mul(r.evaluation, Field.Invert(rhs.evaluation).value) == evaluation
    {
      Field.MulInvertUndoes(evaluation, rhs.evaluation);
      Evaluation(Field.Mul(evaluation, rhs.evaluation))
    }

    /** `div`: None where `invert().unwrap()` panics; otherwise a quotient that
      * multiplies back to this. */
    function Div(divider: Evaluation): (r: Option<Evaluation>)
      ensures r.Some? <==> Field.Invert(divider.evaluation).Some?
      ensures r.Some? ==> r.value.Mul(divider) == this
    {
      match Field.Invert(divider.evaluation)
      case None => None
      case Some(inv) =>
        Field.MulInvCancel(evaluation, divider.evaluation, inv);
        Field.MulAssoc(evaluation, inv, divider.evaluation);
        Field.MulComm(inv, divider.evaluation);
        Field.MulAssoc(evaluation, divider.evaluation, inv);
        Some(Evaluation(Field.Mul(evaluation, inv)))
    }
  }

  /** a.add(b).sub(b) == a and a.sub(b).add(b) == a */
  lemma AddSubRoundTrip(a: Evaluation, b: Evaluation)
    ensures a.Add(b).Sub(b) == a
    ensures a.Sub(b).Add(b) == a
  {
    Field.SubAddCancel(a.evaluation, b.evaluation);
  }

  /** Multiplication commutes, has Evaluation(1) as its identity, sends a zero
    * rhs to zero and distributes over `add`; together these fix the product for
    * every rhs, including those that are not invertible. */
  lemma MulLaws(a: Evaluation, b: Evaluation, c: Evaluation)
    ensures a.Mul(b) == b.Mul(a)
    ensures a.Mul(Evaluation(1)) == a
    ensures a.Mul(Evaluation(0)) == Evaluation(0)
    ensures a.Mul(b.Add(c)) == a.Mul(b).Add(a.Mul(c))
  {
    Field.MulComm(a.evaluation, b.evaluation);
    Field.MulOne(a.evaluation);
    Field.MulZero(a.evaluation);
    Field.DistribLeft(a.evaluation, b.evaluation, c.evaluation);
  }

  /** a.mul(b).div(b) == a for every invertible b. */
  lemma MulDivRoundTrip(a: Evaluation, b: Evaluation)
    requires Field.Invert(b.evaluation).Some?
    ensures a.Mul(b).Div(b) == Some(a)
  {
    Field.MulInvertUndoes(a.evaluation, b.evaluation);
  }

  /** Dividing by one gives back the dividend: the inverse of 1 exists and is 1. */
  lemma DivByOne(a: Evaluation)
    ensures a.Div(Evaluation(1)) == Some(a)
  {
    Field.InvertOne();
    Field.MulOne(a.evaluation);
  }

  /** Division by zero fails. */
  lemma DivByZeroFails(a: Evaluation)
    ensures a.Div(Evaluation(0)) == None
  {
    Field.ZeroNotInvertible();
  }

  /** Over a prime field division fails only on zero. */
  lemma DivSomeIff(a: Evaluation, b: Evaluation)
    requires Field.IsPrime(Field.P)
    ensures a.Div(b).Some? <==> b.evaluation != 0
  {
    if b.evaluation != 0 {
      Field.NonzeroInvertible(b.evaluation);
    } else {
      DivByZeroFails(a);
    }
  }
}
