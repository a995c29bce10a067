/**
 * The u32 polynomial of src/kzg_tools/polynomial.rs. `eval` accumulates
 * Σ_i c_i·val^i in a u32. A debug build panics on the first overflow of the
 * exponent conversion, the power, the product or the running sum. A release
 * build wraps the power, the product and the sum modulo 2^32, but the checked
 * conversion `i.try_into().unwrap()` of the index still panics from i == 2^32.
 * Both builds are modelled.
 */
module IntPolynomials {
  import opened Wrappers
  import Arith

  const U32_LIMIT: nat := 0x1_0000_0000

  type U32 = x: int | 0 <= x < U32_LIMIT

  /** `Polynomial::new(coefficients)` is the constructor: it stores them unchanged. */
  datatype Polynomial = Polynomial(coefficients: seq<U32>)

  /** v^e over the integers. */
  function IntPow(v: nat, e: nat): nat
    decreases e
  {
    if e == 0 then 1 else IntPow(v, e - 1) * v
  }

  /** Σ_{i<|c|} c_i·v^i over the integers, summed from index 0 upwards. */
  function ExactEval(c: seq<U32>, v: nat): nat
    decreases |c|
  {
    if |c| == 0 then 0 else ExactEval(c[..|c| - 1], v) + c[|c| - 1] * IntPow(v, |c| - 1)
  }

  /** No intermediate value of the loop reaches 2^32: the exponent, the
    * largest power, and the total (which bounds every product and partial sum). */
  predicate FitsU32(c: seq<U32>, v: nat) {
    |c| == 0 || (|c| <= U32_LIMIT && IntPow(v, |c| - 1) < U32_LIMIT && ExactEval(c, v) < U32_LIMIT)
  }

  lemma {:induction false} IntPowMonotone(v: nat, i: nat, j: nat)
    requires v >= 1 && i <= j
    ensures IntPow(v, i) <= IntPow(v, j)
    decreases j
  {
    if i < j {
      IntPowMonotone(v, i, j - 1);
      assert IntPow(v, j - 1) * v >= IntPow(v, j - 1);
    }
  }

  /** Dropping the top coefficient never increases the value. */
  lemma ExactEvalDropLast(c: seq<U32>, v: nat)
    requires |c| >= 1
    ensures ExactEval(c[..|c| - 1], v) <= ExactEval(c, v)
  {
    var last: nat, pow: nat := c[|c| - 1], IntPow(v, |c| - 1);
    assert last * pow >= 0;
  }

  /** A prefix of the coefficients never evaluates to more than the whole. */
  lemma {:induction false} ExactEvalPrefix(c: seq<U32>, v: nat, k: nat)
    requires k <= |c|
    ensures ExactEval(c[..k], v) <= ExactEval(c, v)
    decreases |c|
  {
    if k == |c| {
      assert c[..k] == c;
    } else {
      var d := c[..|c| - 1];
      assert c[..k] == d[..k];
      ExactEvalPrefix(d, v, k);
      ExactEvalDropLast(c, v);
    }
  }

  /** One more coefficient adds one more term. */
  lemma ExactEvalStep(c: seq<U32>, v: nat, i: nat)
    requires i < |c|
    ensures ExactEval(c[..i + 1], v) == ExactEval(c[..i], v) + c[i] * IntPow(v, i)
  {
    assert c[..i + 1][..i] == c[..i];
  }

  /** Lines 12-19 in a debug build: None at the first overflow panic. */
  method Eval(p: Polynomial, val: U32) returns (r: Option<U32>)
    ensures r.Some? <==> FitsU32(p.coefficients, val)
    ensures r.Some? ==> r.value == ExactEval(p.coefficients, val)
  {
    var c := p.coefficients;
    var eval: U32 := 0;
    var i := 0;
    while i < |c|
      invariant 0 <= i <= |c|
      invariant eval == ExactEval(c[..i], val)
      invariant i <= U32_LIMIT
      invariant i > 0 ==> IntPow(val, i - 1) < U32_LIMIT
    {
      ExactEvalStep(c, val, i);
      ExactEvalPrefix(c, val, i + 1);
      if i >= U32_LIMIT {
        return None;
      }
      var pow := IntPow(val, i);
      if pow >= U32_LIMIT {
        IntPowMonotone(val, i, |c| - 1);
        return None;
      }
      var product := c[i] * pow;
      if product >= U32_LIMIT {
        return None;
      }
      var sum := eval + product;
      if sum >= U32_LIMIT {
        return None;
      }
      eval := sum;
      i := i + 1;
    }
    assert c[..i] == c;
    return Some(eval);
  }

  /** Adding one wrapped term to a wrapped sum wraps the exact sum. */
  lemma WrapStep(s: nat, a: nat, b: nat)
    ensures (s % U32_LIMIT + (a * (b % U32_LIMIT)) % U32_LIMIT) % U32_LIMIT == (s + a * b) % U32_LIMIT
  {
    var m := U32_LIMIT;
    Arith.ModMulLeft(b, a, m);
    assert (a * (b % m)) % m == (a * b) % m;
    Arith.ModAddLeft(s, (a * b) % m, m);
    Arith.ModAddLeft(a * b, s, m);
  }

  /** Lines 12-19 in a release build: the arithmetic wraps modulo 2^32, and the
    * index conversion panics once an index reaches 2^32. */
  method EvalWrapping(p: Polynomial, val: U32) returns (r: Option<U32>)
    ensures r.Some? <==> |p.coefficients| <= U32_LIMIT
    ensures r.Some? ==> r.value == ExactEval(p.coefficients, val) % U32_LIMIT
  {
    var c := p.coefficients;
    var eval: U32 := 0;
    var i := 0;
    while i < |c|
      invariant 0 <= i <= |c| && i <= U32_LIMIT
      invariant eval == ExactEval(c[..i], val) % U32_LIMIT
    {
      if i >= U32_LIMIT {
        return None;
      }
      ExactEvalStep(c, val, i);
      var pow := IntPow(val, i) % U32_LIMIT;
      var product := (c[i] * pow) % U32_LIMIT;
      WrapStep(ExactEval(c[..i], val), c[i], IntPow(val, i));
      eval := (eval + product) % U32_LIMIT;
      i := i + 1;
    }
    assert c[..i] == c;
    r := Some(eval);
  }

  /** With no coefficients `eval` returns 0. */
  lemma EvalEmpty(val: U32)
    ensures FitsU32([], val) && ExactEval([], val) == 0
  {
  }

  /** At val == 0 only 0^0 == 1 survives: the result is the constant
    * coefficient, and nothing overflows. */
  lemma EvalAtZero(c: seq<U32>)
    requires 1 <= |c| <= U32_LIMIT
    ensures FitsU32(c, 0) && ExactEval(c, 0) == c[0]
  {
    ExactEvalAtZero(c);
  }

  lemma {:induction false} ExactEvalAtZero(c: seq<U32>)
    requires |c| >= 1
    ensures ExactEval(c, 0) == c[0]
    ensures IntPow(0, |c| - 1) <= 1
    decreases |c|
  {
    if |c| > 1 {
      var d := c[..|c| - 1];
      ExactEvalAtZero(d);
      assert IntPow(0, |c| - 1) == 0;
    }
  }

  /** Whenever the debug build returns, the release build returns too (its index
    * conversion cannot fail) and gives the same value. */
  lemma BuildsAgree(c: seq<U32>, val: U32)
    requires FitsU32(c, val)
    ensures |c| <= U32_LIMIT
    ensures ExactEval(c, val) % U32_LIMIT == ExactEval(c, val)
  {
    if |c| > 0 {
      Arith.ModSmall(ExactEval(c, val), U32_LIMIT);
    }
  }
}
