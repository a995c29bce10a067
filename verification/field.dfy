/** Option result, `None` wherever the modelled source code panics. */
module Wrappers {
  datatype Option<+T> = None | Some(value: T)
}

/**
 * The scalar field Fr of the BN254 curve, the external capability the KZG code
 * consumes: integers modulo the prime P with add, sub, mul, neg, pow, square and a
 * fallible inversion. Inversion is computed by the extended Euclidean algorithm, so
 * `Invert` is defined rather than postulated; it fails exactly when its argument
 * shares a factor with P, which for a prime P means exactly on zero.
 */
module Field {
  import opened Wrappers
  import Arith

  /** Order of the BN254 scalar field. */
  const P: nat := 21888242871839275222246405745257275088548364400416034343698204186575808495617

  type Fr = x: int | 0 <= x < P

  function Add(a: Fr, b: Fr): Fr { (a + b) % P }
  function Sub(a: Fr, b: Fr): Fr { (a - b) % P }
  function Mul(a: Fr, b: Fr): Fr { (a * b) % P }
  function Neg(a: Fr): Fr { (0 - a) % P }

  /** The field element of a machine integer (`Fr::from_u128`). */
  function FromNat(n: nat): Fr { n % P }

  /** Plain exponentiation by repeated multiplication. */
  function Pow(x: Fr, e: nat): Fr
    decreases e
  {
    if e == 0 then 1 else Mul(Pow(x, e - 1), x)
  }

  // ---------------------------------------------------------------------------
  // Ring laws, each reduced to the generic residue facts of module Arith

  lemma Reduced(a: Fr)
    ensures a % P == a
  {
    Arith.ModSmall(a, P);
  }

  lemma AddComm(a: Fr, b: Fr)
    ensures Add(a, b) == Add(b, a)
  {}

  lemma AddAssoc(a: Fr, b: Fr, c: Fr)
    ensures Add(Add(a, b), c) == Add(a, Add(b, c))
  {
    Arith.ModAddLeft(a + b, c, P);
    Arith.ModAddLeft(b + c, a, P);
  }

  lemma AddZero(a: Fr)
    ensures Add(a, 0) == a && Add(0, a) == a
  {
    Reduced(a);
  }

  lemma MulComm(a: Fr, b: Fr)
    ensures Mul(a, b) == Mul(b, a)
  {}

  lemma MulAssoc(a: Fr, b: Fr, c: Fr)
    ensures Mul(Mul(a, b), c) == Mul(a, Mul(b, c))
  {
    Arith.ModMulLeft(a * b, c, P);
    Arith.ModMulLeft(b * c, a, P);
    assert (a * b) * c == (b * c) * a;
  }

  lemma MulOne(a: Fr)
    ensures Mul(a, 1) == a && Mul(1, a) == a
  {
    Reduced(a);
  }

  lemma MulZero(a: Fr)
    ensures Mul(a, 0) == 0 && Mul(0, a) == 0
  {}

  lemma DistribLeft(a: Fr, b: Fr, c: Fr)
    ensures Mul(a, Add(b, c)) == Add(Mul(a, b), Mul(a, c))
  {
    var ab, ac := Mul(a, b), Mul(a, c);
    assert Mul(a, Add(b, c)) == (a * ((b + c) % P)) % P;
    assert Add(ab, ac) == ((a * b) % P + (a * c) % P) % P;
    Arith.ModDistribAdd(a, b, c, P);
  }

  lemma Distrib(a: Fr, b: Fr, c: Fr)
    ensures Mul(a, Add(b, c)) == Add(Mul(a, b), Mul(a, c))
    ensures Mul(Add(b, c), a) == Add(Mul(b, a), Mul(c, a))
  {
    DistribLeft(a, b, c);
  }

  lemma DistribSubLeft(a: Fr, b: Fr, c: Fr)
    ensures Mul(a, Sub(b, c)) == Sub(Mul(a, b), Mul(a, c))
  {
    var ab, ac := Mul(a, b), Mul(a, c);
    assert Mul(a, Sub(b, c)) == (a * ((b - c) % P)) % P;
    assert Sub(ab, ac) == ((a * b) % P - (a * c) % P) % P;
    Arith.ModDistribSub(a, b, c, P);
  }

  lemma DistribSub(a: Fr, b: Fr, c: Fr)
    ensures Mul(a, Sub(b, c)) == Sub(Mul(a, b), Mul(a, c))
    ensures Mul(Sub(b, c), a) == Sub(Mul(b, a), Mul(c, a))
  {
    DistribSubLeft(a, b, c);
  }

  lemma SubIsAddNeg(a: Fr, b: Fr)
    ensures Sub(a, b) == Add(a, Neg(b))
  {
    Arith.ModAddLeft(0 - b, a, P);
  }

  lemma SubAddCancel(a: Fr, b: Fr)
    ensures Sub(Add(a, b), b) == a && Add(Sub(a, b), b) == a
  {
    Arith.ModAddLeft(a + b, 0 - b, P);
    Arith.ModAddLeft(a - b, b, P);
    Reduced(a);
  }

  lemma SubSelf(a: Fr)
    ensures Sub(a, a) == 0
  {}

  lemma NegMulLeft(a: Fr, b: Fr)
    ensures Mul(Neg(a), b) == Neg(Mul(a, b))
  {
    calc {
      Mul(Neg(a), b);
      (((0 - a) % P) * b) % P;
      { Arith.ModMulLeft(0 - a, b, P); }
      ((0 - a) * b) % P;
      { Arith.MulNegLeft(a, b); }
      (0 - a * b) % P;
      { Arith.ModSubRight(0, a * b, P); }
      (0 - (a * b) % P) % P;
    }
  }

  lemma NegMul(a: Fr, b: Fr)
    ensures Mul(Neg(a), b) == Neg(Mul(a, b))
    ensures Mul(a, Neg(b)) == Neg(Mul(a, b))
  {
    NegMulLeft(a, b);
    NegMulLeft(b, a);
    MulComm(a, b);
    MulComm(Neg(b), a);
  }

  lemma NegNeg(a: Fr)
    ensures Neg(Neg(a)) == a
  {
    Arith.ModSubRight(0, 0 - a, P);
    Reduced(a);
  }

  lemma MulNegOne(a: Fr)
    ensures Mul(Neg(1), a) == Neg(a) && Mul(a, Neg(1)) == Neg(a)
  {
    NegMul(1, a);
    NegMul(a, 1);
    MulOne(a);
  }

  /** a + w·b with w replaced by -w is a - w·b. */
  lemma AddNegMul(a: Fr, w: Fr, b: Fr)
    ensures Add(a, Mul(Neg(w), b)) == Sub(a, Mul(w, b))
  {
    NegMul(w, b);
    SubIsAddNeg(a, Mul(w, b));
  }

  /** a + (-a) == 0 */
  lemma AddNegSelf(a: Fr)
    ensures Add(a, Neg(a)) == 0
  {
    SubIsAddNeg(a, a);
  }

  /** (u - v) + (v - w) == u - w */
  lemma SubChain(u: Fr, v: Fr, w: Fr)
    ensures Add(Sub(u, v), Sub(v, w)) == Sub(u, w)
  {
    Arith.ModAddLeft(u - v, (v - w) % P, P);
    Arith.ModAddLeft(v - w, u - v, P);
  }

  /** Distinct elements have a nonzero difference. */
  lemma SubNonzero(x: Fr, a: Fr)
    requires x != a
    ensures Sub(x, a) != 0
  {
    var k := (x - a) / P;
    assert x - a == k * P + (x - a) % P;
    Arith.MulSign(k, P);
  }

  // ---------------------------------------------------------------------------
  // Powers

  lemma {:induction false} PowAdd(x: Fr, a: nat, b: nat)
    ensures Pow(x, a + b) == Mul(Pow(x, a), Pow(x, b))
    decreases b
  {
    if b == 0 {
      MulOne(Pow(x, a));
    } else {
      PowAdd(x, a, b - 1);
      MulAssoc(Pow(x, a), Pow(x, b - 1), x);
    }
  }

  lemma {:induction false} PowMul(x: Fr, a: nat, b: nat)
    ensures Pow(x, a * b) == Pow(Pow(x, a), b)
    decreases b
  {
    if b > 0 {
      PowMul(x, a, b - 1);
      assert a * b == a * (b - 1) + a;
      PowAdd(x, a * (b - 1), a);
    }
  }

  lemma {:induction false} PowOfMul(x: Fr, y: Fr, e: nat)
    ensures Pow(Mul(x, y), e) == Mul(Pow(x, e), Pow(y, e))
    decreases e
  {
    if e > 0 {
      PowOfMul(x, y, e - 1);
      var a, b := Pow(x, e - 1), Pow(y, e - 1);
      calc {
        Pow(Mul(x, y), e);
        Mul(Mul(a, b), Mul(x, y));
        { MulAssoc(a, b, Mul(x, y)); }
        Mul(a, Mul(b, Mul(x, y)));
        { MulAssoc(b, x, y); MulComm(b, x); MulAssoc(x, b, y); }
        Mul(a, Mul(x, Mul(b, y)));
        { MulAssoc(a, x, Mul(b, y)); }
        Mul(Mul(a, x), Mul(b, y));
      }
    }
  }

  /** Squaring the base doubles the exponent (`rou.square()` in the FFT). */
  lemma PowSquare(x: Fr, e: nat)
    ensures Pow(Mul(x, x), e) == Pow(x, 2 * e)
    ensures Pow(Mul(x, x), e) == Mul(Pow(x, e), Pow(x, e))
  {
    PowOfMul(x, x, e);
    PowAdd(x, e, e);
  }

  lemma {:induction false} PowOne(e: nat)
    ensures Pow(1, e) == 1
    decreases e
  {
    if e > 0 { PowOne(e - 1); }
  }

  /** Powers of -1 alternate in sign. */
  lemma {:induction false} PowNegOne(e: nat)
    ensures Pow(Neg(1), e) == if e % 2 == 0 then 1 else Neg(1)
    decreases e
  {
    if e > 0 {
      PowNegOne(e - 1);
      MulNegOne(Neg(1));
      NegNeg(1);
      MulOne(Neg(1));
    }
  }

  /** (-1)^(2s) == 1 */
  lemma PowNegOneEven(s: nat)
    ensures Pow(Neg(1), 2 * s) == 1
  {
    assert (2 * s) % 2 == 0;
    PowNegOne(2 * s);
  }

  // ---------------------------------------------------------------------------
  // Inversion

  /** Extended Euclid: (s, t, g) with s·a + t·b == g, the greatest common divisor. */
  function Egcd(a: nat, b: nat): (int, int, nat)
    decreases b
  {
    if b == 0 then (1, 0, a)
    else
      var r := Egcd(b, a % b);
      (r.1, r.0 - (a / b) * r.1, r.2)
  }

  lemma BezoutStep(a: int, b: int, q: int, rem: int, s: int, t: int)
    requires a == q * b + rem
    ensures t * a + (s - q * t) * b == s * b + t * rem
  {}

  lemma {:induction false} EgcdBezout(a: nat, b: nat)
    ensures Egcd(a, b).0 * a + Egcd(a, b).1 * b == Egcd(a, b).2
    decreases b
  {
    if b != 0 {
      EgcdBezout(b, a % b);
      var r := Egcd(b, a % b);
      BezoutStep(a, b, a / b, a % b, r.0, r.1);
    }
  }

  lemma DivStep(a: int, b: int, q: int, rem: int, g: int, kb: int, km: int)
    requires a == q * b + rem && b == kb * g && rem == km * g
    ensures a == (q * kb + km) * g
  {}

  /** The gcd divides both arguments; the cofactors are returned as witnesses. */
  lemma {:induction false} EgcdDivides(a: nat, b: nat) returns (ka: int, kb: int)
    requires a > 0 || b > 0
    ensures Egcd(a, b).2 > 0
    ensures a == ka * Egcd(a, b).2 && b == kb * Egcd(a, b).2
    decreases b
  {
    if b == 0 {
      ka, kb := 1, 0;
    } else {
      var kb', km := EgcdDivides(b, a % b);
      DivStep(a, b, a / b, a % b, Egcd(a, b).2, kb', km);
      ka, kb := (a / b) * kb' + km, kb';
    }
  }

  predicate Invertible(x: Fr) { Egcd(x, P).2 == 1 }

  /** `Fr::invert`: None when x has no inverse (an `unwrap` on it panics). */
  function Invert(x: Fr): (r: Option<Fr>)
    ensures r.Some? <==> Invertible(x)
    ensures r.Some? ==> Mul(x, r.value) == 1
  {
    if Invertible(x) then
      InvertCorrect(x);
      Some(Egcd(x, P).0 % P)
    else None
  }

  lemma InvertCorrect(x: Fr)
    requires Invertible(x)
    ensures Mul(x, Egcd(x, P).0 % P) == 1
  {
    var s, t := Egcd(x, P).0, Egcd(x, P).1;
    EgcdBezout(x, P);
    Arith.ModMulLeft(s, x, P);
    assert s * x == 1 + (0 - t) * P;
    Arith.ModShift(1, 0 - t, P);
  }

  /** One is its own inverse, whatever the modulus. */
  lemma InvertOne()
    ensures Invert(1) == Some(1)
  {
    OneInvertible();
    MulOne(Invert(1).value);
  }

  /** The gcd of 1 and P divides 1, so it is 1. */
  lemma OneInvertible()
    ensures Invertible(1)
  {
    var ka, kb := EgcdDivides(1, P);
    Arith.MulSign(ka, Egcd(1, P).2);
  }

  /** Zero has no inverse, whatever the modulus. */
  lemma ZeroNotInvertible()
    ensures Invert(0) == None
  {
    assert 0 % P == 0;
    assert Egcd(P, 0) == (1, 0, P);
    assert Egcd(0, P).2 == P;
  }

  predicate DividesNat(d: nat, n: nat) {
    d > 0 && n % d == 0
  }

  ghost predicate IsPrime(n: nat) {
    n > 1 && forall d: nat :: 1 < d < n ==> !DividesNat(d, n)
  }

  /** In the prime field every nonzero element has an inverse. */
  lemma NonzeroInvertible(x: Fr)
    requires IsPrime(P) && x != 0
    ensures Invert(x).Some?
  {
    var kx, kp := EgcdDivides(x, P);
    var g := Egcd(x, P).2;
    Arith.MultipleBounds(kx, g);
    Arith.MultipleBounds(kp, g);
    Arith.ModOfMultiple(kp, g);
    assert DividesNat(g, P);
  }

  /** The prime field has no zero divisors. */
  lemma NoZeroDivisors(a: Fr, b: Fr)
    requires IsPrime(P)
    ensures Mul(a, b) == 0 <==> a == 0 || b == 0
  {
    if Mul(a, b) == 0 && a != 0 {
      NonzeroInvertible(a);
      var y := Invert(a).value;
      calc {
        b;
        { MulOne(b); }
        Mul(1, b);
        { MulComm(a, y); }
        Mul(Mul(y, a), b);
        { MulAssoc(y, a, b); }
        Mul(y, Mul(a, b));
        { MulZero(y); }
        0;
      }
    }
  }

  /** Multiplying by an element and then by its inverse is the identity. */
  lemma MulInvCancel(a: Fr, b: Fr, inv: Fr)
    requires Mul(b, inv) == 1
    ensures Mul(Mul(a, b), inv) == a
  {
    MulAssoc(a, b, inv);
    MulOne(a);
  }
  /** Multiplying by b and then by b's inverse, where it exists, gives back a. */
  lemma MulInvertUndoes(a: Fr, b: Fr)
    ensures Invert(b).Some? ==> Mul(Mul(a, b), Invert(b).value) == a
  {
    if Invert(b).Some? {
      MulInvCancel(a, b, Invert(b).value);
    }
  }

}
