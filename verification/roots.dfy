/**
 * Powers of a root of unity rou for a power-of-two domain size n, under the one
 * condition the FFT butterfly relies on: rou^(n/2) == -1. Nothing here needs
 * rou to be primitive or P to be prime.
 */
module Roots {
  import opened Field
  import opened Sums
  import Arith

  /** 1, 2, 4, 8, ... */
  predicate IsPowerOfTwo(n: nat)
    decreases n
  {
    n == 1 || (n >= 2 && n % 2 == 0 && IsPowerOfTwo(n / 2))
  }

  /** rou turns half way round in n/2 steps: rou^(n/2) == -1. */
  predicate HalfTurn(rou: Fr, n: nat) {
    n == 1 || Pow(rou, n / 2) == Neg(1)
  }

  /** rou^(i+h) == -(rou^i) when rou^h == -1. */
  lemma PowPastHalf(rou: Fr, i: nat, h: nat)
    requires Pow(rou, h) == Neg(1)
    ensures Pow(rou, i + h) == Neg(Pow(rou, i))
  {
    PowAdd(rou, i, h);
    MulNegOne(Pow(rou, i));
  }

  /** The half-size domain with rou² satisfies the same condition. */
  lemma HalfTurnSquare(rou: Fr, n: nat)
    requires IsPowerOfTwo(n) && n >= 2 && HalfTurn(rou, n)
    ensures IsPowerOfTwo(n / 2) && HalfTurn(Mul(rou, rou), n / 2)
  {
    var h := n / 2;
    if h > 1 {
      assert h % 2 == 0;
      PowSquare(rou, h / 2);
      assert 2 * (h / 2) == h;
    }
  }

  /** rou^n == 1 */
  lemma FullTurn(rou: Fr, n: nat)
    requires IsPowerOfTwo(n) && n >= 2 && HalfTurn(rou, n)
    ensures Pow(rou, n) == 1
  {
    var h := n / 2;
    assert h * 2 == n;
    PowMul(rou, h, 2);
    PowNegOne(2);
  }

  /** Every domain point is an n-th root of one: (rou^i)^n == 1. */
  lemma RootPowN(rou: Fr, n: nat, i: nat)
    requires IsPowerOfTwo(n) && HalfTurn(rou, n) && i < n
    ensures Pow(rou, i * n) == 1
    ensures Pow(Pow(rou, i), n) == 1
  {
    PowMul(rou, i, n);
    if n == 1 {
      assert i * n == 0;
    } else {
      FullTurn(rou, n);
      PowMul(rou, n, i);
      assert n * i == i * n;
      PowOne(i);
    }
  }

  /** rou^(i·t) */
  function RootPowAt(rou: Fr, t: nat, i: nat): Fr {
    Pow(rou, i * t)
  }

  /** i ↦ rou^(i·t) */
  function RootPows(rou: Fr, t: nat): nat -> Fr {
    (i: nat) => RootPowAt(rou, t, i)
  }

  /** i ↦ rou^((h+i)·t), the second half of RootPows. */
  function RootPowsFrom(rou: Fr, t: nat, h: nat): nat -> Fr {
    (i: nat) => RootPowAt(rou, t, h + i)
  }

  /** Moving h steps further multiplies by (rou^h)^t == (-1)^t. */
  lemma ShiftHalf(rou: Fr, h: nat, t: nat, i: nat)
    requires Pow(rou, h) == Neg(1)
    ensures RootPowAt(rou, t, h + i) == Mul(Pow(Neg(1), t), RootPowAt(rou, t, i))
  {
    assert (h + i) * t == h * t + i * t;
    PowAdd(rou, h * t, i * t);
    PowMul(rou, h, t);
  }

  /** rou^(i·2s) == (rou²)^(i·s) */
  lemma EvenSquare(rou: Fr, s: nat, i: nat)
    ensures RootPowAt(rou, 2 * s, i) == RootPowAt(Mul(rou, rou), s, i)
  {
    assert i * (2 * s) == 2 * (i * s);
    PowSquare(rou, i * s);
  }

  /** If 2s is not a multiple of 2h then s is not a multiple of h. */
  lemma HalfResidue(s: nat, h: nat)
    requires h > 0 && (2 * s) % (2 * h) != 0
    ensures s % h != 0
  {
    var q, r := s / h, s % h;
    assert s == q * h + r;
    assert 2 * s == q * (2 * h) + 2 * r;
    Arith.ModUnique(2 * s, 2 * h, q, 2 * r);
  }

  /** For odd t the second half of the sum cancels the first. */
  lemma OddHalvesCancel(rou: Fr, h: nat, t: nat)
    requires Pow(rou, h) == Neg(1) && t % 2 == 1
    ensures Add(Sum(h, RootPows(rou, t)), Sum(h, RootPowsFrom(rou, t, h))) == 0
  {
    var f, g := RootPows(rou, t), RootPowsFrom(rou, t, h);
    PowNegOne(t);
    forall i | 0 <= i < h
      ensures g(i) == Mul(Neg(1), f(i))
    {
      ShiftHalf(rou, h, t, i);
    }
    SumScale(h, Neg(1), f, g);
    MulNegOne(Sum(h, f));
    AddNegSelf(Sum(h, f));
  }

  lemma EvenTerm(rou: Fr, h: nat, s: nat, i: nat)
    requires Pow(rou, h) == Neg(1)
    ensures RootPowAt(rou, 2 * s, h + i) == RootPowAt(rou, 2 * s, i)
    ensures RootPowAt(rou, 2 * s, i) == RootPowAt(Mul(rou, rou), s, i)
  {
    var x := RootPowAt(rou, 2 * s, i);
    PowNegOneEven(s);
    ShiftHalf(rou, h, 2 * s, i);
    assert RootPowAt(rou, 2 * s, h + i) == Mul(1, x);
    MulOne(x);
    EvenSquare(rou, s, i);
  }

  /** For even t == 2s both halves equal the half-size sum for rou². */
  lemma EvenHalvesFold(rou: Fr, h: nat, s: nat)
    requires Pow(rou, h) == Neg(1)
    ensures Sum(h, RootPowsFrom(rou, 2 * s, h)) == Sum(h, RootPows(Mul(rou, rou), s))
    ensures Sum(h, RootPows(rou, 2 * s)) == Sum(h, RootPows(Mul(rou, rou), s))
  {
    var t := 2 * s;
    var f, g := RootPows(rou, t), RootPowsFrom(rou, t, h);
    var sq := Mul(rou, rou);
    forall i | 0 <= i < h
      ensures g(i) == f(i) && f(i) == RootPows(sq, s)(i)
    {
      EvenTerm(rou, h, s, i);
    }
    SumExt(h, g, f);
    SumExt(h, f, RootPows(sq, s));
  }

  /** For odd t the full sum over 2h points vanishes. */
  lemma OddStep(rou: Fr, h: nat, t: nat)
    requires Pow(rou, h) == Neg(1) && t % 2 == 1
    ensures Sum(2 * h, RootPows(rou, t)) == 0
  {
    SumSplit(h, h, RootPows(rou, t), RootPowsFrom(rou, t, h));
    OddHalvesCancel(rou, h, t);
  }

  /** For t == 2s the full sum over 2h points vanishes if the half-size sum for
    * rou² does. */
  lemma EvenStep(rou: Fr, h: nat, s: nat)
    requires Pow(rou, h) == Neg(1)
    requires Sum(h, RootPows(Mul(rou, rou), s)) == 0
    ensures Sum(2 * h, RootPows(rou, 2 * s)) == 0
  {
    SumSplit(h, h, RootPows(rou, 2 * s), RootPowsFrom(rou, 2 * s, h));
    EvenHalvesFold(rou, h, s);
    AddZero(0);
  }

  /** Orthogonality: Σ_{i<n} rou^(i·t) == 0 unless n divides t. */
  lemma {:induction false} Orthogonality(rou: Fr, n: nat, t: nat)
    requires IsPowerOfTwo(n) && HalfTurn(rou, n) && t % n != 0
    ensures Sum(n, RootPows(rou, t)) == 0
    decreases n
  {
    assert n != 1;
    var h := n / 2;
    assert 2 * h == n;
    HalfTurnSquare(rou, n);
    if t % 2 == 1 {
      OddStep(rou, h, t);
    } else {
      var s := t / 2;
      assert t == 2 * s;
      HalfResidue(s, h);
      Orthogonality(Mul(rou, rou), h, s);
      EvenStep(rou, h, s);
    }
  }

  /** Σ_{i<n} rou^(i·n) == n */
  lemma FullTurnSum(rou: Fr, n: nat)
    requires IsPowerOfTwo(n) && HalfTurn(rou, n)
    ensures Sum(n, RootPows(rou, n)) == FromNat(n)
  {
    forall i | 0 <= i < n
      ensures RootPows(rou, n)(i) == 1
    {
      RootPowN(rou, n, i);
    }
    SumOnes(n, RootPows(rou, n));
  }
}
