/**
 * The recursive radix-2 FFT of src/kzg_tools/fft.rs: split the coefficients by
 * index parity, transform both halves with rou², and combine them with
 * butterflies written in place into a zero-initialised output vector.
 */
module Fourier {
  import opened Field
  import opened Sums
  import opened Poly
  import opened Roots

  /** The coefficients at even indices, in order. */
  function Evens(p: seq<Fr>): (r: seq<Fr>)
    ensures |r| == (|p| + 1) / 2
    ensures forall k :: 0 <= k < |r| ==> r[k] == p[2 * k]
  {
    seq((|p| + 1) / 2, k requires 0 <= k < (|p| + 1) / 2 => p[2 * k])
  }

  /** The coefficients at odd indices, in order. */
  function Odds(p: seq<Fr>): (r: seq<Fr>)
    ensures |r| == |p| / 2
    ensures forall k :: 0 <= k < |r| ==> r[k] == p[2 * k + 1]
  {
    seq(|p| / 2, k requires 0 <= k < |p| / 2 => p[2 * k + 1])
  }

  /** Every coefficient lands in exactly one half: index i sits at i/2 of its half. */
  lemma SplitKeepsAll(p: seq<Fr>, i: nat)
    requires i < |p|
    ensures i % 2 == 0 ==> i / 2 < |Evens(p)| && Evens(p)[i / 2] == p[i]
    ensures i % 2 == 1 ==> i / 2 < |Odds(p)| && Odds(p)[i / 2] == p[i]
    ensures |Evens(p)| + |Odds(p)| == |p|
  {
  }

  /** The enumerate loop that pushes each coefficient onto `even` or `odd`. */
  method Split(p: seq<Fr>) returns (even: seq<Fr>, odd: seq<Fr>)
    ensures even == Evens(p) && odd == Odds(p)
  {
    even, odd := [], [];
    var i := 0;
    while i < |p|
      invariant 0 <= i <= |p|
      invariant |even| == (i + 1) / 2 && |odd| == i / 2
      invariant forall k :: 0 <= k < |even| ==> even[k] == p[2 * k]
      invariant forall k :: 0 <= k < |odd| ==> odd[k] == p[2 * k + 1]
    {
      if i % 2 == 0 {
        even := even + [p[i]];
      } else {
        odd := odd + [p[i]];
      }
      i := i + 1;
    }
  }

  /** Slot i of the combined output: E[i] + rou^i·O[i] in the first half,
    * E[i-h] - rou^(i-h)·O[i-h] in the second, and zero past 2h. */
  function Butterfly(e: seq<Fr>, o: seq<Fr>, rou: Fr, h: nat, i: nat): Fr
    requires |e| >= h && |o| >= h
  {
    if i < h then Add(e[i], Mul(Pow(rou, i), o[i]))
    else if i < 2 * h then Sub(e[i - h], Mul(Pow(rou, i - h), o[i - h]))
    else 0
  }

  /** The vector the butterfly loop produces from the two half-size
    * transforms: Butterfly at every slot. */
  function Butterflies(e: seq<Fr>, o: seq<Fr>, rou: Fr, n: nat): (r: seq<Fr>)
    requires |e| >= n / 2 && |o| >= n / 2
    ensures |r| == n
  {
    seq(n, i requires 0 <= i < n => Butterfly(e, o, rou, n / 2, i))
  }

  /** The value `fft(p, rou)` returns: a length-1 input unchanged, otherwise
    * the butterflies of the two half-size transforms. For odd lengths the last
    * slot is never written and keeps its initial zero. */
  function FftSpec(p: seq<Fr>, rou: Fr): (r: seq<Fr>)
    requires |p| >= 1
    ensures |r| == |p|
    decreases |p|
  {
    if |p| == 1 then p
    else Butterflies(FftSpec(Evens(p), Mul(rou, rou)), FftSpec(Odds(p), Mul(rou, rou)), rou, |p|)
  }

  /** The output vector after i butterfly iterations: slots i' < i and
    * h <= i' < h + i hold their final values, every other slot its initial zero. */
  function Filled(spec: seq<Fr>, h: nat, i: nat): (r: seq<Fr>)
    ensures |r| == |spec|
  {
    seq(|spec|, k requires 0 <= k < |spec| => if k < i || h <= k < h + i then spec[k] else 0)
  }

  lemma FilledStep(spec: seq<Fr>, h: nat, i: nat)
    requires i < h && h + i < |spec|
    ensures Filled(spec, h, i)[i := spec[i]][i + h := spec[i + h]] == Filled(spec, h, i + 1)
  {
  }

  /** Once all h iterations have run, only slots at or past 2h are still zero. */
  lemma FilledDone(spec: seq<Fr>, h: nat)
    requires 2 * h <= |spec|
    requires forall k :: 2 * h <= k < |spec| ==> spec[k] == 0
    ensures Filled(spec, h, h) == spec
  {
  }

  /** Lines 10 and 29-34: a zeroed vector of length n, then for each i < n/2
    * the butterfly pair written in place at i and i + n/2. */
  method ButterflyLoop(e: seq<Fr>, o: seq<Fr>, rou: Fr, n: nat) returns (r: seq<Fr>)
    requires |e| >= n / 2 && |o| >= n / 2
    ensures r == Butterflies(e, o, rou, n)
  {
    var fftVec := new Fr[n](_ => 0);
    ghost var spec := Butterflies(e, o, rou, n);
    var h := n / 2;
    assert fftVec[..] == Filled(spec, h, 0);
    var i := 0;
    while i < h
      invariant 0 <= i <= h
      invariant fftVec[..] == Filled(spec, h, i)
    {
      FilledStep(spec, h, i);
      var tempRou := Pow(rou, i);
      fftVec[i] := Add(e[i], Mul(tempRou, o[i]));
      fftVec[i + h] := Sub(e[i], Mul(tempRou, o[i]));
      i := i + 1;
    }
    FilledDone(spec, h);
    r := fftVec[..];
  }

  /** Lines 8-37: the even/odd split, the recursion on rou², and the butterflies. */
  method Fft(p: seq<Fr>, rou: Fr) returns (r: seq<Fr>)
    requires |p| >= 1
    ensures r == FftSpec(p, rou)
    decreases |p|
  {
    if |p| == 1 {
      return p;
    }
    var even, odd := Split(p);
    var sq := Mul(rou, rou);
    var evenFft := Fft(even, sq);
    var oddFft := Fft(odd, sq);
    r := ButterflyLoop(evenFft, oddFft, rou, |p|);
  }

  /** A single coefficient is returned unchanged (lines 12-13). */
  lemma FftSingleton(c: Fr, rou: Fr)
    ensures FftSpec([c], rou) == [c]
  {
  }

  // ---------------------------------------------------------------------------
  // The transform evaluates p at the powers of rou

  /** a + x·(b + x·c) == (a + x²·c) + x·b */
  lemma RingEvenOdd(a: Fr, b: Fr, c: Fr, x: Fr)
    ensures Add(a, Mul(x, Add(b, Mul(x, c)))) == Add(Add(a, Mul(Mul(x, x), c)), Mul(x, b))
  {
    Distrib(x, b, Mul(x, c));
    MulAssoc(x, x, c);
    var u, v := Mul(x, b), Mul(Mul(x, x), c);
    AddComm(u, v);
    AddAssoc(a, v, u);
  }

  lemma HalvesShift(p: seq<Fr>)
    requires |p| >= 1
    ensures Evens(p)[1..] == Odds(p[1..])
    ensures Odds(p) == Evens(p[1..])
  {
  }

  /** p(x) == E(x²) + x·O(x²) with E, O the even and odd halves. */
  lemma {:induction false} EvalEvenOdd(p: seq<Fr>, x: Fr)
    ensures Eval(p, x) == Add(Eval(Evens(p), Mul(x, x)), Mul(x, Eval(Odds(p), Mul(x, x))))
    decreases |p|
  {
    var x2 := Mul(x, x);
    if |p| == 0 {
      MulZero(x);
      AddZero(0);
    } else {
      var q := p[1..];
      EvalEvenOdd(q, x);
      HalvesShift(p);
      EvalHorner(p, x);
      EvalHorner(Evens(p), x2);
      RingEvenOdd(p[0], Eval(Odds(p), x2), Eval(Evens(p)[1..], x2), x);
    }
  }

  /** The first-half butterfly: E(w^2j) + w^j·O(w^2j) == p(w^j). */
  lemma ButterflyLow(p: seq<Fr>, rou: Fr, e: seq<Fr>, o: seq<Fr>, h: nat, j: nat)
    requires j < h <= |e| && h <= |o|
    requires e[j] == Eval(Evens(p), Pow(Mul(rou, rou), j))
    requires o[j] == Eval(Odds(p), Pow(Mul(rou, rou), j))
    ensures Butterfly(e, o, rou, h, j) == Eval(p, Pow(rou, j))
  {
    PowSquare(rou, j);
    EvalEvenOdd(p, Pow(rou, j));
  }

  /** The second-half butterfly: E(w^2j) - w^j·O(w^2j) == p(w^(j+h)) when w^h == -1. */
  lemma ButterflyHigh(p: seq<Fr>, rou: Fr, e: seq<Fr>, o: seq<Fr>, h: nat, j: nat)
    requires j < h <= |e| && h <= |o|
    requires Pow(rou, h) == Neg(1)
    requires e[j] == Eval(Evens(p), Pow(Mul(rou, rou), j))
    requires o[j] == Eval(Odds(p), Pow(Mul(rou, rou), j))
    ensures Butterfly(e, o, rou, h, j + h) == Eval(p, Pow(rou, j + h))
  {
    var wj := Pow(rou, j);
    var x := Pow(rou, j + h);
    var x2 := Pow(Mul(rou, rou), j);
    PowPastHalf(rou, j, h);
    PowSquare(rou, j);
    NegMul(wj, wj);
    NegMul(Neg(wj), wj);
    NegNeg(Mul(wj, wj));
    assert Mul(x, x) == x2;
    EvalEvenOdd(p, x);
    AddNegMul(e[j], wj, o[j]);
  }

  lemma FftSpecUnfold(p: seq<Fr>, rou: Fr)
    requires |p| >= 2
    ensures FftSpec(p, rou)
         == Butterflies(FftSpec(Evens(p), Mul(rou, rou)), FftSpec(Odds(p), Mul(rou, rou)), rou, |p|)
  {
  }

  /** A length-1 transform holds p(x) at every index. */
  lemma FftBase(p: seq<Fr>, rou: Fr, i: nat)
    requires |p| == 1 && i < |p|
    ensures FftSpec(p, rou)[i] == Eval(p, Pow(rou, i))
  {
    assert p == [p[0]];
    EvalSingleton(p[0], Pow(rou, i));
  }

  /** One level of the recursion: if e and o hold the halves' values at the
    * powers of rou², the butterflies hold p's values at the powers of rou. */
  lemma ButterfliesEvaluate(p: seq<Fr>, rou: Fr, e: seq<Fr>, o: seq<Fr>, i: nat, j: nat)
    requires |p| >= 2 && |p| % 2 == 0 && i < |p| && |e| >= |p| / 2 && |o| >= |p| / 2
    requires j == if i < |p| / 2 then i else i - |p| / 2
    requires Pow(rou, |p| / 2) == Neg(1)
    requires e[j] == Eval(Evens(p), Pow(Mul(rou, rou), j))
    requires o[j] == Eval(Odds(p), Pow(Mul(rou, rou), j))
    ensures Butterflies(e, o, rou, |p|)[i] == Eval(p, Pow(rou, i))
  {
    var h := |p| / 2;
    assert Butterflies(e, o, rou, |p|)[i] == Butterfly(e, o, rou, h, i);
    if i < h {
      ButterflyLow(p, rou, e, o, h, j);
    } else {
      ButterflyHigh(p, rou, e, o, h, j);
    }
  }

  /** Output i of the transform is p(rou^i) (lines 1, 8-37). */
  lemma {:induction false} FftEvaluates(p: seq<Fr>, rou: Fr, i: nat)
    requires IsPowerOfTwo(|p|) && HalfTurn(rou, |p|)
    requires i < |p|
    ensures FftSpec(p, rou)[i] == Eval(p, Pow(rou, i))
    decreases |p|
  {
    var n := |p|;
    if n == 1 {
      FftBase(p, rou, i);
    } else {
      var h, sq := n / 2, Mul(rou, rou);
      var e, o := FftSpec(Evens(p), sq), FftSpec(Odds(p), sq);
      HalfTurnSquare(rou, n);
      var j := if i < h then i else i - h;
      FftEvaluates(Evens(p), sq, j);
      FftEvaluates(Odds(p), sq, j);
      FftSpecUnfold(p, rou);
      ButterfliesEvaluate(p, rou, e, o, i, j);
    }
  }

}
