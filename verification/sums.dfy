/**
 * Finite sums over the scalar field, Σ_{i<n} f(i), and the algebra of rearranging
 * them. The FFT and barycentric proofs are carried out with these.
 */
module Sums {
  import opened Field

  /** Σ_{i<n} f(i), accumulated left to right from zero. */
  function Sum(n: nat, f: nat -> Fr): Fr
    decreases n
  {
    if n == 0 then 0 else Add(Sum(n - 1, f), f(n - 1))
  }

  lemma {:induction false} SumExt(n: nat, f: nat -> Fr, g: nat -> Fr)
    requires forall i :: 0 <= i < n ==> f(i) == g(i)
    ensures Sum(n, f) == Sum(n, g)
    decreases n
  {
    if n > 0 { SumExt(n - 1, f, g); }
  }

  lemma {:induction false} SumZero(n: nat, f: nat -> Fr)
    requires forall i :: 0 <= i < n ==> f(i) == 0
    ensures Sum(n, f) == 0
    decreases n
  {
    if n > 0 { SumZero(n - 1, f); }
  }

  /** Adding n ones gives n. */
  lemma {:induction false} SumOnes(n: nat, f: nat -> Fr)
    requires forall i :: 0 <= i < n ==> f(i) == 1
    ensures Sum(n, f) == FromNat(n)
    decreases n
  {
    if n > 0 {
      SumOnes(n - 1, f);
      Arith.ModAddLeft(n - 1, 1, P);
    }
  }

  /** A sum whose terms vanish except at k is its k-th term. */
  lemma {:induction false} SumSingle(n: nat, k: nat, f: nat -> Fr)
    requires k < n
    requires forall i :: 0 <= i < n && i != k ==> f(i) == 0
    ensures Sum(n, f) == f(k)
    decreases n
  {
    if k == n - 1 {
      SumZero(n - 1, f);
      AddZero(f(k));
    } else {
      SumSingle(n - 1, k, f);
      AddZero(Sum(n - 1, f));
    }
  }

  lemma {:induction false} SumAdd(n: nat, f: nat -> Fr, g: nat -> Fr, h: nat -> Fr)
    requires forall i :: 0 <= i < n ==> h(i) == Add(f(i), g(i))
    ensures Sum(n, h) == Add(Sum(n, f), Sum(n, g))
    decreases n
  {
    if n > 0 {
      SumAdd(n - 1, f, g, h);
      var a, b, c, d := Sum(n - 1, f), Sum(n - 1, g), f(n - 1), g(n - 1);
      calc {
        Add(Add(a, b), Add(c, d));
        { AddAssoc(a, b, Add(c, d)); }
        Add(a, Add(b, Add(c, d)));
        { AddAssoc(b, c, d); AddComm(b, c); AddAssoc(c, b, d); }
        Add(a, Add(c, Add(b, d)));
        { AddAssoc(a, c, Add(b, d)); }
        Add(Add(a, c), Add(b, d));
      }
    }
  }

  /** Multiplying every term by c multiplies the sum by c. */
  lemma {:induction false} SumScale(n: nat, c: Fr, f: nat -> Fr, g: nat -> Fr)
    requires forall i :: 0 <= i < n ==> g(i) == Mul(c, f(i))
    ensures Sum(n, g) == Mul(c, Sum(n, f))
    decreases n
  {
    if n > 0 {
      SumScale(n - 1, c, f, g);
      Distrib(c, Sum(n - 1, f), f(n - 1));
    }
  }

  /** Σ_{i<a+b} f(i) == Σ_{i<a} f(i) + Σ_{i<b} f(a+i). */
  lemma {:induction false} SumSplit(a: nat, b: nat, f: nat -> Fr, g: nat -> Fr)
    requires forall i :: 0 <= i < b ==> g(i) == f(a + i)
    ensures Sum(a + b, f) == Add(Sum(a, f), Sum(b, g))
    decreases b
  {
    if b == 0 {
      AddZero(Sum(a, f));
    } else {
      SumSplit(a, b - 1, f, g);
      AddAssoc(Sum(a, f), Sum(b - 1, g), g(b - 1));
    }
  }

  /** Summing in reverse order gives the same total. */
  lemma {:induction false} SumReverse(n: nat, f: nat -> Fr, g: nat -> Fr)
    requires forall i :: 0 <= i < n ==> g(i) == f(n - 1 - i)
    ensures Sum(n, g) == Sum(n, f)
    decreases n
  {
    if n > 0 {
      // g = [f(n-1)] ++ reverse of f on [0, n-1)
      var g' := (i: nat) => g(i + 1);
      forall i | 0 <= i < n - 1
        ensures g'(i) == f(n - 2 - i)
      {
        assert g'(i) == g(i + 1);
      }
      SumSplit(1, n - 1, g, g');
      SumReverse(n - 1, f, g');
      AddZero(g(0));
      AddComm(g(0), Sum(n - 1, f));
    }
  }

  /** Σ_i f(i)(j) as a function of j. */
  function ColumnSums(n: nat, f: nat -> nat -> Fr): nat -> Fr {
    j => Sum(n, Column(f, j))
  }

  function Column(f: nat -> nat -> Fr, j: nat): nat -> Fr {
    i => f(i)(j)
  }

  function RowSums(m: nat, f: nat -> nat -> Fr): nat -> Fr {
    i => Sum(m, f(i))
  }

  /** The order of a double sum can be exchanged. */
  lemma {:induction false} SumSwap(n: nat, m: nat, f: nat -> nat -> Fr)
    ensures Sum(n, RowSums(m, f)) == Sum(m, ColumnSums(n, f))
    decreases n
  {
    if n == 0 {
      SumZero(m, ColumnSums(0, f));
    } else {
      SumSwap(n - 1, m, f);
      forall j | 0 <= j < m
        ensures ColumnSums(n, f)(j) == Add(ColumnSums(n - 1, f)(j), f(n - 1)(j))
      {
      }
      SumAdd(m, ColumnSums(n - 1, f), f(n - 1), ColumnSums(n, f));
    }
  }
}
