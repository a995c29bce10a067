/**
 * Facts about integer division and remainder by a positive modulus m, stated once
 * for an arbitrary m so that the field module can use them for its prime.
 * Dafny's `/` and `%` are Euclidean: for m > 0 the remainder lies in [0, m).
 */
module Arith {

  lemma MulSign(d: int, m: int)
    requires m > 0
    ensures d >= 1 ==> d * m >= m
    ensures d <= -1 ==> d * m <= -m
  {
  }

  /** Quotient and remainder are unique. */
  lemma ModUnique(x: int, m: int, q: int, r: int)
    requires m > 0 && 0 <= r < m && x == q * m + r
    ensures x % m == r && x / m == q
  {
    var d := x / m - q;
    assert d * m == (x / m) * m - q * m;
    MulSign(d, m);
  }

  lemma ModSmall(x: int, m: int)
    requires 0 <= x < m
    ensures x % m == x
  {
    ModUnique(x, m, 0, x);
  }

  lemma ModShift(x: int, k: int, m: int)
    requires m > 0
    ensures (x + k * m) % m == x % m
  {
    assert x + k * m == (x / m + k) * m + x % m;
    ModUnique(x + k * m, m, x / m + k, x % m);
  }

  lemma ModAddLeft(u: int, v: int, m: int)
    requires m > 0
    ensures (u % m + v) % m == (u + v) % m
  {
    assert u + v == (u % m + v) + (u / m) * m;
    ModShift(u % m + v, u / m, m);
  }

  lemma ModMulLeft(u: int, v: int, m: int)
    requires m > 0
    ensures ((u % m) * v) % m == (u * v) % m
  {
    var a, r := u / m, u % m;
    assert u * v == r * v + (a * v) * m by {
      assert u == a * m + r;
    }
    ModShift(r * v, a * v, m);
  }

  lemma ModMulRight(a: int, u: int, m: int)
    requires m > 0
    ensures (a * (u % m)) % m == (a * u) % m
  {
    ModMulLeft(u, a, m);
    assert a * (u % m) == (u % m) * a;
    assert a * u == u * a;
  }

  /** a·(b + c) mod m == (a·b mod m + a·c mod m) mod m, with b + c reduced first. */
  lemma ModDistribAdd(a: int, b: int, c: int, m: int)
    requires m > 0
    ensures (a * ((b + c) % m)) % m == ((a * b) % m + (a * c) % m) % m
  {
    ModMulRight(a, b + c, m);
    MulAddLeft(a, b, c);
    ModAddLeft(a * b, a * c, m);
    ModAddLeft(a * c, (a * b) % m, m);
  }

  /** a·(b - c) mod m == (a·b mod m - a·c mod m) mod m, with b - c reduced first. */
  lemma ModDistribSub(a: int, b: int, c: int, m: int)
    requires m > 0
    ensures (a * ((b - c) % m)) % m == ((a * b) % m - (a * c) % m) % m
  {
    ModMulRight(a, b - c, m);
    MulSubLeft(a, b, c);
    ModSubRight(a * b, a * c, m);
    ModAddLeft(a * b, 0 - (a * c) % m, m);
  }

  lemma ModSubRight(u: int, v: int, m: int)
    requires m > 0
    ensures (u - v % m) % m == (u - v) % m
  {
    assert u - v == (u - v % m) + (0 - v / m) * m;
    ModShift(u - v % m, 0 - v / m, m);
  }

  lemma MulAddLeft(a: int, b: int, c: int)
    ensures a * (b + c) == a * b + a * c
  {
  }

  lemma MulSubLeft(a: int, b: int, c: int)
    ensures a * (b - c) == a * b - a * c
  {
  }

  lemma MulNegLeft(a: int, b: int)
    ensures (0 - a) * b == 0 - a * b
  {
  }

  /** A positive multiple of d is at least d. */
  lemma MultipleBounds(k: int, d: int)
    requires d > 0
    ensures k * d > 0 ==> k >= 1 && k * d >= d
    ensures k * d < 0 ==> k <= -1
  {
    MulSign(k, d);
  }

  /** d divides k·d. */
  lemma ModOfMultiple(k: int, d: int)
    requires d > 0
    ensures (k * d) % d == 0
  {
    ModUnique(k * d, d, k, 0);
  }
}
