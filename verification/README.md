# KZG polynomial commitments: the field and polynomial core in Dafny

This project models the algebraic core of a small Rust implementation of the
KZG (Kate–Zaverucha–Goldberg) polynomial commitment scheme over the BN254
scalar field:

- the recursive radix-2 FFT that evaluates a polynomial on the powers of a root
  of unity;
- the barycentric evaluator built on it;
- the `Evaluation` wrapper around a field value;
- the `u32` polynomial evaluator, including overflow;
- the polynomial side of the single-point prover: the numerator `p - y`, the
  divisor `X - z`, and the commitment loops over the setup;
- the polynomial side of the multi-point prover: the opened values, the zero
  polynomial `Π (X - z_i)`, and the four commitment loops.

The scalar field `Fr` is the integers modulo the BN254 scalar modulus `P`
(`field.dfy`). Inversion is extended Euclid and returns `None` where the source
would `unwrap` a failed `invert()`. Each of these panics of the source (`unwrap`
on a failed inverse, an index past the end of the setup, a `u32` overflow in a
debug build, the `u32` index conversion of the polynomial evaluator) is an
`Option` that is `None`. The exceptions, the index conversions of the FFT and
the barycentric evaluator and the non-terminating FFT on an empty input, are
listed under "## Left out". Lemmas that need `P` to be prime say so
with `requires IsPrime(P)`.

Group elements are generic. A commitment loop folds a `Group<G>` (generator,
addition, scalar multiplication) over the setup. Instantiating the group with
the scalar field itself (`Commitments.Scalars()`, an element represented by its
discrete logarithm) gives the statements "in the exponent" that the pairing
equations check.

Files: `arith.dfy` (integer facts), `field.dfy` (`Fr`, inverse, powers),
`sums.dfy` (finite sums), `poly.dfy` (evaluation and convolution),
`roots.dfy` (roots of unity), `fft.dfy`, `barycentric.dfy`, `evaluation.dfy`,
`intpoly.dfy`, `commitment.dfy`, `kzg.dfy`, `multiproof.dfy`.

## Model

| member | source | states |
|---|---|---|
| Fourier.Split | src/kzg_tools/fft.rs:15-24 | the enumerate loop puts indices 0,2,4,… into `even` and 1,3,5,… into `odd`, in order |
| Fourier.SplitKeepsAll | src/kzg_tools/fft.rs:18-24 | every coefficient i lands in exactly one half, at position i/2, and the halves' lengths add up to the input's |
| Fourier.FftSpec | src/kzg_tools/fft.rs:8-37 | the transform has the input's length for every length ≥ 1, odd lengths included |
| Fourier.Fft | src/kzg_tools/fft.rs:8-37 | the recursion on rou² and the in-place butterfly loop into a zeroed vector produce exactly the reference transform |
| Fourier.ButterflyLoop | src/kzg_tools/fft.rs:29-34 | the zeroed vector after the butterfly loop holds E[i] + rou^i·O[i] at i and E[i] - rou^i·O[i] at i + n/2 for every i < n/2, and zero in the last slot of an odd length |
| Fourier.FftSingleton | src/kzg_tools/fft.rs:12-13 | a length-1 input is returned unchanged |
| Fourier.EvalEvenOdd | src/kzg_tools/fft.rs:18-27 | p(x) = E(x²) + x·O(x²) for the even and odd halves |
| Fourier.ButterflyLow | src/kzg_tools/fft.rs:29-31 | `out[i] = E[i] + rou^i·O[i]` is p(rou^i) when the halves hold their values at rou^(2i) |
| Fourier.ButterflyHigh | src/kzg_tools/fft.rs:29-34 | `out[i + n/2] = E[i] - rou^i·O[i]` is p(rou^(i+n/2)) when rou^(n/2) = -1 |
| Fourier.ButterfliesEvaluate | src/kzg_tools/fft.rs:26-34 | one level of the recursion: if the half-size transforms hold the halves' values at the powers of rou², the butterflies hold p's values at the powers of rou |
| Fourier.FftEvaluates | src/kzg_tools/fft.rs:1-37 | for power-of-two length and rou^(n/2) = -1, output i is p(rou^i) = Σ_j p[j]·rou^(ij) |
| Barycentric.Barycentric | src/kzg_tools/barycentric.rs:9-33 | the term loop and the summing loop return `((x^n - 1)·n⁻¹)·Σ_i y_i·rou^i·(x - rou^i)⁻¹` with y the FFT output, and fail exactly where an inverse is unwrapped |
| Barycentric.CollectTerms | src/kzg_tools/barycentric.rs:14-20 | the term loop succeeds exactly when every x - rou^i has an inverse, and then holds y_i·rou^i·(x - rou^i)⁻¹ at every index i |
| Barycentric.SumTerms | src/kzg_tools/barycentric.rs:22-26 | the summing loop returns the sum of all pushed terms |
| Barycentric.InverseDft | src/kzg_tools/barycentric.rs:9-33 | from the values y_i = p(rou^i), Σ_i y_i·rou^(im) = n·p[n-m] for 1 ≤ m ≤ n: the inverse transform the evaluator relies on |
| Barycentric.BarycentricFailsOnDomain | src/kzg_tools/barycentric.rs:15-18 | it fails when x = rou^i for some i < n |
| Barycentric.BarycentricFailsOnZeroLength | src/kzg_tools/barycentric.rs:29-30 | it fails when n is 0 in the field |
| Barycentric.BarycentricSomeIff | src/kzg_tools/barycentric.rs:14-30 | over a prime field it returns exactly when x is no domain point and n is not 0 in the field |
| Barycentric.BarycentricZeroAtRootOfUnity | src/kzg_tools/barycentric.rs:28-31 | when x^n = 1 and it returns, the result is 0 |
| Barycentric.BarycentricEvaluates | src/kzg_tools/barycentric.rs:9-33 | for power-of-two n and rou^(n/2) = -1, whenever it returns, the result is p(x) |
| Barycentric.BarycentricFailsAtOne | src/kzg_tools/barycentric.rs:14-18 | x = 1 = rou^0 is always a domain point, so p(1) is never returned |
| Barycentric.BarycentricCorrectedEvaluates | src/kzg_tools/barycentric.rs:9-33 | returning y_i at a domain point rou^i, the corrected evaluator gives p(x) for every x |
| Field.Invert | src/kzg_tools/evaluation.rs:25 | the inverse exists exactly when x is coprime to P, and then x·x⁻¹ = 1 |
| Field.InvertOne | src/kzg_tools/evaluation.rs:25 | the inverse of 1 exists and is 1, for any modulus |
| Evaluations.Evaluation.Add | src/kzg_tools/evaluation.rs:12-14 | the sum is the value from which subtracting rhs gives back self |
| Evaluations.Evaluation.Sub | src/kzg_tools/evaluation.rs:16-18 | the difference is the value to which adding rhs gives back self |
| Evaluations.Evaluation.Div | src/kzg_tools/evaluation.rs:24-26 | the quotient exists exactly when the divider is invertible, and multiplied by the divider it gives back self |
| Evaluations.AddSubRoundTrip | src/kzg_tools/evaluation.rs:12-18 | `a.add(b).sub(b) == a` and `a.sub(b).add(b) == a` |
| Evaluations.Evaluation.Mul | src/kzg_tools/evaluation.rs:20-22 | the product is the value that multiplying by the inverse of an invertible rhs turns back into self; `MulLaws` fixes it for every rhs, zero included |
| Evaluations.MulDivRoundTrip | src/kzg_tools/evaluation.rs:20-26 | `a.mul(b).div(b) == a` for every invertible b |
| Evaluations.MulLaws | src/kzg_tools/evaluation.rs:20-22 | multiplication commutes, has `Evaluation(1)` as identity, sends a zero rhs to zero and distributes over `add` |
| Evaluations.DivByOne | src/kzg_tools/evaluation.rs:24-26 | dividing by one succeeds and returns the dividend, since 1 is its own inverse |
| Evaluations.DivByZeroFails | src/kzg_tools/evaluation.rs:25 | dividing by zero fails |
| Evaluations.DivSomeIff | src/kzg_tools/evaluation.rs:24-26 | over a prime field, division fails exactly on a zero divider |
| IntPolynomials.Eval | src/kzg_tools/polynomial.rs:12-19 | in a debug build: returns exactly when the exponent, the largest power and the sum stay below 2^32, and then returns Σ_i c_i·v^i |
| IntPolynomials.EvalWrapping | src/kzg_tools/polynomial.rs:12-19 | in a release build: returns exactly when there are at most 2^32 coefficients, since `i.try_into().unwrap()` still panics from index 2^32, and then returns Σ_i c_i·v^i modulo 2^32 |
| IntPolynomials.EvalEmpty | src/kzg_tools/polynomial.rs:13-18 | no coefficients: returns 0 without overflow |
| IntPolynomials.EvalAtZero | src/kzg_tools/polynomial.rs:15-17 | at 0 the result is the constant coefficient, since 0^0 = 1, without overflow |
| IntPolynomials.BuildsAgree | src/kzg_tools/polynomial.rs:12-19 | whenever the debug build returns, the release build returns too, and with the same value |
| Poly.EvalLinearFactor | src/kzg.rs:36-38 | `[-z, 1]` evaluates to x - z |
| Poly.EvalMulLinearFactor | src/kzg_multiproof.rs:38-39 | `[-z, 1].mul_poly(b)` evaluates to (x - z)·b(x) |
| Poly.MulLinearFactorTop | src/kzg_multiproof.rs:38-39 | multiplying by `[-z, 1]` adds one coefficient and keeps the top coefficient |
| Commitments.Commit | src/kzg.rs:40-49 | a commitment loop fails exactly when the setup is shorter than the coefficients, and otherwise folds `setup[i]·coeff[i]` from `generator·0` |
| Commitments.CommitmentInExponent | src/kzg.rs:45-49 | against a setup of powers of s, the commitment to p is p(s) |
| Kzg.BuildNumerator | src/kzg.rs:29-35 | fails exactly on an empty p; otherwise num has p's length, num[0] = p[0] - y and num[i] = p[i] for i ≥ 1 |
| Kzg.BuildDivisor | src/kzg.rs:36-38 | den is `[-z, 1]`, the factor X - z |
| Kzg.NumeratorEval | src/kzg.rs:29-35 | num(x) = p(x) - y at every x |
| Kzg.NumeratorRoot | src/kzg.rs:22-31 | z is a root of num exactly when y = p(z) |
| Kzg.DivisorRoot | src/kzg.rs:36-38 | X - z vanishes at z and nowhere else |
| Kzg.Prove | src/kzg.rs:26-57 | the prover fails exactly when p is empty, the division fails, or the setup is shorter than q or p; otherwise the proof is (commitment to p, commitment to q, p(z)) |
| Kzg.OpeningIdentity | src/kzg.rs:39-49 | with an exact quotient and a setup of powers of s, π·(s - z) = C - y, the exponent form of the pairing check |
| Kzg.WrongClaimRejected | src/kzg.rs:60-71 | for any claim y ≠ p(z), π·(s - z) ≠ C - y |
| MultiProofs.EvaluateAt | src/kzg_multiproof.rs:28-33 | one value per opening point, in order, with `y_points[i] = p(z_points[i])` |
| MultiProofs.ZeroPoly | src/kzg_multiproof.rs:35-40 | after k points Z has k+1 coefficients and leading coefficient 1 |
| MultiProofs.BuildZeroPolynomial | src/kzg_multiproof.rs:35-40 | the loop from `[1]` multiplying by `[-z_i, 1]` builds Z |
| MultiProofs.ZeroPolyEval | src/kzg_multiproof.rs:21-24 | Z(x) = Π_i (x - z_i) |
| MultiProofs.ZeroPolyVanishes | src/kzg_multiproof.rs:21-25 | Z(z_i) = 0 for every opening point |
| MultiProofs.ZeroPolyRoots | src/kzg_multiproof.rs:21-25 | over a prime field, the roots of Z are exactly the opening points |
| MultiProofs.MultiProve | src/kzg_multiproof.rs:26-76 | fails exactly when interpolation fails, the quotient (p - I) / Z fails, `s_g2` has fewer than k+1 entries, or `s_g1` is shorter than Q, p or I; otherwise the proof holds the four commitments |

## Left out

- Pairings, curve arithmetic, generators and affine conversion come from a foreign library. The verifiers (src/kzg.rs:62-72, src/kzg_multiproof.rs:79-89) are only a pairing equation, so they are not modelled. The group enters the commitment loops as a parameter. `Kzg.OpeningIdentity` and `Kzg.WrongClaimRejected` state the single-point equation in the exponent.
- src/kzg_tools/trusted_setup.rs is not part of this model. It draws a random secret and does curve operations. The setup is a parameter, and `Commitments.PowersOf` describes its shape.
- `create_polynomial` draws random coefficients, so the committed polynomial is a parameter.
- `div_poly`, `lagrange` and `sub_poly` are not part of this model. They enter `Kzg.Prove` and `MultiProofs.MultiProve` as function parameters that return `None` where they fail (for example interpolation on repeated points, or a divisor of higher degree than the dividend). When such a helper fails is therefore not stated; a prover also fails whenever one of them does.
- MultiProofs.MultiProve: the exponent identity Q(s)·Z(s) = p(s) - I(s) for the multi-point verifier is not proved. It needs `sub_poly`, and a statement that evaluating a general product gives the product of evaluations; the model proves this only for linear factors.
- The field-typed `Polynomial::eval` and `mul_poly` are called but their code is not part of this model. They are defined by their meaning: Σ c_i·x^i (the same sum as the `u32` evaluator) and discrete convolution.
- Field internals (Montgomery form, `square`, `from_u128`, encodings) are reduced to arithmetic modulo P. `rou.square()` is `Mul(rou, rou)`. That P is prime is not proved here; the lemmas that need it say so.
- Fourier.Fft: an empty input is excluded by `requires |p| >= 1`, because the source recursion never reaches its `len == 1` stop on an empty vector.
- Barycentric.Barycentric: an empty input is excluded for the same reason, since it calls `fft` first.
- Fourier.Fft: the conversion of the loop index to `u32` (fft.rs:30) is not modelled; exponents are unbounded naturals.
- Barycentric.Barycentric: the same applies to the `try_into` conversions of indices and of the length at barycentric.rs:15, 28 and 29.
- Tests that draw random points (`Fr::random(thread_rng())`) are not modelled.
- The draft type mismatches between modules (`Vec<Fr>` passed where a `Polynomial` is expected, two different `pow` imports, a tuple-returning `trusted_setup` beside a struct) are not modelled. One `seq<Fr>` representation is used throughout.
- The source has no dedicated error values and checks few of its preconditions:
  - A too-short setup is an index panic, not a dedicated error.
  - The multi-point prover never checks `k < degree`; only its test asserts it (src/kzg_multiproof.rs:105-109). The model has no statement about that condition: a too-large k shows up only as a failing quotient helper.
  - Neither prover checks that the division leaves no remainder, since both keep only `.0` of `div_poly`.
  - An on-domain point makes the barycentric evaluator panic (see Findings).

## Findings

| source | as written | input that shows it | evidently intended | confidence | as-written member | corrected member |
|---|---|---|---|---|---|---|
| src/kzg_tools/barycentric.rs:14-18 | every domain point x = rou^i makes `(x - rou^i).invert().unwrap()` panic; x = 1 = rou^0 is one for every rou and n | any p with n ≥ 1, any rou, x = 1 | evaluate p at every x, returning the stored FFT value y_i when x = rou^i | not executed | Barycentric.BarycentricFailsAtOne | Barycentric.BarycentricCorrectedEvaluates |
