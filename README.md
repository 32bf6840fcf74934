# Cornacchia's algorithm and the norm-form arithmetic of KLPT

This project is a Dafny model of two parts of the KLPT quaternion-ideal code.

- **`cornacchia(d, m)`** finds a primitive solution of x² + d·y² = m. It rejects m ≤ 0 and d = 0. It returns None when −d is not a square modulo m. Otherwise it runs a truncated Euclidean algorithm from (m, √−d mod m) down to the first remainder x with x² < m. It accepts x when (m − x²)/d is an integer perfect square.
- **The norm-form helpers of `kplt.py`**:
  - `f`, the principal form x² + q·y²;
  - `one_norm`, the 1-norm of a coefficient tuple;
  - `is_minkowski_basis`;
  - `normalized_norm`, the quotient N(α)/N(I);
  - `element_of_norm`. It samples x₂, y₂ in [−10000, 10000] and sets r = M − p·f(x₂, y₂, q). When r is prime it asks Cornacchia for f(x₁, y₁, q) = r and returns x₁ + y₁·i + (x₂ + y₂·i)·j, an element of reduced norm M.

Modules:

- `Wrappers`: Option and Result.
- `NumberTheory`: gcd, primality, integer square root, modular square roots, and primitivity of representations of a prime.
- `Cornacchia`: `src/cornacchia.py`.
- `QuaternionAlgebra`: elements t + x·i + y·j + z·k of the algebra with i² = a and j² = b, with exact rational coefficients (`real`). It has addition, scaling, right multiplication by j, the coefficient tuple and the reduced norm t² − a·x² − b·y² + a·b·z².
- `Kplt`: the functions of `src/kplt.py` listed above.

Inputs that come from outside the code are parameters:

- The modular square root of −d is an input `root: Option<int>` constrained by `SquareRootAnswer`: a root in [0, m) when there is one, None when there is none. In `ElementOfNorm` it is a function `sqrtMod` that answers correctly for every input.
- The random source is a sequence of raw draws. `RandomElement(lo, hi, raw)` maps each draw into [lo, hi).
- The norm of the ideal is a positive rational `idealNorm`.

## Model

| member | source | states |
|---|---|---|
| Cornacchia.ReducedRemainder | src/cornacchia.py:28-33 | the remainder the reduction stops at is at most the starting root and its square is below m |
| Cornacchia.Accept | src/cornacchia.py:33-41 | the acceptance test only answers None or a pair (x, y) with y ≥ 0 and x² + d·y² = m; a non-integral or non-square quotient gives None, never an error |
| Cornacchia.AcceptIsExact | src/cornacchia.py:34-41 | the test misses nothing: whenever some integer y completes x to a solution, x is accepted with \|y\| |
| Cornacchia.Candidate | src/cornacchia.py:19-41 | everything before the closing assertion: it never fails an assertion, and every pair it returns solves the equation with x² < m |
| Cornacchia.CornacchiaAsWritten | src/cornacchia.py:19-43 | the procedure as written: the assertion fails exactly when the candidate is a pair with gcd ≠ 1; otherwise the result is the candidate, so a pair it returns solves the equation and is primitive |
| Cornacchia.CornacchiaSpec | src/cornacchia.py:5-43 | the corrected procedure: it raises exactly when m ≤ 0 or d = 0, and raises the m error exactly when m ≤ 0; with no square root of −d mod m it returns None; a returned pair solves x² + d·y² = m, has x² < m and gcd(x, y) = 1; it never fails an assertion |
| Cornacchia.Cornacchia | src/cornacchia.py:19-43 | the imperative procedure, with its Euclidean loop proved to terminate, returns the corrected result, so any pair it returns is a primitive solution |
| Cornacchia.NegativeCoefficientNeverSolves | src/cornacchia.py:33-41 | for d < 0 no pair is ever returned, since x² < m leaves (m − x²)/d negative |
| Cornacchia.AsWrittenAgreesOnPrimeModulus | src/cornacchia.py:42 | for a prime m the closing assertion cannot fail, and the code as written equals the corrected procedure |
| Cornacchia.RootsOfMinusSevenModTwentyEight | src/cornacchia.py:25-29 | the square roots of −7 modulo 28 are exactly 7 and 21 |
| Cornacchia.SevenAndTwentyEightHaveNoPrimitiveSolution | src/cornacchia.py:6 | the only solutions of x² + 7y² = 28 are (0, ±2), none of them primitive |
| Cornacchia.AsWrittenFailsOnSevenAndTwentyEight | src/cornacchia.py:42 | for d = 7, m = 28 and either root, the reduction yields (0, 2), so the code as written fails its assertion while the corrected procedure answers None |
| Cornacchia.RootsOfMinusTwoModTwentyTwo | src/cornacchia.py:25-29 | the square roots of −2 modulo 22 are exactly 8 and 14 |
| Cornacchia.TwoAndTwentyTwoGiveTwoThree | src/cornacchia_test.py:11-21 | for d = 2, m = 22, whichever square root of −2 the library returns (only 8 or 14 exist), the answer is the primitive solution (2, 3) |
| Cornacchia.SpecFindsPrimitiveCandidate | src/cornacchia.py:5-8 | the corrected procedure misses nothing reachable from the root: when the reduced remainder x completes to a solution (x, y) with gcd(x, \|y\|) = 1, it returns (x, \|y\|) |
| NumberTheory.FloorSqrt | src/cornacchia.py:38-41 | the integer square root s satisfies s² ≤ n < (s + 1)² |
| NumberTheory.FloorSqrtOfSquare | src/cornacchia.py:38-41 | y² is a perfect square and its root is \|y\| |
| NumberTheory.GcdDivides | src/cornacchia.py:42 | gcd(a, b) is 0 only when a = b = 0, and otherwise divides both |
| NumberTheory.GcdGreatest | src/cornacchia.py:42 | every positive common divisor of a and b divides gcd(a, b), so gcd = 1 means primitive |
| NumberTheory.PrimeSumIsPrimitive | src/cornacchia.py:42 | any representation x² + d·y² of a prime has gcd(x, y) = 1 |
| QuaternionAlgebra.NormMulJ | src/kplt.py:150 | right multiplication by j multiplies the reduced norm by −b |
| QuaternionAlgebra.NormSplit | src/kplt.py:147-150 | for α, β in the subfield spanned by 1 and i, N(α + β·j) = N(α) − b·N(β) |
| Kplt.F | src/kplt.py:77-87 | f(x, y, q) is non-negative when q ≥ 0, and for q > 0 it is 0 exactly at (0, 0) |
| Kplt.PrincipalFormIsNorm | src/kplt.py:142 | f(x, y, −a) is the reduced norm of x + y·i |
| Kplt.SumAbsZero | src/kplt.py:30 | a sum of absolute values is 0 exactly when every term is 0 |
| Kplt.OneNorm | src/kplt.py:22-30 | the 1-norm is non-negative |
| Kplt.OneNormZero | src/kplt.py:22-30 | the 1-norm is 0 exactly for the zero element |
| Kplt.OneNormTriangle | src/kplt.py:22-30 | the 1-norm is subadditive |
| Kplt.OneNormScale | src/kplt.py:22-30 | the 1-norm is absolutely homogeneous |
| Kplt.SumExceptDropsEveryCopy | src/kplt.py:38 | the sum over the elements different from v is the whole sum minus every copy of v |
| Kplt.AllShortFrom | src/kplt.py:36-39 | `all(...)` from position k: when every element has another one, the answer is whether every element is no longer than the sum of the others; at the first element that has no other one, it raises |
| Kplt.IsMinkowskiBasis | src/kplt.py:33-39 | raises exactly when the basis is non-empty with all elements equal; otherwise true exactly when every element's 1-norm is at most the 1-norm of the sum of the elements different from it |
| Kplt.MinkowskiBoundsByOtherNorms | src/kplt.py:33-39 | in a Minkowski basis each element's 1-norm is bounded by the sum of the 1-norms of the elements different from it |
| Kplt.OneNormOfSumExcept | src/kplt.py:37-38 | the 1-norm of the sum over the other elements is at most the sum of their 1-norms |
| Kplt.NormalizedNorm | src/kplt.py:7-19 | an integer result n satisfies n·N(I) = N(α); it raises exactly when no integer does |
| Kplt.NormalizedNormIsQuotient | src/kplt.py:19 | an integer n with n·N(I) = N(α) is the quotient N(α)/N(I) |
| Kplt.ZeroHasNoPrimeNormalizedNorm | src/kplt.py:62-64 | the starting element 0 has normalized norm 0, so the resampling loop always samples at least once |
| Kplt.RandomElement | src/kplt.py:135-136 | a sample lies in [lo, hi) |
| Kplt.RandomElementReachesAll | src/kplt.py:135-136 | every integer in [lo, hi) is the sample of some draw |
| Kplt.Sample | src/kplt.py:129-136 | the sampled x₂, y₂ lie in [−10000, 10000] |
| Kplt.Assemble | src/kplt.py:147-151 | (x₁ + y₁·i) + (x₂ + y₂·i)·j has coefficient tuple (x₁, y₁, x₂, y₂) |
| Kplt.AssembledNorm | src/kplt.py:147-150 | the assembled element has reduced norm f(x₁, y₁, q) + p·f(x₂, y₂, q) |
| Kplt.ElementOfNorm | src/kplt.py:112-151 | raises exactly when the discriminant is not 3 mod 4. A found element has reduced norm M (the assertion at line 150) and is assembled from x₁, y₁, x₂, y₂ with x₂, y₂ in [−10000, 10000]; f(x₁, y₁, q) = r = M − p·f(x₂, y₂, q) is prime and gcd(x₁, y₁) = 1; it comes from the first successful draw. When the draws run out, none of them succeeds |
| Kplt.SearchAvoidsCornacchiaAssertion | src/kplt.py:139-143 | Cornacchia is only called with a prime r, where its code as written equals the corrected procedure |
| Kplt.AssembledNormDefinite | src/kplt.py:147-151 | in a definite algebra (a, b < 0) the assembled element's norm is ≥ 0 and is 0 only at x₁ = y₁ = x₂ = y₂ = 0 |
| Kplt.SmallNormNeverFound | src/kplt.py:134-145 | in a definite algebra no draw succeeds for M < 2, so the search never ends |

## Left out

- Sage's quaternion algebras, maximal orders and ideals are not modelled. An algebra is its two structure constants and its discriminant. An ideal enters only through its norm. `I.basis()` enters as a sequence of elements.
- `prime_norm_representative` (src/kplt.py:42-74) is not modelled. It builds a Sage ideal and prints a warning, and its sampling loop is unbounded. Only its loop exit condition (`Kplt.HasPrimeNormalizedNorm`) and its starting point are stated.
- `solve_norm_equation` (src/kplt.py:90-109) is a wrapper over Sage's `two_squares`, which is not part of this model. Nothing in the modelled code calls it.
- Primality and the modular square root are not computed the way Sage computes them. Primality is the definition. The square root is an input with its defining property.
- Random numbers are explicit draws. The two samples at src/kplt.py:132-133 are overwritten before they are used, so they are not modelled.
- Kplt.ElementOfNorm: the source loops until a draw succeeds. The model stops with `DrawsExhausted` when its finite sequence of draws runs out, so it proves partial correctness only and makes no claim of termination.
- Kplt.NormalizedNorm: when the quotient is not an integer, the source raises a TypeError from `Integer(...)`. The model returns `Err(NormNotIntegral)` instead of making integrality a precondition.
- Kplt.IsMinkowskiBasis: when every element of a non-empty basis is equal, the sum over the others is Python's integer 0. Calling `one_norm` on it raises an AttributeError. The model returns `Err(NoCoefficientTuple)` at the first position `all` evaluates.
- Kplt.AssembledNormDefinite: definiteness is proved only for the integral elements the search builds, not for every element with rational coefficients.
- The test files, the stress-test timing loop, and the functions the tests import but `src/kplt.py` does not define are not modelled.

## Findings

| source | as written | input that shows it | evidently intended | confidence | as-written member | corrected member |
|---|---|---|---|---|---|---|
| src/cornacchia.py:42 | after accepting x, the code asserts gcd(x, y) = 1, so a non-primitive candidate raises an AssertionError | d = 7, m = 28: the roots of −7 mod 28 are 7 and 21; both reduce to x = 0, and (28 − 0)/7 = 4 gives y = 2, with gcd(0, 2) = 2 | return None, as the docstring promises a primitive solution and x² + 7y² = 28 has none | not executed | Cornacchia.AsWrittenFailsOnSevenAndTwentyEight | Cornacchia.CornacchiaSpec |
