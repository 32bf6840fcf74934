/** Cornacchia's algorithm: a primitive solution (x, y) of x^2 + d*y^2 = m.

    The modular square root of -d that the procedure asks its arithmetic
    library for is an input `root`, constrained by SquareRootAnswer: a root in
    [0, m) when -d is a square modulo m, None when it is not. */
module Cornacchia {
  import opened Wrappers
  import opened NumberTheory

  /** The two input checks that raise a ValueError. */
  datatype InputError = ModulusNotPositive | CoefficientZero

  /** What one call produces: a raised input error, "no solution" (None), a
      pair (x, y), or, in the procedure as written, a failed assertion. */
  datatype Outcome =
    | Raised(error: InputError)
    | NoSolution
    | Solution(x: nat, y: nat)
    | AssertionFailed

  /** (x, y) solves x^2 + d*y^2 = m. */
  predicate Solves(x: int, y: int, d: int, m: int) {
    x * x + d * y * y == m
  }

  /** -d has a square root modulo m. */
  ghost predicate HasRootMod(a: int, m: int) {
    exists r :: IsRootMod(r, a, m)
  }

  /** The truncated Euclidean algorithm started on (prev, curr): the first
      remainder whose square is below m. */
  function ReducedRemainder(prev: int, curr: nat, m: int): (x: nat)
    requires m > 0
    ensures x <= curr && x * x < m
    decreases curr
  {
    if curr * curr < m then curr else ReducedRemainder(curr, prev % curr, m)
  }

  /** The acceptance test: x is kept when (m - x^2)/d is an integer that is a
      perfect square, and y is its non-negative square root. */
  function Accept(d: int, m: int, x: nat): (out: Outcome)
    requires d != 0 && x * x < m
    ensures out == NoSolution || out.Solution?
    ensures out.Solution? ==> out.x == x && Solves(x, out.y, d, m)
  {
    var num := m - x * x;
    if num % d != 0 then NoSolution
    else if !IsSquare(num / d) then NoSolution
    else
      var y := FloorSqrt(num / d);
      assert d * y * y == d * (y * y) == num;
      Solution(x, y)
  }

  /** Everything up to the closing assertion: input validation, the
      quadratic-residue exit, the reduction and the acceptance test. */
  function Candidate(d: int, m: int, root: Option<int>): (out: Outcome)
    requires SquareRootAnswer(root, -d, m)
    ensures !out.AssertionFailed?
    ensures out.Solution? ==> Solves(out.x, out.y, d, m) && out.x * out.x < m
  {
    if m <= 0 then Raised(ModulusNotPositive)
    else if d == 0 then Raised(CoefficientZero)
    else match root
      case None => NoSolution
      case Some(r0) => Accept(d, m, ReducedRemainder(m, r0, m))
  }

  /** The procedure as written: a candidate that is not primitive makes the
      closing assertion fail. */
  function CornacchiaAsWritten(d: int, m: int, root: Option<int>): (out: Outcome)
    requires SquareRootAnswer(root, -d, m)
    ensures var c := Candidate(d, m, root);
      out == AssertionFailed <==> c.Solution? && Gcd(c.x, c.y) != 1
    ensures out != AssertionFailed ==> out == Candidate(d, m, root)
    ensures out.Solution? ==> Solves(out.x, out.y, d, m) && Gcd(out.x, out.y) == 1
  {
    var c := Candidate(d, m, root);
    if c.Solution? && Gcd(c.x, c.y) != 1 then AssertionFailed else c
  }

  /** The corrected procedure: a candidate that is not primitive is reported
      as "no solution", as the documented contract promises. */
  function CornacchiaSpec(d: int, m: int, root: Option<int>): (out: Outcome)
    requires SquareRootAnswer(root, -d, m)
    ensures out.Raised? <==> m <= 0 || d == 0
    ensures out == Raised(ModulusNotPositive) <==> m <= 0
    ensures m > 0 && d != 0 && !HasRootMod(-d, m) ==> out == NoSolution
    ensures out.Solution? ==> Solves(out.x, out.y, d, m) && out.x * out.x < m
    ensures out.Solution? ==> Gcd(out.x, out.y) == 1
    ensures !out.AssertionFailed?
  {
    var c := Candidate(d, m, root);
    if c.Solution? && Gcd(c.x, c.y) != 1 then NoSolution else c
  }

  /** cornacchia(d, m), with the primitivity check made explicit. */
  method Cornacchia(d: int, m: int, root: Option<int>) returns (out: Outcome)
    requires SquareRootAnswer(root, -d, m)
    ensures out == CornacchiaSpec(d, m, root)
    ensures out.Solution? ==> Solves(out.x, out.y, d, m) && Gcd(out.x, out.y) == 1
  {
    if m <= 0 {
      return Raised(ModulusNotPositive);
    }
    if d == 0 {
      return Raised(CoefficientZero);
    }
    if root.None? {
      return NoSolution;
    }
    var prev, curr := m, root.value;
    while curr * curr >= m
      invariant 0 <= curr
      invariant ReducedRemainder(prev, curr, m) == ReducedRemainder(m, root.value, m)
      decreases curr
    {
      prev, curr := curr, prev % curr;
    }
    var x := curr;
    var num := m - x * x;
    if num % d != 0 {
      return NoSolution;
    }
    var ySquared := num / d;
    if !IsSquare(ySquared) {
      return NoSolution;
    }
    var y := FloorSqrt(ySquared);
    if Gcd(x, y) != 1 {
      return NoSolution;
    }
    return Solution(x, y);
  }

  /** The acceptance test is exact: whenever some integer y completes x to a
      solution, x is accepted and the y returned is |y|. */
  lemma AcceptIsExact(d: int, m: int, x: nat, y: int)
    requires d != 0 && x * x < m
    requires Solves(x, y, d, m)
    ensures Accept(d, m, x) == Solution(x, if y < 0 then -y else y)
  {
    var num := m - x * x;
    assert num == d * (y * y);
    ExactQuotient(num, d, y * y);
    FloorSqrtOfSquare(y);
  }

  /** With d < 0 the quotient (m - x^2)/d is negative, so there is never a solution. */
  lemma NegativeCoefficientNeverSolves(d: int, m: int, root: Option<int>)
    requires d < 0 && SquareRootAnswer(root, -d, m)
    ensures !CornacchiaSpec(d, m, root).Solution?
    ensures !CornacchiaAsWritten(d, m, root).Solution?
  {
  }

  /** For a prime modulus every candidate is primitive, so the closing
      assertion never fails and the procedure as written agrees with the
      corrected one. */
  lemma AsWrittenAgreesOnPrimeModulus(d: int, m: int, root: Option<int>)
    requires IsPrime(m) && SquareRootAnswer(root, -d, m)
    ensures CornacchiaAsWritten(d, m, root) == CornacchiaSpec(d, m, root)
    ensures !CornacchiaAsWritten(d, m, root).AssertionFailed?
  {
    var c := Candidate(d, m, root);
    if c.Solution? {
      PrimeSumIsPrimitive(c.x, c.y, d, m);
    }
  }

  /** The square roots of -7 modulo 28 are 7 and 21. */
  lemma RootsOfMinusSevenModTwentyEight(r: int)
    ensures IsRootMod(r, -7, 28) <==> r == 7 || r == 21
  {
    if 0 <= r < 28 {
      assert r == 0 || r == 1 || r == 2 || r == 3 || r == 4 || r == 5 || r == 6
        || r == 7 || r == 8 || r == 9 || r == 10 || r == 11 || r == 12 || r == 13
        || r == 14 || r == 15 || r == 16 || r == 17 || r == 18 || r == 19 || r == 20
        || r == 21 || r == 22 || r == 23 || r == 24 || r == 25 || r == 26 || r == 27;
    }
  }

  /** The only integer solutions of x^2 + 7*y^2 = 28 are (0, 2) and (0, -2):
      none of them is primitive. */
  lemma SevenAndTwentyEightHaveNoPrimitiveSolution(x: int, y: int)
    requires Solves(x, y, 7, 28)
    ensures x == 0 && (y == 2 || y == -2)
  {
    var ax, ay := (if x < 0 then -x else x), (if y < 0 then -y else y);
    assert ax * ax == x * x && ay * ay == y * y;
    if ay >= 3 {
      SquareMonotone(3, ay);
    }
    assert ay <= 2;
    if ax >= 6 {
      SquareMonotone(6, ax);
    }
    assert ax <= 5;
    assert ax == 0 || ax == 1 || ax == 2 || ax == 3 || ax == 4 || ax == 5;
    assert ay == 0 || ay == 1 || ay == 2;
  }

  /** cornacchia(7, 28) with either square root of -7 modulo 28 reaches the
      candidate (0, 2), whose gcd is 2: the assertion written as the last step
      fails, where the corrected procedure answers "no solution". */
  lemma AsWrittenFailsOnSevenAndTwentyEight(r0: int)
    requires IsRootMod(r0, -7, 28)
    ensures Candidate(7, 28, Some(r0)) == Solution(0, 2)
    ensures CornacchiaAsWritten(7, 28, Some(r0)) == AssertionFailed
    ensures CornacchiaSpec(7, 28, Some(r0)) == NoSolution
  {
    RootsOfMinusSevenModTwentyEight(r0);
    assert ReducedRemainder(28, r0, 28) == 0;
    assert FloorSqrt(4) == 2 by {
      FloorSqrtOfSquare(2);
    }
  }

  /** The square roots of -2 modulo 22 are 8 and 14. */
  lemma RootsOfMinusTwoModTwentyTwo(r: int)
    ensures IsRootMod(r, -2, 22) <==> r == 8 || r == 14
  {
    if 0 <= r < 22 {
      assert r == 0 || r == 1 || r == 2 || r == 3 || r == 4 || r == 5 || r == 6
        || r == 7 || r == 8 || r == 9 || r == 10 || r == 11 || r == 12 || r == 13
        || r == 14 || r == 15 || r == 16 || r == 17 || r == 18 || r == 19 || r == 20
        || r == 21;
    }
  }

  /** The worked example x^2 + 2*y^2 = 22: whichever square root of -2
      modulo 22 the library returns, the answer is the primitive solution (2, 3). */
  lemma TwoAndTwentyTwoGiveTwoThree(r0: int)
    requires IsRootMod(r0, -2, 22)
    ensures r0 == 8 || r0 == 14
    ensures CornacchiaSpec(2, 22, Some(r0)) == Solution(2, 3)
  {
    RootsOfMinusTwoModTwentyTwo(r0);
    assert ReducedRemainder(22, r0, 22) == 2;
    assert FloorSqrt(9) == 3 by {
      FloorSqrtOfSquare(3);
    }
  }

  /** The corrected procedure misses no primitive solution reachable from the
      root: when the reduced remainder x completes to a solution (x, y) with
      gcd(x, |y|) = 1, that solution is returned. */
  lemma SpecFindsPrimitiveCandidate(d: int, m: int, r0: int, y: int)
    requires m > 0 && d != 0 && IsRootMod(r0, -d, m)
    requires Solves(ReducedRemainder(m, r0, m), y, d, m)
    requires Gcd(ReducedRemainder(m, r0, m), if y < 0 then -y else y) == 1
    ensures CornacchiaSpec(d, m, Some(r0)) == Solution(ReducedRemainder(m, r0, m), if y < 0 then -y else y)
  {
    AcceptIsExact(d, m, ReducedRemainder(m, r0, m), y);
  }
}
