/** The norm-form arithmetic of the KLPT reduction and its element-of-norm
    search: the principal form, the 1-norm of an element, the Minkowski test
    on a basis, the normalized norm of an element of an ideal, and the search
    for an element of prescribed reduced norm M. */
module Kplt {
  import opened Wrappers
  import opened NumberTheory
  import opened QuaternionAlgebra
  import Cornacchia

  /** The errors these operations raise. */
  datatype KpltError =
    | DiscriminantNot3Mod4   // NotImplementedError: only discriminants p = 3 mod 4 are handled
    | NormNotIntegral        // the quotient N(alpha)/N(I) has no integer value
    | NoCoefficientTuple     // one_norm applied to the integer 0 left by an empty sum

  /** The principal form f(x, y) = x^2 + q*y^2. */
  function F(x: int, y: int, q: int): (r: int)
    ensures q >= 0 ==> r >= 0
    ensures q > 0 ==> (r == 0 <==> x == 0 && y == 0)
  {
    assert q >= 0 ==> q * y * y == q * (y * y) >= 0;
    x * x + q * y * y
  }

  /** f is the reduced norm restricted to the subfield spanned by 1 and i,
      when i^2 = -q. */
  lemma PrincipalFormIsNorm(alg: Algebra, x: int, y: int)
    ensures Norm(alg, FromPair(x, y)) == F(x, y, -alg.a) as real
  {
  }

  function Abs(r: real): real {
    if r < 0.0 then -r else r
  }

  /** The sum of the absolute values of a sequence of coefficients. */
  function SumAbs(s: seq<real>): (n: real)
    ensures n >= 0.0
  {
    if s == [] then 0.0 else Abs(s[0]) + SumAbs(s[1..])
  }

  /** A sum of absolute values vanishes exactly when every term does. */
  lemma {:induction false} SumAbsZero(s: seq<real>)
    ensures SumAbs(s) == 0.0 <==> forall i :: 0 <= i < |s| ==> s[i] == 0.0
  {
    if s != [] {
      SumAbsZero(s[1..]);
      assert forall i :: 1 <= i < |s| ==> s[i] == s[1..][i - 1];
    }
  }

  /** ||u||_1, the sum of the absolute values of the four coefficients. */
  function OneNorm(u: Quaternion): (n: real)
    ensures n >= 0.0
  {
    SumAbs(CoefficientTuple(u))
  }

  /** The 1-norm written out coefficient by coefficient. */
  lemma OneNormExpanded(u: Quaternion)
    ensures OneNorm(u) == Abs(u.t) + Abs(u.x) + Abs(u.y) + Abs(u.z)
  {
    var c := CoefficientTuple(u);
    assert c[1..] == [u.x, u.y, u.z];
    assert c[1..][1..] == [u.y, u.z];
    assert c[1..][1..][1..] == [u.z];
    assert c[1..][1..][1..][1..] == [];
    assert SumAbs(c[1..][1..][1..]) == Abs(u.z) + SumAbs([]);
    assert SumAbs(c[1..][1..]) == Abs(u.y) + SumAbs(c[1..][1..][1..]);
    assert SumAbs(c[1..]) == Abs(u.x) + SumAbs(c[1..][1..]);
    assert SumAbs(c) == Abs(u.t) + SumAbs(c[1..]);
  }

  /** ||u||_1 is 0 exactly for the zero element. */
  lemma OneNormZero(u: Quaternion)
    ensures OneNorm(u) == 0.0 <==> u == Zero
  {
    OneNormExpanded(u);
  }

  /** The 1-norm is a norm: it satisfies the triangle inequality and is
      absolutely homogeneous. */
  lemma OneNormTriangle(u: Quaternion, v: Quaternion)
    ensures OneNorm(Add(u, v)) <= OneNorm(u) + OneNorm(v)
  {
    OneNormExpanded(Add(u, v));
    OneNormExpanded(u);
    OneNormExpanded(v);
    AbsTriangle(u.t, v.t);
    AbsTriangle(u.x, v.x);
    AbsTriangle(u.y, v.y);
    AbsTriangle(u.z, v.z);
  }

  lemma AbsTriangle(r: real, s: real)
    ensures Abs(r + s) <= Abs(r) + Abs(s)
  {
  }

  lemma OneNormScale(c: real, u: Quaternion)
    ensures OneNorm(Scale(c, u)) == Abs(c) * OneNorm(u)
  {
    OneNormExpanded(Scale(c, u));
    OneNormExpanded(u);
    AbsProduct(c, u.t);
    AbsProduct(c, u.x);
    AbsProduct(c, u.y);
    AbsProduct(c, u.z);
  }

  lemma AbsProduct(c: real, r: real)
    ensures Abs(c * r) == Abs(c) * Abs(r)
  {
  }

  /** The sum of the elements of s, left to right from 0. */
  function Sum(s: seq<Quaternion>): Quaternion {
    if s == [] then Zero else Add(s[0], Sum(s[1..]))
  }

  /** The sum of the elements of s that differ from v: every copy of v is
      left out, since the exclusion compares values. */
  function SumExcept(s: seq<Quaternion>, v: Quaternion): Quaternion {
    if s == [] then Zero
    else if s[0] == v then SumExcept(s[1..], v)
    else Add(s[0], SumExcept(s[1..], v))
  }

  /** Leaving out v by value removes all of its copies and nothing else. */
  lemma {:induction false} SumExceptDropsEveryCopy(s: seq<Quaternion>, v: Quaternion)
    ensures Sum(s) == Add(SumExcept(s, v), Scale(multiset(s)[v] as real, v))
  {
    if s != [] {
      var rest := s[1..];
      SumExceptDropsEveryCopy(rest, v);
      assert s == [s[0]] + rest;
      assert multiset(s) == multiset([s[0]]) + multiset(rest);
      var c := multiset(rest)[v] as real;
      if s[0] == v {
        assert multiset(s)[v] == multiset(rest)[v] + 1;
        AddOneMoreCopy(SumExcept(rest, v), v, c);
      } else {
        assert multiset(s)[v] == multiset(rest)[v];
        AddAssociates(s[0], SumExcept(rest, v), Scale(c, v));
      }
    }
  }

  lemma AddOneMoreCopy(w: Quaternion, v: Quaternion, c: real)
    ensures Add(v, Add(w, Scale(c, v))) == Add(w, Scale(c + 1.0, v))
  {
  }

  lemma AddAssociates(u: Quaternion, w: Quaternion, x: Quaternion)
    ensures Add(u, Add(w, x)) == Add(Add(u, w), x)
  {
  }

  /** Some element of s differs from v, so the sum over the others is a
      quaternion and not the empty sum 0. */
  predicate HasOther(s: seq<Quaternion>, v: Quaternion) {
    exists j :: 0 <= j < |s| && s[j] != v
  }

  /** The Minkowski condition on the element at position i:
      ||alpha_i||_1 <= ||sum of the elements different from alpha_i||_1. */
  predicate ShortAgainstOthers(basis: seq<Quaternion>, i: int)
    requires 0 <= i < |basis|
  {
    OneNorm(basis[i]) <= OneNorm(SumExcept(basis, basis[i]))
  }

  /** all(...) over the positions i >= k, evaluated left to right: it stops
      at the first position that fails, or at the first one whose empty
      complement sum has no coefficients. */
  function AllShortFrom(basis: seq<Quaternion>, k: nat): (r: Result<bool, KpltError>)
    requires k <= |basis|
    ensures (forall i :: k <= i < |basis| ==> HasOther(basis, basis[i])) ==>
      r == Ok(forall i :: k <= i < |basis| ==> ShortAgainstOthers(basis, i))
    ensures k < |basis| && !HasOther(basis, basis[k]) ==> r == Err(NoCoefficientTuple)
    decreases |basis| - k
  {
    if k == |basis| then Ok(true)
    else if !HasOther(basis, basis[k]) then Err(NoCoefficientTuple)
    else if ShortAgainstOthers(basis, k) then AllShortFrom(basis, k + 1)
    else Ok(false)
  }

  /** is_minkowski_basis: every element is no longer, in 1-norm, than the sum
      of the elements different from it.  A non-empty basis whose elements
      are all equal leaves an empty sum, the integer 0, which has no
      coefficient tuple. */
  function IsMinkowskiBasis(basis: seq<Quaternion>): (r: Result<bool, KpltError>)
    ensures r.Err? <==> |basis| > 0 && forall i :: 0 <= i < |basis| ==> basis[i] == basis[0]
    ensures r.Ok? ==> (r.value <==> forall i :: 0 <= i < |basis| ==> ShortAgainstOthers(basis, i))
  {
    if |basis| > 0 && HasOther(basis, basis[0]) then
      OthersExistEverywhere(basis);
      AllShortFrom(basis, 0)
    else
      AllShortFrom(basis, 0)
  }

  /** When some element differs from the first, every element has some
      element different from it. */
  lemma OthersExistEverywhere(basis: seq<Quaternion>)
    requires |basis| > 0 && HasOther(basis, basis[0])
    ensures forall i :: 0 <= i < |basis| ==> HasOther(basis, basis[i])
  {
    var j :| 0 <= j < |basis| && basis[j] != basis[0];
    forall i | 0 <= i < |basis|
      ensures HasOther(basis, basis[i])
    {
      if basis[i] == basis[0] {
        assert basis[j] != basis[i];
      } else {
        assert basis[0] != basis[i];
      }
    }
  }

  /** In a Minkowski basis each element is also bounded by the sum of the
      1-norms of the elements different from it. */
  lemma MinkowskiBoundsByOtherNorms(basis: seq<Quaternion>, i: int)
    requires IsMinkowskiBasis(basis) == Ok(true) && 0 <= i < |basis|
    ensures OneNorm(basis[i]) <= SumOneNormExcept(basis, basis[i])
  {
    assert ShortAgainstOthers(basis, i);
    OneNormOfSumExcept(basis, basis[i]);
  }

  /** The sum of the 1-norms of the elements different from v. */
  function SumOneNormExcept(s: seq<Quaternion>, v: Quaternion): real {
    if s == [] then 0.0
    else if s[0] == v then SumOneNormExcept(s[1..], v)
    else OneNorm(s[0]) + SumOneNormExcept(s[1..], v)
  }

  lemma {:induction false} OneNormOfSumExcept(s: seq<Quaternion>, v: Quaternion)
    ensures OneNorm(SumExcept(s, v)) <= SumOneNormExcept(s, v)
  {
    if s != [] {
      OneNormOfSumExcept(s[1..], v);
      if s[0] != v {
        OneNormTriangle(s[0], SumExcept(s[1..], v));
      }
    }
  }

  // ---------------------------------------------------------------------
  // normalized_norm

  /** n is the normalized norm of alpha: n * N(I) = N(alpha). */
  predicate IsNormalizedNorm(n: int, alg: Algebra, alpha: Quaternion, idealNorm: real) {
    n as real * idealNorm == Norm(alg, alpha)
  }

  /** normalized_norm: the reduced norm of alpha divided by the norm of the
      ideal, converted to an integer.  Converting a quotient that is not an
      integer raises, modelled as Err(NormNotIntegral). */
  function NormalizedNorm(alg: Algebra, alpha: Quaternion, idealNorm: real): (r: Result<int, KpltError>)
    requires idealNorm > 0.0
    ensures r.Ok? ==> IsNormalizedNorm(r.value, alg, alpha, idealNorm)
    ensures r.Err? ==> r.error == NormNotIntegral
    ensures r.Err? ==> forall n: int :: !IsNormalizedNorm(n, alg, alpha, idealNorm)
  {
    var quotient := Norm(alg, alpha) / idealNorm;
    NormalizedNormIsQuotient(alg, alpha, idealNorm);
    if quotient.Floor as real == quotient then Ok(quotient.Floor) else Err(NormNotIntegral)
  }

  /** Any integer n with n * N(I) = N(alpha) is the quotient N(alpha) / N(I). */
  lemma NormalizedNormIsQuotient(alg: Algebra, alpha: Quaternion, idealNorm: real)
    requires idealNorm > 0.0
    ensures forall n: int :: IsNormalizedNorm(n, alg, alpha, idealNorm) ==> n as real == Norm(alg, alpha) / idealNorm
  {
    forall n: int | IsNormalizedNorm(n, alg, alpha, idealNorm)
      ensures n as real == Norm(alg, alpha) / idealNorm
    {
      ProductOverFactor(n as real, idealNorm, Norm(alg, alpha));
    }
  }

  lemma ProductOverFactor(c: real, d: real, v: real)
    requires d > 0.0 && c * d == v
    ensures v / d == c
  {
  }

  /** The exit condition of the resampling loop in prime_norm_representative:
      the normalized norm of alpha is a prime. */
  predicate HasPrimeNormalizedNorm(alg: Algebra, alpha: Quaternion, idealNorm: real)
    requires idealNorm > 0.0
  {
    var n := NormalizedNorm(alg, alpha, idealNorm);
    n.Ok? && IsPrime(n.value)
  }

  /** The loop starts from alpha = 0, whose normalized norm is 0, so it
      always samples at least once. */
  lemma ZeroHasNoPrimeNormalizedNorm(alg: Algebra, idealNorm: real)
    requires idealNorm > 0.0
    ensures NormalizedNorm(alg, Zero, idealNorm) == Ok(0)
    ensures !HasPrimeNormalizedNorm(alg, Zero, idealNorm)
  {
    assert Norm(alg, Zero) == 0.0;
    assert IsNormalizedNorm(0, alg, Zero, idealNorm);
  }

  // ---------------------------------------------------------------------
  // element_of_norm

  /** The bound m on the sampled coordinates x_2, y_2. */
  const SampleBound := 10000

  /** ZZ.random_element(lo, hi): an integer in [lo, hi), chosen by the raw
      entropy `raw` drawn from the random source. */
  function RandomElement(lo: int, hi: int, raw: nat): (r: int)
    requires lo < hi
    ensures lo <= r < hi
  {
    lo + raw % (hi - lo)
  }

  /** Every integer in [lo, hi) is reached by some draw. */
  lemma RandomElementReachesAll(lo: int, hi: int, v: int)
    requires lo <= v < hi
    ensures RandomElement(lo, hi, v - lo) == v
  {
  }

  /** The modular square root oracle answers correctly for every input:
      a root in [0, m) when there is one, None when there is none. */
  ghost predicate SqrtOracle(sqrtMod: (int, int) -> Option<int>) {
    forall a, m :: SquareRootAnswer(sqrtMod(a, m), a, m)
  }

  /** The coordinate sampled from one raw draw. */
  function Sample(raw: nat): (c: int)
    ensures -SampleBound <= c <= SampleBound
  {
    RandomElement(-SampleBound, SampleBound + 1, raw)
  }

  /** r = M - p*f(x_2, y_2, q) for the pair sampled from `draw`. */
  function Remainder(M: int, alg: Algebra, draw: (nat, nat)): int {
    M - (-alg.b) * F(Sample(draw.0), Sample(draw.1), -alg.a)
  }

  /** One pass of the search loop breaks: r is prime and Cornacchia finds a
      solution of x^2 + q*y^2 = r. */
  predicate DrawSucceeds(M: int, alg: Algebra, sqrtMod: (int, int) -> Option<int>, draw: (nat, nat)) {
    var q, r := -alg.a, Remainder(M, alg, draw);
    IsPrime(r) && SquareRootAnswer(sqrtMod(-q, r), -q, r)
      && Cornacchia.CornacchiaSpec(q, r, sqrtMod(-q, r)).Solution?
  }

  datatype SearchOutcome =
    | SearchRaised(error: KpltError)
    | Found(gamma: Quaternion, x1: nat, y1: nat, x2: int, y2: int)
    | DrawsExhausted

  /** The element (x_1 + y_1*i) + (x_2 + y_2*i)*j. */
  function Assemble(alg: Algebra, x1: int, y1: int, x2: int, y2: int): (gamma: Quaternion)
    ensures gamma == Quaternion(x1 as real, y1 as real, x2 as real, y2 as real)
  {
    Add(FromPair(x1, y1), MulJ(alg, FromPair(x2, y2)))
  }

  /** The norm of the assembled element is f(x_1, y_1, q) + p*f(x_2, y_2, q)
      with q = -a and p = -b. */
  lemma AssembledNorm(alg: Algebra, x1: int, y1: int, x2: int, y2: int)
    ensures Norm(alg, Assemble(alg, x1, y1, x2, y2))
         == (F(x1, y1, -alg.a) + (-alg.b) * F(x2, y2, -alg.a)) as real
  {
    NormSplit(alg, x1, y1, x2, y2);
    PrincipalFormIsNorm(alg, x1, y1);
    PrincipalFormIsNorm(alg, x2, y2);
  }

  /** element_of_norm: search for gamma of reduced norm M.  Each pass takes
      the next draw, samples x_2, y_2 in [-m, m], and, when
      r = M - p*f(x_2, y_2, q) is prime, asks Cornacchia for x_1, y_1 with
      f(x_1, y_1, q) = r.  The first success is returned; when the draws run
      out first the search has not ended (DrawsExhausted). */
  method ElementOfNorm(M: int, alg: Algebra, draws: seq<(nat, nat)>, sqrtMod: (int, int) -> Option<int>)
    returns (out: SearchOutcome)
    requires ValidAlgebra(alg) && SqrtOracle(sqrtMod)
    ensures out.SearchRaised? <==> alg.discriminant % 4 != 3
    ensures out.SearchRaised? ==> out.error == DiscriminantNot3Mod4
    ensures out.Found? ==> Norm(alg, out.gamma) == M as real
    ensures out.Found? ==> out.gamma == Assemble(alg, out.x1, out.y1, out.x2, out.y2)
    ensures out.Found? ==> -SampleBound <= out.x2 <= SampleBound && -SampleBound <= out.y2 <= SampleBound
    ensures out.Found? ==> F(out.x1, out.y1, -alg.a) == M - (-alg.b) * F(out.x2, out.y2, -alg.a)
    ensures out.Found? ==> IsPrime(F(out.x1, out.y1, -alg.a)) && Gcd(out.x1, out.y1) == 1
    ensures out.Found? ==> exists k :: (0 <= k < |draws| && FirstSuccess(M, alg, sqrtMod, draws, k)
      && out.x2 == Sample(draws[k].0) && out.y2 == Sample(draws[k].1))
    ensures out == DrawsExhausted ==> forall k :: 0 <= k < |draws| ==> !DrawSucceeds(M, alg, sqrtMod, draws[k])
  {
    if alg.discriminant % 4 != 3 {
      return SearchRaised(DiscriminantNot3Mod4);
    }
    var q, p := -alg.a, -alg.b;
    var k := 0;
    while k < |draws|
      invariant 0 <= k <= |draws|
      invariant forall j :: 0 <= j < k ==> !DrawSucceeds(M, alg, sqrtMod, draws[j])
    {
      var x2 := Sample(draws[k].0);
      var y2 := Sample(draws[k].1);
      var r := M - p * F(x2, y2, q);
      k := k + 1;
      if !IsPrime(r) {
        continue;
      }
      var sol := Cornacchia.Cornacchia(q, r, sqrtMod(-q, r));
      assert !sol.Raised?;
      if sol.Solution? {
        var x1, y1 := sol.x, sol.y;
        var gamma := Assemble(alg, x1, y1, x2, y2);
        AssembledNorm(alg, x1, y1, x2, y2);
        assert Norm(alg, gamma) == M as real;
        assert FirstSuccess(M, alg, sqrtMod, draws, k - 1);
        return Found(gamma, x1, y1, x2, y2);
      }
    }
    return DrawsExhausted;
  }

  /** Draw k is the first draw that ends the search. */
  predicate FirstSuccess(M: int, alg: Algebra, sqrtMod: (int, int) -> Option<int>, draws: seq<(nat, nat)>, k: int)
    requires 0 <= k < |draws|
  {
    DrawSucceeds(M, alg, sqrtMod, draws[k])
      && forall j :: 0 <= j < k ==> !DrawSucceeds(M, alg, sqrtMod, draws[j])
  }

  /** Cornacchia is only called with r prime, where the code as written and
      the corrected version agree: the search never reaches the failing
      primitivity assertion. */
  lemma SearchAvoidsCornacchiaAssertion(M: int, alg: Algebra, sqrtMod: (int, int) -> Option<int>, draw: (nat, nat))
    requires SqrtOracle(sqrtMod) && IsPrime(Remainder(M, alg, draw))
    ensures var q, r := -alg.a, Remainder(M, alg, draw);
      Cornacchia.CornacchiaAsWritten(q, r, sqrtMod(-q, r)) == Cornacchia.CornacchiaSpec(q, r, sqrtMod(-q, r))
  {
    var q, r := -alg.a, Remainder(M, alg, draw);
    assert SquareRootAnswer(sqrtMod(-q, r), -q, r);
    Cornacchia.AsWrittenAgreesOnPrimeModulus(q, r, sqrtMod(-q, r));
  }

  /** In a definite algebra (a < 0, b < 0) the assembled element's norm is
      never negative and is 0 only for the zero element. */
  lemma AssembledNormDefinite(alg: Algebra, x1: int, y1: int, x2: int, y2: int)
    requires alg.a < 0 && alg.b < 0
    ensures Norm(alg, Assemble(alg, x1, y1, x2, y2)) >= 0.0
    ensures Norm(alg, Assemble(alg, x1, y1, x2, y2)) == 0.0 <==> x1 == 0 && y1 == 0 && x2 == 0 && y2 == 0
  {
    AssembledNorm(alg, x1, y1, x2, y2);
    var q, p := -alg.a, -alg.b;
    var f1, f2 := F(x1, y1, q), F(x2, y2, q);
    assert p * f2 >= 0;
    assert p * f2 == 0 <==> f2 == 0;
  }

  /** In a definite algebra no draw succeeds when M < 2: then
      r = M - p*f(x_2, y_2, q) <= M is never prime, and the search of the
      source loops forever. */
  lemma SmallNormNeverFound(M: int, alg: Algebra, sqrtMod: (int, int) -> Option<int>, draw: (nat, nat))
    requires alg.a < 0 && alg.b < 0 && M < 2
    ensures !DrawSucceeds(M, alg, sqrtMod, draw)
  {
    var p, f2 := -alg.b, F(Sample(draw.0), Sample(draw.1), -alg.a);
    assert p * f2 >= 0;
    assert Remainder(M, alg, draw) < 2;
  }
}
