/** Elements of a rational quaternion algebra with i^2 = a, j^2 = b and
    k = ij = -ji, as exact 4-tuples t + x*i + y*j + z*k of rationals (Dafny's
    `real`).  Only what the norm-form arithmetic needs is modelled: addition,
    scaling, right multiplication by j, the coefficient tuple and the reduced
    norm. */
module QuaternionAlgebra {

  /** The algebra's structure constants and its discriminant. */
  datatype Algebra = Algebra(a: int, b: int, discriminant: int)

  /** An algebra needs non-zero structure constants. */
  predicate ValidAlgebra(alg: Algebra) {
    alg.a != 0 && alg.b != 0
  }

  datatype Quaternion = Quaternion(t: real, x: real, y: real, z: real)

  const Zero := Quaternion(0.0, 0.0, 0.0, 0.0)

  /** The element x + y*i of the subfield spanned by 1 and i. */
  function FromPair(x: int, y: int): Quaternion {
    Quaternion(x as real, y as real, 0.0, 0.0)
  }

  function Add(u: Quaternion, v: Quaternion): Quaternion {
    Quaternion(u.t + v.t, u.x + v.x, u.y + v.y, u.z + v.z)
  }

  function Scale(c: real, u: Quaternion): Quaternion {
    Quaternion(c * u.t, c * u.x, c * u.y, c * u.z)
  }

  /** Right multiplication by j: (t + x*i + y*j + z*k) * j
      = b*y + b*z*i + t*j + x*k, since ij = k, j^2 = b and kj = b*i. */
  function MulJ(alg: Algebra, u: Quaternion): Quaternion {
    Quaternion(alg.b as real * u.y, alg.b as real * u.z, u.t, u.x)
  }

  /** The coefficients (t, x, y, z) in the basis 1, i, j, k. */
  function CoefficientTuple(u: Quaternion): (c: seq<real>)
    ensures |c| == 4
  {
    [u.t, u.x, u.y, u.z]
  }

  /** The reduced norm t^2 - a*x^2 - b*y^2 + a*b*z^2. */
  function Norm(alg: Algebra, u: Quaternion): real {
    var a, b := alg.a as real, alg.b as real;
    u.t * u.t - a * u.x * u.x - b * u.y * u.y + a * b * u.z * u.z
  }

  /** The norm is multiplicative on right multiplication by j, whose norm is -b. */
  lemma NormMulJ(alg: Algebra, u: Quaternion)
    ensures Norm(alg, MulJ(alg, u)) == -(alg.b as real) * Norm(alg, u)
  {
  }

  /** For alpha, beta in the subfield spanned by 1 and i,
      N(alpha + beta*j) = N(alpha) - b*N(beta). */
  lemma NormSplit(alg: Algebra, x1: int, y1: int, x2: int, y2: int)
    ensures Norm(alg, Add(FromPair(x1, y1), MulJ(alg, FromPair(x2, y2))))
         == Norm(alg, FromPair(x1, y1)) - (alg.b as real) * Norm(alg, FromPair(x2, y2))
  {
  }
}
