/** The integer primitives the two cores take from their arithmetic library:
    greatest common divisors, primality, perfect squares and square roots
    modulo m.  Each is given a concrete definition so that the cores can be
    reasoned about without an oracle. */
module NumberTheory {
  import opened Wrappers

  /** Greatest common divisor of two naturals by Euclid's algorithm;
      Gcd(0, 0) == 0, as for the library's gcd. */
  function Gcd(a: nat, b: nat): nat
    decreases b
  {
    if b == 0 then a else Gcd(b, a % b)
  }

  /** A prime is an integer at least 2 with no divisor strictly between 1 and itself. */
  predicate IsPrime(n: int) {
    n >= 2 && forall k :: 2 <= k < n ==> n % k != 0
  }

  /** Largest s with s * s <= n, found by counting up from s. */
  function SqrtFrom(n: nat, s: nat): (r: nat)
    requires s * s <= n
    ensures r * r <= n < (r + 1) * (r + 1)
    decreases n - s
  {
    assert s <= s * s;
    if (s + 1) * (s + 1) > n then s else SqrtFrom(n, s + 1)
  }

  /** The integer square root: the largest s with s * s <= n. */
  function FloorSqrt(n: nat): (s: nat)
    ensures s * s <= n < (s + 1) * (s + 1)
  {
    SqrtFrom(n, 0)
  }

  /** n is the square of an integer. */
  predicate IsSquare(n: int) {
    n >= 0 && FloorSqrt(n) * FloorSqrt(n) == n
  }

  /** r is a square root of a modulo m, represented in [0, m). */
  predicate IsRootMod(r: int, a: int, m: int) {
    m > 0 && 0 <= r < m && (r * r - a) % m == 0
  }

  /** What a modular square-root routine may answer for (a mod m): a root in
      [0, m) when there is one, nothing when a is not a square modulo m. */
  predicate SquareRootAnswer(root: Option<int>, a: int, m: int) {
    m > 0 ==>
      match root
      case Some(r) => IsRootMod(r, a, m)
      case None => forall r :: 0 <= r < m ==> !IsRootMod(r, a, m)
  }

  lemma SquareMonotone(u: int, v: int)
    requires 0 <= u <= v
    ensures u * u <= v * v
  {
    assert u * u <= u * v <= v * v;
  }

  /** The square root of a perfect square is recovered exactly: FloorSqrt
      inverts squaring on the naturals. */
  lemma {:induction false} FloorSqrtOfSquare(y: int)
    ensures IsSquare(y * y)
    ensures FloorSqrt(y * y) == if y < 0 then -y else y
  {
    var v := if y < 0 then -y else y;
    assert v * v == y * y;
    var s := FloorSqrt(y * y);
    if s < v {
      SquareMonotone(s + 1, v);
    } else if s > v {
      SquareMonotone(v + 1, s);
    }
  }

  lemma MultipleMod(g: int, c: int)
    requires g != 0
    ensures (g * c) % g == 0
  {
    var q, r := (g * c) / g, (g * c) % g;
    assert g * c == g * q + r;
    assert g * (c - q) == r;
    NoMultipleStrictlyBetween(g, c - q);
  }

  /** Dividing an exact multiple d * c by d gives back c, with no remainder. */
  lemma ExactQuotient(n: int, d: int, c: int)
    requires d != 0 && n == d * c
    ensures n % d == 0 && n / d == c
  {
    MultipleMod(d, c);
    assert d * (n / d) == n;
    assert d * (n / d - c) == 0;
    NoMultipleStrictlyBetween(d, n / d - c);
    NoMultipleStrictlyBetween(d, c - n / d);
  }

  /** No multiple of g lies strictly between 0 and |g|. */
  lemma NoMultipleStrictlyBetween(g: int, j: int)
    requires g != 0
    ensures g * j <= 0 || g * j >= (if g < 0 then -g else g)
  {
    if j == 0 {
    } else if (g > 0) == (j > 0) {
      var ag, aj := (if g < 0 then -g else g), (if j < 0 then -j else j);
      assert g * j == ag * aj;
      assert ag * aj >= ag * 1;
    } else {
      assert g * j < 0;
    }
  }

  /** A common divisor of b and a % b divides a. */
  lemma DividesFromRemainder(a: nat, b: nat, g: nat)
    requires b > 0 && g > 0
    requires b % g == 0 && (a % b) % g == 0
    ensures a % g == 0
  {
    var u, v := b / g, (a % b) / g;
    assert a == b * (a / b) + a % b;
    assert a == g * (u * (a / b) + v);
    MultipleMod(g, u * (a / b) + v);
  }

  /** Gcd(a, b) is positive unless both arguments are 0, and divides both. */
  lemma {:induction false} GcdDivides(a: nat, b: nat)
    decreases b
    ensures Gcd(a, b) == 0 <==> a == 0 && b == 0
    ensures Gcd(a, b) > 0 ==> a % Gcd(a, b) == 0 && b % Gcd(a, b) == 0
  {
    if b > 0 {
      GcdDivides(b, a % b);
      DividesFromRemainder(a, b, Gcd(a, b));
    }
  }

  /** A common divisor of a and b divides a % b. */
  lemma RemainderOfMultiples(a: nat, b: nat, g: nat)
    requires b > 0 && g > 0
    requires a % g == 0 && b % g == 0
    ensures (a % b) % g == 0
  {
    var u, v := a / g, b / g;
    assert a == g * u && b == g * v;
    assert a % b == a - b * (a / b);
    assert a % b == g * (u - v * (a / b));
    MultipleMod(g, u - v * (a / b));
  }

  /** Gcd(a, b) is the greatest common divisor: every positive common
      divisor of a and b divides it. */
  lemma {:induction false} GcdGreatest(a: nat, b: nat, g: nat)
    requires g > 0 && a % g == 0 && b % g == 0
    ensures Gcd(a, b) % g == 0
    decreases b
  {
    if b > 0 {
      RemainderOfMultiples(a, b, g);
      GcdGreatest(b, a % b, g);
    }
  }

  /** A common divisor g of x and y makes g * g a divisor of x^2 + d*y^2. */
  lemma SquareOfCommonDivisor(x: int, y: int, d: int, g: int) returns (k: int)
    requires g > 0 && x % g == 0 && y % g == 0
    ensures x * x + d * y * y == g * (g * k)
  {
    var u, v := x / g, y / g;
    assert x == g * u && y == g * v;
    k := u * u + d * v * v;
  }

  /** A positive multiple g * (g * k) of g >= 2 exceeds g. */
  lemma MultipleExceeds(g: int, k: int)
    requires g >= 2 && g * (g * k) > 0
    ensures g * (g * k) > g
  {
    assert g * k > 0;
    assert k >= 1;
    assert g * k >= g;
  }

  /** If m = x^2 + d*y^2 is prime then (x, y) is primitive: a common divisor g
      of x and y would make g^2 a divisor of m. */
  lemma PrimeSumIsPrimitive(x: nat, y: nat, d: int, m: int)
    requires m == x * x + d * y * y && IsPrime(m)
    ensures Gcd(x, y) == 1
  {
    GcdDivides(x, y);
    var g := Gcd(x, y);
    if g >= 2 {
      var k := SquareOfCommonDivisor(x, y, d, g);
      MultipleExceeds(g, k);
      MultipleMod(g, g * k);
    }
  }
}
