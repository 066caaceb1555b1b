/**
  Arithmetic on unbounded naturals. The curve code works on arbitrary-precision
  unsigned integers; their operations (`%`, `/`, `modpow`, `shl`) are modelled
  here by their mathematical meaning, together with the facts about primes that
  the square-root algorithm relies on.
 */
module NumberTheory {

  /** x raised to the power e. */
  function Pow(x: nat, e: nat): nat
    decreases e
  {
    if e == 0 then 1 else x * Pow(x, e - 1)
  }

  /** Modular exponentiation, x^e mod m, as the big-integer library computes it. */
  function ModPow(x: nat, e: nat, m: nat): (v: nat)
    requires m > 0
    ensures v < m
  {
    Pow(x, e) % m
  }

  /** The parity test the source adds to big integers (`is_odd`): n mod 2 == 1. */
  predicate IsOdd(n: nat)
  {
    n % 2 == 1
  }

  predicate Divides(d: nat, n: nat)
    requires d > 0
  {
    n % d == 0
  }

  ghost predicate IsPrime(p: nat)
  {
    p >= 2 && forall d: nat :: 2 <= d < p ==> !Divides(d, p)
  }

  /** The element x squared k times in a row, reducing modulo p after each squaring. */
  function Squarings(x: nat, k: nat, p: nat): nat
    requires p > 0
    decreases k
  {
    if k == 0 then x else var y := Squarings(x, k - 1, p); y * y % p
  }

  // ---------------------------------------------------------------------------
  // Division with remainder. Each nonlinear step sits in a lemma of its own so
  // that the solver sees only the terms it needs.

  lemma MulAtLeast(n: int, m: int)
    requires n >= 1 && m > 0
    ensures n * m >= m
  {
  }

  /** The quotient and remainder of Euclidean division are unique. */
  lemma DivModUnique(x: int, q: int, r: int, m: int)
    requires m > 0 && 0 <= r < m && x == q * m + r
    ensures x % m == r && x / m == q
  {
    var n := q - x / m;
    assert n * m == x % m - r;
    if n > 0 {
      MulAtLeast(n, m);
      assert false;
    }
    if n < 0 {
      MulAtLeast(-n, m);
      assert false;
    }
  }

  lemma ModSmall(r: nat, m: nat)
    requires r < m
    ensures r % m == r
  {
    DivModUnique(r, 0, r, m);
  }

  /** Adding a multiple of m does not change the residue modulo m. */
  lemma ModMultipleAdd(k: nat, r: nat, m: nat)
    requires m > 0
    ensures (k * m + r) % m == r % m
  {
    var x := k * m + r;
    assert x == (k + r / m) * m + r % m;
    DivModUnique(x, k + r / m, r % m, m);
  }

  /** A multiple n * p of a positive p that is itself non-negative has n >= 0. */
  lemma MultipleOfPositive(n: int, p: int, z: int)
    requires p > 0 && z >= 0 && z == n * p
    ensures n >= 0
  {
    if n < 0 {
      MulAtLeast(-n, p);
      assert false;
    }
  }

  /** A multiple of p below 2p is 0 or p. */
  lemma ResidueZero(p: nat, n: nat)
    requires p > 0 && n < 2 * p && n % p == 0
    ensures n == 0 || n == p
  {
    if n < p {
      ModSmall(n, p);
    } else {
      ModSmall(n - p, p);
      ModMultipleAdd(1, n - p, p);
    }
  }

  lemma ExpandProduct(a: int, u: int, b: int, v: int, m: int)
    ensures (a * m + u) * (b * m + v) == (a * b * m + a * v + u * b) * m + u * v
  {
  }

  /** Reducing the factors of a product before multiplying does not change the residue. */
  lemma MulMod(x: nat, y: nat, m: nat)
    requires m > 0
    ensures (x * y) % m == ((x % m) * (y % m)) % m
  {
    var a, u := x / m, x % m;
    var b, v := y / m, y % m;
    var w := (u * v) % m;
    ExpandProduct(a, u, b, v, m);
    assert x * y == (a * b * m + a * v + u * b + (u * v) / m) * m + w;
    DivModUnique(x * y, a * b * m + a * v + u * b + (u * v) / m, w, m);
  }

  /** Reducing one factor of a product before multiplying does not change the residue. */
  lemma MulModRight(x: nat, y: nat, m: nat)
    requires m > 0
    ensures (x * (y % m)) % m == (x * y) % m
  {
    var v := y % m;
    MulMod(x, y, m);
    MulMod(x, v, m);
    ModSmall(v, m);
  }

  /** Products of congruent factors are congruent. */
  lemma MulModCongruent(x: nat, y: nat, x': nat, y': nat, m: nat)
    requires m > 0 && x % m == x' % m && y % m == y' % m
    ensures (x * y) % m == (x' * y') % m
  {
    MulMod(x, y, m);
    MulMod(x', y', m);
  }

  // ---------------------------------------------------------------------------
  // Powers

  lemma MulAssociates(a: int, b: int, c: int)
    ensures a * (b * c) == (a * b) * c
  {
  }

  lemma {:induction false} PowAdd(x: nat, i: nat, j: nat)
    ensures Pow(x, i + j) == Pow(x, i) * Pow(x, j)
    decreases i
  {
    if i > 0 {
      PowAdd(x, i - 1, j);
      assert Pow(x, i + j) == x * Pow(x, i - 1 + j);
      MulAssociates(x, Pow(x, i - 1), Pow(x, j));
    }
  }

  lemma {:induction false} PowMul(x: nat, i: nat, j: nat)
    ensures Pow(Pow(x, i), j) == Pow(x, i * j)
    decreases j
  {
    if j > 0 {
      PowMul(x, i, j - 1);
      PowAdd(x, i, i * (j - 1));
      assert i + i * (j - 1) == i * j;
    }
  }

  /** Reducing the base before exponentiating does not change the residue. */
  lemma {:induction false} PowModBase(x: nat, e: nat, m: nat)
    requires m > 0
    ensures Pow(x % m, e) % m == Pow(x, e) % m
    decreases e
  {
    if e > 0 {
      PowModBase(x, e - 1, m);
      var u := x % m;
      ModSmall(u, m);
      MulModCongruent(u, Pow(u, e - 1), x, Pow(x, e - 1), m);
    }
  }

  // ---------------------------------------------------------------------------
  // Repeated squaring

  /** Squaring j times and then k times more is squaring j + k times. */
  lemma {:induction false} SquaringsAdd(x: nat, j: nat, k: nat, p: nat)
    requires p > 0
    ensures Squarings(Squarings(x, j, p), k, p) == Squarings(x, j + k, p)
    decreases k
  {
    if k > 0 {
      SquaringsAdd(x, j, k - 1, p);
    }
  }

  lemma Rearrange(u: int, v: int)
    ensures (u * v) * (u * v) == (u * u) * (v * v)
  {
  }

  lemma SquareOfProductMod(u: nat, v: nat, p: nat)
    requires p > 0
    ensures (u * v % p) * (u * v % p) % p == (u * u % p) * (v * v % p) % p
  {
    var w := u * v % p;
    MulModCongruent(w, w, u * v, u * v, p);
    Rearrange(u, v);
    MulMod(u * u, v * v, p);
  }

  /** Repeated squaring distributes over a product taken modulo p. */
  lemma {:induction false} SquaringsMul(x: nat, y: nat, k: nat, p: nat)
    requires p > 0
    ensures Squarings(x * y % p, k, p) == Squarings(x, k, p) * Squarings(y, k, p) % p
    decreases k
  {
    if k > 0 {
      SquaringsMul(x, y, k - 1, p);
      SquareOfProductMod(Squarings(x, k - 1, p), Squarings(y, k - 1, p), p);
    }
  }

  /** Squaring k times is raising to the power 2^k, for a reduced base. */
  lemma {:induction false} SquaringsPow(x: nat, k: nat, p: nat)
    requires p > 0 && x < p
    ensures Squarings(x, k, p) == ModPow(x, Pow(2, k), p)
    decreases k
  {
    if k == 0 {
      assert Pow(x, 1) == x;
      ModSmall(x, p);
    } else {
      SquaringsPow(x, k - 1, p);
      var e := Pow(2, k - 1);
      var y := Pow(x, e);
      MulMod(y, y, p);
      PowAdd(x, e, e);
      assert Pow(2, k) == e + e;
    }
  }

  // ---------------------------------------------------------------------------
  // Primes

  lemma CofactorIdentity(p: int, k: int, x: int, r: int, y: int, j: int)
    requires p == k * x + r && x * y == j * p
    ensures r * y == (y - k * j) * p
  {
    calc {
      r * y;
      (p - k * x) * y;
      p * y - k * (x * y);
      p * y - k * (j * p);
      (y - k * j) * p;
    }
  }

  /** A prime that divides x * y for 0 < x < p divides y (by descent on x). */
  lemma {:induction false} PrimeDividesCofactor(p: nat, x: nat, y: nat)
    requires IsPrime(p) && 0 < x < p && (x * y) % p == 0
    ensures y % p == 0
    decreases x
  {
    if x > 1 {
      assert !Divides(x, p);
      var k, r := p / x, p % x;
      var j := (x * y) / p;
      CofactorIdentity(p, k, x, r, y, j);
      MultipleOfPositive(y - k * j, p, r * y);
      ModMultipleAdd(y - k * j, 0, p);
      PrimeDividesCofactor(p, r, y);
    }
  }

  /** Euclid's lemma: a prime that divides a product divides one of its factors. */
  lemma EuclidLemma(p: nat, x: nat, y: nat)
    requires IsPrime(p) && (x * y) % p == 0
    ensures x % p == 0 || y % p == 0
  {
    if x % p != 0 {
      var u := x % p;
      assert (u * y) % p == 0 by {
        ModSmall(u, p);
        MulModCongruent(u, y, x, y, p);
      }
      PrimeDividesCofactor(p, u, y);
    }
  }

  lemma DifferenceOfSquares(u: int, v: int)
    ensures (u - v) * (u + v) == u * u - v * v
  {
  }

  lemma CongruentSquaresDifference(p: nat, u: nat, v: nat)
    requires p > 0 && v <= u && (u * u) % p == (v * v) % p
    ensures ((u - v) * (u + v)) % p == 0
  {
    var i, j := (u * u) / p, (v * v) / p;
    DifferenceOfSquares(u, v);
    assert (u - v) * (u + v) == (i - j) * p;
    MultipleOfPositive(i - j, p, (u - v) * (u + v));
    ModMultipleAdd(i - j, 0, p);
  }

  /** Modulo a prime, two reduced elements with the same square are equal or opposite. */
  lemma SameSquare(p: nat, u: nat, v: nat)
    requires IsPrime(p) && u < p && v < p && (u * u) % p == (v * v) % p
    ensures u == v || u + v == p
    decreases if u < v then 1 else 0
  {
    if u < v {
      SameSquare(p, v, u);
    } else {
      CongruentSquaresDifference(p, u, v);
      EuclidLemma(p, u - v, u + v);
      if (u - v) % p == 0 {
        ResidueZero(p, u - v);
      } else {
        ResidueZero(p, u + v);
      }
    }
  }

  /** Modulo a prime, 1 and p - 1 are the only square roots of 1. */
  lemma SquareRootOfOne(p: nat, y: nat)
    requires IsPrime(p) && y < p && (y * y) % p == 1
    ensures y == 1 || y == p - 1
  {
    SameSquare(p, y, 1);
  }

  lemma ReflectIdentity(p: int, y: int)
    ensures (2 * y) * p + (p - y) * (p - y) == p * p + y * y
  {
  }

  /** Reflecting y to p - y keeps its square modulo p. */
  lemma ReflectedSquare(p: nat, y: nat)
    requires 0 < p && y <= p
    ensures (p - y) * (p - y) % p == y * y % p
  {
    ReflectIdentity(p, y);
    ModMultipleAdd(2 * y, (p - y) * (p - y), p);
    ModMultipleAdd(p, y * y, p);
  }

  /** Reflecting a nonzero residue y to p - y flips its parity and keeps its square, for odd p. */
  lemma ReflectionFlipsParity(p: nat, y: nat)
    requires p % 2 == 1 && 0 < y < p
    ensures IsOdd(p - y) != IsOdd(y)
    ensures (p - y) * (p - y) % p == y * y % p
  {
    assert (p - y) % 2 != y % 2;
    ReflectedSquare(p, y);
  }
}
