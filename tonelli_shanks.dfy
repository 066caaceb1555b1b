/**
  Square roots modulo a prime (`modular_sqrt`, the Tonelli-Shanks algorithm)
  and the Legendre symbol (`legendre_symbol`) of src/main.rs.

  `ModularSqrt` is the algorithm as the source runs it, with its loops over
  mutable variables (one method per outer loop). `TonelliShanks` is the same computation written as
  functions, one per loop, so that the pure curve code (which cannot call a
  method) and the lemmas can speak about the result; `ModularSqrt` is proved
  to return exactly `TonelliShanks(a, p)`.
 */
module ModularRoots {
  import opened Optional
  import opened NumberTheory

  /** Euler's criterion as `legendre_symbol` computes it: a^((p-1)/2) mod p read as 0, 1 or -1. */
  function LegendreSymbol(a: nat, p: nat): (r: int)
    requires p > 0
    ensures -1 <= r <= 1
  {
    var ls := ModPow(a, (p - 1) / 2, p);
    if ls == 0 then 0 else if ls == 1 then 1 else -1
  }

  // ---------------------------------------------------------------------------
  // What the algorithm assumes of its modulus

  /** Fermat's little theorem for the modulus p. */
  ghost predicate FermatHolds(p: nat)
    requires p > 0
  {
    var e := p - 1;
    forall x: nat :: 0 < x < p ==> ModPow(x, e, p) == 1
  }

  /** Some element of [1, p) has Legendre symbol -1. */
  ghost predicate HasNonResidue(p: nat)
    requires p > 0
  {
    exists z: nat :: 0 < z < p && LegendreSymbol(z, p) == -1
  }

  /**
    An odd prime, together with the two facts about the multiplicative group
    modulo p that this model takes as given instead of proving them: Fermat's
    little theorem and the existence of a quadratic non-residue. Both hold for
    every odd prime.
   */
  ghost predicate OddPrimeField(p: nat)
  {
    p % 2 == 1 && IsPrime(p) && FermatHolds(p) && HasNonResidue(p)
  }

  /** The moduli `modular_sqrt` is written for: 2, handled apart, or an odd prime. */
  ghost predicate SqrtModulus(p: nat)
  {
    p == 2 || OddPrimeField(p)
  }

  /** a has a square root modulo p other than 0. */
  ghost predicate HasNonzeroRoot(a: nat, p: nat)
    requires p > 0
  {
    exists y: nat :: 0 < y < p && y * y % p == a % p
  }

  // ---------------------------------------------------------------------------
  // The algorithm as functions, one per loop of the source

  lemma DoublePower(q: nat, k: nat)
    ensures q * Pow(2, k + 1) == 2 * (q * Pow(2, k))
  {
    assert Pow(2, k + 1) == 2 * Pow(2, k);
  }

  /** The halving loop: while q is even, halve it and count the halving in s. */
  function SplitTwos(q: nat, s: nat): (r: (nat, nat))
    requires q > 0
    ensures IsOdd(r.0) && r.1 >= s && r.0 * Pow(2, r.1 - s) == q
    decreases q
  {
    if q % 2 == 0 then
      var r := SplitTwos(q / 2, s + 1);
      DoublePower(r.0, r.1 - s - 1);
      r
    else
      (q, s)
  }

  /** The search loop: the first z' >= z whose Legendre symbol is -1. */
  function FirstNonResidue(z: nat, p: nat): (w: nat)
    requires p > 0 && exists y: nat :: z <= y < p && LegendreSymbol(y, p) == -1
    ensures z <= w < p && LegendreSymbol(w, p) == -1
    ensures forall y: nat :: z <= y < w ==> LegendreSymbol(y, p) != -1
    decreases p - z
  {
    if LegendreSymbol(z, p) == -1 then z else FirstNonResidue(z + 1, p)
  }

  /** The inner loop: the least i' >= i such that squaring t i' times gives 1. */
  function OrderExponent(t: nat, i: nat, m: nat, p: nat): (j: nat)
    requires p > 0 && i < m && Squarings(t, m - 1, p) == 1
    ensures i <= j < m && Squarings(t, j, p) == 1
    ensures forall k: nat :: i <= k < j ==> Squarings(t, k, p) != 1
    decreases m - i
  {
    if Squarings(t, i, p) == 1 then i else OrderExponent(t, i + 1, m, p)
  }

  /**
    The invariant of the main loop that keeps it going: c squared m - 1 times
    is -1 (c has order 2^m) and t squared m - 1 times is 1 (the order of t
    divides 2^(m-1)).
   */
  ghost predicate LoopInvariant(m: nat, c: nat, t: nat, p: nat)
  {
    && p > 2 && IsPrime(p)
    && 1 <= m && c < p && t < p
    && Squarings(c, m - 1, p) == p - 1
    && Squarings(t, m - 1, p) == 1
  }

  /** The main loop: while t != 1, find the order 2^i of t and update m, c, t and r. */
  function MainLoop(m: nat, c: nat, t: nat, r: nat, p: nat): (root: nat)
    requires LoopInvariant(m, c, t, p)
    ensures root == r || root < p
    decreases m
  {
    if t == 1 then
      r
    else
      var i := OrderExponent(t, 0, m, p);
      var b := ModPow(c, Pow(2, m - i - 1), p);
      var c' := b * b % p;
      LoopStep(m, c, t, p);
      MainLoop(i, c', t * c' % p, r * b % p, p)
  }

  /** `modular_sqrt` as a function: the root the algorithm returns, or None. */
  function TonelliShanks(a: nat, p: nat): Option<nat>
    requires SqrtModulus(p)
  {
    if p == 2 then
      Some(a)
    else if LegendreSymbol(a, p) != 1 then
      None
    else
      var (q, s) := SplitTwos(p - 1, 0);
      if s == 1 then
        Some(ModPow(a, (p + 1) / 4, p))
      else
        var z := FirstNonResidue(1, p);
        InitialInvariant(a, z, q, s, p);
        Some(MainLoop(s, ModPow(z, q, p), ModPow(a, q, p), ModPow(a, (q + 1) / 2, p), p))
  }

  // ---------------------------------------------------------------------------
  // The algorithm as the source runs it

  /**
    `modular_sqrt(a, p)`: a square root of a modulo p, or None when the Legendre
    symbol of a is not 1. The source's loops are the methods below, called in
    the source's order: `RemoveTwos`, `FindNonResidue`, and `RefineRoot` for the
    main loop with its inner loop.
   */
  method ModularSqrt(a: nat, p: nat) returns (root: Option<nat>)
    requires SqrtModulus(p)
    ensures root == TonelliShanks(a, p)
    ensures p == 2 ==> root == Some(a)
    ensures p != 2 ==> (root.None? <==> LegendreSymbol(a, p) != 1)
    ensures p != 2 && root.Some? ==> root.value < p && root.value * root.value % p == a % p
  {
    if p == 2 {
      root := Some(a);
    } else if LegendreSymbol(a, p) != 1 {
      root := None;
    } else {
      var q, s := RemoveTwos(p);
      if s == 1 {
        root := Some(ModPow(a, (p + 1) / 4, p));
        FastPathResult(a, p, q, s);
      } else {
        var z := FindNonResidue(p);
        GeneralPathResult(a, p, q, s, z);
        var r := RefineRoot(s, ModPow(z, q, p), ModPow(a, q, p), ModPow(a, (q + 1) / 2, p), p);
        root := Some(r);
      }
    }
    TonelliShanksFacts(a, p);
  }

  /** The halving loop: p - 1 = q * 2^s with q odd. */
  method RemoveTwos(p: nat) returns (q: nat, s: nat)
    requires p > 1
    ensures (q, s) == SplitTwos(p - 1, 0)
    ensures IsOdd(q) && q * Pow(2, s) == p - 1
    ensures p % 2 == 1 ==> s >= 1
  {
    q, s := p - 1, 0;
    while q % 2 == 0
      invariant 0 < q && SplitTwos(q, s) == SplitTwos(p - 1, 0)
      decreases q
    {
      q := q / 2;
      s := s + 1;
    }
  }

  /** The search loop: the least z >= 1 whose Legendre symbol is -1. */
  method FindNonResidue(p: nat) returns (z: nat)
    requires p > 0 && HasNonResidue(p)
    ensures z == FirstNonResidue(1, p)
  {
    z := 1;
    while LegendreSymbol(z, p) != -1
      invariant 1 <= z <= FirstNonResidue(1, p)
      decreases p - z
    {
      z := z + 1;
    }
  }

  /** The main loop, with the inner loop that finds the order 2^i of t. */
  method RefineRoot(m0: nat, c0: nat, t0: nat, r0: nat, p: nat) returns (r: nat)
    requires LoopInvariant(m0, c0, t0, p)
    ensures r == MainLoop(m0, c0, t0, r0, p)
  {
    var m: nat, c: nat, t: nat := m0, c0, t0;
    r := r0;
    while t != 1
      invariant LoopInvariant(m, c, t, p)
      invariant MainLoop(m, c, t, r, p) == MainLoop(m0, c0, t0, r0, p)
      decreases m
    {
      var i: nat, t2i: nat := 0, t;
      while t2i != 1
        invariant i < m && t2i == Squarings(t, i, p)
        invariant OrderExponent(t, i, m, p) == OrderExponent(t, 0, m, p)
        decreases m - i
      {
        t2i := t2i * t2i % p;
        i := i + 1;
      }

      var power: nat := m - i - 1;
      var b := ModPow(c, Pow(2, power), p);
      LoopStep(m, c, t, p);
      m := i;
      c := b * b % p;
      t := t * c % p;
      r := r * b % p;
    }
  }

  /** On the fast path (s = 1) the function answers a^((p+1)/4) mod p, as the method does. */
  lemma FastPathResult(a: nat, p: nat, q: nat, s: nat)
    requires OddPrimeField(p) && LegendreSymbol(a, p) == 1 && (q, s) == SplitTwos(p - 1, 0) && s == 1
    ensures TonelliShanks(a, p) == Some(ModPow(a, (p + 1) / 4, p))
  {
  }

  /** On the general path the main loop starts inside its invariant, and the function answers its result. */
  lemma GeneralPathResult(a: nat, p: nat, q: nat, s: nat, z: nat)
    requires OddPrimeField(p) && LegendreSymbol(a, p) == 1 && (q, s) == SplitTwos(p - 1, 0) && s != 1
    requires z == FirstNonResidue(1, p)
    ensures LoopInvariant(s, ModPow(z, q, p), ModPow(a, q, p), p)
    ensures TonelliShanks(a, p) == Some(MainLoop(s, ModPow(z, q, p), ModPow(a, q, p), ModPow(a, (q + 1) / 2, p), p))
  {
    InitialInvariant(a, z, q, s, p);
    assert p != 2 && LegendreSymbol(a, p) == 1;
  }

  /** What `TonelliShanks` returns, in the terms of `ModularSqrt`'s postcondition. */
  lemma TonelliShanksFacts(a: nat, p: nat)
    requires SqrtModulus(p)
    ensures p == 2 ==> TonelliShanks(a, p) == Some(a)
    ensures p != 2 ==> (TonelliShanks(a, p).None? <==> LegendreSymbol(a, p) != 1)
    ensures p != 2 && TonelliShanks(a, p).Some? ==>
              TonelliShanks(a, p).value < p && TonelliShanks(a, p).value * TonelliShanks(a, p).value % p == a % p
  {
    if p != 2 {
      TonelliShanksRoot(a, p);
    }
  }

  // ---------------------------------------------------------------------------
  // Why the algorithm is correct

  /** (p - 1) squared is 1 modulo p. */
  lemma MinusOneSquared(p: nat)
    requires p >= 2
    ensures (p - 1) * (p - 1) % p == 1
  {
    assert (p - 1) * (p - 1) == (p - 2) * p + 1;
    ModMultipleAdd(p - 2, 1, p);
    ModSmall(1, p);
  }

  /** For a prime p not dividing a, a^((p-1)/2) squares to 1 modulo p. */
  lemma EulerSquare(a: nat, p: nat)
    requires p % 2 == 1 && IsPrime(p) && FermatHolds(p) && a % p != 0
    ensures var v := ModPow(a, (p - 1) / 2, p); v * v % p == 1
  {
    var e := (p - 1) / 2;
    var w := Pow(a, e);
    assert Pow(a, p - 1) % p == 1 by {
      assert ModPow(a % p, p - 1, p) == 1;
      PowModBase(a, p - 1, p);
    }
    assert Pow(a, p - 1) == w * w by {
      PowAdd(a, e, e);
    }
    MulMod(w, w, p);
  }

  /**
    Euler's criterion, the half proved from Fermat's little theorem:
    a^((p-1)/2) mod p is 0, 1 or p - 1, and it is 0 exactly when p divides a.
   */
  lemma EulerValues(a: nat, p: nat)
    requires p % 2 == 1 && IsPrime(p) && FermatHolds(p)
    ensures var v := ModPow(a, (p - 1) / 2, p); v == 0 || v == 1 || v == p - 1
    ensures ModPow(a, (p - 1) / 2, p) == 0 <==> a % p == 0
  {
    var e := (p - 1) / 2;
    var v := ModPow(a, e, p);
    if a % p == 0 {
      assert v == 0 by {
        PowModBase(a, e, p);
        PowZeroBase(e);
      }
    } else {
      assert v != 0 && (v == 1 || v == p - 1) by {
        EulerSquare(a, p);
        SquareRootOfOne(p, v);
      }
    }
  }

  lemma PowZeroBase(e: nat)
    requires e > 0
    ensures Pow(0, e) == 0
  {
  }

  /** t squared s - 1 times, for t = x^q mod p and q * 2^s = p - 1, is x^((p-1)/2) mod p. */
  lemma SquaringsOfPower(x: nat, q: nat, s: nat, p: nat)
    requires p > 0 && s >= 1 && q * Pow(2, s) == p - 1
    ensures Squarings(ModPow(x, q, p), s - 1, p) == ModPow(x, (p - 1) / 2, p)
  {
    var y := Pow(x, q);
    var k := Pow(2, s - 1);
    SquaringsPow(y % p, s - 1, p);
    PowModBase(y, k, p);
    PowMul(x, q, k);
    DoublePower(q, s - 1);
  }

  /** The values the general path starts the main loop with satisfy its invariant. */
  lemma InitialInvariant(a: nat, z: nat, q: nat, s: nat, p: nat)
    requires OddPrimeField(p) && LegendreSymbol(a, p) == 1 && LegendreSymbol(z, p) == -1
    requires q * Pow(2, s) == p - 1 && s >= 1
    ensures LoopInvariant(s, ModPow(z, q, p), ModPow(a, q, p), p)
  {
    SquaringsOfPower(a, q, s, p);
    SquaringsOfPower(z, q, s, p);
    EulerValues(z, p);
  }

  /** For odd q, the square of a^((q+1)/2) is a * a^q modulo p. */
  lemma HalfPowerRoot(a: nat, q: nat, p: nat)
    requires p > 0 && IsOdd(q)
    ensures ModPow(a, (q + 1) / 2, p) * ModPow(a, (q + 1) / 2, p) % p == a * ModPow(a, q, p) % p
  {
    var h := (q + 1) / 2;
    MulMod(Pow(a, h), Pow(a, h), p);
    PowAdd(a, h, h);
    assert h + h == q + 1;
    MulModRight(a, Pow(a, q), p);
  }

  /** The fast path: when p = 2q + 1 with q odd and a^q == 1, a^((p+1)/4) is a square root of a. */
  lemma FastPathRoot(a: nat, q: nat, p: nat)
    requires p > 2 && IsOdd(q) && q * Pow(2, 1) == p - 1 && ModPow(a, (p - 1) / 2, p) == 1
    ensures ModPow(a, (p + 1) / 4, p) < p
    ensures ModPow(a, (p + 1) / 4, p) * ModPow(a, (p + 1) / 4, p) % p == a % p
  {
    assert (p + 1) / 4 == (q + 1) / 2 && (p - 1) / 2 == q;
    HalfPowerRoot(a, q, p);
  }

  /** One pass of the main loop keeps its invariant, with the new m at least 1 and below the old. */
  lemma LoopStep(m: nat, c: nat, t: nat, p: nat)
    requires LoopInvariant(m, c, t, p) && t != 1
    ensures var i := OrderExponent(t, 0, m, p);
            var b := ModPow(c, Pow(2, m - i - 1), p);
            var c' := b * b % p;
            1 <= i < m && LoopInvariant(i, c', t * c' % p, p)
  {
    var i := OrderExponent(t, 0, m, p);
    assert i != 0;
    var b := ModPow(c, Pow(2, m - i - 1), p);
    var c' := b * b % p;
    SquaringsPow(c, m - i - 1, p);
    assert c' == Squarings(c, m - i, p);
    SquaringsAdd(c, m - i, i - 1, p);
    var x := Squarings(t, i - 1, p);
    assert x != 1;
    assert x < p;
    assert x * x % p == 1;
    SquareRootOfOne(p, x);
    SquaringsMul(t, c', i - 1, p);
    MinusOneSquared(p);
  }

  /** One pass of the main loop keeps r^2 == a * t modulo p. */
  lemma RootStep(a: nat, r: nat, t: nat, b: nat, p: nat)
    requires p > 0 && r * r % p == a * t % p
    ensures (r * b % p) * (r * b % p) % p == a * (t * (b * b % p) % p) % p
  {
    var c' := b * b % p;
    SquareOfProductMod(r, b, p);
    ModSmall(r * r % p, p);
    ModSmall(c', p);
    MulModCongruent(r * r % p, c', a * t, c', p);
    MulModRight(a, t * c', p);
    assert a * (t * c') == (a * t) * c';
  }

  /** The main loop returns a reduced square root of a, given r^2 == a * t on entry. */
  lemma {:induction false} MainLoopRoot(a: nat, m: nat, c: nat, t: nat, r: nat, p: nat)
    requires LoopInvariant(m, c, t, p) && r < p && r * r % p == a * t % p
    ensures MainLoop(m, c, t, r, p) < p
    ensures MainLoop(m, c, t, r, p) * MainLoop(m, c, t, r, p) % p == a % p
    decreases m
  {
    if t != 1 {
      var i := OrderExponent(t, 0, m, p);
      var b := ModPow(c, Pow(2, m - i - 1), p);
      var c' := b * b % p;
      LoopStep(m, c, t, p);
      RootStep(a, r, t, b, p);
      MainLoopRoot(a, i, c', t * c' % p, r * b % p, p);
    }
  }

  /** Whatever `modular_sqrt` returns for an odd prime is a reduced square root of its input. */
  lemma TonelliShanksRoot(a: nat, p: nat)
    requires OddPrimeField(p)
    ensures TonelliShanks(a, p).Some? ==>
              TonelliShanks(a, p).value < p && TonelliShanks(a, p).value * TonelliShanks(a, p).value % p == a % p
  {
    if LegendreSymbol(a, p) == 1 {
      var (q, s) := SplitTwos(p - 1, 0);
      if s == 1 {
        FastPathRoot(a, q, p);
      } else {
        var z := FirstNonResidue(1, p);
        InitialInvariant(a, z, q, s, p);
        HalfPowerRoot(a, q, p);
        MainLoopRoot(a, s, ModPow(z, q, p), ModPow(a, q, p), ModPow(a, (q + 1) / 2, p), p);
      }
    }
  }

  /** Modulo a prime, only 0 squares to 0. */
  lemma SquareZero(p: nat, y: nat)
    requires IsPrime(p) && 0 < y < p
    ensures y * y % p != 0
  {
    if y * y % p == 0 {
      EuclidLemma(p, y, y);
      ModSmall(y, p);
      assert false;
    }
  }

  /** The square of a nonzero element, raised to (p-1)/2, is 1 modulo p. */
  lemma SquareIsResidue(y: nat, p: nat)
    requires OddPrimeField(p) && 0 < y < p
    ensures ModPow(y * y % p, (p - 1) / 2, p) == 1
  {
    var e := (p - 1) / 2;
    PowModBase(y * y, e, p);
    assert Pow(y, 2) == y * y;
    PowMul(y, 2, e);
    assert 2 * e == p - 1;
    assert ModPow(y, p - 1, p) == 1;
  }

  /**
    Euler's criterion: for an odd prime p, the Legendre symbol of a is 0 when
    p divides a, 1 when a is the square of a nonzero element and -1 otherwise.
   */
  lemma EulerCriterion(a: nat, p: nat)
    requires OddPrimeField(p)
    ensures LegendreSymbol(a, p) == 0 <==> a % p == 0
    ensures LegendreSymbol(a, p) == 1 <==> HasNonzeroRoot(a, p)
    ensures LegendreSymbol(a, p) == -1 <==> a % p != 0 && !HasNonzeroRoot(a, p)
  {
    EulerValues(a, p);
    if HasNonzeroRoot(a, p) {
      var y: nat :| 0 < y < p && y * y % p == a % p;
      SquareZero(p, y);
      SquareIsResidue(y, p);
      PowModBase(a, (p - 1) / 2, p);
      assert ModPow(a, (p - 1) / 2, p) == 1;
    }
    if LegendreSymbol(a, p) == 1 {
      TonelliShanksRoot(a, p);
      var y := TonelliShanks(a, p).value;
      if y == 0 {
        ModSmall(0, p);
        assert false;
      }
      assert 0 < y < p && y * y % p == a % p;
    }
  }

  /**
    What `modular_sqrt` returns: a itself for p = 2; for an odd prime, None
    exactly when a is not the square of a nonzero element, and otherwise a
    nonzero reduced square root of a.
   */
  lemma TonelliShanksSpec(a: nat, p: nat)
    requires SqrtModulus(p)
    ensures p == 2 ==> TonelliShanks(a, p) == Some(a)
    ensures p != 2 ==> (TonelliShanks(a, p).None? <==> !HasNonzeroRoot(a, p))
    ensures p != 2 && TonelliShanks(a, p).Some? ==>
              var y := TonelliShanks(a, p).value; 0 < y < p && y * y % p == a % p
  {
    TonelliShanksFacts(a, p);
    if p != 2 {
      EulerCriterion(a, p);
      if TonelliShanks(a, p).Some? {
        var y := TonelliShanks(a, p).value;
        assert y != 0 by {
          ModSmall(0, p);
        }
      }
    }
  }

  // ---------------------------------------------------------------------------
  // The zero residue

  /** a has a square root modulo p, 0 included. */
  ghost predicate HasRoot(a: nat, p: nat)
    requires p > 0
  {
    exists y: nat :: y < p && y * y % p == a % p
  }

  /** Modulo a prime, a is a square exactly when it is 0 or the square of a nonzero element. */
  lemma HasRootCases(a: nat, p: nat)
    requires IsPrime(p)
    ensures HasRoot(a, p) <==> a % p == 0 || HasNonzeroRoot(a, p)
  {
    if a % p == 0 {
      assert 0 < p && 0 * 0 % p == a % p by {
        ModSmall(0, p);
      }
    } else {
      if HasRoot(a, p) {
        var y: nat :| y < p && y * y % p == a % p;
        assert y != 0 by {
          ModSmall(0, p);
        }
        assert HasNonzeroRoot(a, p);
      }
      if HasNonzeroRoot(a, p) {
        var y: nat :| 0 < y < p && y * y % p == a % p;
        assert HasRoot(a, p);
      }
    }
  }

  /**
    `modular_sqrt` with the residue 0 answered by its root 0 instead of None:
    for an odd prime, None exactly when a has no square root at all.
   */
  function CorrectedSqrt(a: nat, p: nat): (r: Option<nat>)
    requires SqrtModulus(p)
    ensures p == 2 ==> r == Some(a)
    ensures p != 2 ==> (r.None? <==> !HasRoot(a, p))
    ensures p != 2 && r.Some? ==> r.value < p && r.value * r.value % p == a % p
    ensures p != 2 && r.Some? ==> (r.value == 0 <==> a % p == 0)
  {
    TonelliShanksSpec(a, p);
    HasRootCases(a, p);
    ModSmall(0, p);
    if p != 2 && a % p == 0 then Some(0) else TonelliShanks(a, p)
  }

  /** As written, `modular_sqrt` answers None for every multiple of an odd prime p, although 0 is a root. */
  lemma ZeroResidueRejected(a: nat, p: nat)
    requires OddPrimeField(p) && a % p == 0
    ensures HasRoot(a, p)
    ensures TonelliShanks(a, p) == None
    ensures CorrectedSqrt(a, p) == Some(0)
  {
    HasRootCases(a, p);
    EulerCriterion(a, p);
  }
}
