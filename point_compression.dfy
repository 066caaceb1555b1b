/**
  Points of a short Weierstrass curve y^2 = x^3 + a*x + b over the integers
  modulo p, and their compression to (x, parity of y) and back
  (`EllipticCurve::is_on_curve`, `compress` and `decompress` in src/main.rs).
 */
module PointCompression {
  import opened Optional
  import opened NumberTheory
  import opened ModularRoots

  /** A curve point: affine coordinates, or the point at infinity when `isInfinity` is set. */
  datatype Point = Point(x: nat, y: nat, isInfinity: bool)

  /** The curve y^2 = x^3 + a*x + b over the integers modulo p. */
  datatype Curve = Curve(a: nat, b: nat, p: nat)

  /** The right-hand side x^3 + a*x + b, reduced modulo p. */
  function CurveRhs(curve: Curve, x: nat): (v: nat)
    requires curve.p > 0
    ensures v < curve.p
  {
    (x * x * x + curve.a * x + curve.b) % curve.p
  }

  /** `is_on_curve`: the point at infinity, or y^2 and x^3 + a*x + b agree modulo p. */
  predicate IsOnCurve(curve: Curve, pt: Point)
    requires curve.p > 0
  {
    pt.isInfinity || pt.y * pt.y % curve.p == CurveRhs(curve, pt.x)
  }

  /** `compress`: the x coordinate and whether y is odd; the point at infinity has no compressed form. */
  function Compress(pt: Point): (r: Option<(nat, bool)>)
    ensures r.None? <==> pt.isInfinity
    ensures r.Some? ==> r.value.0 == pt.x && (r.value.1 <==> IsOdd(pt.y))
  {
    if pt.isInfinity then None else Some((pt.x, IsOdd(pt.y)))
  }

  /**
    The choice `decompress` makes between the root y and its negation: y when
    its parity is the requested one, (p - y) mod p otherwise. Both square to the
    same value; for odd p and y != 0 the choice has the requested parity.
   */
  function ChooseRoot(y: nat, p: nat, isOdd: bool): (sel: nat)
    requires y < p
    ensures sel < p && sel * sel % p == y * y % p
    ensures sel == 0 <==> y == 0
    ensures p % 2 == 1 && y != 0 ==> IsOdd(sel) == isOdd
    ensures p == 2 ==> sel == y
  {
    if IsOdd(y) == isOdd then y else ReflectedRoot(p, y); (p - y) % p
  }

  /** (p - y) mod p is the negation of y: p - y for y != 0, squaring like y and, for odd p, of the other parity. */
  lemma ReflectedRoot(p: nat, y: nat)
    requires y < p
    ensures y == 0 ==> (p - y) % p == 0
    ensures y != 0 ==> (p - y) % p == p - y
    ensures ((p - y) % p) * ((p - y) % p) % p == y * y % p
    ensures p % 2 == 1 && y != 0 ==> IsOdd(p - y) != IsOdd(y)
    ensures p == 2 ==> (p - y) % p == y
  {
    if y == 0 {
      ModMultipleAdd(1, 0, p);
      ModSmall(0, p);
    } else {
      ModSmall(p - y, p);
      ReflectedSquare(p, y);
      if p % 2 == 1 {
        ReflectionFlipsParity(p, y);
      }
    }
  }

  /** The curve is symmetric about the x axis: with (x, y) on it, so is (x, (p - y) mod p). */
  lemma NegationOnCurve(curve: Curve, pt: Point)
    requires curve.p > 0 && IsOnCurve(curve, pt) && !pt.isInfinity && pt.y < curve.p
    ensures IsOnCurve(curve, Point(pt.x, (curve.p - pt.y) % curve.p, false))
  {
    ReflectedRoot(curve.p, pt.y);
  }

  /**
    `decompress`: the point with abscissa x whose ordinate is the square root of
    x^3 + a*x + b that `modular_sqrt` finds, negated when its parity is not the
    requested one; None when `modular_sqrt` finds no root.
   */
  function Decompress(curve: Curve, x: nat, isOdd: bool): (r: Option<Point>)
    requires SqrtModulus(curve.p)
    ensures r.Some? ==> r.value.x == x && !r.value.isInfinity && r.value.y < curve.p
    ensures r.Some? ==> IsOnCurve(curve, r.value)
    ensures curve.p != 2 ==> (r.None? <==> !HasNonzeroRoot(CurveRhs(curve, x), curve.p))
    ensures curve.p != 2 && r.Some? ==> r.value.y != 0 && Compress(r.value) == Some((x, isOdd))
    ensures curve.p == 2 ==> r == Some(Point(x, CurveRhs(curve, x), false))
  {
    var rhs := CurveRhs(curve, x);
    TonelliShanksSpec(rhs, curve.p);
    ModSmall(rhs, curve.p);
    match TonelliShanks(rhs, curve.p)
    case None => None
    case Some(y) => Some(Point(x, ChooseRoot(y, curve.p, isOdd), false))
  }

  /** Modulo 2, every residue is its own square. */
  lemma SquareModTwo(y: nat)
    requires y < 2
    ensures y * y % 2 == y
  {
  }

  /**
    Compression round trip: decompressing the compressed form of a reduced
    affine point on the curve gives the point back, provided its ordinate is
    not 0 (modulo 2, always).
   */
  lemma RoundTrip(curve: Curve, pt: Point)
    requires SqrtModulus(curve.p) && IsOnCurve(curve, pt) && !pt.isInfinity && pt.y < curve.p
    requires curve.p == 2 || pt.y != 0
    ensures Compress(pt) == Some((pt.x, IsOdd(pt.y)))
    ensures Decompress(curve, pt.x, IsOdd(pt.y)) == Some(pt)
  {
    var p := curve.p;
    var rhs := CurveRhs(curve, pt.x);
    var r := Decompress(curve, pt.x, IsOdd(pt.y));
    if p == 2 {
      SquareModTwo(pt.y);
    } else {
      assert HasNonzeroRoot(rhs, p) by {
        ModSmall(rhs, p);
        assert 0 < pt.y < p && pt.y * pt.y % p == rhs % p;
      }
      var y' := r.value.y;
      SameSquare(p, y', pt.y);
      if y' != pt.y {
        ReflectionFlipsParity(p, pt.y);
        assert false;
      }
    }
  }

  /**
    For an odd prime, decompressing the compressed form of a reduced affine
    point gives it back exactly when the point is on the curve and its ordinate
    is not 0.
   */
  lemma RoundTripIff(curve: Curve, pt: Point)
    requires OddPrimeField(curve.p) && !pt.isInfinity && pt.y < curve.p
    ensures Decompress(curve, pt.x, IsOdd(pt.y)) == Some(pt) <==> IsOnCurve(curve, pt) && pt.y != 0
  {
    if IsOnCurve(curve, pt) && pt.y != 0 {
      RoundTrip(curve, pt);
    }
  }

  /**
    A point on the curve with ordinate 0 compresses, but `decompress` answers
    None for it, whichever parity is asked for: `modular_sqrt` rejects the
    residue 0.
   */
  lemma ZeroOrdinateNotRecovered(curve: Curve, pt: Point, isOdd: bool)
    requires OddPrimeField(curve.p) && IsOnCurve(curve, pt) && !pt.isInfinity && pt.y == 0
    ensures Compress(pt) == Some((pt.x, false))
    ensures Decompress(curve, pt.x, isOdd) == None
  {
    ModSmall(0, curve.p);
    ZeroResidueRejected(CurveRhs(curve, pt.x), curve.p);
  }

  /** `decompress` built on `CorrectedSqrt`, which answers the residue 0 with the root 0. */
  function DecompressCorrected(curve: Curve, x: nat, isOdd: bool): (r: Option<Point>)
    requires SqrtModulus(curve.p)
    ensures r.Some? ==> r.value.x == x && !r.value.isInfinity && r.value.y < curve.p
    ensures r.Some? ==> IsOnCurve(curve, r.value)
    ensures curve.p != 2 ==> (r.None? <==> !HasRoot(CurveRhs(curve, x), curve.p))
    ensures curve.p != 2 && r.Some? && r.value.y != 0 ==> IsOdd(r.value.y) == isOdd
    ensures curve.p == 2 ==> r == Some(Point(x, CurveRhs(curve, x), false))
  {
    var rhs := CurveRhs(curve, x);
    ModSmall(rhs, curve.p);
    match CorrectedSqrt(rhs, curve.p)
    case None => None
    case Some(y) => Some(Point(x, ChooseRoot(y, curve.p, isOdd), false))
  }

  /** With the corrected square root, every reduced affine point on the curve survives the round trip. */
  lemma RoundTripCorrected(curve: Curve, pt: Point)
    requires SqrtModulus(curve.p) && IsOnCurve(curve, pt) && !pt.isInfinity && pt.y < curve.p
    ensures Compress(pt) == Some((pt.x, IsOdd(pt.y)))
    ensures DecompressCorrected(curve, pt.x, IsOdd(pt.y)) == Some(pt)
  {
    var p := curve.p;
    var rhs := CurveRhs(curve, pt.x);
    var r := DecompressCorrected(curve, pt.x, IsOdd(pt.y));
    if p == 2 {
      SquareModTwo(pt.y);
    } else {
      assert HasRoot(rhs, p) by {
        ModSmall(rhs, p);
        assert pt.y < p && pt.y * pt.y % p == rhs % p;
      }
      var y' := r.value.y;
      SameSquare(p, y', pt.y);
      if y' != pt.y {
        if pt.y == 0 {
          assert false;
        }
        ReflectionFlipsParity(p, pt.y);
        assert false;
      }
    }
  }
}
