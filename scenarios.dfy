/**
  Worked instances of the model on the curve y^2 = x^3 + 3x + 4 over the integers
  modulo 7 that the program's `main` uses.
 */
module Scenarios {
  import opened Optional
  import opened NumberTheory
  import opened ModularRoots
  import opened PointCompression

  lemma SevenIsOddPrimeField()
    ensures OddPrimeField(7)
  {
    forall d: nat | 2 <= d < 7
      ensures !Divides(d, 7)
    {
      assert d == 2 || d == 3 || d == 4 || d == 5 || d == 6;
    }
    forall x: nat | 0 < x < 7
      ensures ModPow(x, 6, 7) == 1
    {
      assert x == 1 || x == 2 || x == 3 || x == 4 || x == 5 || x == 6;
    }
    assert LegendreSymbol(3, 7) == -1;
  }

  /**
    `main`: (2, 5) is on y^2 = x^3 + 3x + 4 modulo 7, compresses to (2, odd) and
    decompresses back to (2, 5); asking for the even root gives (2, 2).
   */
  lemma MainScenario()
    ensures IsOnCurve(Curve(3, 4, 7), Point(2, 5, false))
    ensures Compress(Point(2, 5, false)) == Some((2, true))
    ensures OddPrimeField(7) && Decompress(Curve(3, 4, 7), 2, true) == Some(Point(2, 5, false))
    ensures OddPrimeField(7) && Decompress(Curve(3, 4, 7), 2, false) == Some(Point(2, 2, false))
  {
    SevenIsOddPrimeField();
    var curve := Curve(3, 4, 7);
    assert CurveRhs(curve, 2) == 4;
    assert LegendreSymbol(4, 7) == 1;
    assert SplitTwos(6, 0) == (3, 1);
    assert TonelliShanks(4, 7) == Some(2);
  }

  /**
    (6, 0) is on the same curve (6^3 + 3*6 + 4 = 238 = 34 * 7), yet `decompress`
    cannot recover it from its compressed form (6, even).
   */
  lemma ZeroOrdinateScenario()
    ensures IsOnCurve(Curve(3, 4, 7), Point(6, 0, false))
    ensures Compress(Point(6, 0, false)) == Some((6, false))
    ensures OddPrimeField(7) && Decompress(Curve(3, 4, 7), 6, false) == None
    ensures OddPrimeField(7) && DecompressCorrected(Curve(3, 4, 7), 6, false) == Some(Point(6, 0, false))
  {
    SevenIsOddPrimeField();
    var curve := Curve(3, 4, 7);
    assert CurveRhs(curve, 6) == 0;
    assert LegendreSymbol(0, 7) == 0;
    ZeroOrdinateNotRecovered(curve, Point(6, 0, false), false);
    RoundTripCorrected(curve, Point(6, 0, false));
  }
}
