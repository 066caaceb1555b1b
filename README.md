# Elliptic-curve point compression and Tonelli-Shanks, in Dafny

This project models the core of a small Rust program that compresses points of a
short Weierstrass curve y^2 = x^3 + a*x + b over the integers modulo a prime p. A
point is compressed to its x coordinate and the parity of y. It is decompressed
by taking a square root of x^3 + a*x + b modulo p with the Tonelli-Shanks
algorithm and choosing the root of the requested parity. It is written in
`src/main.rs`.

Files and modules:

- `optional.dfy`, module `Optional`: the `Option` result type.
- `number_theory.dfy`, module `NumberTheory`: the big-integer operations, stated
  mathematically. These are `Pow`/`ModPow` (`modpow`), `IsOdd` (`is_odd`) and
  `Squarings` (repeated squaring modulo p). The module also proves the facts about
  primes that the algorithm needs: Euclid's lemma, that the only square roots of 1
  are 1 and p - 1, and that two reduced elements with the same square are equal or
  opposite.
- `tonelli_shanks.dfy`, module `ModularRoots`:
  - `LegendreSymbol` (`legendre_symbol`) and Euler's criterion.
  - `ModularSqrt` (`modular_sqrt`). It is a method, and the source's loops over
    mutable variables are methods it calls in the source's order: `RemoveTwos`
    (halving p - 1), `FindNonResidue` (search for z), and `RefineRoot` (the main
    loop, with the inner loop written inline). Each loop method is proved to
    compute its function below. `ModularSqrt` is proved to return exactly
    `TonelliShanks(a, p)`.
  - `TonelliShanks`, the same computation written as functions. It has one
    function per loop: `SplitTwos`, `FirstNonResidue`, `OrderExponent` and
    `MainLoop`. The pure curve code calls it.
- `point_compression.dfy`, module `PointCompression`: `Point`, `Curve`,
  `IsOnCurve`, `Compress` and `Decompress` (the methods of `EllipticCurve`), the
  round-trip theorems, and the corrected decompression (see Findings).
- `scenarios.dfy`, module `Scenarios`: the program's `main` example on the curve
  with a = 3, b = 4, p = 7, and the counterexample behind the finding.

The algorithm relies on two facts about an odd prime p that the model does not
prove. It takes them as part of the precondition `OddPrimeField(p)`:

- Fermat's little theorem (`FermatHolds`).
- A quadratic non-residue exists (`HasNonResidue`). This is what makes the
  source's search loop for z terminate.

The scenarios discharge both facts for p = 7 by computation. `SqrtModulus(p)` is
"p = 2, or `OddPrimeField(p)`", which are the moduli `modular_sqrt` is written for.

Two behaviours of the code that the model keeps as written:

- 0 is a square root of 0, but `modular_sqrt` returns None for a = 0 mod p
  because its Legendre symbol is 0, not 1 (see Findings).
- For p = 2, `decompress` ignores the requested parity. The chosen root
  (2 - y) mod 2 equals y.

## Model

| member | source | states |
|---|---|---|
| ModularRoots.LegendreSymbol | src/main.rs:99-108 | The symbol is one of -1, 0, 1 |
| ModularRoots.EulerValues | src/main.rs:100 | For an odd prime (with Fermat), a^((p-1)/2) mod p is 0, 1 or p - 1, and it is 0 exactly when p divides a |
| ModularRoots.EulerCriterion | src/main.rs:99-108 | The symbol is 0 iff p divides a; 1 iff a is the square of a nonzero element; -1 iff neither holds (each in both directions) |
| ModularRoots.SplitTwos | src/main.rs:57-63 | The halving loop's result (q, s) has q odd and q * 2^s equal to the input |
| ModularRoots.FirstNonResidue | src/main.rs:70-73 | The search returns the first z at or after its start whose symbol is -1, and it stays below p |
| ModularRoots.OrderExponent | src/main.rs:81-86 | The inner loop returns the least i, below m, such that squaring t i times gives 1 |
| ModularRoots.FastPathRoot | src/main.rs:65-68 | When s = 1 and a is a residue, a^((p+1)/4) mod p is a reduced square root of a |
| ModularRoots.SquaringsOfPower | src/main.rs:75-77 | Squaring x^q s - 1 times gives x^((p-1)/2), which is Euler's criterion value |
| ModularRoots.InitialInvariant | src/main.rs:75-78 | The starting m = s, c = z^q and t = a^q satisfy the main-loop invariant: c has order 2^m and t^(2^(m-1)) = 1 |
| ModularRoots.HalfPowerRoot | src/main.rs:78 | The starting r = a^((q+1)/2) satisfies r^2 = a * t (mod p) |
| ModularRoots.LoopStep | src/main.rs:80-94 | One pass keeps the invariant with the new m = i, and 1 <= i < m, so the loop ends; m - i - 1 never underflows |
| ModularRoots.RootStep | src/main.rs:90-93 | One pass keeps r^2 = a * t (mod p) |
| ModularRoots.MainLoopRoot | src/main.rs:80-96 | On exit, r is a reduced square root of a |
| ModularRoots.TonelliShanksRoot | src/main.rs:48-97 | For an odd prime, any returned value is a reduced square root of a |
| ModularRoots.TonelliShanksSpec | src/main.rs:48-97 | p = 2 gives Some(a); for an odd prime, the result is None iff a is not the square of a nonzero element, and otherwise a nonzero reduced root |
| ModularRoots.RemoveTwos | src/main.rs:57-63 | The halving loop ends with (q, s) = `SplitTwos(p - 1, 0)`: q odd and q * 2^s = p - 1, and s >= 1 for odd p |
| ModularRoots.MainLoop | src/main.rs:80-94 | The main loop as a function: it ends (m decreases), and its result is either the starting r or a value reduced below p; `MainLoopRoot` proves it squares to a |
| ModularRoots.TonelliShanks | src/main.rs:48-97 | `modular_sqrt` as a function, used by `Decompress`: `TonelliShanksFacts` proves Some(a) for p = 2, None iff the symbol is not 1, otherwise a reduced root; `TonelliShanksSpec` proves None iff a has no nonzero root |
| ModularRoots.FindNonResidue | src/main.rs:70-73 | The search loop ends with the first z >= 1 whose symbol is -1 |
| ModularRoots.RefineRoot | src/main.rs:80-94 | From a state inside the loop invariant, the main loop and its inner loop end with `MainLoop`'s result |
| ModularRoots.FastPathResult | src/main.rs:65-68 | When s = 1, the function's answer is a^((p+1)/4) mod p |
| ModularRoots.GeneralPathResult | src/main.rs:70-78 | On the general path, the starting m, c, t satisfy the loop invariant, and the answer is the main loop's result from m, c, t, r |
| ModularRoots.TonelliShanksFacts | src/main.rs:48-97 | p = 2 gives Some(a); for an odd prime, None iff the symbol is not 1, and otherwise a reduced root |
| ModularRoots.ModularSqrt | src/main.rs:48-97 | The method's loops compute exactly `TonelliShanks(a, p)`: Some(a) for p = 2, None iff the symbol is not 1, otherwise a reduced root |
| ModularRoots.HasRootCases | src/main.rs:53-55 | Modulo a prime, a has a root iff p divides a or a has a nonzero root |
| ModularRoots.ZeroResidueRejected | src/main.rs:53-55 | As written, a multiple of an odd prime p has the root 0 yet gets None; the corrected root gives Some(0) |
| ModularRoots.CorrectedSqrt | src/main.rs:48-97 | Corrected square root: for an odd prime, None iff a has no root at all; a returned value is a reduced root, and 0 iff p divides a |
| NumberTheory.SquaringsPow | src/main.rs:89 | c^(2^power) mod p, the `modpow` with `1 << power`, equals squaring c power times |
| NumberTheory.SameSquare | src/main.rs:38 | Modulo a prime, two reduced elements with the same square are equal or sum to p |
| NumberTheory.ReflectionFlipsParity | src/main.rs:114-117 | For odd p and 0 < y < p, p - y has the other parity and the same square |
| NumberTheory.IsOdd | src/main.rs:114-117 | n mod 2 = 1; `ReflectionFlipsParity` proves p - y has the other parity for odd p |
| PointCompression.IsOnCurve | src/main.rs:19-26 | True at infinity, otherwise y * y mod p equals x^3 + a*x + b mod p; `NegationOnCurve` proves it is kept by negating y |
| PointCompression.CurveRhs | src/main.rs:36 | x^3 + a*x + b reduced modulo p is below p |
| PointCompression.NegationOnCurve | src/main.rs:19-26 | If (x, y) is on the curve, so is (x, (p - y) mod p) |
| PointCompression.Compress | src/main.rs:28-33 | None exactly for the point at infinity; otherwise x and whether y is odd |
| PointCompression.ChooseRoot | src/main.rs:38 | The selected root is reduced, squares like y, and is 0 iff y is; for odd p and y != 0 it has the requested parity; for p = 2 it is y |
| PointCompression.ReflectedRoot | src/main.rs:38 | (p - y) mod p is p - y for y != 0 and 0 for y = 0; it squares like y; for odd p it has the other parity |
| PointCompression.Decompress | src/main.rs:35-45 | A result keeps x, is affine, has y below p and is on the curve; for odd p it is None iff x^3 + a*x + b has no nonzero root, and otherwise has y != 0 and compresses back to (x, parity); for p = 2 it is (x, rhs) |
| PointCompression.RoundTrip | src/main.rs:28-45 | Decompressing the compressed form of a reduced affine point on the curve with y != 0 (any y when p = 2) gives the point back |
| PointCompression.RoundTripIff | src/main.rs:28-45 | For an odd prime and reduced affine points: the round trip succeeds iff the point is on the curve and y != 0 |
| PointCompression.ZeroOrdinateNotRecovered | src/main.rs:35-45 | A point on the curve with y = 0 compresses to (x, even) but decompresses to None for either parity |
| PointCompression.DecompressCorrected | src/main.rs:35-45 | Corrected decompression: a result is on the curve and reduced; None iff x^3 + a*x + b has no root; a nonzero y has the requested parity |
| PointCompression.RoundTripCorrected | src/main.rs:28-45 | With the corrected root, every reduced affine point on the curve survives compression and decompression |
| Scenarios.MainScenario | src/main.rs:120-141 | On y^2 = x^3 + 3x + 4 mod 7, (2, 5) is on the curve and compresses to (2, odd); it decompresses to (2, 5), and the even root is (2, 2) |
| Scenarios.ZeroOrdinateScenario | src/main.rs:35-45 | On the same curve, (6, 0) is on the curve and compresses to (6, even); `decompress` gives None; the corrected version gives (6, 0) |

## Left out

- Fermat's little theorem and the existence of a quadratic non-residue modulo an odd prime are preconditions (`FermatHolds`, `HasNonResidue` in `OddPrimeField`), not theorems. They are proved only for p = 7.
- ModularRoots.ModularSqrt, ModularRoots.TonelliShanks, PointCompression.Decompress: require p = 2 or an odd prime with those two facts. For p = 0 the source panics on `p - 1`, and p = 1 gives None (the symbol of every a is 0). For a composite modulus the search for z (src/main.rs:70-73) still ends, but the inner order loop (src/main.rs:83-86) may not: for p = 9 and a = 8 the symbol is 1, and after one pass t = 2, whose repeated squares cycle through 4 and 7 and never reach 1. Composite moduli are not modelled.
- ModularRoots.LegendreSymbol: requires p > 0 only, and its -1/0/1 range holds for every such p. Euler's criterion (`EulerValues`, `EulerCriterion`) is proved only for odd primes.
- `BigUint` is modelled by unbounded naturals. `modpow`, `%`, `/`, `&` and `<<` are modelled by their mathematical meaning, not by the library's algorithms.
- The counter `s` is a `u32` in the source and `power` goes through `to_u32().unwrap()` (src/main.rs:88). Both are unbounded here. `s` would overflow only after 2^32 halvings, that is, only if p - 1 were divisible by 2^(2^32). `power` is below `s`, so it fits in a `u32` for the same reason. `m - i - 1` is proved never to underflow, so the unwrap panic is not modelled.
- `main` (src/main.rs:120-142) prints its results. Printing is left out; its example is the lemma `Scenarios.MainScenario`.
- A concrete run through the general path of Tonelli-Shanks (the main loop) is not included. Only the fast path (p = 7) is exercised concretely. The general path is covered by the all-inputs lemmas.
- Elliptic-curve group arithmetic is not part of this program and is not modelled.

## Findings

| source | as written | input that shows it | evidently intended | confidence | as-written member | corrected member |
|---|---|---|---|---|---|---|
| src/main.rs:53-55 | `modular_sqrt` returns None whenever the Legendre symbol is not 1, including a = 0 mod p. So `decompress` answers None for every curve point with y = 0, and such points do not survive compression followed by decompression. | Curve a = 3, b = 4, p = 7, point (6, 0): 6^3 + 3*6 + 4 = 238 = 34 * 7, so the point is on the curve. It compresses to (6, even), and decompressing (6, even) gives None. | The square root of 0 is 0, and every affine point on the curve round-trips | high (proved, not executed) | PointCompression.ZeroOrdinateNotRecovered | PointCompression.RoundTripCorrected |
