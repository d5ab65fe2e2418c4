# A verified model of the MM_ATTT number-theory and elliptic-curve core

This Dafny project models the computational core of a Python teaching
repository on public-key cryptography. The modelled parts are:

- the integer kernel (`gcd`, `modulo`, `moduloPower`, `inverseModulo`);
- the short-Weierstrass curve class (construction check, membership, the
  chord-and-tangent law, double-and-add, the modular square root, the random
  point search);
- the Curve25519/Ed25519 arithmetic (twisted-Edwards addition, the
  Montgomery ladder, key clamping);
- the elliptic-curve primality prover (ECPP): Jacobi and Kronecker symbols,
  Tonelli-Shanks, Cornacchia, the CM order, the curve search, the
  certificate record, the recursive prover and the independent chain
  verifier;
- the sieves, the Miller-Rabin test and the AKS pieces (polynomial
  arithmetic modulo (x^r - 1, n), the search for r, the congruence check);
- trial-division factoring with Pollard's rho and the primitive-root search;
- the base-256 text/integer and text/curve-point encoders;
- the residue-table construction of a small curve's point list.

The model follows the code wherever the code and its comments disagree.

- An exception becomes an `Err`/`None` value.
- A float square root becomes the exact integer square root `Isqrt`.
- `None` as a point becomes the constructor `Inf`.
- Randomness is either a method input or a nondeterministic choice.
- The external primality tests (`prime_check`, gmpy2's `is_prime`) are
  function-valued parameters. A few stated sanity conditions are placed on
  them only where termination depends on them.

Each source file is one module:

| module | file | source |
|---|---|---|
| `Common` | common.dfy | `Option` and `Result` |
| `NumberTheory` | number_theory.dfy | NumberTheory.py, plus `Pow`, `IsPrime`, `Isqrt` |
| `EllipticCurves` | elliptic_curve.dfy | ECC/Elliptic_Curve.py, class `EllipticCurve` |
| `Curve25519`, `Curve25519Clamp`, `Curve25519Keys` | curve25519*.dfy | ECC/Elliptic_Curve.py, class `Curve25519` |
| `EcppCore` | ecpp_core.dfy | ECPP/ECPP_Core.py |
| `EcppUtils` | ecpp_utils.dfy | ECPP/ECPP_Utils.py |
| `EcppPart2` | ecpp_part2.dfy | ECPP/ECPP_Part2.py |
| `EcppTypes` | ecpp_types.dfy | ECPP/ECPP_Types.py |
| `Ecpp` | ecpp.dfy | ECPP/ECPP.py (class `ECPP` becomes class `Prover`) |
| `PrimeAll` | prime_all.dfy | Prime_All.py |
| `Polynomials` | polynomials.dfy | the shared specification of products modulo (x^r - 1, n) |
| `Aks` | aks.dfy | AKS_Algorithm.py |
| `NewAks` | new_aks.dfy | new_AKS.py (class `PolyMod` keeps its coefficient array) |
| `PrimitiveRoot` | primitive_root.dfy | SubDef/SD_Primitive_Root.py |
| `StringInt` | string_int.dfy | SubDef/String_Int.py |
| `StringPoint` | string_point.dfy | SubDef/String_Point.py |
| `EccCryptosystem` | ecc_cryptosystem.dfy | ECC/ECC_Cryptosystem.py |

Where the code and its own comments disagree, the code is modelled:

- SubDef/String_Int.py describes its conversion as base 26, but the code
  multiplies and divides by 256, so `StringInt` works in base 256.
- The ECC/Elliptic_Curve.py comment on `_mod_sqrt` calls it Tonelli-Shanks.
  The code is actually the (p+1)/4 shortcut followed by an exhaustive search
  below one million, and `EllipticCurves.ModSqrt` models that.

## Model

| member | source | states |
|---|---|---|
| NumberTheory.ModuloPower | NumberTheory.py:26-32 | the result is b^e mod m and lies in [0, m) |
| NumberTheory.Modulo | NumberTheory.py:19-24 | the result lies in [0, m) and differs from the number by a multiple of m (Python's floor remainder for m > 0) |
| NumberTheory.GcdIsGreatestCommonDivisor | NumberTheory.py:10-17 | `Gcd(a, b)` divides a and b, and every common divisor of a and b divides it |
| NumberTheory.GcdSymmetric | NumberTheory.py:10-17 | gcd(a, b) == gcd(b, a) |
| NumberTheory.GcdMod | NumberTheory.py:10-17 | gcd(b mod m, m) == gcd(b, m) |
| NumberTheory.ExtGcd | NumberTheory.py:34-41 | returns the gcd of a and b together with Bezout coefficients x, y with a*x + b*y equal to it |
| NumberTheory.InverseModulo | NumberTheory.py:34-41 | an inverse exists exactly when gcd(a, m) == 1 (otherwise the call fails); when it exists it lies in [0, m) and a*x is 1 mod m |
| NumberTheory.NoInverseWithoutCoprimality | NumberTheory.py:34-41 | no x at all makes a*x congruent to 1 mod m when gcd(a, m) != 1, so the failure is forced |
| NumberTheory.CoprimeFromInverse | NumberTheory.py:34-41 | any x with a*x congruent to 1 mod m shows gcd(a, m) == 1 |
| NumberTheory.QuotientFromInverse | NumberTheory.py:34-41 | multiplying by the inverse of den divides by den: (num * inv) * den is num mod p |
| NumberTheory.PowMod | NumberTheory.py:26-32 | reducing the base first does not change b^e mod m |
| NumberTheory.EuclidLemma | NumberTheory.py:34-41 | a prime dividing a product divides one of the factors |
| NumberTheory.SquareRootsModPrime | ECC/Elliptic_Curve.py:111-125 | modulo a prime, two numbers with the same square are equal or opposite |
| NumberTheory.PrimeDivisorExists | Prime_All.py:34-67 | every d >= 2 has a prime divisor no larger than d |
| NumberTheory.Isqrt | ECPP/ECPP_Utils.py:134 | the result r is the integer square root: r^2 <= n < (r+1)^2 (the value `int(n ** 0.5)` stands for) |
| NumberTheory.IsqrtUnique | ECPP/ECPP_Utils.py:134 | any r with r^2 <= n < (r+1)^2 is `Isqrt(n)` |
| EllipticCurves.NewCurve | ECC/Elliptic_Curve.py:11-24 | construction succeeds exactly when 4a^3 + 27b^2 is not 0 mod p, and it then holds (a, b, p) |
| EllipticCurves.DiscriminantMod | ECC/Elliptic_Curve.py:22-24 | the discriminant computed with `moduloPower` agrees with 4a^3 + 27b^2 mod p |
| EllipticCurves.IsOnCurve | ECC/Elliptic_Curve.py:26-32 | infinity is on every curve; an affine point is on it exactly when y^2 and x^3 + a*x + b agree mod p |
| EllipticCurves.OnCurveMod | ECC/Elliptic_Curve.py:32 | the source's test (difference reduced to 0 with `moduloPower`) is the congruence y^2 == x^3 + a*x + b mod p |
| EllipticCurves.PointAdd | ECC/Elliptic_Curve.py:34-70 | infinity is the identity on both sides; same x with y1 + y2 == 0 mod p gives infinity; otherwise the sum fails exactly when the slope's denominator (2y1 or x2 - x1) has no inverse mod p, and succeeds with the third point of the line through P and Q for a slope lam in [0, p) with lam * denominator == numerator mod p |
| EllipticCurves.ChordSpec | ECC/Elliptic_Curve.py:52-70 | the `modulo`/`inverseModulo` steps of the source compute a true slope and the third point of that line |
| EllipticCurves.SlopeUnique | ECC/Elliptic_Curve.py:63-64 | when the denominator is invertible the slope is unique mod p |
| EllipticCurves.PointAddCommutes | ECC/Elliptic_Curve.py:34-70 | P + Q == Q + P, failures included |
| EllipticCurves.PointAddTotalOverPrimeField | ECC/Elliptic_Curve.py:34-70 | over a prime field the addition of two reduced curve points never fails |
| EllipticCurves.SameAbscissa | ECC/Elliptic_Curve.py:47-50 | over a prime field two reduced curve points with the same x are equal or opposite, so the doubling branch only sees y != 0 |
| EllipticCurves.PointMultiply | ECC/Elliptic_Curve.py:72-95 | the double-and-add loop returns `ScalarMult(c, k, P)`: 0 gives infinity, a negative k multiplies the mirrored point by -k, the bits of k are consumed low to high, and the first failing addition aborts |
| EllipticCurves.ScalarMultOfInfinity | ECC/Elliptic_Curve.py:72-95 | k times infinity is infinity for every k >= 0 |
| EllipticCurves.ScalarMultEven | ECC/Elliptic_Curve.py:72-95 | (2k)P == k(2P) |
| EllipticCurves.ScalarMultOne | ECC/Elliptic_Curve.py:72-95 | 1P == P whenever P can be doubled |
| EllipticCurves.ScalarMultSmall | ECC/Elliptic_Curve.py:72-95 | for k <= 3 a successful double-and-add is the k-fold sum P + P + ... + P of `point_add`, taken left to right from infinity |
| EllipticCurves.ScalarMultOneAndTwo | ECC/Elliptic_Curve.py:72-95 | over a prime field, for a reduced curve point P, both 1P and the one-term sum are P, and the two-term sum P + P exists |
| EllipticCurves.ModSqrt | ECC/Elliptic_Curve.py:111-125 | a returned y lies in [0, p) and squares to a; for p below 10^6 None means a has no root; for p of at least 10^6 with p mod 4 != 3 the result is always None; for p mod 4 == 3 a working a^((p+1)/4) is the answer |
| EllipticCurves.CurveRhsResidue | ECC/Elliptic_Curve.py:103 | the `y_squared` value equals (x^3 + a*x + b) mod p |
| EllipticCurves.GeneratePoint | ECC/Elliptic_Curve.py:97-109 | a returned point is affine, reduced mod p and on the curve; an error records 1000 draws x in [0, p); for p < 10^6 no curve point lies above any of them, for p mod 4 == 3 the candidate root a^((p+1)/4) of each fails to square to a (`ShortcutFails`), and for p >= 10^6 with p mod 4 != 3 the result is always an error |
| EllipticCurves.FailedDraw | ECC/Elliptic_Curve.py:111-125 | a None from `_mod_sqrt` at x means no curve point lies above x when p < 10^6, and that the p mod 4 == 3 shortcut root fails there |
| EllipticCurves.PointMissedAboveMillion | ECC/Elliptic_Curve.py:111-125 | y^2 = x^3 + 1 mod 1000033 has the reduced point (0, 1), so 1 has the root 1 there, yet 1000033 >= 10^6 and 1000033 mod 4 == 1, where `_mod_sqrt` answers None |
| EllipticCurves.ModSqrtComplete | ECC/Elliptic_Curve.py:111-125 | the square root without the size cut-off: a returned y lies in [0, p) and squares to a, and None means that no y in [0, p) squares to a, for every p |
| EllipticCurves.GeneratePointIntended | ECC/Elliptic_Curve.py:97-109 | `generate_point` over that square root: a returned point is affine, reduced and on the curve, and an error means that each of the 1000 drawn x has no curve point above it |
| Curve25519.ConstantsAsDocumented | ECC/Elliptic_Curve.py:142-145 | the field prime is 2^255 - 19, the group order is 2^252 + 27742317777372353535851937790883648493, and (A - 2) // 4 is 121665 |
| Curve25519.InverseOf121666 | ECC/Elliptic_Curve.py:151 | `inverseModulo(121666, p)` exists; it lies in [0, p) and 121666 times it is 1 mod p |
| Curve25519.ComputedEdwardsD | ECC/Elliptic_Curve.py:151 | the d the constructor computes, -121665 times the inverse of 121666 mod p, is the documented Ed25519 constant |
| Curve25519.EdwardsDUnique | ECC/Elliptic_Curve.py:151 | every inverse of 121666 in [0, p) gives that same d |
| Curve25519.BasePointOnEdwardsCurve | ECC/Elliptic_Curve.py:155-157 | the base point (Bx, By) satisfies -x^2 + y^2 == 1 + d x^2 y^2 mod p |
| Curve25519.EdAffineAdd | ECC/Elliptic_Curve.py:259-268 | with t = d x1 x2 y1 y2 the sum exists exactly when 1 + t and 1 - t are units mod p; x3 (1 + t) == x1 y2 + y1 x2 and y3 (1 - t) == y1 y2 + x1 x2 mod p, both reduced |
| Curve25519.EdPointAdd | ECC/Elliptic_Curve.py:248-268 | the Montgomery variant always fails; infinity is the identity on both sides; affine points go through the Edwards law |
| Curve25519.EdPointAddCommutes | ECC/Elliptic_Curve.py:248-268 | Edwards addition is commutative, failures included |
| Curve25519.BasePoint | ECC/Elliptic_Curve.py:155-175 | `self.B` of each variant: (Bx, By) for Ed25519, and for Curve25519 the point (9, Bv) whose v is the one `_compute_v_from_u(9)` gives |
| Curve25519.EdScalarMult | ECC/Elliptic_Curve.py:277-287 | 0 gives infinity; 1 gives the point, or `self.B` of the variant when the point is missing |
| Curve25519.EdScalarMultiply | ECC/Elliptic_Curve.py:277-296 | the loop returns `EdScalarMult`: a missing point becomes `self.B` of the variant, 0 gives infinity, 1 the point, larger k double-and-add |
| Curve25519.EdScalarMultSmall | ECC/Elliptic_Curve.py:277-296 | on Ed25519, for k <= 2 a successful result is the k-fold sum of the point (or of `self.B`) under `point_add`, taken left to right from infinity |
| Curve25519.EdScalarMultOnMontgomeryFails | ECC/Elliptic_Curve.py:270-296 | on the Montgomery variant every k >= 2 fails, because the loop calls `point_add` |
| Curve25519.EdScalarMultOneShortcut | ECC/Elliptic_Curve.py:284-287 | the k == 1 shortcut returns what the loop would return, whenever the loop's doubling succeeds |
| Curve25519.DifferentialAdd | ECC/Elliptic_Curve.py:320-338 | the step returns reduced values that satisfy the RFC 7748 doubling and differential-addition formulas mod p: u2' == (u2^2 - w2^2)^2, w2' == 4 u2 w2 (u2^2 + A u2 w2 + w2^2), u3' == 4 (u2 u3 - w2 w3)^2, w3' == 4 u (u2 w3 - w2 u3)^2 |
| Curve25519.LadderDoubling | ECC/Elliptic_Curve.py:322-336 | the source's intermediate values AA, BB, E and (A - 2) // 4 give the doubling formula |
| Curve25519.LadderAddition | ECC/Elliptic_Curve.py:326-333 | the source's intermediate values C, D, DA and CB give the differential-addition formula |
| Curve25519.BitsRoundTrip | ECC/Elliptic_Curve.py:308 | the digits of `bin(k)[2:]` read back in base 2 give k |
| Curve25519.MontgomeryScalarMult | ECC/Elliptic_Curve.py:298-318 | the ladder over the digits of `bin(k)[2:]` starts from ((1 : 0), (u : 1)), with u defaulting to 9; the result exists exactly when w2 is a unit mod p, and it is then the reduced r with r w2 == u2 mod p |
| Curve25519.LadderMultipleAsWritten | ECC/Elliptic_Curve.py:310-315 | read on multiples of the point, the loop as written takes (0, 1) over a digit string of length L and value s to (2^L - 1 - s, 2^L - s) |
| Curve25519.MontgomeryMultipleAsWritten | ECC/Elliptic_Curve.py:298-318 | for k >= 1 the first pair ends as the multiple 2^L - 1 - k of the point, L the number of binary digits of k, not the k the docstring promises |
| Curve25519.MontgomeryOfOneFails | ECC/Elliptic_Curve.py:298-318 | for k == 1 and u == 9 the loop ends with w2 == 0, which has no inverse mod p, so the final `inverseModulo` raises |
| Curve25519.CorrectedLadderIsComplement | ECC/Elliptic_Curve.py:310-315 | the ladder step of section 5 of RFC 7748 over a digit string is the loop as written over the complemented string |
| Curve25519.ComplementValue | ECC/Elliptic_Curve.py:308 | complementing a binary string of length L with value s gives value 2^L - 1 - s |
| Curve25519.CorrectedLadderMultiple | ECC/Elliptic_Curve.py:298-318 | with the RFC 7748 step the ladder over `bin(k)[2:]` ends holding the multiples k and k + 1 of the point |
| Curve25519.CorrectedOfOne | ECC/Elliptic_Curve.py:298-318 | with the RFC 7748 step, k == 1 and u == 9 end at (324 : 36), a unit w2 and the projective form of 9 itself |
| Curve25519.MontgomeryScalarMultCorrected | ECC/Elliptic_Curve.py:298-318 | the scalar multiplication with the RFC 7748 step: the result exists exactly when the final w2 is a unit mod p, and is then the reduced r with r w2 == u2 mod p |
| Curve25519.ComputeVFromU | ECC/Elliptic_Curve.py:177-189 | a v is known only for u == 9; that v satisfies v^2 == u^3 + A u^2 + u mod p |
| Curve25519Clamp.ClampMeaning | ECC/Elliptic_Curve.py:349-352 | the clamped key has bits 0-2 and 255 clear, bit 254 set, all other bits of the seed unchanged, so it lies in [2^254, 2^255) |
| Curve25519Clamp.ClampFixedBits | ECC/Elliptic_Curve.py:349-352 | the three fixed-bit facts of the clamped key |
| Curve25519Clamp.ClampKeepsMiddle | ECC/Elliptic_Curve.py:349-352 | bits 3 to 253 are copied from the seed |
| Curve25519Clamp.ClampIdempotent | ECC/Elliptic_Curve.py:349-352 | clamping a clamped key changes nothing |
| Curve25519Clamp.ClampInPlace | ECC/Elliptic_Curve.py:349-352 | the three in-place bit updates produce `Clamp(seed)` |
| Curve25519Keys.ReducedKey | ECC/Elliptic_Curve.py:345-348 | the Ed25519 key lies in [1, L): it is the seed mod L, or 1 when that is 0 |
| Curve25519Keys.GeneratePrivateKey | ECC/Elliptic_Curve.py:340-354 | the key is computed from a 256-bit integer seed standing for the random bytes (the byte decoding is not modelled); Ed25519 gets `ReducedKey`, Curve25519 gets the clamped seed |
| EcppCore.IsSquareFree | ECPP/ECPP_Core.py:48-61 | the loop over the small-prime table returns `SquareFreeSpec`: false for n <= 1, otherwise no tabulated prime square up to n divides n |
| EcppCore.TableSquareFreeMeaning | ECPP/ECPP_Core.py:55-61 | the early exit at p*p > n is harmless: the scan accepts exactly when no tabulated p with p*p <= n has p*p dividing n |
| EcppCore.SquareFreeSound | ECPP/ECPP_Core.py:48-61 | when the table holds every prime q with q*q <= n, the test is exact: true iff n > 1 and no square d*d with d >= 2 divides n |
| EcppCore.SquareFreeBelow144 | ECPP/ECPP_Core.py:48-61 | below 144 the primes up to 11 make the test accept every n free of 4, 9, 25, 49, 121 |
| EcppCore.IsFundamentalDiscriminant | ECPP/ECPP_Core.py:23-46 | as written: non-negative D is rejected, and the residue tests are applied to abs(D): abs(D) == 1 mod 4 and square-free, or abs(D) == 4m with m == 2, 3 mod 4 and m square-free |
| EcppCore.FundamentalDiscriminantAsWritten | ECPP/ECPP_Core.py:31-46 | as written the test rejects -3, -4 and -7 from the class's own discriminant table and accepts -5 |
| EcppCore.IsFundamentalDiscriminantIntended | ECPP/ECPP_Core.py:25-30 | the documented test on signed residues: an accepted D is negative, either D == 1 mod 4 with -D square-free, or D == 4m with m == 2, 3 mod 4 and m == -1 or -m square-free |
| EcppCore.FundamentalDiscriminantIntended | ECPP/ECPP_Core.py:16-21 | the documented test accepts all 40 entries of `SMALL_DISCRIMINANTS` and rejects -5 |
| EcppCore.IntendedBelow144 | ECPP/ECPP_Core.py:25-30 | every D in (-144, 0) of the right residue class whose core is free of 4, 9, 25, 49, 121 is accepted |
| EcppCore.JacobiSpec | ECPP/ECPP_Core.py:99-119 | fails exactly when n is not a positive odd number, and otherwise returns -1, 0 or 1 |
| EcppCore.Jacobi | ECPP/ECPP_Core.py:99-119 | the loop (strip factors of 2 flipping the sign when n mod 8 is 3 or 5, swap, flip the sign when both are 3 mod 4, reduce) returns `JacobiSpec(a, n)` |
| EcppCore.JacobiDependsOnResidue | ECPP/ECPP_Core.py:105 | (a/n) depends only on a mod n |
| EcppCore.JacobiZeroIffNotCoprime | ECPP/ECPP_Core.py:99-119 | for odd n > 0, (a/n) == 0 exactly when gcd(a, n) != 1 |
| EcppCore.StripTwos | ECPP/ECPP_Core.py:109-112 | halving leaves an odd value between 1 and a, and the sign is either kept or flipped |
| EcppCore.RemoveTwos | ECPP/ECPP_Core.py:109-112 | the inner `while a % 2 == 0` loop ends at the odd part and sign `StripTwos` describes |
| EcppCore.StripTwosGcd | ECPP/ECPP_Core.py:109-112 | for odd n, removing the factors 2 from a does not change gcd(a, n) |
| EcppCore.JacobiLoop | ECPP/ECPP_Core.py:108-119 | the outer loop returns 0 or the starting sign, possibly flipped |
| EcppCore.JacobiLoopZero | ECPP/ECPP_Core.py:108-119 | for odd n and 0 <= a < n the loop returns 0 exactly when gcd(a, n) != 1 |
| EcppCore.TwoAdic | ECPP/ECPP_Core.py:82-86 | returns (k, m) with m odd and n == 2^k m |
| EcppCore.TwoAdicUnique | ECPP/ECPP_Core.py:82-86 | the split n == 2^k m with odd m is unique |
| EcppCore.CountTwos | ECPP/ECPP_Core.py:82-86 | the halving loop returns `TwoAdic(n)` |
| EcppCore.KroneckerSpec | ECPP/ECPP_Core.py:63-97 | the result is -1, 0 or 1; for n == 0 it is 1 exactly when abs(a) == 1; for odd n > 0 it is the Jacobi symbol |
| EcppCore.Kronecker | ECPP/ECPP_Core.py:63-97 | the recursive source (sign rules for n < 0, factor 2^k for even n, Jacobi for odd n) returns `KroneckerSpec(a, n)` |
| EcppCore.KroneckerEvenPair | ECPP/ECPP_Core.py:78-80 | two even arguments give 0 |
| EcppCore.KroneckerEvenModulus | ECPP/ECPP_Core.py:78-94 | for even n == 2^k m and odd a, (a/n) is (a/2)^k (a/m), with (a/2) == 1 iff a == 1, 7 mod 8 |
| EcppCore.KroneckerZeroIffNotCoprime | ECPP/ECPP_Core.py:63-97 | for all a and n, (a/n) == 0 exactly when gcd(a, n) != 1 |
| EcppCore.HilbertClassPolynomial | ECPP/ECPP_Core.py:121-174 | a polynomial is returned exactly for the tabulated D; it is monic, of degree 1 for the class-number-one D and of degree 2 otherwise |
| EcppCore.FourCubeMod | ECPP/ECPP_Core.py:191 | `modulo(4 * moduloPower(c, 3, p), p)` is 4c^3 mod p |
| EcppCore.FindCurveFromDiscriminant | ECPP/ECPP_Core.py:176-201 | for -3 it returns (0, b) with b the least value in [1, min(p, 1000)) where 4b^3 != 0 mod p, and for -4 it returns (a, 0) likewise; None there means no such value exists; other D fall back to the random search |
| EcppCore.FindCurveSimple | ECPP/ECPP_Core.py:203-214 | a returned (a, b) is reduced mod p and non-singular; None records 100 draws (a, b) in [0, p)^2, every one singular |
| EcppUtils.Squarings | ECPP/ECPP_Utils.py:64-67 | k successive squarings mod p stay in [0, p) |
| EcppUtils.SquaringsPow | ECPP/ECPP_Utils.py:62-70 | k squarings of x compute x^(2^k) mod p, which `moduloPower(c, 1 << k, p)` stands for |
| EcppUtils.UnitSquareRoot | ECPP/ECPP_Utils.py:62-67 | modulo a prime the only square root of 1 other than 1 is p - 1, which drives the Tonelli-Shanks descent |
| EcppUtils.TonelliStep | ECPP/ECPP_Utils.py:62-74 | one update (b, c, t, R) keeps c of order exactly 2^i and t of order dividing 2^(i-1) |
| EcppUtils.TonelliIteration | ECPP/ECPP_Utils.py:62-74 | one round of the main loop keeps the invariant R^2 == n t mod p together with the order facts on c and t |
| EcppUtils.TonelliInit | ECPP/ECPP_Utils.py:50-54 | the initial M = S, c = z^Q, t = n^Q, R = n^((Q+1)/2) satisfy that invariant for a residue n and a non-residue z |
| EcppUtils.FindNonResidue | ECPP/ECPP_Utils.py:45-48 | a returned z >= 2 has z^((p-1)/2) == p - 1 mod p; None means no integer at all has that property |
| EcppUtils.TonelliMainLoop | ECPP/ECPP_Utils.py:56-74 | the loop returns a root in [0, p) (a non-zero result squares to n mod p, and every result does when p is prime); it fails only on a negative shift, which cannot happen for prime p |
| EcppUtils.TonelliShanks | ECPP/ECPP_Utils.py:15-74 | None exactly when n^((p-1)/2) != 1 (mod p): otherwise the answer is a root or an error; a returned r lies in [0, p) and, for prime p, r^2 == n mod p; p == 3 mod 4 never fails; a failure is either "no non-residue exists" or the negative shift of a composite p |
| EcppUtils.ThreeModFourRoot | ECPP/ECPP_Utils.py:30-35 | for p == 3 mod 4 and n^((p-1)/2) == 1 mod p, x = n^((p+1)/4) satisfies x^2 == n mod p, so the fallback `return None` of that branch is never reached |
| EcppUtils.SquareIsEulerResidue | ECPP/ECPP_Utils.py:27-28 | when y^2 == n mod p with y^(p-1) == 1 mod p (Fermat's congruence, true for a prime p not dividing y), n^((p-1)/2) == 1 mod p, so the Euler test does not reject n |
| EcppUtils.NormCheck | ECPP/ECPP_Utils.py:140 | the final check is exactly x^2 + abs(D) y^2 == 4p |
| EcppUtils.CornacchiaDescent | ECPP/ECPP_Utils.py:114-143 | the Euclidean descent below sqrt(4p) and the recovery of y return only non-negative solutions of x^2 + abs(D) y^2 == 4p |
| EcppUtils.Cornacchia | ECPP/ECPP_Utils.py:76-143 | D >= 0 gives None; p == 2 gives (2, 2) only for D == -1; a Kronecker symbol other than 1 gives None; every returned (x, y) is a non-negative solution of x^2 + abs(D) y^2 == 4p; failures come only from the square-root step |
| EcppUtils.TraceFromSolution | ECPP/ECPP_Utils.py:157-175 | the trace is x, -x or 0, and it is x for every D other than -3 and -4 |
| EcppUtils.NoNormSolutionMinusThree | ECPP/ECPP_Utils.py:164-165 | the -x rule for D == -3 is unreachable: for p == 2 mod 3, x^2 + 3y^2 == 4p has no solution |
| EcppUtils.NoNormSolutionMinusFour | ECPP/ECPP_Utils.py:171-172 | the 0 rule for D == -4 is unreachable: for p == 3 mod 4, x^2 + 4y^2 == 4p has no solution |
| EcppUtils.TraceWithinHasse | ECPP/ECPP_Utils.py:146-175 | every trace derived from a solution satisfies t^2 <= 4p, Hasse's bound |
| EcppUtils.ComputeTraceFromCornacchia | ECPP/ECPP_Utils.py:145-175 | a returned trace comes from a Cornacchia solution and satisfies t^2 <= 4p; D >= 0 and a Kronecker symbol other than 1 give None |
| EcppUtils.ComputeCurveOrderCm | ECPP/ECPP_Utils.py:177-201 | a returned order is p + 1 - t for a CM trace t and lies within [p + 1 - 2 floor(sqrt p), p + 1 + 2 floor(sqrt p)]; D >= 0 gives None |
| EcppUtils.SmallDiscriminantsIncreasing | ECPP/ECPP_Core.py:16-21 | the discriminant table is sorted by increasing abs(D), which makes the early `break` at max_D sound |
| EcppUtils.FindAllDiscriminantsForPrime | ECPP/ECPP_Utils.py:203-226 | every listed (D, order) has D in the table with abs(D) <= max_D, Kronecker symbol 1 and a CM order; the list is sorted by abs(D); the ghost record of trials covers exactly the table entries with abs(D) <= max_D, in table order, and the list is exactly the trials where both Cornacchia and the order succeeded |
| EcppUtils.ScanDiscriminants | ECPP/ECPP_Utils.py:213-226 | the same facts for any table sorted by abs(D): the loop stops at the first entry beyond max_D and lists exactly the successful trials |
| EcppUtils.TryDiscriminantSteps | ECPP/ECPP_Utils.py:217-224 | the trial of one D: Cornacchia runs only when the Kronecker symbol is 1, the order only when Cornacchia found a solution, each answer meets its step's contract; an error happens only after a Kronecker symbol of 1 |
| EcppUtils.ListedExactly | ECPP/ECPP_Utils.py:223-224 | a trial that produced an order is listed with it, and every listed pair comes from such a trial |
| EcppUtils.ListedFromTable | ECPP/ECPP_Utils.py:213-224 | trials over a prefix of a table sorted by abs(D) list only entries up to max_D with Kronecker symbol 1 and a CM order, strictly increasing in abs(D) |
| EcppUtils.ScannedSnoc | ECPP/ECPP_Utils.py:213-224 | trying the next table entry within max_D extends the scan by its trial and the list by that trial's (D, order), if the order step succeeded |
| EcppUtils.ExaminedPrefix | ECPP/ECPP_Utils.py:213-215 | in a table sorted by abs(D), the entries with abs(D) <= max_D are exactly those before the first entry beyond max_D |
| EcppUtils.FactorSimple | ECPP/ECPP_Utils.py:228-247 | n == remaining times the product of the found prime powers; each found factor is one of the first 200 small primes, has multiplicity >= 1 and no longer divides the remainder; the ghost stop index k is such that none of the first k primes divides the remainder, and either all primes were tried or ps[k]^2 exceeds the remainder |
| EcppUtils.FactorProductBump | ECPP/ECPP_Utils.py:243-245 | raising one multiplicity by one multiplies the recorded product by that prime |
| EcppPart2.CountPointsNaive | ECPP/ECPP_Part2.py:15-39 | p > 10000 is refused; otherwise the loop returns `NaiveCount`: 1 for infinity plus, per x in range(p), 1 when Euler's criterion on x^3 + a x + b is 0, 2 when it is 1, and 0 otherwise |
| EcppPart2.NaiveCountBounds | ECPP/ECPP_Part2.py:24-39 | the naive count lies between 1 and 2p + 1 |
| EcppPart2.VanishingRhsCountsOnce | ECPP/ECPP_Part2.py:34-35 | for p >= 3 an x where x^3 + a x + b vanishes mod p contributes exactly one point |
| EcppPart2.NaiveCountModTwo | ECPP/ECPP_Part2.py:32-37 | for p == 2 the exponent (p - 1) // 2 is 0, so every x counts twice and the count is 5 whatever the curve |
| EcppPart2.EstimateOrderBySampling | ECPP/ECPP_Part2.py:61-96 | None exactly when the curve is singular; otherwise p + 1, whatever the sampled points are |
| EcppPart2.SchoofAlgorithmSimplified | ECPP/ECPP_Part2.py:41-59 | the same: None for a singular curve, otherwise p + 1 |
| EcppPart2.ComputeOrderFromCm | ECPP/ECPP_Part2.py:159-189 | every branch gives p + 1, so the result does not depend on D |
| EcppPart2.FindLargePrimeFactor | ECPP/ECPP_Part2.py:191-211 | the loop returns `LargePrimeFactor`; if `prime_check(n)` holds the answer is n or None by the size test; a returned q is a positive divisor of n, at least min_size, accepted by `prime_check`, and, when n itself was not accepted, free of the first 100 small primes |
| EcppPart2.StripCopies | ECPP/ECPP_Part2.py:202-203 | dividing out every copy of a prime p leaves a positive remainder, at most the start, that p no longer divides |
| EcppPart2.StripFrom | ECPP/ECPP_Part2.py:201-205 | the trial division from one table position on gives None (a remainder fell below min_size) or a positive remainder at most the start, and at least min_size when any prime was divided out |
| EcppPart2.StripTable | ECPP/ECPP_Part2.py:199-205 | the in-place loop over the first 100 primes returns `StripFrom` from position 0; a remainder divides n and no scanned prime divides it |
| EcppPart2.DivideExactly | ECPP/ECPP_Part2.py:202-203 | each division by a small prime strictly shrinks the positive remainder and keeps it a divisor |
| EcppPart2.TryDiscriminant | ECPP/ECPP_Part2.py:129-157 | a tuple is returned exactly when the Kronecker symbol is 1, a curve was found and `_find_large_prime_factor(p + 1, min_q)` gives a q > min_q; for D == -3 and -4 a curve is found exactly when some c below min(p, 1000) gives a non-singular curve; a returned (a, b, order, q) has a, b reduced, order p + 1 and q that factor, a divisor of the order that `prime_check` accepts |
| EcppPart2.TryInOrder | ECPP/ECPP_Part2.py:117-124 | the discriminants are tried in list order: the search stops at the first one that gives a tuple, every earlier one has Kronecker symbol other than 1, no large factor, or (for -3 and -4) no curve, and None means that every one was passed over |
| EcppPart2.FindCurveWithGoodOrder | ECPP/ECPP_Part2.py:98-127 | a returned tuple satisfies the same conditions with min_q = int(4 sqrt(p)) and q is the large factor of p + 1; no such factor means None; the tuple comes from the first list discriminant that gives one, every earlier one having been rejected, and otherwise from the random search, whose curve is non-singular; None records the search's 100 draws (a, b) in [0, p)^2, and when p + 1 has a large enough factor every one of them is singular |
| EcppPart2.MinQ | ECPP/ECPP_Part2.py:112 | min_q is the integer square root of 16p: q^2 <= 16p < (q + 1)^2 |
| EcppPart2.RandomSearchCurve | ECPP/ECPP_Part2.py:213-234 | a returned tuple satisfies those conditions, its q is the large factor of p + 1, and its curve is non-singular; None records 100 draws (a, b) in [0, p)^2, and when p + 1 has a large enough factor every one of them is singular |
| EcppPart2.TryRandomPair | ECPP/ECPP_Part2.py:219-231 | one draw is rejected exactly when its curve is singular or p + 1 has no prime factor above min_q; a kept draw returns (a, b, p + 1, q) with q that factor |
| EcppTypes.ToDict | ECPP/ECPP_Types.py:34-44 | the dictionary has exactly the seven field names as keys |
| EcppTypes.FromDict | ECPP/ECPP_Types.py:46-57 | reading succeeds exactly when all seven fields are present; a failure names a missing field |
| EcppTypes.FromDictToDict | ECPP/ECPP_Types.py:34-57 | `from_dict(to_dict(c)) == c` |
| EcppTypes.ToDictFromDict | ECPP/ECPP_Types.py:34-57 | a dictionary with exactly the seven keys survives `to_dict(from_dict(d))` unchanged |
| EcppTypes.FloorDiv | ECPP/ECPP_Types.py:61 | Python's `//` is the floor of x / d for both signs of d |
| EcppTypes.GetCofactor | ECPP/ECPP_Types.py:59-61 | fails exactly when q == 0 |
| EcppTypes.CofactorExact | ECPP/ECPP_Types.py:59-61 | when q divides m the cofactor h satisfies h q == m |
| EcppTypes.VerifyBasicProperties | ECPP/ECPP_Types.py:63-81 | raises for q == 0, or for q dividing m with negative n (a complex square root); q not dividing m is the first failure; it passes exactly when q divides m, n > 0, m > 0 and q > 4 floor(sqrt(n)) |
| EcppTypes.PositivityNeverSeesSmallQ | ECPP/ECPP_Types.py:72-79 | the positivity failure can only come from n == 0 or m <= 0, because a q <= 0 has already failed the bound |
| EcppTypes.ValidateFrom | ECPP/ECPP_Types.py:161-175 | from step i on the chain is accepted exactly when every later certificate passes its own check and every q is the next certificate's n |
| EcppTypes.ValidateFromBrokenIsFirst | ECPP/ECPP_Types.py:161-168 | a reported broken link is the first broken link, and every certificate before it passed its own check |
| EcppTypes.ValidateCertificateChain | ECPP/ECPP_Types.py:146-175 | the empty chain is valid; a chain is valid exactly when every certificate passes its own check and the q of each is the n of the next; a reported break is the first one |
| Ecpp.GkConditionsMeaning | ECPP/ECPP.py:211-238 | `_verify_gk_conditions` accepts exactly the points that meet all four Goldwasser-Kilian conditions: m P == O, (m // q) P is affine with y coprime to n, and q > 4 floor(sqrt n); every exception means rejection |
| Ecpp.LinkedChainAccepted | ECPP/ECPP.py:245-273 | a linked chain of passing certificates whose last q is below 10^6 and passes `prime_check` is accepted |
| Ecpp.LinkedChainCons | ECPP/ECPP.py:138-146 | prepending a passing certificate for n whose q starts a linked chain gives a linked chain for n with the same end |
| Ecpp.FourRootBelowRootOfSixteen | ECPP/ECPP.py:232 | 4 floor(sqrt n) <= floor(sqrt(16 n)), so a q above `min_q` of ECPP/ECPP.py:156 also passes the bound of `_verify_gk_conditions` |
| Ecpp.OddDivisorOfSuccessor | ECPP/ECPP.py:144-146 | an odd divisor q of n + 1 for odd n >= 3 is smaller than n |
| Ecpp.NextCandidateSmaller | ECPP/ECPP.py:106-146 | for odd n >= 10^6 the q of a found curve is odd and lies in (4, n), so the recursion terminates |
| Ecpp.ChainAfterAppend | ECPP/ECPP.py:138-146 | appending a certificate and then the chain the recursive call builds for q leaves a linked chain for n that ends where q's chain ends |
| Ecpp.Prover.constructor | ECPP/ECPP.py:38-40 | a new prover has an empty certificate list |
| Ecpp.Prover.Table | ECPP/ECPP.py:62 | the scanned table is the first at most 1000 entries of the small-prime list |
| Ecpp.Prover.ProvePrime | ECPP/ECPP.py:42-83 | the list is reset and returned. n < 2 and even n > 2 are composite with no certificates; 2 and the table primes are prime; odd n with a table divisor is composite; otherwise, below 10^6, the answer is `prime_check(n)`. The certificates always form a linked chain for n. "Prime" means `prime_check` accepted the chain's end, or the number was 2 or in the table. A prime verdict whose chain ends below 10^6 is accepted by `verify_certificate_chain` |
| Ecpp.Prover.ScanTable | ECPP/ECPP.py:62-66 | the scan answers prime exactly when n is in the table, composite exactly when it is not but some entry divides it, and goes on exactly when no entry divides it |
| Ecpp.Prover.EcppRecursive | ECPP/ECPP.py:85-146 | earlier certificates are kept and the new ones form a linked chain for n; "prime" means `prime_check` accepted the chain's end. The exit taken is the base case exactly below 10^6; the base case and a failed curve search answer `prime_check(n)`, and a failed witness search or re-check answers False, all with nothing appended; certificates are appended exactly on the recursive exit. For n >= 10^6 with n mod 4 != 3 the exit is a failed curve or witness search |
| Ecpp.Prover.FindSuitableCurve | ECPP/ECPP.py:148-167 | a returned (a, b, m, q) has a, b reduced, m == n + 1 and q > int(4 sqrt n) the large prime factor of n + 1; the `q > min_q` test never rejects the search's curve, so None means every table discriminant was passed over (Kronecker symbol not 1, no large factor of n + 1, or an empty curve search); no large factor of n + 1 gives None; None records the random search's 100 draws, every one singular when n + 1 has a large enough factor |
| Ecpp.Prover.VerifyCertificateChain | ECPP/ECPP.py:245-286 | the verifier returns `ChainAccepted`: an empty chain is judged by `prime_check(n)`; otherwise every certificate passes the Goldwasser-Kilian check, the first is about n, the links hold, and the last q is below 10^6 and passes `prime_check` |
| Ecpp.FindWitnessPoint | ECPP/ECPP.py:169-209 | a returned point lies on a non-singular curve, has m P == O, and (m // q) P is affine with y coprime to p; for p >= 10^6 with p mod 4 != 3 the answer is always None, because every `generate_point` raises; None on a non-singular curve records 100 attempts, and no point any of them generated is a candidate (on the curve, m P == O, (m // q) P affine with y coprime to p) |
| Ecpp.WitnessPassesGk | ECPP/ECPP.py:129-133 | a point the witness search returns, for a q the curve search found, always passes `_verify_gk_conditions`, so that re-check never fails |
| PrimeAll.ClearStride | Prime_All.py:26 | `a[start::step] = False`: every index on the stride is cleared, and every other entry keeps its value |
| PrimeAll.SimpleSieve | Prime_All.py:12-31 | the list starts with 2, is strictly increasing, its other entries are odd, every entry is prime, and every odd prime up to 2 * ((limit + 1) // 2) + 1 is in it (that top can be limit + 1 or limit + 2) |
| PrimeAll.MarkOddComposites | Prime_All.py:15-26 | after the marking loop an entry is set exactly when the odd value 2 i + 3 it stands for is prime |
| PrimeAll.SieveStep | Prime_All.py:20-26 | one round for p = 2 i + 3 raises the sieving bound from p - 2 to p: afterwards an entry is set exactly when its value has no odd divisor d <= p with d^2 <= value, whether or not p itself was still set |
| PrimeAll.StrideIsOddMultiple | Prime_All.py:23-26 | the indices cleared from (p^2 - 3) // 2 with step p are exactly the values that are multiples of p from p^2 on |
| PrimeAll.SurvivorIsPrime | Prime_All.py:19-26 | an odd value up to the array's top has no odd divisor d with d^2 <= value up to the last sieving prime exactly when it is prime |
| PrimeAll.CollectSurvivors | Prime_All.py:28-31 | the list is 2 followed by the values 2 i + 3 of the set entries, in increasing order, so it is exactly 2 and the odd primes of the array |
| PrimeAll.SieveOfTenReturnsEleven | Prime_All.py:12-31 | `simple_sieve(10)` contains 11, a prime above its argument |
| PrimeAll.SimpleSieveUpTo | Prime_All.py:12-31 | the corrected sieve: strictly increasing, exactly the primes up to limit |
| PrimeAll.SegmentedSieve | Prime_All.py:34-67 | `[]` for n < 2; otherwise strictly increasing, every entry prime, every prime up to n included, for n >= 3 no entry above n, and for n == 2 the surplus base prime 3 is in the result |
| PrimeAll.SurplusBound | Prime_All.py:40-41 | the base list reaches at most int(sqrt(n)) + 2, which is at most n once n >= 3, and is exactly 3 for n == 2 |
| PrimeAll.SegmentedSieveUpTo | Prime_All.py:34-67 | the corrected segmented sieve: `[]` for n < 2, otherwise exactly the primes up to n, strictly increasing |
| PrimeAll.SieveSegment | Prime_All.py:48-65 | after one segment [low, high] the running list stays strictly increasing and prime, keeps what it had, and holds every prime up to high |
| PrimeAll.AppendSurvivors | Prime_All.py:62-65 | appending the unmarked positions low + i keeps the list strictly increasing and adds every prime of the segment that is not a base prime |
| PrimeAll.SegmentStart | Prime_All.py:56-59 | `(low + p - 1) // p * p` is the least multiple of p that is at least low, so the `start < low` correction never fires |
| PrimeAll.SegmentStride | Prime_All.py:57-60 | the slice cleared for base prime p holds exactly the segment positions whose value p divides |
| PrimeAll.UnmarkedIsPrime | Prime_All.py:55-65 | a value in (int(sqrt(n)), n] that no base prime divides is exactly a prime that is not itself a base prime |
| PrimeAll.GcdInPrime | Prime_All.py:189-194 | the result is gcd(abs(a), abs(b)): it divides a and b, and every common divisor of a and b divides it |
| PrimeAll.PyMod | Prime_All.py:213-216 | Python's `%`: the remainder lies in [0, m) for m > 0 and in (m, 0] for m < 0 |
| PrimeAll.PyModMul | Prime_All.py:213-216 | reducing the running product before the next multiplication does not change the residue, for either sign of the modulus |
| PrimeAll.MultiplicativeOrder | Prime_All.py:208-219 | 0 exactly when gcd(n, r) != 1 (the search starts at k = 1); a raise exactly when r == 0 and gcd(n, 0) == 1; a positive result k is at most r and is the least k >= 1 with n^k % r == 1; infinity exactly when no exponent in [1, r] gives 1 |
| PrimeAll.NonCoprimeHasNoOrder | Prime_All.py:210-211 | when gcd(n, r) != 1 no power of n is 1 modulo r, so the answer 0 loses no order |
| PrimeAll.OrderDividesExponent | Prime_All.py:208-219 | the order divides every exponent e with n^e % r == 1 |
| Polynomials.SumSwap | AKS_Algorithm.py:95-101 | adding a table of pair contributions row by row or column by column gives the same total, which is why the order of the two loops of `poly_mul` does not matter |
| Polynomials.SumRotate | AKS_Algorithm.py:99-101 | summing r values with their indices rotated modulo r gives the same total, so reindexing `(i + j) % r` preserves a coefficient |
| Polynomials.Reduce | new_AKS.py:101-116 | the normalised list has exactly r entries, each in [0, n), and entry i is coefficient i of the input modulo n (zero beyond its end) |
| Polynomials.Trim | AKS_Algorithm.py:104-106 | popping trailing zeros keeps a non-empty prefix of the list, drops only zeros, and leaves a non-zero last coefficient whenever more than one is left |
| Polynomials.TrimCoeff | AKS_Algorithm.py:104-106 | trimming changes no coefficient of the polynomial |
| Polynomials.TrimEqualByCoeff | AKS_Algorithm.py:104-106 | lists that agree on every coefficient trim to the same list, whatever their trailing zeros |
| Polynomials.TrimInjective | AKS_Algorithm.py:183-191 | two lists of the same length trim to the same list if and only if they are equal, so comparing trimmed results compares the polynomials |
| Polynomials.Product | AKS_Algorithm.py:85-101 | the untrimmed `res` of `poly_mul` has r entries, each reduced modulo n |
| Polynomials.ProductCommutes | AKS_Algorithm.py:85-107 | `poly_mul(p1, p2)` and `poly_mul(p2, p1)` agree coefficient by coefficient |
| Polynomials.ProductIsConv | AKS_Algorithm.py:85-101 | the double loop, which reduces each pair product and each partial sum modulo n, computes the cyclic convolution of p1 and p2 modulo (x^r - 1, n) |
| Polynomials.ProductCoefficient | AKS_Algorithm.py:95-101 | coefficient k of the loop's result is congruent modulo n to the sum of p1[i] p2[(k - i) mod r] over i < r |
| Polynomials.ConvReduced | AKS_Algorithm.py:85-101 | every coefficient of the product lies in [0, n) |
| Polynomials.ConvCommutes | AKS_Algorithm.py:85-101 | multiplication modulo (x^r - 1, n) is commutative |
| Polynomials.ConvAssociates | AKS_Algorithm.py:85-101 | multiplication modulo (x^r - 1, n) is associative, which square-and-multiply relies on |
| Polynomials.ConvExt | AKS_Algorithm.py:85-101 | the product depends only on the first r coefficients of each factor |
| Polynomials.ConvReduceLeft | AKS_Algorithm.py:85-101 | reducing a factor modulo (x^r - 1, n) first does not change the product |
| Polynomials.ConvOne | AKS_Algorithm.py:115-116 | multiplying by the constant list `[1]` (the initial `res`) reduces the other factor and changes nothing else |
| Polynomials.UnitIdentity | AKS_Algorithm.py:115-116 | the constant polynomial 1 is a two-sided identity on reduced polynomials |
| Polynomials.PowSpecReduced | AKS_Algorithm.py:110-128 | every coefficient of p^e modulo (x^r - 1, n) lies in [0, n) |
| Polynomials.PowSpecAdd | AKS_Algorithm.py:110-128 | p^a p^b == p^(a + b) modulo (x^r - 1, n) |
| Polynomials.PowSpecSquare | AKS_Algorithm.py:124-125 | (t^2)^m == t^(2 m): squaring the base while halving the exponent keeps the power |
| Polynomials.PowSpecExt | AKS_Algorithm.py:110-128 | the power depends only on the first r coefficients of the base |
| Polynomials.SquareAndMultiplyStep | AKS_Algorithm.py:119-126 | one round of the loop keeps res * temp^e unchanged: with e odd res absorbs a factor temp, then temp is squared and e halved |
| Aks.NoSmallOrder | AKS_Algorithm.py:67-77 | the inner loop of `find_r` passes exactly when no power n^k with 1 <= k <= bound is 1 modulo r |
| Aks.PowStep | AKS_Algorithm.py:76 | multiplying the running residue by n and reducing gives the next power of n modulo r |
| Aks.FindR | AKS_Algorithm.py:52-82 | the r returned is the least r >= 2 that is coprime to n and for which the order of n exceeds the bound |
| Aks.LargeModulusQualifies | AKS_Algorithm.py:60-82 | some r always qualifies (n^(bound + 1) + 1 does, for n >= 2), so the search terminates |
| Aks.PolyMul | AKS_Algorithm.py:85-107 | `poly_mul` returns the trimmed product modulo (x^r - 1, n): between 1 and r coefficients, each in [0, n), with a non-zero top coefficient when there is more than one |
| Aks.AddRow | AKS_Algorithm.py:96-101 | after row i of the double loop every coefficient k holds, modulo n, the contributions of the first i + 1 rows |
| Aks.AddPair | AKS_Algorithm.py:98-101 | adding the pair (i, j) to `res[(i + j) % r]` extends the partial row sum by one term and changes no other coefficient's meaning |
| Aks.PairStep | AKS_Algorithm.py:98-101 | the update `(res[power] + coeff) % n` equals the partial sum with one more term, whether or not the pair lands on coefficient k |
| Aks.TrimZeros | AKS_Algorithm.py:104-106 | the popping loop computes Trim |
| Aks.PolyPow | AKS_Algorithm.py:110-128 | `poly_pow` returns `[1]` for e == 0 and otherwise the trimmed power poly^e modulo (x^r - 1, n); the result has between 1 and r coefficients |
| Aks.StartPow | AKS_Algorithm.py:115-116 | starting from res == [1] the loop invariant res * temp^e == poly^e holds |
| Aks.PowLoopStep | AKS_Algorithm.py:119-126 | one pass of the square-and-multiply loop preserves res * temp^e |
| Aks.FinishPow | AKS_Algorithm.py:119-128 | when e reaches 0 the accumulated res is the trimmed power |
| Aks.RightSideUntrimmed | AKS_Algorithm.py:176-181 | the list built for x^(n mod r) + a has n mod r + 1 coefficients |
| Aks.RightSide | AKS_Algorithm.py:176-184 | the trimmed right-hand side is x^(n mod r) + a; for 0 <= a < n it has the coefficients of that polynomial modulo n, and otherwise the constant term stays a unreduced when n mod r != 0 |
| Aks.RightSideMeaning | AKS_Algorithm.py:176-184 | for 0 <= a < n the list the source builds equals the reduced polynomial x^(n mod r) + a after trimming |
| Aks.MonomialPower | AKS_Algorithm.py:177-178 | x^e modulo x^r - 1 is x^(e mod r), which is why the source reads x^n as x^(n % r) |
| Aks.ShiftMonomial | AKS_Algorithm.py:177-178 | multiplying x^s by x gives x^((s + 1) mod r) modulo x^r - 1 |
| Aks.CongruenceMeaning | AKS_Algorithm.py:167-191 | for 0 <= a < n the comparison in step 5 succeeds exactly when (x + a)^n == x^n + a modulo (x^r - 1, n) |
| Aks.AksSteps | AKS_Algorithm.py:147-198 | steps 3 to 5 return false when some a <= r has 1 < gcd(a, n) < n, true when n <= r, and otherwise true exactly when the congruence holds for every a up to the bound |
| Aks.NoSharedFactor | AKS_Algorithm.py:148-152 | step 3 passes exactly when no a in [1, r] has 1 < gcd(a, n) < n |
| Aks.ExtendPasses | AKS_Algorithm.py:167-191 | a passing congruence for a extends the set of passing values 1..a - 1 to 1..a |
| Aks.AllCongruencesPass | AKS_Algorithm.py:167-198 | the step 5 loop succeeds exactly when the congruence holds for every a in [1, limit_a] |
| NewAks.FirstWitnesses | new_AKS.py:215-217 | `witnesses[:k]` is a prefix of the twelve fixed witnesses of length min(k, 12), counting from the end for negative k as Python slicing does |
| NewAks.TwoExponent | new_AKS.py:208-212 | the count of halvings is positive exactly when m is even |
| NewAks.OddPartDecomposes | new_AKS.py:208-212 | n - 1 == 2^r * d with d odd |
| NewAks.SplitPowerOfTwo | new_AKS.py:208-212 | the halving loop returns the odd part d and the exponent r with m == 2^r * d |
| NewAks.SquaringsStep | new_AKS.py:226-227 | each `powmod(x, 2, n)` squares the previous value modulo n |
| NewAks.CheckWitness | new_AKS.py:217-235 | one witness passes exactly when it is at least n, or a^d is 1 or n - 1 modulo n, or one of the next r - 1 squarings is n - 1 |
| NewAks.MillerRabinFast | new_AKS.py:194-237 | false below 2, true for 2 and 3, false for other even n, and for odd n > 3 true exactly when every witness of `witnesses[:k]` passes |
| NewAks.SquaringsArePowers | new_AKS.py:220-227 | after j squarings of a^d the value is a^(d 2^j) modulo n |
| NewAks.PrimePassesWitness | new_AKS.py:217-235 | for a prime n every witness a with 1 <= a < n passes, given Fermat's congruence a^(n-1) == 1 (mod n) |
| NewAks.ChainEndsInOne | new_AKS.py:220-227 | r squarings of a^d give a^(n-1), which is 1 modulo a prime n under Fermat's congruence |
| NewAks.RootOfOne | new_AKS.py:226-228 | modulo a prime, a square root of 1 that is not 1 is n - 1 |
| NewAks.FirstOne | new_AKS.py:220-228 | a chain of squarings that reaches 1 has a first index where it does |
| NewAks.SquaringsInRange | new_AKS.py:220-227 | every value of the squaring chain lies in [0, n) |
| NewAks.MillerRabinAcceptsPrimes | new_AKS.py:194-237 | given Fermat's congruence, `miller_rabin_fast` never rejects an odd prime, for any k |
| NewAks.BitLength | new_AKS.py:63 | `bit_length()` is 0 exactly for 0 and otherwise the b with 2^(b-1) <= m < 2^b |
| NewAks.FindROptimized | new_AKS.py:58-91 | r >= 2; no s in [2, r) has order above bitlen(n)^2; an r within min(bitlen(n)^5, n - 1) qualifies; otherwise r is one past that limit, or 2 when the limit is below 2 |
| NewAks.PolyMod.Coeffs | new_AKS.py:99 | the coefficient list has the array's length |
| NewAks.PolyMod.constructor | new_AKS.py:101-116 | the stored coefficients are the first r input coefficients, zero-padded to r entries and reduced modulo n |
| NewAks.PolyMod.Mul | new_AKS.py:118-134 | the product, which skips zero coefficients of either factor, is a fresh PolyMod holding the source's double-loop product modulo (x^r - 1, n) |
| NewAks.PolyMod.Pow | new_AKS.py:136-157 | the power is the constant 1 for exp <= 0 and otherwise p^exp modulo (x^r - 1, n) |
| NewAks.PolyMod.Equals | new_AKS.py:159-161 | `np.array_equal`: equal lengths and equal coefficients at every index |
| NewAks.UnitBuffer | new_AKS.py:138-145 | the buffer with a 1 at index 0 and zeros elsewhere is the unit polynomial |
| NewAks.ZeroRow | new_AKS.py:126-127 | skipping a row whose coefficient is zero leaves every partial sum unchanged |
| NewAks.AddNonzeroRow | new_AKS.py:126-132 | after processing row i, every coefficient holds its sum over the first i + 1 rows, whether or not zero columns are skipped |
| NewAks.SkippedPair | new_AKS.py:128-132 | skipping a pair whose second coefficient is zero leaves the partial sum it would have extended unchanged |
| NewAks.CheckPolynomialCongruence | new_AKS.py:164-189 | returns a together with whether (x + a)^n == x^(n mod r) + a modulo (x^r - 1, n); (a, False) when r <= 0 or n == 0 make the source raise |
| NewAks.RightSideIsMonomial | new_AKS.py:178-182 | the buffer `coeffs_right`, reduced, is x^(n mod r) + a modulo n |
| NewAks.CongruenceTestsAgree | new_AKS.py:164-189 | for r >= 2 and 0 <= a < n this test and step 5 of AKS_Algorithm.py accept the same a |
| PrimitiveRoot.RhoStep | SubDef/SD_Primitive_Root.py:17-18 | the iteration map x^2 + 1 stays in [0, n) |
| PrimitiveRoot.PollardRho | SubDef/SD_Primitive_Root.py:7-36 | None for n == 1; n itself when the oracle calls it prime; 2 for other even n; any factor returned is at least 2, divides n, and is 2 or called prime by the oracle |
| PrimitiveRoot.ProdAppend | SubDef/SD_Primitive_Root.py:45-53 | appending a factor multiplies the product of the list by it |
| PrimitiveRoot.EntryDividesProd | SubDef/SD_Primitive_Root.py:42-70 | every listed factor divides the product of the list |
| PrimitiveRoot.PrimeDividesEntry | SubDef/SD_Primitive_Root.py:42-70 | a prime that divides the product of the list divides one of its entries |
| PrimitiveRoot.NoDivisorFromSound | SubDef/SD_Primitive_Root.py:50 | the executable check for divisors in [k, n) finds none exactly when there are none |
| PrimitiveRoot.SmallFactorsPrime | SubDef/SD_Primitive_Root.py:45-53 | 2 and every trial divisor in `[3, 5, ..., 47]` are prime |
| PrimitiveRoot.StripFactor | SubDef/SD_Primitive_Root.py:45-53 | the `while n % i == 0` loop leaves a divisor of m that t no longer divides, keeps the product of the list times m unchanged, and adds t to the list exactly when t divided m |
| PrimitiveRoot.StripOnce | SubDef/SD_Primitive_Root.py:51-53 | one division by t keeps the stripping invariant |
| PrimitiveRoot.SmallPhase | SubDef/SD_Primitive_Root.py:44-53 | after the first two phases the list times the remaining m is n, every listed factor is small, and a small prime is listed exactly when it divides n |
| PrimitiveRoot.StripStep | SubDef/SD_Primitive_Root.py:50-53 | after trial divisor k no divisor up to it divides the remainder, and each is listed exactly when it divides n |
| PrimitiveRoot.RhoPhase | SubDef/SD_Primitive_Root.py:56-70 | the rho loop ends with the list's product equal to n, every factor at least 2, and, when no rho try failed, every factor small or called prime by the oracle |
| PrimitiveRoot.RhoOnce | SubDef/SD_Primitive_Root.py:64-66 | appending a rho factor and dividing it out keeps the product equal to n and shrinks the remainder |
| PrimitiveRoot.RhoLast | SubDef/SD_Primitive_Root.py:57-59 | appending the remaining m, when the oracle calls it prime or rho fails, completes the product n |
| PrimitiveRoot.Dedup | SubDef/SD_Primitive_Root.py:73 | `list(set(...))` keeps exactly the same elements, each once |
| PrimitiveRoot.DedupKeeps | SubDef/SD_Primitive_Root.py:73 | after de-duplication every factor divides n and every prime divisor of n divides some factor |
| PrimitiveRoot.Factorize | SubDef/SD_Primitive_Root.py:38-75 | the factors are distinct, at least 2, and divide n; every prime divisor of n divides one of them; a small prime is listed exactly when it divides n; without a failed rho search every factor is small or called prime by the oracle |
| PrimitiveRoot.IsPrimitiveRoot | SubDef/SD_Primitive_Root.py:77-85 | true exactly when g^((p - 1) // q) mod p is not 1 for every listed q |
| PrimitiveRoot.PassesTestMeaning | SubDef/SD_Primitive_Root.py:77-85 | with the factors exactly the prime divisors of p - 1, the test passes if and only if no proper divisor e of p - 1 has g^e == 1 (mod p) |
| PrimitiveRoot.QuotientIsProperDivisor | SubDef/SD_Primitive_Root.py:82 | (p - 1) // q is a proper divisor of p - 1 |
| PrimitiveRoot.ProperDivisorFails | SubDef/SD_Primitive_Root.py:81-85 | when the test passes, no proper divisor e of p - 1 has g^e == 1 (mod p), since e divides some (p - 1) / q |
| PrimitiveRoot.FindPrimitiveRoot | SubDef/SD_Primitive_Root.py:92-127 | "p must be prime" exactly when the oracle rejects p; otherwise the first small candidate that passes, else a random g in [2, p - 1] that passes, else the not-found pair; with a sound oracle and a complete factorisation the root found has no proper divisor of p - 1 as its order |
| PrimitiveRoot.FactorsOfOrder | SubDef/SD_Primitive_Root.py:101-102 | the factors of p - 1 are at least 2 and divide p - 1, and with a sound oracle and no failed rho search they are exactly its prime divisors |
| PrimitiveRoot.FirstSmallRoot | SubDef/SD_Primitive_Root.py:105-108 | the index of the first small candidate that passes, with every earlier candidate failing |
| PrimitiveRoot.RandomRoot | SubDef/SD_Primitive_Root.py:121-125 | a g returned by the random trials lies in [2, p - 1] and passes the test; None records 100000 draws in [2, p - 1], none of which passes the test |
| PrimitiveRoot.ExactFactors | SubDef/SD_Primitive_Root.py:38-75 | with a sound oracle and no failed rho search the factors are exactly the prime divisors of p - 1 |
| StringInt.TextToInt | SubDef/String_Int.py:6-13 | the accumulator loop computes the big-endian base-256 value of the character codes, and 0 for the empty text |
| StringInt.IntToText | SubDef/String_Int.py:15-24 | "" for 0 and for negative numbers; otherwise the base-256 digits of the number, most significant first, with no leading zero |
| StringInt.Reversed | SubDef/String_Int.py:24 | `reversed(chars)` has the same length and reads the list from the end |
| StringInt.ValueOfDigits | SubDef/String_Int.py:6-24 | `text_to_int(int_to_text(n)) == n` for every n >= 0 |
| StringInt.DigitsOfValue | SubDef/String_Int.py:6-24 | `int_to_text(text_to_int(t)) == t` for every text of byte codes that does not start with code 0 |
| StringInt.DigitsAreByteText | SubDef/String_Int.py:15-24 | the text `int_to_text` produces has byte codes and no leading code 0 |
| StringInt.DigitsNonEmpty | SubDef/String_Int.py:15-24 | a positive number gives a non-empty text |
| StringInt.ValuePositive | SubDef/String_Int.py:6-13 | a byte text has a positive value exactly when it is non-empty |
| StringInt.ValueBound | SubDef/String_Int.py:6-13 | a text of k characters has a value below 256^k |
| StringPoint.Candidate | SubDef/String_Point.py:14 | the x tried for an offset lies in [0, p), and subtracting the offset again gives the text's number modulo p |
| StringPoint.StringToPoint | SubDef/String_Point.py:2-21 | a point returned is an affine point on the curve whose x is the candidate of the returned offset, with the offset below 100; for p below one million no earlier offset has a point, and the error means no offset has one; for larger p with p % 4 != 3 the encoding always fails, as `_mod_sqrt` gives up |
| StringPoint.PointAt | SubDef/String_Point.py:15-18 | a y found gives a point on the curve at x; for p below one million None means the curve has no point at x |
| StringPoint.RootIsPoint | SubDef/String_Point.py:15-17 | y is a square root of x^3 + a x + b modulo p exactly when (x, y) is on the curve |
| StringPoint.PointToString | SubDef/String_Point.py:24-38 | the text is the base-256 digits of (x - offset) mod p, so its value is that number |
| StringPoint.RoundTrip | SubDef/String_Point.py:2-38 | decoding the x an offset reached gives back a byte text exactly when its value is below p |
| StringPoint.ShortTextRoundTrip | SubDef/String_Point.py:2-38 | every byte text of k characters with 256^k <= p survives encoding and decoding |
| EccCryptosystem.CalAB | ECC/ECC_Cryptosystem.py:36-40 | the "lam lai" answer exactly when 4 a^3 + 27 b^2 == 0 (mod p), and the pair (a, b) unchanged otherwise |
| EccCryptosystem.SquareTable | ECC/ECC_Cryptosystem.py:50-53 | q_p holds 0, every key is a residue whose entry holds one or two distinct roots of it; for odd p every square is a key; for prime p every root of a key is in its entry |
| EccCryptosystem.TableStart | ECC/ECC_Cryptosystem.py:50-51 | `q_p = {0: [0]}` satisfies the table invariant before the loop |
| EccCryptosystem.TableStep | ECC/ECC_Cryptosystem.py:52-53 | storing `q_p[i^2 mod p] = [i, p - i]` keeps the invariant, later i overwriting earlier ones |
| EccCryptosystem.TableComplete | ECC/ECC_Cryptosystem.py:52-53 | once i reaches (p + 1) // 2 the invariant gives the complete table |
| EccCryptosystem.SquareListed | ECC/ECC_Cryptosystem.py:52-53 | for odd p the square of every y in [0, p) is a key, since y or p - y lies in [1, (p + 1) // 2) unless y is 0 |
| EccCryptosystem.OppositeRoot | ECC/ECC_Cryptosystem.py:53 | i and p - i are distinct and in range, and have the same square modulo p |
| EccCryptosystem.ZeroHasOneRoot | ECC/ECC_Cryptosystem.py:51 | modulo a prime, 0 is the only square root of 0 |
| EccCryptosystem.PrimeRootsOfSquare | ECC/ECC_Cryptosystem.py:53 | modulo a prime, i and p - i are all the square roots of i^2 |
| EccCryptosystem.RootOfSquare | ECC/ECC_Cryptosystem.py:53 | modulo a prime, a y with y^2 == i^2 is i or p - i |
| EccCryptosystem.ListPoints | ECC/ECC_Cryptosystem.py:55-59 | an x is listed exactly when it lies in [0, p) and x^3 + a x + b mod p is a key of q_p, and it maps to that key's entry |
| EccCryptosystem.TableListsCurve | ECC/ECC_Cryptosystem.py:50-59 | each listed x maps to one or two distinct y making (x, y) a curve point; for odd p every x of a curve point is listed; for prime p every y of a listed x is in its entry |
| EccCryptosystem.BuildEllipticCurve | ECC/ECC_Cryptosystem.py:42-66 | the singular message exactly when 4 a^3 + 27 b^2 == 0 (mod p); otherwise the list describes the curve, `{}` exactly when `prime_check` rejects 2 * len(list_point) - 1, and else that count with the list |
| EccCryptosystem.BuildEllipticCurveCounted | ECC/ECC_Cryptosystem.py:42-66 | the same construction testing one point per listed (x, y) plus infinity, which for an odd prime p is the order of the curve |
| EccCryptosystem.CountPoints | ECC/ECC_Cryptosystem.py:61 | the loop counts one point per listed (x, y) plus one for infinity |
| EccCryptosystem.RootCount | ECC/ECC_Cryptosystem.py:56-59 | the number of y in [y0, p) on the curve at x is at most p - y0 |
| EccCryptosystem.AffineCount | ECC/ECC_Cryptosystem.py:56-59 | the number of affine points with x in [x0, p) is at most (p - x0) p |
| EccCryptosystem.CurveOrder | ECC/ECC_Cryptosystem.py:61 | the group order lies between 1 and p^2 + 1 |
| EccCryptosystem.TableOrderIsCurveOrder | ECC/ECC_Cryptosystem.py:50-61 | modulo an odd prime the number of listed (x, y) pairs plus one is the order of the curve |
| EccCryptosystem.TableCountFrom | ECC/ECC_Cryptosystem.py:55-59 | for x in [x0, p) the listed entries count exactly the affine points |
| EccCryptosystem.CountListedRoots | ECC/ECC_Cryptosystem.py:58-59 | an entry holding exactly the roots at x has as many entries as there are points at x |
| EccCryptosystem.NumPointUndercounts | ECC/ECC_Cryptosystem.py:61-64 | for y^2 = x^3 + x + 1 mod 5 the count checked for primality is the prime 7 while the curve has 9 points, so a curve of composite order is accepted |
| EccCryptosystem.TextbookOrder | ECC/ECC_Cryptosystem.py:55-61 | y^2 = x^3 + x + 1 over Z/5Z has exactly 9 points |
| EccCryptosystem.TextbookKeys | ECC/ECC_Cryptosystem.py:55-59 | the list of that curve has the keys 0, 2, 3 and 4 |

## Left out

- Positive moduli: every modulus the source passes to `%`, `pow` or a curve constructor is required to be positive. A zero modulus raises ZeroDivisionError, and a negative one follows Python's floor semantics, which only `PrimeAll.PyMod` models.
- NumberTheory.ModuloPower: the exponent is a `nat`. Python's three-argument `pow` with a negative exponent computes a modular inverse, and no caller in the modelled core does that.
- Floating point: every `** 0.5` is the integer square root `Isqrt`. The float bounds of AKS (`(log2 n)^2` in `find_r`, `limit_a` in `is_prime_aks`) are integer parameters of `Aks.FindR` and `Aks.AksSteps`.
- Aks.AksSteps: covers steps 3 to 5 only. Step 1 (`is_perfect_power`, float roots) and the call to `find_r` in step 2 are not composed into it, and the console output is dropped.
- Aks.PolyPow: the power is characterised only for bases with at most r coefficients. That is always true in `is_prime_aks`, whose base is `[a, 1]` with r >= 2; a longer list is truncated by the cyclic product.
- Aks.RightSide: the constant a is not reduced modulo n, exactly as the source; the congruence is therefore characterised for 0 <= a < n only (`Aks.CongruenceMeaning`).
- NewAks.PolyMod.Mul: requires r > 0. With r == 0 the source returns an empty PolyMod; that case is reachable only by calling `__mul__` directly, since `__pow__` raises first.
- NewAks.PolyMod.Pow: requires r > 0, because the source's `res[0] = 1` raises IndexError on an empty buffer.
- NewAks.MillerRabinAcceptsPrimes: assumes Fermat's congruence a^(n-1) == 1 (mod n) for the listed witnesses instead of proving Fermat's little theorem.
- NewAks.CheckPolynomialCongruence: takes n >= 0. For negative n the source's `PolyMod(...) ** n` runs no loop and its reductions use a negative modulus.
- `is_perfect_power` (AKS_Algorithm.py, new_AKS.py, Prime_All.py), `find_r` and `Miller_Rabin_algorithm` of Prime_All.py: float arithmetic and numpy randomness.
- `is_prime_aks_parallel` and the parallel branch of `find_primitive_root`: process pools.
- `prime_check` and gmpy2's `is_prime`: function-valued parameters. The model relies only on the stated sanity conditions (no prime below 2 for `is_prime`; no even number above 2 for `prime_check`, as its Miller-Rabin body rejects even n).
- Randomness: `generate_point`, `find_curve_simple`, `_random_search_curve`, the random trials of `find_primitive_root` and the random seed of the second rho try are nondeterministic choices. `os.urandom` in `generate_private_key` becomes the 256-bit input `seed` of `Curve25519Keys.GeneratePrivateKey`. The model takes that integer directly: the little-endian decoding of the 32 bytes (`int.from_bytes(..., 'little')`) is not modelled. The draws of each random search are recorded in a ghost sequence, so a failed search is characterised by what its draws were.
- PrimitiveRoot.PollardRho: requires n >= 1. `pollard_rho(0)` returns 2 and negative n is never passed by `factorize`. The random constant c is drawn and never used.
- PrimitiveRoot.Factorize: requires n >= 1, because `factorize(0)` never terminates (0 stays even after halving). The order of `list(set(...))` is not modelled; the result is a duplicate-free list with the same elements.
- PrimitiveRoot.FindPrimitiveRoot: the 100000 random trials are modelled as the sequential path; `mpz` wrapping of the result is dropped.
- Curve25519.EdScalarMultiply: requires k >= 0. A negative k makes the source's `while k` loop shift toward -1 forever.
- EllipticCurves.ModSqrt: for p >= 10^6 with p % 4 != 3 the source returns None without searching, so no root is promised there; `StringPoint.StringToPoint` inherits that. The consequence for the prover is under "## Findings".
- EllipticCurves.GeneratePoint: for p >= 10^6 with p mod 4 == 3 an error is shown only to mean that the shortcut root a^((p+1)/4) failed at each of the 1000 draws (`EllipticCurves.ShortcutFails`), not that no point lies above them; that step is Euler's criterion, which needs p prime and is not proved.
- Ecpp.FindWitnessPoint: a draw whose `generate_point` raised is recorded as that error; what the error means is `EllipticCurves.GeneratePoint`'s contract, which `FindWitnessPoint` does not repeat.
- EllipticCurves.PointMultiply: that double-and-add equals the k-fold sum of `point_add` is proved for k <= 3 only (`EllipticCurves.ScalarMultSmall`). The general case needs the associativity of the chord-and-tangent law, which is not proved here.
- Curve25519.EdScalarMultiply: proved equal to the k-fold sum for k <= 2 and on Ed25519 only (`Curve25519.EdScalarMultSmall`). Larger k are not proved; the general case needs the associativity of the Edwards law. On Curve25519 every k >= 2 fails (`Curve25519.EdScalarMultOnMontgomeryFails`).
- Curve25519.MontgomeryScalarMult: the model proves which multiple of the point each ladder pair holds (`Curve25519.LadderMultipleAsWritten`, `Curve25519.CorrectedLadderMultiple`), not that u2 / w2 is the u-coordinate of that multiple on the Montgomery curve; that step needs the Montgomery group law.
- EcppUtils.TonelliShanks: the search for a non-residue z is bounded by p and returns an error when none exists, where the source would loop forever; the `1 << negative` ValueError of the main loop becomes an error value, proved never to happen for prime p.
- EcppUtils.TonelliShanks: that None means n has no square root mod a prime p rests on Fermat's little theorem, which is not proved; `SquareIsEulerResidue` proves it for every root y satisfying Fermat's congruence. A root divisible by p (n == 0 mod p, odd p) is the exception: Euler's test gives 0 there and the source answers None.
- EcppUtils.FindAllDiscriminantsForPrime: completeness is stated against the recorded answers of Cornacchia and the order step; when Cornacchia answers None for a D with Kronecker symbol 1, the model does not prove that no solution of x^2 + abs(D) y^2 == 4p exists, because that is Cornacchia's theorem.
- EccCryptosystem.SquareTable: for even p the square (p/2)^2 is never stored, so completeness is proved for odd p only, as in the source.
- ECPP prover: `prove_prime`'s `except` branch is unreachable in the model, since nothing inside the recursion raises. The `target_factor_size` argument is unused by the source and dropped.
- `SMALL_PRIMES` and `generate_prime_bit` are not defined in Prime_All.py; the small-prime table is a parameter whose entries are prime.
- File I/O, key persistence, printing, logging, plotting, and the RSA, ElGamal, EC-ElGamal and ECDSA wrappers: plumbing around `moduloPower` and `point_add`, or foreign hashes (`derive_signing_key` uses SHA-512).
- `poly_check` (sympy), `linearCongruence` (uninitialised numpy buffer) and `part_primitive_root`: foreign libraries.
- `get_curve_params` and `print_curve_info`: printing only.
- Text is a sequence of Dafny `char` values, which are Unicode scalar values. A Python string can also hold a lone surrogate such as `'\ud800'`, which no Dafny `char` represents, so such strings are not modelled.

## Findings

| source | as written | input that shows it | evidently intended | confidence | as-written member | corrected member |
|---|---|---|---|---|---|---|
| ECPP/ECPP_Core.py:31-46 | the residue tests run on abs(D), so a negative D is classified as if it were positive | D = -3, -4 and -7 (the first discriminants of the ECPP list) come out false, and D = -5 comes out true | the residues of D itself: D == 1 (mod 4) and square-free, or D == 4m with m == 2, 3 (mod 4) and m square-free | not executed | EcppCore.FundamentalDiscriminantAsWritten | EcppCore.FundamentalDiscriminantIntended |
| Prime_All.py:12-31 | the odd-only array covers 3 .. 2 * ((limit + 1) // 2) + 1, which can pass limit | `simple_sieve(10)` contains 11 | every prime up to limit and none above it | not executed | PrimeAll.SieveOfTenReturnsEleven | PrimeAll.SimpleSieveUpTo |
| Prime_All.py:34-67 | the base primes `simple_sieve(int(sqrt(n)))` are returned whole, and for n == 2 they include 3 | `segmented_sieve(2)` returns [2, 3] | the primes up to n, with the base list cut at n | not executed | PrimeAll.SegmentedSieve | PrimeAll.SegmentedSieveUpTo |
| ECC/ECC_Cryptosystem.py:61-64 | the count handed to the primality test is 2 * len(list_point) - 1, not the number of points | y^2 = x^3 + x + 1 mod 5: four listed x give 7, a prime, while the curve has 9 points | one point per listed (x, y) plus the point at infinity, which is the group order | not executed | EccCryptosystem.NumPointUndercounts | EccCryptosystem.BuildEllipticCurveCounted |
| ECC/Elliptic_Curve.py:310-315 | on digit 1 the loop doubles the first pair and on digit 0 the second, the two branches of section 5 of RFC 7748 exchanged, so the ladder over the L digits of k holds the multiple 2^L - 1 - k of the point, not k | k == 1: w2 ends at 0 and `inverseModulo` raises; k == 2 gives the u-coordinate of P itself | the RFC ladder, whose pairs hold k P and (k + 1) P | not executed | Curve25519.MontgomeryMultipleAsWritten | Curve25519.CorrectedLadderMultiple |
| ECC/Elliptic_Curve.py:111-125 | for p >= 10^6 with p mod 4 != 3, `_mod_sqrt` returns None without searching; `generate_point` then raises, `_find_witness_point` (ECPP/ECPP.py:183-209) returns None, and `_ecpp_recursive` (ECPP/ECPP.py:121-125) answers False once a curve is found | n = 1000033 (1 mod 4, above 10^6): the curve y^2 = x^3 + 1 has the point (0, 1), yet no point is ever generated | a square root whenever one exists, for every p | not executed | EllipticCurves.PointMissedAboveMillion | EllipticCurves.GeneratePointIntended |
