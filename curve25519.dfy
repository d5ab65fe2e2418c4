/** Integer arithmetic of the `Curve25519` class of ECC/Elliptic_Curve.py:
    the field and group constants, the affine twisted-Edwards addition law of
    Ed25519 (section 5.1.4 of RFC 8032, with a = -1), its double-and-add
    scalar multiplication, the Montgomery ladder step and ladder of X25519
    (section 5 of RFC 7748) and the private-key generation with clamping. */
module Curve25519 {
  import opened Common
  import opened NumberTheory
  import EC = EllipticCurves

  /** `curve_type`: "ed25519" selects the Edwards form, anything else the
      Montgomery form. */
  datatype Variant = Ed25519 | Montgomery

  /** p = 2^255 - 19. */
  const FieldPrime: int := 57896044618658097711785492504343953926634992332820282019728792003956564819949
  /** n = L = 2^252 + 27742317777372353535851937790883648493. */
  const GroupOrder: int := 7237005577332262213973186563042994240857116359379907606001950938285454250989
  /** d = -121665 / 121666 mod p. */
  const EdwardsD: int := 37095705934669439343138083508754565189542113879843219016388785533085940283555
  const BaseX: int := 15112221349535400772501151409588531511454012693041857206046113283949847762202
  const BaseY: int := 46316835694926478169428394003475163141307993866256225615783033603165251855960
  /** Montgomery coefficient A and base u-coordinate. */
  const MontA: int := 486662
  const BaseU: int := 9
  const BaseV: int := 14781619447589544791020593568409986887264606134616475288964881837755586237401
  /** (A - 2) // 4 of the ladder step. */
  const A24: int := (MontA - 2) / 4

  const NotEdwards := "point addition is only implemented for Ed25519"

  lemma ConstantsAsDocumented()
    ensures FieldPrime == Pow(2, 255) - 19
    ensures GroupOrder == Pow(2, 252) + 27742317777372353535851937790883648493
    ensures A24 == 121665
  {
    PowAdd(2, 252, 3);
    Pow2Literal252();
    assert Pow(2, 3) == 8;
  }

  /** A proof step of `ConstantsAsDocumented`: 2^252 as a literal. */
  lemma Pow2Literal252()
    ensures Pow(2, 252) == 7237005577332262213973186563042994240829374041602535252466099000494570602496
  {
    PowMul(2, 12, 21);
    assert Pow(2, 12) == 4096 by {
      PowMul(2, 4, 3);
      assert Pow(2, 4) == 16;
      PowSmall(16);
    }
    Pow4096To21();
  }

  /** A proof step of `Pow2Literal252`: (2^12)^21 as a literal. */
  lemma Pow4096To21()
    ensures Pow(4096, 21) == 7237005577332262213973186563042994240829374041602535252466099000494570602496
  {
    PowMul(4096, 3, 7);
    PowSmall(4096);
    assert Pow(4096, 3) == 68719476736;
    PowSmall(68719476736);
    PowAdd(68719476736, 3, 4);
    PowMul(68719476736, 2, 2);
    PowSmall(Pow(68719476736, 2));
  }

  /** The constructor computes d as (-121665 * inverseModulo(121666, p)) % p;
      that value is the documented constant. */
  function ComputedEdwardsD(): (d: int)
    ensures d == EdwardsD
  {
    var inv := InverseOf121666();
    var d := (-121665 * inv) % FieldPrime;
    EdwardsDUnique(inv);
    d
  }

  /** inverseModulo(121666, p), which exists. */
  function InverseOf121666(): (inv: int)
    ensures 0 <= inv < FieldPrime && (121666 * inv) % FieldPrime == 1
  {
    var x := 37095705934669439343138083508754565189542113879843219016388785533085940283556;
    assert (121666 * x) % FieldPrime == 1;
    CoprimeFromInverse(121666, FieldPrime, x);
    InverseModulo(121666, FieldPrime).value
  }

  lemma EdwardsDUnique(inv: int)
    requires 0 <= inv < FieldPrime && (121666 * inv) % FieldPrime == 1
    ensures (-121665 * inv) % FieldPrime == EdwardsD
  {
    var p := FieldPrime;
    var d := (-121665 * inv) % p;
    assert (EdwardsD * 121666) % p == (-121665) % p;
    QuotientFromInverse(p, -121665, 121666, inv, d);
    UnitCancel(p, 121666, d, EdwardsD, inv);
  }

  lemma FactorOut(u: int, x: int, y: int)
    ensures x * u - y * u == u * (x - y)
  {
  }

  /** Multiplication by a unit is injective on reduced residues. */
  lemma UnitCancel(p: int, u: int, x: int, y: int, inv: int)
    requires p > 1 && (u * inv) % p == 1
    requires 0 <= x < p && 0 <= y < p && (x * u) % p == (y * u) % p
    ensures x == y
  {
    CongruentIffDivides(x * u, y * u, p);
    FactorOut(u, x, y);
    CancelUnit(p, u, x - y, inv);
    if x < y {
      DivModUnique(x - y, p, -1, x - y + p);
    } else {
      DivModUnique(x - y, p, 0, x - y);
    }
  }

  /** The Ed25519 base point lies on -x^2 + y^2 == 1 + d x^2 y^2. */
  lemma BasePointOnEdwardsCurve()
    ensures (-(BaseX * BaseX) + BaseY * BaseY - 1 - EdwardsD * (BaseX * BaseX) * (BaseY * BaseY)) % FieldPrime == 0
  {
  }

  // ---------------------------------------------------------------------
  // Ed25519 point_add
  // ---------------------------------------------------------------------

  /** d * x1 * x2 * y1 * y2, the cross term of the Edwards law. */
  function CrossTerm(P1: EC.Point, P2: EC.Point): int
    requires P1.Aff? && P2.Aff?
  {
    EdwardsD * (P1.x * P2.x) * (P1.y * P2.y)
  }

  /** The affine Edwards sum from the cross term t and the numerators
      nx == x1 y2 + y1 x2 and ny == y1 y2 + x1 x2: x3 and y3 are the reduced
      solutions of x3 (1 + t) == nx and y3 (1 - t) == ny, and the call fails
      exactly when 1 + t or 1 - t is not a unit. */
  function EdAffineAdd(t: int, nx: int, ny: int): (r: Result<EC.Point>)
    ensures r.Ok? <==> Gcd(1 + t, FieldPrime) == 1 && Gcd(1 - t, FieldPrime) == 1
    ensures r.Ok? ==>
              r.value.Aff? && 0 <= r.value.x < FieldPrime && 0 <= r.value.y < FieldPrime &&
              (r.value.x * (1 + t)) % FieldPrime == nx % FieldPrime &&
              (r.value.y * (1 - t)) % FieldPrime == ny % FieldPrime
  {
    match InverseModulo(1 + t, FieldPrime)
    case None => Err(NoInverse)
    case Some(i1) =>
      match InverseModulo(1 - t, FieldPrime)
      case None => Err(NoInverse)
      case Some(i2) =>
        var x3 := (nx * i1) % FieldPrime;
        var y3 := (ny * i2) % FieldPrime;
        QuotientFromInverse(FieldPrime, nx, 1 + t, i1, x3);
        QuotientFromInverse(FieldPrime, ny, 1 - t, i2, y3);
        Ok(EC.Aff(x3, y3))
  }

  /** `point_add` of `Curve25519`: the Montgomery variant refuses; infinity
      (`None`) is the identity; two affine points go through the Edwards
      addition law with the cross term d x1 x2 y1 y2. */
  function EdPointAdd(v: Variant, P1: EC.Point, P2: EC.Point): (r: Result<EC.Point>)
    ensures v == Montgomery ==> r == Err(NotEdwards)
    ensures v == Ed25519 && P1.Inf? ==> r == Ok(P2)
    ensures v == Ed25519 && P1.Aff? && P2.Inf? ==> r == Ok(P1)
    ensures v == Ed25519 && P1.Aff? && P2.Aff? ==>
              r == EdAffineAdd(CrossTerm(P1, P2), P1.x * P2.y + P1.y * P2.x, P1.y * P2.y + P1.x * P2.x)
  {
    if v == Montgomery then Err(NotEdwards)
    else
      match (P1, P2)
      case (Inf, _) => Ok(P2)
      case (Aff(_, _), Inf) => Ok(P1)
      case (Aff(x1, y1), Aff(x2, y2)) =>
        var x1x2 := x1 * x2;
        var y1y2 := y1 * y2;
        var t := EdwardsD * x1x2 * y1y2;
        EdAffineAdd(t, x1 * y2 + y1 * x2, y1y2 + x1x2)
  }

  const NoInverse := "no inverse exists"

  lemma SymmetricProducts(x1: int, y1: int, x2: int, y2: int)
    ensures x1 * x2 == x2 * x1 && y1 * y2 == y2 * y1
    ensures x1 * y2 + y1 * x2 == x2 * y1 + y2 * x1
    ensures y1 * y2 + x1 * x2 == y2 * y1 + x2 * x1
  {
  }

  /** The Edwards law is symmetric in its operands. */
  lemma EdPointAddCommutes(v: Variant, P1: EC.Point, P2: EC.Point)
    ensures EdPointAdd(v, P1, P2) == EdPointAdd(v, P2, P1)
  {
    if v == Ed25519 && P1.Aff? && P2.Aff? {
      var x1, y1, x2, y2 := P1.x, P1.y, P2.x, P2.y;
      SymmetricProducts(x1, y1, x2, y2);
      assert CrossTerm(P1, P2) == CrossTerm(P2, P1);
    }
  }

  // ---------------------------------------------------------------------
  // _ed25519_scalar_mult
  // ---------------------------------------------------------------------

  /** The double-and-add loop of `_ed25519_scalar_mult` from the state
      (result, addend, k). */
  function EdDoubleAndAdd(v: Variant, result: EC.Point, addend: EC.Point, k: nat): Result<EC.Point>
    decreases k
  {
    if k == 0 then Ok(result)
    else
      var sum := if k % 2 == 1 then EdPointAdd(v, result, addend) else Ok(result);
      var doubled := EdPointAdd(v, addend, addend);
      if sum.Err? then sum
      else if doubled.Err? then doubled
      else EdDoubleAndAdd(v, sum.value, doubled.value, k / 2)
  }

  /** `self.B`, the default point of `scalar_mult`: (Bx, By) on Ed25519,
      and (Bu, Bv) with Bv from `_compute_v_from_u(Bu)` on the Montgomery
      variant. */
  function BasePoint(v: Variant): (B: EC.Point)
    ensures v == Ed25519 ==> B == EC.Aff(BaseX, BaseY)
    ensures v == Montgomery ==> B.Aff? && B.x == BaseU && ComputeVFromU(BaseU) == Some(B.y)
  {
    if v == Ed25519 then EC.Aff(BaseX, BaseY) else EC.Aff(BaseU, ComputeVFromU(BaseU).value)
  }

  /** `_ed25519_scalar_mult(k, point)`: a missing point (`None`, here `Inf`)
      defaults to `self.B`; 0 gives infinity, 1 the point itself, larger
      scalars run the loop. */
  function EdScalarMult(v: Variant, k: nat, point: EC.Point): (r: Result<EC.Point>)
    ensures k == 0 ==> r == Ok(EC.Inf)
    ensures k == 1 ==> r == Ok(if point.Inf? then BasePoint(v) else point)
  {
    var base := if point.Inf? then BasePoint(v) else point;
    if k == 0 then Ok(EC.Inf)
    else if k == 1 then Ok(base)
    else EdDoubleAndAdd(v, EC.Inf, base, k)
  }

  /** The loop itself; a negative k never reaches 0 under `>>=` in the
      source, so the model takes k >= 0. */
  method EdScalarMultiply(v: Variant, k: int, point: EC.Point) returns (r: Result<EC.Point>)
    requires k >= 0
    ensures r == EdScalarMult(v, k, point)
  {
    var base := if point.Inf? then BasePoint(v) else point;
    if k == 0 {
      return Ok(EC.Inf);
    }
    if k == 1 {
      return Ok(base);
    }
    var result, addend, n := EC.Inf, base, k;
    while n != 0
      invariant n >= 0
      invariant EdDoubleAndAdd(v, result, addend, n) == EdScalarMult(v, k, point)
      decreases n
    {
      if n % 2 == 1 {
        var sum := EdPointAdd(v, result, addend);
        if sum.Err? {
          return sum;
        }
        result := sum.value;
      }
      var doubled := EdPointAdd(v, addend, addend);
      if doubled.Err? {
        return doubled;
      }
      addend := doubled.value;
      n := n / 2;
    }
    return Ok(result);
  }

  /** On the Montgomery variant every scalar above 1 fails in `point_add`. */
  lemma EdScalarMultOnMontgomeryFails(k: nat, point: EC.Point)
    requires k >= 2
    ensures EdScalarMult(Montgomery, k, point).Err?
  {
  }

  /** The k == 1 shortcut agrees with the loop whenever the loop's final
      doubling succeeds. */
  lemma EdScalarMultOneShortcut(v: Variant, base: EC.Point)
    requires base.Aff? && EdPointAdd(v, base, base).Ok?
    ensures EdDoubleAndAdd(v, EC.Inf, base, 1) == EdScalarMult(v, 1, base)
  {
    var sum, doubled := EdPointAdd(v, EC.Inf, base), EdPointAdd(v, base, base);
    assert v == Ed25519 && sum == Ok(base);
    assert 1 % 2 == 1 && 1 / 2 == 0;
    assert EdDoubleAndAdd(v, EC.Inf, base, 1) == EdDoubleAndAdd(v, base, doubled.value, 0);
  }

  /** k-fold `point_add` of P, left to right from infinity: the sum that
      k * P stands for. */
  function EdRepeatedAdd(v: Variant, k: nat, P: EC.Point): Result<EC.Point>
    decreases k
  {
    if k == 0 then Ok(EC.Inf)
    else
      match EdRepeatedAdd(v, k - 1, P)
      case Err(e) => Err(e)
      case Ok(Q) => EdPointAdd(v, Q, P)
  }

  /** For k <= 2 a successful double-and-add on Ed25519 is the k-fold sum of
      the point it starts from. */
  lemma EdScalarMultSmall(k: nat, point: EC.Point)
    requires k <= 2
    ensures var base := if point.Inf? then BasePoint(Ed25519) else point;
            EdScalarMult(Ed25519, k, point).Ok? ==>
              EdScalarMult(Ed25519, k, point) == EdRepeatedAdd(Ed25519, k, base)
  {
    var base := if point.Inf? then BasePoint(Ed25519) else point;
    assert EdRepeatedAdd(Ed25519, 1, base) == Ok(base);
    if k == 2 {
      EdDoubleAndAddTwo(base);
    }
  }

  /** Two: skip the low bit, double, then add the doubled point to infinity. */
  lemma EdDoubleAndAddTwo(base: EC.Point)
    requires EdRepeatedAdd(Ed25519, 1, base) == Ok(base)
    ensures var r := EdDoubleAndAdd(Ed25519, EC.Inf, base, 2);
            r.Ok? ==> r == EdRepeatedAdd(Ed25519, 2, base)
  {
    var d := EdPointAdd(Ed25519, base, base);
    if d.Ok? {
      assert EdDoubleAndAdd(Ed25519, EC.Inf, base, 2) == EdDoubleAndAdd(Ed25519, EC.Inf, d.value, 1);
      assert EdPointAdd(Ed25519, EC.Inf, d.value) == Ok(d.value);
    }
  }

  // ---------------------------------------------------------------------
  // Montgomery ladder
  // ---------------------------------------------------------------------

  /** The projective ladder state (u2 : w2), (u3 : w3). */
  datatype LadderState = LadderState(u2: int, w2: int, u3: int, w3: int)

  /** `_differential_add(u2, w2, u3, w3, u)`: the doubling of (u2 : w2)
      and the differential sum of (u2 : w2) and (u3 : w3) with difference u,
      in the formulas of RFC 7748:
      u2' == (u2^2 - w2^2)^2, w2' == 4 u2 w2 (u2^2 + A u2 w2 + w2^2),
      u3' == 4 (u2 u3 - w2 w3)^2, w3' == 4 u (u2 w3 - w2 u3)^2 (mod p). */
  function DifferentialAdd(u2: int, w2: int, u3: int, w3: int, u: int): (r: LadderState)
    ensures 0 <= r.u2 < FieldPrime && 0 <= r.w2 < FieldPrime
    ensures 0 <= r.u3 < FieldPrime && 0 <= r.w3 < FieldPrime
    ensures (r.u2 - (u2 * u2 - w2 * w2) * (u2 * u2 - w2 * w2)) % FieldPrime == 0
    ensures (r.w2 - 4 * (u2 * w2) * (u2 * u2 + MontA * (u2 * w2) + w2 * w2)) % FieldPrime == 0
    ensures (r.u3 - 4 * ((u2 * u3 - w2 * w3) * (u2 * u3 - w2 * w3))) % FieldPrime == 0
    ensures (r.w3 - 4 * u * ((u2 * w3 - w2 * u3) * (u2 * w3 - w2 * u3))) % FieldPrime == 0
  {
    var p := FieldPrime;
    var a := (u2 + w2) % p;
    var aa := (a * a) % p;
    var b := (u2 - w2) % p;
    var bb := (b * b) % p;
    var e := (aa - bb) % p;
    var c := (u3 + w3) % p;
    var d := (u3 - w3) % p;
    var da := (d * a) % p;
    var cb := (c * b) % p;
    var uSum := ModuloPower(da + cb, 2, p);
    var uDiff := (u * ModuloPower(da - cb, 2, p)) % p;
    var u2New := (aa * bb) % p;
    var w2New := (e * (aa + A24 * e)) % p;
    LadderDoubling(p, u2, w2, a, aa, b, bb, e, u2New, w2New);
    LadderAddition(p, u2, w2, u3, w3, u, a, b, c, d, da, cb, uSum, uDiff);
    LadderState(u2New, w2New, uSum, uDiff)
  }

  lemma LadderDoubling(p: int, u2: int, w2: int, a: int, aa: int, b: int, bb: int, e: int, u2New: int, w2New: int)
    requires p > 0
    requires a == (u2 + w2) % p && aa == (a * a) % p
    requires b == (u2 - w2) % p && bb == (b * b) % p
    requires e == (aa - bb) % p
    requires u2New == (aa * bb) % p && w2New == (e * (aa + A24 * e)) % p
    ensures (u2New - (u2 * u2 - w2 * w2) * (u2 * u2 - w2 * w2)) % p == 0
    ensures (w2New - 4 * (u2 * w2) * (u2 * u2 + MontA * (u2 * w2) + w2 * w2)) % p == 0
  {
    var s, t, uw := u2 + w2, u2 - w2, u2 * w2;
    var ss, tt := s * s, t * t;
    ModOfMod(s, p);
    ModOfMod(t, p);
    ProductMod(p, a, s, a, s, aa);
    ProductMod(p, b, t, b, t, bb);
    // u2' == (u2 + w2)^2 (u2 - w2)^2
    ProductMod(p, aa, ss, bb, tt, u2New);
    DifferenceOfSquaresSquared(u2, w2);
    CongruentIffDivides(u2New, (u2 * u2 - w2 * w2) * (u2 * u2 - w2 * w2), p);
    // e == 4 u2 w2
    ModSub(aa, bb, p);
    ModSub(ss, tt, p);
    ModOfMod(aa - bb, p);
    SquaresDifference(u2, w2);
    assert e % p == (4 * uw) % p;
    // aa + A24 e == u2^2 + A u2 w2 + w2^2
    var k := u2 * u2 + MontA * uw + w2 * w2;
    ModMulCongruent(A24, A24, e, 4 * uw, p);
    ModAddCongruent(aa, ss, A24 * e, A24 * (4 * uw), p);
    SquarePlusA24(u2, w2);
    assert (aa + A24 * e) % p == k % p;
    ProductMod(p, e, 4 * uw, aa + A24 * e, k, w2New);
    CongruentIffDivides(w2New, 4 * uw * k, p);
  }

  /** r == x * y reduced, with x and y congruent to X and Y. */
  lemma ProductMod(p: int, x: int, X: int, y: int, Y: int, r: int)
    requires p > 0 && x % p == X % p && y % p == Y % p && r == (x * y) % p
    ensures r % p == (X * Y) % p
  {
    ModMulCongruent(x, X, y, Y, p);
    ModOfMod(x * y, p);
  }

  lemma DifferenceOfSquaresSquared(u: int, w: int)
    ensures ((u + w) * (u + w)) * ((u - w) * (u - w)) == (u * u - w * w) * (u * u - w * w)
  {
    assert (u + w) * (u - w) == u * u - w * w;
    MulSwap(u + w, u - w, (u + w) * (u - w));
  }

  lemma SquaresDifference(u: int, w: int)
    ensures (u + w) * (u + w) - (u - w) * (u - w) == 4 * (u * w)
  {
  }

  lemma SquarePlusA24(u: int, w: int)
    ensures (u + w) * (u + w) + A24 * (4 * (u * w)) == u * u + MontA * (u * w) + w * w
  {
  }

  lemma LadderAddition(p: int, u2: int, w2: int, u3: int, w3: int, u: int,
                       a: int, b: int, c: int, d: int, da: int, cb: int, uSum: int, uDiff: int)
    requires p > 0
    requires a == (u2 + w2) % p && b == (u2 - w2) % p
    requires c == (u3 + w3) % p && d == (u3 - w3) % p
    requires da == (d * a) % p && cb == (c * b) % p
    requires uSum == ModuloPower(da + cb, 2, p)
    requires uDiff == (u * ModuloPower(da - cb, 2, p)) % p
    ensures (uSum - 4 * ((u2 * u3 - w2 * w3) * (u2 * u3 - w2 * w3))) % p == 0
    ensures (uDiff - 4 * u * ((u2 * w3 - w2 * u3) * (u2 * w3 - w2 * u3))) % p == 0
  {
    var plus, minus := 2 * (u2 * u3 - w2 * w3), 2 * (u3 * w2 - u2 * w3);
    LadderCross(p, u2, w2, u3, w3, a, b, c, d, da, cb);
    SquareCongruent(p, da + cb, plus, uSum);
    ScaledSquare(u2 * u3 - w2 * w3);
    var sq := ModuloPower(da - cb, 2, p);
    SquareCongruent(p, da - cb, minus, sq);
    ScaledDifference(p, u, sq, minus * minus, uDiff);
    ScaledSquare(u3 * w2 - u2 * w3);
    NegatedSquare(u3 * w2 - u2 * w3, u2 * w3 - w2 * u3);
    FourTimes(u, (u2 * w3 - w2 * u3) * (u2 * w3 - w2 * u3));
  }

  lemma FourTimes(u: int, x: int)
    ensures u * (4 * x) == 4 * u * x
  {
  }

  /** DA + CB and DA - CB are the doubled cross terms modulo p. */
  lemma LadderCross(p: int, u2: int, w2: int, u3: int, w3: int,
                    a: int, b: int, c: int, d: int, da: int, cb: int)
    requires p > 0
    requires a == (u2 + w2) % p && b == (u2 - w2) % p
    requires c == (u3 + w3) % p && d == (u3 - w3) % p
    requires da == (d * a) % p && cb == (c * b) % p
    ensures (da + cb) % p == (2 * (u2 * u3 - w2 * w3)) % p
    ensures (da - cb) % p == (2 * (u3 * w2 - u2 * w3)) % p
  {
    var s, t := u2 + w2, u2 - w2;
    var f, g := u3 + w3, u3 - w3;
    var gs, ft := g * s, f * t;
    ModOfMod(s, p);
    ModOfMod(t, p);
    ModOfMod(f, p);
    ModOfMod(g, p);
    ProductMod(p, d, g, a, s, da);
    ProductMod(p, c, f, b, t, cb);
    CrossTerms(u2, w2, u3, w3);
    ModOfMod(da, p);
    ModOfMod(cb, p);
    ModAddCongruent(da, gs, cb, ft, p);
    ModSub(da, cb, p);
    ModSub(gs, ft, p);
  }

  /** A residue congruent to Y squares to Y^2 modulo p. */
  lemma SquareCongruent(p: int, X: int, Y: int, s: int)
    requires p > 0 && X % p == Y % p && s == ModuloPower(X, 2, p)
    ensures s % p == (Y * Y) % p
    ensures (s - Y * Y) % p == 0
  {
    PowSmall(X);
    ProductMod(p, X, Y, X, Y, s);
    CongruentIffDivides(s, Y * Y, p);
  }

  /** u times a residue of S is u S modulo p. */
  lemma ScaledDifference(p: int, u: int, sq: int, S: int, r: int)
    requires p > 0 && sq % p == S % p && r == (u * sq) % p
    ensures (r - u * S) % p == 0
  {
    ProductMod(p, u, u, sq, S, r);
    CongruentIffDivides(r, u * S, p);
  }

  lemma CrossTerms(u2: int, w2: int, u3: int, w3: int)
    ensures (u3 - w3) * (u2 + w2) + (u3 + w3) * (u2 - w2) == 2 * (u2 * u3 - w2 * w3)
    ensures (u3 - w3) * (u2 + w2) - (u3 + w3) * (u2 - w2) == 2 * (u3 * w2 - u2 * w3)
  {
  }

  lemma ScaledSquare(x: int)
    ensures (2 * x) * (2 * x) == 4 * (x * x)
  {
  }

  lemma NegatedSquare(x: int, y: int)
    requires y == -x
    ensures x * x == y * y
  {
  }

  /** `bin(k)[2:]`: the binary digits of k, most significant first; "0" for
      zero; for a negative k the slice keeps the 'b' of "-0b...". */
  function BinDigits(k: int): (s: seq<char>)
    ensures |s| >= 1
  {
    if k > 0 then Bits(k) else if k == 0 then "0" else ['b'] + Bits(-k)
  }

  function Bits(n: nat): (s: seq<char>)
    requires n > 0
    ensures |s| >= 1 && s[0] == '1'
    ensures forall i :: 0 <= i < |s| ==> s[i] == '0' || s[i] == '1'
    decreases n
  {
    if n == 1 then "1" else Bits(n / 2) + [if n % 2 == 1 then '1' else '0']
  }

  /** Reading a digit string back in base 2. */
  function FromBits(s: seq<char>): nat {
    if s == [] then 0 else 2 * FromBits(s[..|s| - 1]) + (if s[|s| - 1] == '1' then 1 else 0)
  }

  /** The digits of bin(k) read back give k. */
  lemma {:induction false} BitsRoundTrip(n: nat)
    requires n > 0
    ensures FromBits(Bits(n)) == n
    decreases n
  {
    if n > 1 {
      BitsRoundTrip(n / 2);
      var s := Bits(n);
      assert s[..|s| - 1] == Bits(n / 2);
    }
  }

  /** One ladder iteration for one digit of bin(k). */
  function LadderStep(st: LadderState, bit: char, u: int): LadderState {
    if bit == '1' then DifferentialAdd(st.u2, st.w2, st.u3, st.w3, u)
    else
      var r := DifferentialAdd(st.u3, st.w3, st.u2, st.w2, u);
      LadderState(r.u3, r.w3, r.u2, r.w2)
  }

  /** The ladder over a digit string, left to right. */
  function Ladder(st: LadderState, bits: seq<char>, u: int): LadderState
    decreases |bits|
  {
    if bits == [] then st else Ladder(LadderStep(st, bits[0], u), bits[1..], u)
  }

  /** `_curve25519_scalar_mult(k, u)` (a missing u defaults to 9): run the
      ladder from ((1 : 0), (u : 1)) and return u2 / w2, failing when w2 is not
      a unit. Its two branches are those of RFC 7748 with the digits
      exchanged, so it computes the multiple 2^L - 1 - k of the point
      (`MontgomeryMultipleAsWritten`); `MontgomeryScalarMultCorrected` is the
      ladder of the RFC. */
  method MontgomeryScalarMult(k: int, uArg: Option<int>) returns (r: Result<int>)
    ensures var u := if uArg.None? then BaseU else uArg.value;
            var st := Ladder(LadderState(1, 0, u, 1), BinDigits(k), u);
            (r.Ok? <==> Gcd(st.w2, FieldPrime) == 1) &&
            (r.Ok? ==> 0 <= r.value < FieldPrime && (r.value * st.w2) % FieldPrime == st.u2 % FieldPrime)
  {
    var u := if uArg.None? then BaseU else uArg.value;
    var st := LadderState(1, 0, u, 1);
    var bits := BinDigits(k);
    var i := 0;
    while i < |bits|
      invariant 0 <= i <= |bits|
      invariant Ladder(st, bits[i..], u) == Ladder(LadderState(1, 0, u, 1), bits, u)
    {
      assert bits[i..][1..] == bits[i + 1..];
      if bits[i] == '1' {
        st := DifferentialAdd(st.u2, st.w2, st.u3, st.w3, u);
      } else {
        var t := DifferentialAdd(st.u3, st.w3, st.u2, st.w2, u);
        st := LadderState(t.u3, t.w3, t.u2, t.w2);
      }
      i := i + 1;
    }
    assert bits[i..] == [];
    var inv := InverseModulo(st.w2, FieldPrime);
    if inv.None? {
      return Err(NoInverse);
    }
    var res := (st.u2 * inv.value) % FieldPrime;
    QuotientFromInverse(FieldPrime, st.u2, st.w2, inv.value, res);
    return Ok(res);
  }

  // ---------------------------------------------------------------------
  // Which multiples of the point the ladder holds
  // ---------------------------------------------------------------------

  /** The ladder on multiples: the state (i, j) stands for the pair
      (i P, j P), and `_differential_add` turns (i, j) into (2 i, i + j).
      This follows `LadderStep` branch for branch: on digit '1' the first
      pair is doubled, on any other digit the second one. */
  function MultipleStep(m: (int, int), bit: char): (int, int) {
    if bit == '1' then (2 * m.0, m.0 + m.1) else (m.0 + m.1, 2 * m.1)
  }

  function MultipleLadder(m: (int, int), bits: seq<char>): (int, int)
    decreases |bits|
  {
    if bits == [] then m else MultipleLadder(MultipleStep(m, bits[0]), bits[1..])
  }

  /** Running the ladder on one more digit is one more step at the end. */
  lemma {:induction false} MultipleLadderSnoc(m: (int, int), bits: seq<char>, b: char)
    ensures MultipleLadder(m, bits + [b]) == MultipleStep(MultipleLadder(m, bits), b)
    decreases |bits|
  {
    if bits != [] {
      assert (bits + [b])[1..] == bits[1..] + [b];
      MultipleLadderSnoc(MultipleStep(m, bits[0]), bits[1..], b);
    }
  }

  predicate IsBinary(bits: seq<char>) {
    forall i :: 0 <= i < |bits| ==> bits[i] == '0' || bits[i] == '1'
  }

  /** As written, the ladder from (O, P) over a digit string s ends holding
      the multiples 2^|s| - 1 - s and 2^|s| - s of P, where s is read in
      base 2: the digits act complemented. */
  lemma {:induction false} LadderMultipleAsWritten(bits: seq<char>)
    requires IsBinary(bits)
    ensures MultipleLadder((0, 1), bits) ==
              (Pow(2, |bits|) - 1 - FromBits(bits), Pow(2, |bits|) - FromBits(bits))
    decreases |bits|
  {
    if bits != [] {
      var init, b := bits[..|bits| - 1], bits[|bits| - 1];
      assert bits == init + [b];
      LadderMultipleAsWritten(init);
      MultipleLadderSnoc((0, 1), init, b);
      assert Pow(2, |bits|) == 2 * Pow(2, |init|);
    }
  }

  /** `_curve25519_scalar_mult(k)` for k >= 1 lands on the multiple
      2^L - 1 - k of the point, L being the number of binary digits of k,
      instead of k. */
  lemma MontgomeryMultipleAsWritten(k: int)
    requires k >= 1
    ensures MultipleLadder((0, 1), BinDigits(k)).0 == Pow(2, |BinDigits(k)|) - 1 - k
  {
    LadderMultipleAsWritten(Bits(k));
    BitsRoundTrip(k);
  }

  /** For k == 1 the ladder as written ends with w2 == 0, so the final
      `inverseModulo(w2, p)` raises and the scalar multiplication fails. */
  lemma MontgomeryOfOneFails()
    ensures Ladder(LadderState(1, 0, BaseU, 1), BinDigits(1), BaseU).w2 == 0
    ensures Gcd(0, FieldPrime) != 1
  {
    assert BinDigits(1) == "1";
    var st := DifferentialAdd(1, 0, BaseU, 1, BaseU);
    assert Ladder(LadderState(1, 0, BaseU, 1), "1", BaseU) == Ladder(st, [], BaseU);
    assert NatGcd(0, FieldPrime) == NatGcd(FieldPrime, 0) == FieldPrime;
  }

  /** The ladder step of section 5 of RFC 7748: the conditional swap puts
      the pair to double first when the digit is 1, so digit 1 doubles the
      second pair and digit 0 the first. */
  function CorrectedLadderStep(st: LadderState, bit: char, u: int): LadderState {
    if bit == '1' then
      var r := DifferentialAdd(st.u3, st.w3, st.u2, st.w2, u);
      LadderState(r.u3, r.w3, r.u2, r.w2)
    else DifferentialAdd(st.u2, st.w2, st.u3, st.w3, u)
  }

  function CorrectedLadder(st: LadderState, bits: seq<char>, u: int): LadderState
    decreases |bits|
  {
    if bits == [] then st else CorrectedLadder(CorrectedLadderStep(st, bits[0], u), bits[1..], u)
  }

  /** The digit the step as written would need to act as RFC 7748 does. */
  function Flip(bit: char): char {
    if bit == '1' then '0' else '1'
  }

  function Complement(bits: seq<char>): (c: seq<char>)
    ensures |c| == |bits| && forall i :: 0 <= i < |bits| ==> c[i] == Flip(bits[i])
  {
    seq(|bits|, i requires 0 <= i < |bits| => Flip(bits[i]))
  }

  /** The corrected ladder is the ladder as written over the complemented
      digits. */
  lemma {:induction false} CorrectedLadderIsComplement(st: LadderState, bits: seq<char>, u: int)
    ensures CorrectedLadder(st, bits, u) == Ladder(st, Complement(bits), u)
    decreases |bits|
  {
    if bits != [] {
      assert Complement(bits)[0] == Flip(bits[0]);
      assert Complement(bits)[1..] == Complement(bits[1..]);
      CorrectedLadderIsComplement(CorrectedLadderStep(st, bits[0], u), bits[1..], u);
    }
  }

  /** Complementing a digit string of length L turns its value s into
      2^L - 1 - s. */
  lemma {:induction false} ComplementValue(bits: seq<char>)
    requires IsBinary(bits)
    ensures IsBinary(Complement(bits))
    ensures FromBits(Complement(bits)) == Pow(2, |bits|) - 1 - FromBits(bits)
    decreases |bits|
  {
    if bits != [] {
      var init := bits[..|bits| - 1];
      assert Complement(bits)[..|bits| - 1] == Complement(init);
      ComplementValue(init);
      assert Pow(2, |bits|) == 2 * Pow(2, |init|);
    }
  }

  /** The corrected ladder over bin(k) ends holding k P and (k + 1) P, so
      u2 / w2 is the u-coordinate of k P, as the docstring promises. */
  lemma CorrectedLadderMultiple(k: int)
    requires k >= 1
    ensures MultipleLadder((0, 1), Complement(BinDigits(k))) == (k, k + 1)
  {
    var bits := Bits(k);
    ComplementValue(bits);
    LadderMultipleAsWritten(Complement(bits));
    BitsRoundTrip(k);
  }

  /** For k == 1 the corrected ladder ends at (4 u^2 : 4 u) == (324 : 36),
      the projective form of u == 9 itself. */
  lemma CorrectedOfOne()
    ensures CorrectedLadder(LadderState(1, 0, BaseU, 1), BinDigits(1), BaseU).u2 == 324
    ensures CorrectedLadder(LadderState(1, 0, BaseU, 1), BinDigits(1), BaseU).w2 == 36
  {
    assert BinDigits(1) == "1";
    var r := DifferentialAdd(BaseU, 1, 1, 0, BaseU);
    var st := LadderState(r.u3, r.w3, r.u2, r.w2);
    assert CorrectedLadder(LadderState(1, 0, BaseU, 1), "1", BaseU) == CorrectedLadder(st, [], BaseU);
    assert (r.u3 - 324) % FieldPrime == 0;
    assert (r.w3 - 36) % FieldPrime == 0;
    ResidueOfDifference(r.u3, 324, FieldPrime);
    ResidueOfDifference(r.w3, 36, FieldPrime);
  }

  /** Two residues in [0, d) whose difference d divides are equal. */
  lemma ResidueOfDifference(x: int, y: int, d: int)
    requires 0 <= x < d && 0 <= y < d && (x - y) % d == 0
    ensures x == y
  {
    if x < y {
      DivModUnique(x - y, d, -1, x - y + d);
    } else {
      DivModUnique(x - y, d, 0, x - y);
    }
  }

  /** `_curve25519_scalar_mult` with the RFC 7748 step. */
  method MontgomeryScalarMultCorrected(k: int, uArg: Option<int>) returns (r: Result<int>)
    ensures var u := if uArg.None? then BaseU else uArg.value;
            var st := CorrectedLadder(LadderState(1, 0, u, 1), BinDigits(k), u);
            (r.Ok? <==> Gcd(st.w2, FieldPrime) == 1) &&
            (r.Ok? ==> 0 <= r.value < FieldPrime && (r.value * st.w2) % FieldPrime == st.u2 % FieldPrime)
  {
    var u := if uArg.None? then BaseU else uArg.value;
    var st := LadderState(1, 0, u, 1);
    var bits := BinDigits(k);
    var i := 0;
    while i < |bits|
      invariant 0 <= i <= |bits|
      invariant CorrectedLadder(st, bits[i..], u) == CorrectedLadder(LadderState(1, 0, u, 1), bits, u)
    {
      assert bits[i..][1..] == bits[i + 1..];
      st := CorrectedLadderStep(st, bits[i], u);
      i := i + 1;
    }
    assert bits[i..] == [];
    var inv := InverseModulo(st.w2, FieldPrime);
    if inv.None? {
      return Err(NoInverse);
    }
    var res := (st.u2 * inv.value) % FieldPrime;
    QuotientFromInverse(FieldPrime, st.u2, st.w2, inv.value, res);
    return Ok(res);
  }

  /** `_compute_v_from_u`: only the base u-coordinate 9 has a tabulated v. */
  function ComputeVFromU(u: int): (r: Option<int>)
    ensures r.Some? <==> u == BaseU
    ensures r.Some? ==> (r.value * r.value) % FieldPrime == (u * u * u + MontA * (u * u) + u) % FieldPrime
  {
    if u == 9 then Some(BaseV) else None
  }
}
