/** The short-Weierstrass curve y^2 = x^3 + a*x + b over Z/pZ of
    ECC/Elliptic_Curve.py (class `EllipticCurve`): the non-singularity check of
    the constructor, membership, the chord-and-tangent addition law,
    double-and-add scalar multiplication, the modular square root and the
    random point search. */
module EllipticCurves {
  import opened Common
  import opened NumberTheory

  /** `None` is the point at infinity; every other point is an (x, y) pair. */
  datatype Point = Inf | Aff(x: int, y: int)

  /** The curve parameters; the modulus is meant to be a prime. */
  datatype Curve = Curve(a: int, b: int, p: int)

  const NoInverse := "base is not invertible for the given modulus"

  /** 4a^3 + 27b^2 == 0 (mod p). */
  predicate IsSingular(a: int, b: int, p: int)
    requires p > 0
  {
    (4 * (a * a * a) + 27 * (b * b)) % p == 0
  }

  /** The constructor: it raises exactly for a singular curve. */
  function NewCurve(a: int, b: int, p: int): (r: Result<Curve>)
    requires p > 0
    ensures r.Ok? <==> !IsSingular(a, b, p)
    ensures r.Ok? ==> r.value == Curve(a, b, p)
  {
    var disc := Modulo(4 * ModuloPower(a, 3, p) + 27 * ModuloPower(b, 2, p), p);
    DiscriminantMod(a, b, p);
    if disc == 0 then Err("singular curve") else Ok(Curve(a, b, p))
  }

  lemma DiscriminantMod(a: int, b: int, p: int)
    requires p > 0
    ensures (4 * ModuloPower(a, 3, p) + 27 * ModuloPower(b, 2, p)) % p
         == (4 * (a * a * a) + 27 * (b * b)) % p
  {
    PowSmall(a);
    PowSmall(b);
    ModOfMod(a * a * a, p);
    ModOfMod(b * b, p);
    ModMulCongruent(4, 4, ModuloPower(a, 3, p), a * a * a, p);
    ModMulCongruent(27, 27, ModuloPower(b, 2, p), b * b, p);
    ModAddCongruent(4 * ModuloPower(a, 3, p), 4 * (a * a * a),
                    27 * ModuloPower(b, 2, p), 27 * (b * b), p);
  }

  /** Right-hand side of the curve equation, unreduced. */
  function Rhs(c: Curve, x: int): int {
    x * x * x + c.a * x + c.b
  }

  /** `is_on_curve`: infinity is on every curve, an affine point exactly when
      y^2 == x^3 + a*x + b (mod p). */
  function IsOnCurve(c: Curve, P: Point): (r: bool)
    requires c.p > 0
    ensures P.Inf? ==> r
    ensures P.Aff? ==> (r <==> (P.y * P.y) % c.p == Rhs(c, P.x) % c.p)
  {
    match P
    case Inf => true
    case Aff(x, y) =>
      OnCurveMod(c, x, y);
      Modulo(ModuloPower(y, 2, c.p) - (ModuloPower(x, 3, c.p) + c.a * x + c.b), c.p) == 0
  }

  lemma OnCurveMod(c: Curve, x: int, y: int)
    requires c.p > 0
    ensures (ModuloPower(y, 2, c.p) - (ModuloPower(x, 3, c.p) + c.a * x + c.b)) % c.p == 0
        <==> (y * y) % c.p == Rhs(c, x) % c.p
  {
    var p := c.p;
    PowSmall(x);
    PowSmall(y);
    var ly, rx := ModuloPower(y, 2, p), ModuloPower(x, 3, p) + c.a * x + c.b;
    ModOfMod(y * y, p);
    ModOfMod(x * x * x, p);
    ModAddCongruent(ModuloPower(x, 3, p), x * x * x, c.a * x + c.b, c.a * x + c.b, p);
    assert rx % p == Rhs(c, x) % p;
    CongruentIffDivides(ly, rx, p);
  }

  // ---------------------------------------------------------------------
  // point_add
  // ---------------------------------------------------------------------

  /** The denominator of the slope: 2y for a doubling, x2 - x1 otherwise. */
  function SlopeDenominator(P: Point, Q: Point): int
    requires P.Aff? && Q.Aff?
  {
    if P == Q then 2 * P.y else Q.x - P.x
  }

  /** lam is a slope of the line through P and Q: the tangent slope
      (3x^2 + a)/(2y) when P == Q, the chord slope (y2 - y1)/(x2 - x1)
      otherwise, written as an equation modulo p. */
  predicate IsSlope(c: Curve, P: Point, Q: Point, lam: int)
    requires c.p > 0 && P.Aff? && Q.Aff?
  {
    if P == Q then (lam * (2 * P.y) - (3 * (P.x * P.x) + c.a)) % c.p == 0
    else (lam * (Q.x - P.x) - (Q.y - P.y)) % c.p == 0
  }

  /** The sum read off a slope: x3 = lam^2 - x1 - x2, y3 = lam(x1 - x3) - y1. */
  function ThirdPoint(c: Curve, P: Point, Q: Point, lam: int): Point
    requires c.p > 0 && P.Aff? && Q.Aff?
  {
    var x3 := (lam * lam - P.x - Q.x) % c.p;
    Aff(x3, (lam * (P.x - x3) - P.y) % c.p)
  }

  /** P and Q are mirror images: same x, y1 + y2 == 0 (mod p). */
  predicate AreOpposite(c: Curve, P: Point, Q: Point)
    requires c.p > 0 && P.Aff? && Q.Aff?
  {
    P.x == Q.x && (P.y + Q.y) % c.p == 0
  }

  /** `point_add`: infinity is the identity, mirror points sum to infinity,
      otherwise the result is the chord/tangent point for a slope solving the
      slope equation; the call fails exactly when the slope denominator has no
      inverse modulo p. */
  function PointAdd(c: Curve, P: Point, Q: Point): (r: Result<Point>)
    requires c.p > 0
    ensures P.Inf? ==> r == Ok(Q)
    ensures P.Aff? && Q.Inf? ==> r == Ok(P)
    ensures P.Aff? && Q.Aff? && AreOpposite(c, P, Q) ==> r == Ok(Inf)
    ensures P.Aff? && Q.Aff? && !AreOpposite(c, P, Q) ==>
              (r.Err? <==> Gcd(SlopeDenominator(P, Q), c.p) != 1)
    ensures r.Err? ==> r == Err(NoInverse)
    ensures P.Aff? && Q.Aff? && !AreOpposite(c, P, Q) && r.Ok? ==>
              exists lam :: 0 <= lam < c.p && IsSlope(c, P, Q, lam) && r.value == ThirdPoint(c, P, Q, lam)
  {
    match (P, Q)
    case (Inf, _) => Ok(Q)
    case (Aff(_, _), Inf) => Ok(P)
    case (Aff(x1, y1), Aff(x2, y2)) =>
      if x1 == x2 && Modulo(y1 + y2, c.p) == 0 then Ok(Inf)
      else
        var num :=
          if P == Q then Modulo(3 * ModuloPower(x1, 2, c.p) + c.a, c.p)
          else Modulo(y2 - y1, c.p);
        var den := if P == Q then (2 * y1) % c.p else Modulo(x2 - x1, c.p);
        assert den == SlopeDenominator(P, Q) % c.p;
        InverseGcd(SlopeDenominator(P, Q), c.p);
        match InverseModulo(den, c.p)
        case None => Err(NoInverse)
        case Some(inv) =>
          var lam := Modulo(num * inv, c.p);
          var x3 := Modulo(ModuloPower(lam, 2, c.p) - x1 - x2, c.p);
          var y3 := Modulo(lam * (x1 - x3) - y1, c.p);
          ChordSpec(c, P, Q, num, inv, lam, x3, y3);
          Ok(Aff(x3, y3))
  }

  /** The values computed by `point_add` meet the slope equation and give
      the third point. */
  lemma ChordSpec(c: Curve, P: Point, Q: Point, num: int, inv: int, lam: int, x3: int, y3: int)
    requires c.p > 0 && P.Aff? && Q.Aff?
    requires num == if P == Q then Modulo(3 * ModuloPower(P.x, 2, c.p) + c.a, c.p)
                    else Modulo(Q.y - P.y, c.p)
    requires ((SlopeDenominator(P, Q) % c.p) * inv) % c.p == 1 % c.p
    requires lam == Modulo(num * inv, c.p)
    requires x3 == Modulo(ModuloPower(lam, 2, c.p) - P.x - Q.x, c.p)
    requires y3 == Modulo(lam * (P.x - x3) - P.y, c.p)
    ensures 0 <= lam < c.p && IsSlope(c, P, Q, lam) && Aff(x3, y3) == ThirdPoint(c, P, Q, lam)
  {
    var den := SlopeDenominator(P, Q);
    var target := if P == Q then 3 * (P.x * P.x) + c.a else Q.y - P.y;
    NumeratorMod(c, P, Q, num);
    assert num % c.p == target % c.p;
    SlopeFromInverse(c.p, num, den, inv, lam);
    CongruentIffDivides(lam * den, target, c.p);
    ThirdPointMod(c, P, Q, lam, x3, y3);
  }

  lemma NumeratorMod(c: Curve, P: Point, Q: Point, num: int)
    requires c.p > 0 && P.Aff? && Q.Aff?
    requires num == if P == Q then Modulo(3 * ModuloPower(P.x, 2, c.p) + c.a, c.p)
                    else Modulo(Q.y - P.y, c.p)
    ensures P == Q ==> num % c.p == (3 * (P.x * P.x) + c.a) % c.p
    ensures P != Q ==> num % c.p == (Q.y - P.y) % c.p
  {
    var p := c.p;
    PowSmall(P.x);
    ModOfMod(P.x * P.x, p);
    ModMulCongruent(3, 3, ModuloPower(P.x, 2, p), P.x * P.x, p);
    ModAddCongruent(3 * ModuloPower(P.x, 2, p), 3 * (P.x * P.x), c.a, c.a, p);
    ModOfMod(3 * ModuloPower(P.x, 2, p) + c.a, p);
    ModOfMod(Q.y - P.y, p);
  }

  /** lam = num * inv(den) solves lam * den == num (mod p). */
  lemma SlopeFromInverse(p: int, num: int, den: int, inv: int, lam: int)
    requires p > 0
    requires ((den % p) * inv) % p == 1 % p
    requires lam == (num * inv) % p
    ensures (lam * den) % p == num % p
  {
    ModOfMod(den, p);
    ModMulCongruent(den % p, den, inv, inv, p);
    QuotientFromInverse(p, num, den, inv, lam);
  }

  lemma ThirdPointMod(c: Curve, P: Point, Q: Point, lam: int, x3: int, y3: int)
    requires c.p > 0 && P.Aff? && Q.Aff?
    requires x3 == Modulo(ModuloPower(lam, 2, c.p) - P.x - Q.x, c.p)
    requires y3 == Modulo(lam * (P.x - x3) - P.y, c.p)
    ensures Aff(x3, y3) == ThirdPoint(c, P, Q, lam)
  {
    PowSmall(lam);
    ModOfMod(lam * lam, c.p);
    ModAddCongruent(ModuloPower(lam, 2, c.p), lam * lam, -P.x - Q.x, -P.x - Q.x, c.p);
  }

  /** Two solutions of the same slope equation with an invertible
      denominator are congruent. */
  lemma SlopeUnique(p: int, den: int, num: int, l1: int, l2: int)
    requires p > 0 && Gcd(den, p) == 1
    requires (l1 * den - num) % p == 0 && (l2 * den - num) % p == 0
    ensures l1 % p == l2 % p
  {
    if p > 1 {
      DifferenceOfSolutions(p, den, num, l1, l2);
      var inv := InverseExists(den, p);
      assert 1 % p == 1;
      CancelUnit(p, den, l1 - l2, inv);
      CongruentIffDivides(l1, l2, p);
    }
  }

  /** Subtracting two solutions of the slope equation leaves a multiple of
      the modulus. */
  lemma DifferenceOfSolutions(p: int, den: int, num: int, l1: int, l2: int)
    requires p > 0
    requires (l1 * den - num) % p == 0 && (l2 * den - num) % p == 0
    ensures (den * (l1 - l2)) % p == 0
  {
    var a, b := l1 * den - num, l2 * den - num;
    ModSub(a, b, p);
    MulDistributes(den, l1, l2);
    assert a - b == den * (l1 - l2);
  }

  lemma MulDistributes(d: int, x: int, y: int)
    ensures x * d - y * d == d * (x - y)
  {
  }

  /** The addition law is symmetric in its two operands. */
  lemma PointAddCommutes(c: Curve, P: Point, Q: Point)
    requires c.p > 0
    ensures PointAdd(c, P, Q) == PointAdd(c, Q, P)
  {
    if P.Aff? && Q.Aff? && P != Q && !AreOpposite(c, P, Q) {
      assert !AreOpposite(c, Q, P);
      assert Abs(SlopeDenominator(P, Q)) == Abs(SlopeDenominator(Q, P));
      var r1, r2 := PointAdd(c, P, Q), PointAdd(c, Q, P);
      if r1.Ok? {
        var l1 :| 0 <= l1 < c.p && IsSlope(c, P, Q, l1) && r1.value == ThirdPoint(c, P, Q, l1);
        var l2 :| 0 <= l2 < c.p && IsSlope(c, Q, P, l2) && r2.value == ThirdPoint(c, Q, P, l2);
        ChordCommutes(c, P, Q, l1, l2);
      }
    }
  }

  /** Slopes of the chord PQ and of the chord QP give the same third point. */
  lemma ChordCommutes(c: Curve, P: Point, Q: Point, l1: int, l2: int)
    requires c.p > 0 && P.Aff? && Q.Aff? && P != Q
    requires Gcd(SlopeDenominator(P, Q), c.p) == 1
    requires 0 <= l1 < c.p && 0 <= l2 < c.p
    requires IsSlope(c, P, Q, l1) && IsSlope(c, Q, P, l2)
    ensures ThirdPoint(c, P, Q, l1) == ThirdPoint(c, Q, P, l2)
  {
    ChordSlopeSymmetric(c, P, Q, l2);
    SlopeUnique(c.p, Q.x - P.x, Q.y - P.y, l1, l2);
    DivModUnique(l1, c.p, 0, l1);
    DivModUnique(l2, c.p, 0, l2);
    ThirdPointSymmetric(c, P, Q, l1);
  }

  lemma ChordSlopeSymmetric(c: Curve, P: Point, Q: Point, lam: int)
    requires c.p > 0 && P.Aff? && Q.Aff? && P != Q && IsSlope(c, Q, P, lam)
    ensures IsSlope(c, P, Q, lam)
  {
    var e := lam * (P.x - Q.x) - (P.y - Q.y);
    assert lam * (Q.x - P.x) - (Q.y - P.y) == -e;
    ModSub(0, e, c.p);
  }

  lemma ThirdPointSymmetric(c: Curve, P: Point, Q: Point, lam: int)
    requires c.p > 0 && P.Aff? && Q.Aff? && P != Q && IsSlope(c, P, Q, lam)
    ensures ThirdPoint(c, P, Q, lam) == ThirdPoint(c, Q, P, lam)
  {
    var p := c.p;
    var x3 := (lam * lam - P.x - Q.x) % p;
    assert x3 == (lam * lam - Q.x - P.x) % p;
    var e1, e2 := lam * (P.x - x3) - P.y, lam * (Q.x - x3) - Q.y;
    var s := lam * (Q.x - P.x) - (Q.y - P.y);
    assert s % p == 0;
    ChordDifference(lam, P.x, P.y, Q.x, Q.y, x3);
    ModSub(0, s, p);
    CongruentIffDivides(e1, e2, p);
    assert e1 % p == e2 % p;
    assert ThirdPoint(c, P, Q, lam) == Aff(x3, e1 % p);
    assert ThirdPoint(c, Q, P, lam) == Aff(x3, e2 % p);
  }

  lemma ChordDifference(lam: int, x1: int, y1: int, x2: int, y2: int, x3: int)
    ensures (lam * (x1 - x3) - y1) - (lam * (x2 - x3) - y2) == -(lam * (x2 - x1) - (y2 - y1))
  {
  }

  /** On a prime field, adding two reduced points of the curve never fails:
      equal x-coordinates force equal or mirror points, and a non-zero
      reduced denominator is a unit. */
  lemma PointAddTotalOverPrimeField(c: Curve, P: Point, Q: Point)
    requires IsPrime(c.p)
    requires IsReduced(c, P) && IsReduced(c, Q) && IsOnCurve(c, P) && IsOnCurve(c, Q)
    ensures PointAdd(c, P, Q).Ok?
  {
    if P.Aff? && Q.Aff? && !AreOpposite(c, P, Q) {
      var den := SlopeDenominator(P, Q);
      if P.x == Q.x {
        SameAbscissa(c, P, Q);
        assert den == P.y + Q.y;
      } else {
        NonZeroSmallMod(den, c.p);
      }
      PrimeCoprime(c.p, den);
    }
  }

  /** Two reduced points of the curve over a prime field with the same x
      are equal or mirror images. */
  lemma SameAbscissa(c: Curve, P: Point, Q: Point)
    requires IsPrime(c.p)
    requires IsReduced(c, P) && IsReduced(c, Q) && IsOnCurve(c, P) && IsOnCurve(c, Q)
    requires P.Aff? && Q.Aff? && P.x == Q.x
    ensures P == Q || AreOpposite(c, P, Q)
  {
    SquareRootsModPrime(c.p, P.y, Q.y);
    if P.y != Q.y {
      NonZeroSmallMod(P.y - Q.y, c.p);
    }
  }

  lemma NonZeroSmallMod(d: int, p: int)
    requires p > 0 && -p < d < p && d != 0
    ensures d % p != 0
  {
    if d > 0 {
      DivModUnique(d, p, 0, d);
    } else {
      DivModUnique(d, p, -1, d + p);
    }
  }

  /** Both coordinates already reduced modulo p. */
  predicate IsReduced(c: Curve, P: Point) {
    P.Aff? ==> 0 <= P.x < c.p && 0 <= P.y < c.p
  }

  // ---------------------------------------------------------------------
  // point_multiply
  // ---------------------------------------------------------------------

  /** What the double-and-add loop yields from the state (result, addend, k):
      add `addend` for each set bit of k, doubling it at every bit; the first
      failing addition aborts the whole multiplication. */
  function DoubleAndAdd(c: Curve, result: Point, addend: Point, k: nat): Result<Point>
    requires c.p > 0
    decreases k
  {
    if k == 0 then Ok(result)
    else
      var sum := if k % 2 == 1 then PointAdd(c, result, addend) else Ok(result);
      var doubled := PointAdd(c, addend, addend);
      if sum.Err? then sum
      else if doubled.Err? then doubled
      else DoubleAndAdd(c, sum.value, doubled.value, k / 2)
  }

  /** `point_multiply(k, P)`: 0 gives infinity, a negative k multiplies the
      mirror point (x, -y mod p) by -k (and fails on infinity, whose
      coordinates the source indexes). */
  function ScalarMult(c: Curve, k: int, P: Point): Result<Point>
    requires c.p > 0
  {
    if k == 0 then Ok(Inf)
    else if k > 0 then DoubleAndAdd(c, Inf, P, k)
    else if P.Inf? then Err("point at infinity is not subscriptable")
    else DoubleAndAdd(c, Inf, Aff(P.x, (-P.y) % c.p), -k)
  }

  method PointMultiply(c: Curve, k: int, P: Point) returns (r: Result<Point>)
    requires c.p > 0
    ensures r == ScalarMult(c, k, P)
  {
    if k == 0 {
      return Ok(Inf);
    }
    var n: int, pt := k, P;
    if k < 0 {
      if P.Inf? {
        return Err("point at infinity is not subscriptable");
      }
      n, pt := -k, Aff(P.x, (-P.y) % c.p);
    }
    var result, addend := Inf, pt;
    while n != 0
      invariant n >= 0
      invariant DoubleAndAdd(c, result, addend, n) == ScalarMult(c, k, P)
      decreases n
    {
      if n % 2 == 1 {
        var sum := PointAdd(c, result, addend);
        if sum.Err? {
          return sum;
        }
        result := sum.value;
      }
      var doubled := PointAdd(c, addend, addend);
      if doubled.Err? {
        return doubled;
      }
      addend := doubled.value;
      n := n / 2;
    }
    return Ok(result);
  }

  /** Multiplying infinity by any non-negative scalar gives infinity. */
  lemma {:induction false} DoubleAndAddInfinity(c: Curve, k: nat)
    requires c.p > 0
    ensures DoubleAndAdd(c, Inf, Inf, k) == Ok(Inf)
    decreases k
  {
    if k > 0 {
      DoubleAndAddInfinity(c, k / 2);
    }
  }

  lemma ScalarMultOfInfinity(c: Curve, k: int)
    requires c.p > 0 && k >= 0
    ensures ScalarMult(c, k, Inf) == Ok(Inf)
  {
    if k > 0 {
      DoubleAndAddInfinity(c, k);
    }
  }

  /** (2k)P == k(2P): an even scalar first doubles the point. */
  lemma ScalarMultEven(c: Curve, k: int, P: Point, P2: Point)
    requires c.p > 0 && k > 0 && PointAdd(c, P, P) == Ok(P2)
    ensures ScalarMult(c, 2 * k, P) == ScalarMult(c, k, P2)
  {
    assert (2 * k) / 2 == k && (2 * k) % 2 == 0;
  }

  /** 1P == P whenever P can be doubled (the loop doubles once more). */
  lemma ScalarMultOne(c: Curve, P: Point)
    requires c.p > 0 && PointAdd(c, P, P).Ok?
    ensures ScalarMult(c, 1, P) == Ok(P)
  {
  }

  /** k-fold `point_add` of P, left to right from infinity: "P added to
      itself k times", which `point_multiply` promises to compute. */
  function RepeatedAdd(c: Curve, k: nat, P: Point): Result<Point>
    requires c.p > 0
    decreases k
  {
    if k == 0 then Ok(Inf)
    else
      match RepeatedAdd(c, k - 1, P)
      case Err(e) => Err(e)
      case Ok(Q) => PointAdd(c, Q, P)
  }

  /** For 0 <= k <= 3 a successful double-and-add is the k-fold sum. */
  lemma ScalarMultSmall(c: Curve, k: nat, P: Point)
    requires c.p > 0 && k <= 3
    ensures ScalarMult(c, k, P).Ok? ==> ScalarMult(c, k, P) == RepeatedAdd(c, k, P)
  {
    assert RepeatedAdd(c, 1, P) == Ok(P);
    if k == 2 {
      DoubleAndAddTwo(c, P);
    } else if k == 3 {
      DoubleAndAddThree(c, P);
    }
  }

  /** Over a prime field, a reduced point of the curve gives the same
      2P both ways, the loop's last doubling aside. */
  lemma ScalarMultOneAndTwo(c: Curve, P: Point)
    requires IsPrime(c.p) && IsReduced(c, P) && IsOnCurve(c, P)
    ensures RepeatedAdd(c, 1, P) == ScalarMult(c, 1, P) == Ok(P)
    ensures RepeatedAdd(c, 2, P).Ok?
  {
    PointAddTotalOverPrimeField(c, P, P);
    assert RepeatedAdd(c, 1, P) == Ok(P);
  }

  lemma DoubleAndAddTwo(c: Curve, P: Point)
    requires c.p > 0 && RepeatedAdd(c, 1, P) == Ok(P)
    ensures var r := DoubleAndAdd(c, Inf, P, 2);
            r.Ok? ==> r == RepeatedAdd(c, 2, P)
  {
    var d := PointAdd(c, P, P);
    if d.Ok? {
      assert DoubleAndAdd(c, Inf, P, 2) == DoubleAndAdd(c, Inf, d.value, 1);
      assert PointAdd(c, Inf, d.value) == Ok(d.value);
    }
  }

  lemma DoubleAndAddThree(c: Curve, P: Point)
    requires c.p > 0 && RepeatedAdd(c, 1, P) == Ok(P)
    ensures var r := DoubleAndAdd(c, Inf, P, 3);
            r.Ok? ==> r == RepeatedAdd(c, 3, P)
  {
    var d := PointAdd(c, P, P);
    assert PointAdd(c, Inf, P) == Ok(P);
    if d.Ok? {
      assert DoubleAndAdd(c, Inf, P, 3) == DoubleAndAdd(c, P, d.value, 1);
      assert RepeatedAdd(c, 2, P) == d;
      PointAddCommutes(c, P, d.value);
    }
  }

  // ---------------------------------------------------------------------
  // _mod_sqrt and generate_point
  // ---------------------------------------------------------------------

  /** y is a square root of a modulo p, compared against a as given. */
  predicate IsRootOf(y: int, a: int, p: int)
    requires p > 0
  {
    (y * y) % p == a
  }

  /** `_mod_sqrt`: the (p+1)/4 power shortcut when p == 3 (mod 4), then an
      exhaustive search below one million; larger moduli give up. */
  method ModSqrt(a: int, p: int) returns (r: Option<int>)
    requires p > 0
    ensures r.Some? ==> 0 <= r.value < p && IsRootOf(r.value, a, p)
    ensures r.None? && p < 1000000 ==> forall y :: 0 <= y < p ==> !IsRootOf(y, a, p)
    ensures p >= 1000000 && p % 4 != 3 ==> r.None?
    ensures p % 4 == 3 && IsRootOf(ModuloPower(a, (p + 1) / 4, p), a, p) ==>
              r == Some(ModuloPower(a, (p + 1) / 4, p))
  {
    if p % 4 == 3 {
      var y := ModuloPower(a, (p + 1) / 4, p);
      PowSmall(y);
      ModOfMod(y * y, p);
      if ModuloPower(y, 2, p) == a {
        return Some(y);
      }
    }
    if p < 1000000 {
      var y := 0;
      while y < p
        invariant 0 <= y <= p
        invariant forall z :: 0 <= z < y ==> !IsRootOf(z, a, p)
      {
        PowSmall(y);
        ModOfMod(y * y, p);
        if ModuloPower(y, 2, p) == a {
          return Some(y);
        }
        y := y + 1;
      }
    }
    return None;
  }

  /** The residue `generate_point` takes a square root of is x^3 + a*x + b mod p. */
  lemma CurveRhsResidue(c: Curve, x: int)
    requires c.p > 0
    ensures Modulo(ModuloPower(x, 3, c.p) + c.a * x + c.b, c.p) == Rhs(c, x) % c.p
  {
    PowSmall(x);
    ModOfMod(x * x * x, c.p);
    ModAddCongruent(ModuloPower(x, 3, c.p), x * x * x, c.a * x + c.b, c.a * x + c.b, c.p);
  }

  /** The shortcut of `_mod_sqrt` for p == 3 (mod 4), a^((p+1)/4), is not
      a square root of the right-hand side at x. */
  predicate ShortcutFails(c: Curve, x: int)
    requires c.p > 0
  {
    var a := Rhs(c, x) % c.p;
    !IsRootOf(ModuloPower(a, (c.p + 1) / 4, c.p), a, c.p)
  }

  /** What a None from `_mod_sqrt` at x tells about the curve. */
  lemma FailedDraw(c: Curve, x: int, a: int)
    requires c.p > 0 && a == Rhs(c, x) % c.p
    requires c.p < 1000000 ==> forall y :: 0 <= y < c.p ==> !IsRootOf(y, a, c.p)
    requires c.p % 4 == 3 ==> !IsRootOf(ModuloPower(a, (c.p + 1) / 4, c.p), a, c.p)
    ensures c.p < 1000000 ==> NoPointAt(c, x)
    ensures c.p % 4 == 3 ==> ShortcutFails(c, x)
  {
    if c.p < 1000000 {
      forall z | 0 <= z < c.p
        ensures !IsOnCurve(c, Aff(x, z))
      {
        assert !IsRootOf(z, a, c.p);
      }
    }
  }

  /** `generate_point`: up to 1000 random x in [0, p), each kept when
      x^3 + a*x + b has a square root; the random draw is a free choice,
      recorded in the ghost `draws`. An error means all 1000 draws failed:
      below 10^6 no point lies above any of them, and for p == 3 (mod 4)
      the shortcut root failed at each. */
  method GeneratePoint(c: Curve) returns (r: Result<Point>, ghost draws: seq<int>)
    requires c.p > 0
    ensures r.Ok? ==> IsReduced(c, r.value) && r.value.Aff? && IsOnCurve(c, r.value)
    ensures c.p >= 1000000 && c.p % 4 != 3 ==> r.Err?
    ensures r.Err? ==> |draws| == 1000 && forall i :: 0 <= i < |draws| ==> 0 <= draws[i] < c.p
    ensures r.Err? && c.p < 1000000 ==> forall i :: 0 <= i < |draws| ==> NoPointAt(c, draws[i])
    ensures r.Err? && c.p % 4 == 3 ==> forall i :: 0 <= i < |draws| ==> ShortcutFails(c, draws[i])
  {
    draws := [];
    var attempt := 0;
    while attempt < 1000
      invariant 0 <= attempt <= 1000 && |draws| == attempt
      invariant forall i :: 0 <= i < |draws| ==> 0 <= draws[i] < c.p
      invariant c.p < 1000000 ==> forall i :: 0 <= i < |draws| ==> NoPointAt(c, draws[i])
      invariant c.p % 4 == 3 ==> forall i :: 0 <= i < |draws| ==> ShortcutFails(c, draws[i])
    {
      var x :| 0 <= x < c.p;
      CurveRhsResidue(c, x);
      var ySquared := Modulo(ModuloPower(x, 3, c.p) + c.a * x + c.b, c.p);
      var y := ModSqrt(ySquared, c.p);
      if y.Some? {
        return Ok(Aff(x, y.value)), draws;
      }
      FailedDraw(c, x, ySquared);
      draws := draws + [x];
      attempt := attempt + 1;
    }
    return Err("no point found after 1000 attempts"), draws;
  }


  /** y^2 = x^3 + 1 modulo 1000033 (which is 1 mod 4) has the
      point (0, 1), yet `_mod_sqrt(1, 1000033)` gives None, so
      `generate_point` raises on this curve whatever x it draws. */
  lemma PointMissedAboveMillion()
    ensures IsOnCurve(Curve(0, 1, 1000033), Aff(0, 1))
    ensures IsReduced(Curve(0, 1, 1000033), Aff(0, 1))
    ensures IsRootOf(1, Rhs(Curve(0, 1, 1000033), 0) % 1000033, 1000033)
    ensures 1000033 % 4 == 1
  {
    var c := Curve(0, 1, 1000033);
    assert Rhs(c, 0) == 1;
    assert (1 * 1) % c.p == Rhs(c, 0) % c.p;
    assert 1000033 == 4 * 250008 + 1;
  }

  /** A square root of a modulo p whenever one exists: the (p+1)/4 power
      shortcut, then a search over every residue, with no size limit. */
  method ModSqrtComplete(a: int, p: int) returns (r: Option<int>)
    requires p > 0
    ensures r.Some? ==> 0 <= r.value < p && IsRootOf(r.value, a, p)
    ensures r.None? <==> forall y :: 0 <= y < p ==> !IsRootOf(y, a, p)
  {
    if p % 4 == 3 {
      var y := ModuloPower(a, (p + 1) / 4, p);
      PowSmall(y);
      ModOfMod(y * y, p);
      if ModuloPower(y, 2, p) == a {
        assert IsRootOf(y, a, p);
        return Some(y);
      }
    }
    var y := 0;
    while y < p
      invariant 0 <= y <= p
      invariant forall z :: 0 <= z < y ==> !IsRootOf(z, a, p)
    {
      PowSmall(y);
      ModOfMod(y * y, p);
      if ModuloPower(y, 2, p) == a {
        assert IsRootOf(y, a, p);
        return Some(y);
      }
      y := y + 1;
    }
    return None;
  }

  /** No point of the curve has abscissa x. */
  predicate NoPointAt(c: Curve, x: int)
    requires c.p > 0
  {
    forall y :: 0 <= y < c.p ==> !IsOnCurve(c, Aff(x, y))
  }

  /** `generate_point` with a complete square root: it fails only when
      each of its 1000 draws is an x with no point above it. */
  method GeneratePointIntended(c: Curve) returns (r: Result<Point>, ghost draws: seq<int>)
    requires c.p > 0
    ensures r.Ok? ==> IsReduced(c, r.value) && r.value.Aff? && IsOnCurve(c, r.value)
    ensures r.Err? ==> |draws| == 1000 && forall i :: 0 <= i < |draws| ==> NoPointAt(c, draws[i])
  {
    draws := [];
    var attempt := 0;
    while attempt < 1000
      invariant 0 <= attempt <= 1000 && |draws| == attempt
      invariant forall i :: 0 <= i < |draws| ==> NoPointAt(c, draws[i])
    {
      var x :| 0 <= x < c.p;
      CurveRhsResidue(c, x);
      var ySquared := Modulo(ModuloPower(x, 3, c.p) + c.a * x + c.b, c.p);
      var y := ModSqrtComplete(ySquared, c.p);
      if y.Some? {
        return Ok(Aff(x, y.value)), draws;
      }
      forall z | 0 <= z < c.p
        ensures !IsOnCurve(c, Aff(x, z))
      {
        assert !IsRootOf(z, ySquared, c.p);
      }
      draws := draws + [x];
      attempt := attempt + 1;
    }
    return Err("no point found after 1000 attempts"), draws;
  }
}
