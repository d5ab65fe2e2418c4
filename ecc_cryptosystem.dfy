/** ECC/ECC_Cryptosystem.py: choosing curve parameters and building the
    table of affine points of y^2 = x^3 + a*x + b over Z/pZ by listing the
    squares modulo p first. */
module EccCryptosystem {
  import opened Common
  import opened NumberTheory
  import opened EllipticCurves

  // ---------------------------------------------------------------------
  // cal_a_b
  // ---------------------------------------------------------------------

  /** `cal_a_b`: the pair (a, b) back unless the discriminant vanishes
      modulo p, in which case the caller is told to start again. */
  function CalAB(a: int, b: int, p: int): (r: Result<(int, int)>)
    requires p > 0
    ensures r.Err? <==> IsSingular(a, b, p)
    ensures r.Ok? ==> r.value == (a, b)
  {
    DiscriminantMod(a, b, p);
    if Modulo(4 * ModuloPower(a, 3, p) + 27 * ModuloPower(b, 2, p), p) == 0 then Err("lam lai")
    else Ok((a, b))
  }

  // ---------------------------------------------------------------------
  // The table of squares q_p
  // ---------------------------------------------------------------------

  /** The y coordinates stored for one key: one or two distinct roots of r
      in [0, p). */
  ghost predicate RootEntry(v: seq<int>, r: int, p: int)
    requires p > 0
  {
    (|v| == 1 || |v| == 2) && (|v| == 2 ==> v[0] != v[1]) &&
    forall k :: 0 <= k < |v| ==> 0 <= v[k] < p && IsRootOf(v[k], r, p)
  }

  /** Every square root of r in [0, p) is stored. */
  ghost predicate AllRootsListed(v: seq<int>, r: int, p: int)
    requires p > 0
  {
    forall y :: 0 <= y < p && IsRootOf(y, r, p) ==> y in v
  }

  /** What `q_p` holds once built: 0 is a key, every key is a residue whose
      entry lists roots of it; for odd p every square is a key, and for a
      prime p every root of a key is listed. */
  ghost predicate IsSquareTable(qp: map<int, seq<int>>, p: int)
    requires p > 0
  {
    0 in qp &&
    (forall r :: r in qp ==> 0 <= r < p && RootEntry(qp[r], r, p)) &&
    (p % 2 == 1 ==> forall y :: 0 <= y < p ==> (y * y) % p in qp) &&
    (IsPrime(p) ==> forall r :: r in qp ==> AllRootsListed(qp[r], r, p))
  }

  /** The first loop of `build_elliptic_curve`: q_p[0] = [0], then
      q_p[i^2 mod p] = [i, p - i] for 1 <= i < (p + 1) // 2, a later i
      overwriting an earlier one with the same square. */
  method SquareTable(p: int) returns (qp: map<int, seq<int>>)
    requires p > 0
    ensures IsSquareTable(qp, p)
  {
    qp := map[0 := [0]];
    TableStart(p);
    var i := 1;
    while i < (p + 1) / 2
      invariant 1 <= i && TablePrefix(qp, p, i)
    {
      var square := ModuloPower(i, 2, p);
      PowSmall(i);
      assert square == (i * i) % p;
      TableStep(qp, p, i);
      qp := qp[square := [i, p - i]];
      i := i + 1;
    }
    TableComplete(qp, p, i);
  }

  /** Before the loop only q_p[0] = [0] is stored. */
  lemma TableStart(p: int)
    requires p > 0
    ensures TablePrefix(map[0 := [0]], p, 1)
  {
    var qp := map[0 := [0]];
    assert IsRootOf(0, 0, p);
    assert RootEntry([0], 0, p);
    forall r | r in qp
      ensures r == 0 && qp[r] == [0]
    {
    }
    if IsPrime(p) {
      ZeroHasOneRoot(p);
    }
  }

  /** The invariant of the first loop once the i below `upto` are stored. */
  ghost predicate TablePrefix(qp: map<int, seq<int>>, p: int, upto: int)
    requires p > 0
  {
    0 in qp &&
    (forall r :: r in qp ==> 0 <= r < p && RootEntry(qp[r], r, p)) &&
    (forall j :: 1 <= j < upto && j < (p + 1) / 2 ==> (j * j) % p in qp) &&
    (IsPrime(p) ==> forall r :: r in qp ==> AllRootsListed(qp[r], r, p))
  }

  lemma TableStep(qp: map<int, seq<int>>, p: int, i: int)
    requires p > 0 && 1 <= i < (p + 1) / 2 && TablePrefix(qp, p, i)
    ensures TablePrefix(qp[(i * i) % p := [i, p - i]], p, i + 1)
  {
    OppositeRoot(p, i);
    if IsPrime(p) {
      PrimeRootsOfSquare(p, i);
    }
  }

  lemma TableComplete(qp: map<int, seq<int>>, p: int, i: int)
    requires p > 0 && i >= (p + 1) / 2 && TablePrefix(qp, p, i)
    ensures IsSquareTable(qp, p)
  {
    if p % 2 == 1 {
      forall y | 0 <= y < p
        ensures (y * y) % p in qp
      {
        SquareListed(qp, p, i, y);
      }
    }
  }

  /** For odd p the square of every y in [0, p) is a key: y or p - y lies
      in [1, (p + 1) // 2) unless y is 0. */
  lemma SquareListed(qp: map<int, seq<int>>, p: int, i: int, y: int)
    requires p > 0 && p % 2 == 1 && i >= (p + 1) / 2 && TablePrefix(qp, p, i)
    requires 0 <= y < p
    ensures (y * y) % p in qp
  {
    var half := (p + 1) / 2;
    assert 2 * half == p + 1;
    if y == 0 {
      assert y * y == 0;
    } else if y < half {
      assert 1 <= y < i;
    } else {
      var z := p - y;
      assert 1 <= z < half && z < i;
      assert (z * z) % p in qp;
      OppositeRoot(p, z);
      assert p - z == y;
    }
  }

  /** p - i is a root of i^2 mod p, and it differs from i. */
  lemma OppositeRoot(p: int, i: int)
    requires 0 < i && 2 * i < p + 1 && p > 0
    ensures 2 * i < p ==> 0 < i < p - i < p
    ensures ((p - i) * (p - i)) % p == (i * i) % p
  {
    assert (p - i) * (p - i) == i * i + p * (p - 2 * i);
    ModAddMultiple(i * i, p, p - 2 * i);
  }

  /** Modulo a prime, the only root of 0 is 0. */
  lemma ZeroHasOneRoot(p: int)
    requires IsPrime(p)
    ensures AllRootsListed([0], 0, p)
  {
    forall y | 0 <= y < p && IsRootOf(y, 0, p)
      ensures y == 0
    {
      EuclidLemma(p, y, y);
    }
  }

  /** Modulo a prime, the roots of i^2 are exactly i and p - i. */
  lemma PrimeRootsOfSquare(p: int, i: int)
    requires IsPrime(p) && 0 < i < p
    ensures AllRootsListed([i, p - i], (i * i) % p, p)
  {
    forall y | 0 <= y < p && IsRootOf(y, (i * i) % p, p)
      ensures y == i || y == p - i
    {
      RootOfSquare(p, i, y);
    }
  }

  lemma RootOfSquare(p: int, i: int, y: int)
    requires IsPrime(p) && 0 < i < p && 0 <= y < p && (y * y) % p == (i * i) % p
    ensures y == i || y == p - i
  {
    SquareRootsModPrime(p, y, i);
    if (y - i) % p == 0 {
      ModAddMultiple(y - i, p, 1);
      MultipleInRange(y - i + p, p);
    } else {
      MultipleInRange(y + i, p);
    }
  }

  /** The only multiple of p strictly between 0 and 2p is p. */
  lemma MultipleInRange(z: int, p: int)
    requires 0 < z < 2 * p && z % p == 0
    ensures z == p
  {
    if z < p {
      DivModUnique(z, p, 0, z);
    } else if z > p {
      DivModUnique(z, p, 1, z - p);
    }
  }

  // ---------------------------------------------------------------------
  // The table of points list_point
  // ---------------------------------------------------------------------

  /** The second loop of `build_elliptic_curve`: every x in [0, p) whose
      x^3 + a*x + b mod p is a key of q_p, mapped to that key's entry. */
  method ListPoints(c: Curve, qp: map<int, seq<int>>) returns (points: map<int, seq<int>>)
    requires c.p > 0
    ensures forall x :: x in points <==> 0 <= x < c.p && Rhs(c, x) % c.p in qp
    ensures forall x :: x in points ==> points[x] == qp[Rhs(c, x) % c.p]
  {
    points := map[];
    for i := 0 to c.p
      invariant forall x :: x in points <==> 0 <= x < i && Rhs(c, x) % c.p in qp
      invariant forall x :: x in points ==> points[x] == qp[Rhs(c, x) % c.p]
    {
      var r := Modulo(ModuloPower(i, 3, c.p) + c.a * i + c.b, c.p);
      CurveRhsResidue(c, i);
      if r in qp {
        points := points[i := qp[r]];
      }
    }
  }

  /** What `list_point` means: each x maps to one or two distinct y with
      (x, y) on the curve; for odd p every x of a curve point is listed,
      and for a prime p every y of a listed x is. */
  ghost predicate ListsCurve(points: map<int, seq<int>>, c: Curve)
    requires c.p > 0
  {
    (forall x :: x in points ==> 0 <= x < c.p && PointEntry(points[x], c, x)) &&
    (c.p % 2 == 1 ==> forall x, y :: 0 <= x < c.p && 0 <= y < c.p && IsOnCurve(c, Aff(x, y)) ==> x in points) &&
    (IsPrime(c.p) ==> forall x, y :: x in points && 0 <= y < c.p && IsOnCurve(c, Aff(x, y)) ==> y in points[x])
  }

  /** One or two distinct y in [0, p), each making (x, y) a curve point. */
  ghost predicate PointEntry(v: seq<int>, c: Curve, x: int)
    requires c.p > 0
  {
    (|v| == 1 || |v| == 2) && (|v| == 2 ==> v[0] != v[1]) &&
    forall k :: 0 <= k < |v| ==> 0 <= v[k] < c.p && IsOnCurve(c, Aff(x, v[k]))
  }

  /** Looking x^3 + a*x + b up in the table of squares lists the curve. */
  lemma TableListsCurve(c: Curve, qp: map<int, seq<int>>, points: map<int, seq<int>>)
    requires c.p > 0 && IsSquareTable(qp, c.p)
    requires forall x :: x in points <==> 0 <= x < c.p && Rhs(c, x) % c.p in qp
    requires forall x :: x in points ==> points[x] == qp[Rhs(c, x) % c.p]
    ensures ListsCurve(points, c)
  {
    forall x | x in points
      ensures PointEntry(points[x], c, x)
    {
      var r := Rhs(c, x) % c.p;
      assert RootEntry(qp[r], r, c.p);
    }
    if c.p % 2 == 1 {
      forall x, y | 0 <= x < c.p && 0 <= y < c.p && IsOnCurve(c, Aff(x, y))
        ensures x in points
      {
        assert (y * y) % c.p in qp;
      }
    }
    if IsPrime(c.p) {
      forall x, y | x in points && 0 <= y < c.p && IsOnCurve(c, Aff(x, y))
        ensures y in points[x]
      {
        var r := Rhs(c, x) % c.p;
        assert AllRootsListed(qp[r], r, c.p);
        assert IsRootOf(y, r, c.p);
      }
    }
  }

  // ---------------------------------------------------------------------
  // build_elliptic_curve
  // ---------------------------------------------------------------------

  /** The three outcomes: the singular-curve message, the empty dict of a
      point count that fails the primality test, or the count and points. */
  datatype Build = Singular | CountNotPrime | Built(numPoint: int, points: map<int, seq<int>>)

  /** `build_elliptic_curve`; `prime_check` (Miller-Rabin with random
      bases) is the parameter `primeCheck`. The count it tests is
      2 * len(list_point) - 1. */
  method BuildEllipticCurve(a: int, b: int, p: int, primeCheck: int -> bool)
    returns (r: Build, ghost listed: map<int, seq<int>>)
    requires p > 0
    ensures r.Singular? <==> IsSingular(a, b, p)
    ensures !r.Singular? ==> ListsCurve(listed, Curve(a, b, p))
    ensures r.CountNotPrime? <==> !IsSingular(a, b, p) && !primeCheck(2 * |listed| - 1)
    ensures r.Built? ==> r.points == listed && r.numPoint == 2 * |listed| - 1 && primeCheck(r.numPoint)
  {
    listed := map[];
    DiscriminantMod(a, b, p);
    if Modulo(4 * ModuloPower(a, 3, p) + 27 * ModuloPower(b, 2, p), p) == 0 {
      return Singular, listed;
    }
    var c := Curve(a, b, p);
    var qp := SquareTable(p);
    var points := ListPoints(c, qp);
    TableListsCurve(c, qp, points);
    listed := points;
    var numPoint := |points| * 2 - 1;
    if !primeCheck(|points| * 2 - 1) {
      return CountNotPrime, listed;
    }
    return Built(numPoint, points), listed;
  }

  /** `build_elliptic_curve` testing the count it evidently intends: one
      point per listed (x, y) and the point at infinity, which modulo an odd
      prime is the order of the curve. */
  method BuildEllipticCurveCounted(a: int, b: int, p: int, primeCheck: int -> bool)
    returns (r: Build, ghost listed: map<int, seq<int>>)
    requires p > 0
    ensures r.Singular? <==> IsSingular(a, b, p)
    ensures !r.Singular? ==> ListsCurve(listed, Curve(a, b, p))
    ensures r.CountNotPrime? <==> !IsSingular(a, b, p) && !primeCheck(TableOrder(listed, p))
    ensures r.Built? ==> r.points == listed && r.numPoint == TableOrder(listed, p) && primeCheck(r.numPoint)
    ensures r.Built? && p > 2 && IsPrime(p) ==> r.numPoint == CurveOrder(Curve(a, b, p))
  {
    listed := map[];
    DiscriminantMod(a, b, p);
    if Modulo(4 * ModuloPower(a, 3, p) + 27 * ModuloPower(b, 2, p), p) == 0 {
      return Singular, listed;
    }
    var c := Curve(a, b, p);
    var qp := SquareTable(p);
    var points := ListPoints(c, qp);
    TableListsCurve(c, qp, points);
    listed := points;
    var numPoint := CountPoints(points, p);
    if !primeCheck(numPoint) {
      return CountNotPrime, listed;
    }
    if p > 2 && IsPrime(p) {
      TableOrderIsCurveOrder(c, points);
    }
    return Built(numPoint, points), listed;
  }

  /** The number of listed (x, y) pairs, plus one for infinity. */
  method CountPoints(points: map<int, seq<int>>, p: int) returns (n: nat)
    requires p > 0
    ensures n == TableOrder(points, p)
  {
    var total := 0;
    var x := p;
    while x > 0
      invariant 0 <= x <= p && total == TableCount(points, p, x)
    {
      x := x - 1;
      total := total + (if x in points then |points[x]| else 0);
    }
    n := 1 + total;
  }

  // ---------------------------------------------------------------------
  // Counting points
  // ---------------------------------------------------------------------

  /** The number of y in [y0, p) with (x, y) on the curve. */
  function RootCount(c: Curve, x: int, y0: nat): (n: nat)
    requires c.p > 0
    ensures n <= if y0 < c.p then c.p - y0 else 0
    decreases c.p - y0
  {
    if y0 >= c.p then 0
    else (if IsOnCurve(c, Aff(x, y0)) then 1 else 0) + RootCount(c, x, y0 + 1)
  }

  /** The number of affine points with x coordinate in [x0, p). */
  function AffineCount(c: Curve, x0: nat): (n: nat)
    requires c.p > 0
    ensures n <= if x0 < c.p then (c.p - x0) * c.p else 0
    decreases c.p - x0
  {
    if x0 >= c.p then 0
    else
      var rest := AffineCount(c, x0 + 1);
      RowBound(c.p - x0, c.p);
      RootCount(c, x0, 0) + rest
  }

  lemma RowBound(k: int, p: int)
    ensures k * p == (k - 1) * p + p
  {
  }

  /** The order of the curve group: every affine point in [0, p)^2 plus the
      point at infinity. */
  function CurveOrder(c: Curve): (n: nat)
    requires c.p > 0
    ensures 1 <= n <= c.p * c.p + 1
  {
    1 + AffineCount(c, 0)
  }

  /** The number of y entries of the listed x in [x0, p). */
  function TableCount(points: map<int, seq<int>>, p: int, x0: nat): nat
    decreases p - x0
  {
    if x0 >= p then 0
    else (if x0 in points then |points[x0]| else 0) + TableCount(points, p, x0 + 1)
  }

  /** The number of points the table describes: one per listed (x, y)
      and the point at infinity. */
  function TableOrder(points: map<int, seq<int>>, p: int): (n: nat)
    ensures n >= 1
  {
    1 + TableCount(points, p, 0)
  }

  /** Modulo an odd prime the table's own count is the order of the curve. */
  lemma TableOrderIsCurveOrder(c: Curve, points: map<int, seq<int>>)
    requires c.p > 2 && IsPrime(c.p) && ListsCurve(points, c)
    ensures TableOrder(points, c.p) == CurveOrder(c)
  {
    assert c.p % 2 == 1 by {
      if c.p % 2 == 0 {
        assert Divides(2, c.p);
        assert false;
      }
    }
    TableCountFrom(c, points, 0);
  }

  lemma {:induction false} TableCountFrom(c: Curve, points: map<int, seq<int>>, x0: nat)
    requires c.p > 0 && c.p % 2 == 1 && IsPrime(c.p) && ListsCurve(points, c)
    ensures TableCount(points, c.p, x0) == AffineCount(c, x0)
    decreases c.p - x0
  {
    if x0 < c.p {
      TableCountFrom(c, points, x0 + 1);
      if x0 in points {
        var v := points[x0];
        assert PointEntry(v, c, x0);
        CountListedRoots(c, x0, v, 0);
        CountAtLeastAll(v);
      } else {
        CountListedRoots(c, x0, [], 0);
      }
    }
  }

  /** How many entries of v are at least y0. */
  function CountAtLeast(v: seq<int>, y0: int): nat {
    if v == [] then 0 else (if v[0] >= y0 then 1 else 0) + CountAtLeast(v[1..], y0)
  }

  lemma {:induction false} CountAtLeastAll(v: seq<int>)
    requires forall k :: 0 <= k < |v| ==> v[k] >= 0
    ensures CountAtLeast(v, 0) == |v|
  {
    if v != [] {
      CountAtLeastAll(v[1..]);
    }
  }

  /** Raising the bound by one loses exactly the entries equal to it. */
  lemma {:induction false} CountAtLeastStep(v: seq<int>, y0: int)
    requires |v| <= 2 && (|v| == 2 ==> v[0] != v[1])
    ensures CountAtLeast(v, y0) == CountAtLeast(v, y0 + 1) + (if y0 in v then 1 else 0)
  {
    if v != [] {
      CountAtLeastStep(v[1..], y0);
      if |v| == 2 {
        assert v[1..] == [v[1]];
      }
    }
  }

  /** When the y in [y0, p) on the curve at x are exactly the entries of
      v, they number as many as the entries of v at least y0. */
  lemma {:induction false} CountListedRoots(c: Curve, x: int, v: seq<int>, y0: nat)
    requires c.p > 0 && |v| <= 2 && (|v| == 2 ==> v[0] != v[1])
    requires forall k :: 0 <= k < |v| ==> v[k] < c.p
    requires forall y :: y0 <= y < c.p ==> (IsOnCurve(c, Aff(x, y)) <==> y in v)
    ensures RootCount(c, x, y0) == CountAtLeast(v, y0)
    decreases c.p - y0
  {
    if y0 >= c.p {
      CountAtLeastNone(v, y0);
    } else {
      CountListedRoots(c, x, v, y0 + 1);
      CountAtLeastStep(v, y0);
    }
  }

  lemma {:induction false} CountAtLeastNone(v: seq<int>, y0: int)
    requires forall k :: 0 <= k < |v| ==> v[k] < y0
    ensures CountAtLeast(v, y0) == 0
  {
    if v != [] {
      CountAtLeastNone(v[1..], y0);
    }
  }

  // ---------------------------------------------------------------------
  // The count build_elliptic_curve tests
  // ---------------------------------------------------------------------

  /** y^2 = x^3 + x + 1 over Z/5Z has nine points (x = 0, 2, 3, 4 each
      with two y, and infinity), yet its list of points has four keys, so
      the count handed to the primality test is 2 * 4 - 1 = 7, a prime. */
  lemma NumPointUndercounts(points: map<int, seq<int>>)
    requires ListsCurve(points, Curve(1, 1, 5))
    ensures 2 * |points| - 1 == 7 && IsPrime(2 * |points| - 1)
    ensures CurveOrder(Curve(1, 1, 5)) == 9 && !IsPrime(CurveOrder(Curve(1, 1, 5)))
  {
    TextbookKeys(Curve(1, 1, 5), points);
    assert |points.Keys| == |{0, 2, 3, 4}| == 4;
    TextbookOrder(Curve(1, 1, 5));
    SevenIsPrime();
    NineIsNotPrime();
  }

  /** Squares modulo 5 of 0..4, and x^3 + x + 1 modulo 5 at 0..4. */
  const SquaresModFive: seq<int> := [0, 1, 4, 4, 1]
  const TextbookRhs: seq<int> := [1, 3, 1, 1, 4]

  lemma TextbookPoint(c: Curve, x: int, y: int)
    requires c == Curve(1, 1, 5) && 0 <= x < 5 && 0 <= y < 5
    ensures IsOnCurve(c, Aff(x, y)) <==> SquaresModFive[y] == TextbookRhs[x]
  {
    SquareModFive(y);
    RhsModFive(x);
  }

  lemma SquareModFive(y: int)
    requires 0 <= y < 5
    ensures (y * y) % 5 == SquaresModFive[y]
  {
    if y == 0 {} else if y == 1 {} else if y == 2 {} else if y == 3 {} else {}
  }

  lemma RhsModFive(x: int)
    requires 0 <= x < 5
    ensures (x * x * x + 1 * x + 1) % 5 == TextbookRhs[x]
  {
    if x == 0 {} else if x == 1 {} else if x == 2 {} else if x == 3 {} else {}
  }

  /** The y on the textbook curve at each x. */
  function TextbookRow(x: int): seq<int> {
    if x == 1 then [] else if x == 4 then [2, 3] else [1, 4]
  }

  lemma TextbookRowExact(c: Curve, x: int)
    requires c == Curve(1, 1, 5) && 0 <= x < 5
    ensures forall y :: 0 <= y < c.p ==> (IsOnCurve(c, Aff(x, y)) <==> y in TextbookRow(x))
  {
    forall y | 0 <= y < c.p
      ensures IsOnCurve(c, Aff(x, y)) <==> y in TextbookRow(x)
    {
      TextbookPoint(c, x, y);
      TextbookRowTable(x, y);
    }
  }

  /** TextbookRow(x) lists the y whose square matches x^3 + x + 1. */
  lemma TextbookRowTable(x: int, y: int)
    requires 0 <= x < 5 && 0 <= y < 5
    ensures y in TextbookRow(x) <==> SquaresModFive[y] == TextbookRhs[x]
  {
    if x == 1 {
    } else if x == 4 {
      assert TextbookRhs[x] == 4;
    } else {
      assert TextbookRhs[x] == 1;
    }
  }

  lemma TextbookKeys(c: Curve, points: map<int, seq<int>>)
    requires c == Curve(1, 1, 5) && ListsCurve(points, c)
    ensures points.Keys == {0, 2, 3, 4}
  {
    TextbookListed(c, points, 0, 1);
    TextbookListed(c, points, 2, 1);
    TextbookListed(c, points, 3, 1);
    TextbookListed(c, points, 4, 2);
    forall x | x in points
      ensures 0 <= x < 5 && x != 1
    {
      TextbookOnlyListed(c, points, x);
    }
    TextbookKeySet(points.Keys);
  }

  /** The set equality behind `TextbookKeys`, apart from the curve. */
  lemma TextbookKeySet(keys: set<int>)
    requires 0 in keys && 2 in keys && 3 in keys && 4 in keys
    requires forall x :: x in keys ==> 0 <= x < 5 && x != 1
    ensures keys == {0, 2, 3, 4}
  {
    forall x | x in keys
      ensures x in {0, 2, 3, 4}
    {
      assert x == 0 || x == 2 || x == 3 || x == 4;
    }
  }

  lemma TextbookListed(c: Curve, points: map<int, seq<int>>, x: int, y: int)
    requires c == Curve(1, 1, 5) && ListsCurve(points, c)
    requires 0 <= x < 5 && 0 <= y < 5 && SquaresModFive[y] == TextbookRhs[x]
    ensures x in points
  {
    TextbookPoint(c, x, y);
  }

  lemma TextbookOnlyListed(c: Curve, points: map<int, seq<int>>, x: int)
    requires c == Curve(1, 1, 5) && ListsCurve(points, c) && x in points
    ensures x != 1
  {
    assert PointEntry(points[x], c, x);
    TextbookPoint(c, x, points[x][0]);
  }

  lemma TextbookRowCount(c: Curve, x: int)
    requires c == Curve(1, 1, 5) && 0 <= x < 5
    ensures RootCount(c, x, 0) == |TextbookRow(x)|
  {
    var v := TextbookRow(x);
    assert forall k :: 0 <= k < |v| ==> 0 <= v[k] < c.p;
    TextbookRowExact(c, x);
    CountListedRoots(c, x, v, 0);
    CountAtLeastAll(v);
  }

  lemma TextbookOrder(c: Curve)
    requires c == Curve(1, 1, 5)
    ensures CurveOrder(c) == 9
  {
    TextbookRowCount(c, 0);
    TextbookRowCount(c, 1);
    TextbookRowCount(c, 2);
    TextbookRowCount(c, 3);
    TextbookRowCount(c, 4);
    AffineCountStep(c, 0);
    AffineCountStep(c, 1);
    AffineCountStep(c, 2);
    AffineCountStep(c, 3);
    AffineCountStep(c, 4);
    assert AffineCount(c, 5) == 0;
  }

  /** Peeling one x coordinate off the affine count. */
  lemma AffineCountStep(c: Curve, x0: nat)
    requires c.p > 0 && x0 < c.p
    ensures AffineCount(c, x0) == RootCount(c, x0, 0) + AffineCount(c, x0 + 1)
  {
  }

  lemma SevenIsPrime()
    ensures IsPrime(7)
  {
    forall d: nat | 2 <= d < 7
      ensures !Divides(d, 7)
    {
    }
  }

  lemma NineIsNotPrime()
    ensures !IsPrime(9)
  {
    assert Divides(3, 9);
  }
}
