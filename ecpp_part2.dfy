/** ECPP/ECPP_Part2.py, class `CurveOrderCounter`: naive point counting, the
    order "estimates" the search relies on (both of which are p + 1), the
    search for a large prime factor of the order, and the two curve searches
    (discriminant-driven, then random) that feed an ECPP step. */
module EcppPart2 {
  import opened Common
  import opened NumberTheory
  import EC = EllipticCurves
  import opened EcppCore
  import EcppUtils

  const TooLargeForNaive := "naive counting is only for small p (< 10000)"

  // ---------------------------------------------------------------------
  // count_points_naive
  // ---------------------------------------------------------------------

  /** Euler's criterion on the right-hand side at x:
      (x^3 + a x + b mod p)^((p - 1) / 2) mod p. */
  function EulerValue(a: int, b: int, p: int, x: int): int
    requires p > 0
  {
    ModuloPower(Modulo(ModuloPower(x, 3, p) + a * x + b, p), (p - 1) / 2, p)
  }

  /** What abscissa x adds to the count: one point when the criterion
      vanishes (y == 0), two when it is 1, none otherwise. */
  function PointsAt(a: int, b: int, p: int, x: int): nat
    requires p > 0
  {
    var legendre := EulerValue(a, b, p, x);
    if legendre == 0 then 1 else if legendre == 1 then 2 else 0
  }

  /** The point at infinity plus what the abscissae 0 .. n-1 add. */
  function NaiveCountUpTo(a: int, b: int, p: int, n: nat): int
    requires p > 0
    decreases n
  {
    if n == 0 then 1 else NaiveCountUpTo(a, b, p, n - 1) + PointsAt(a, b, p, n - 1)
  }

  /** The count over every abscissa in range(p) (empty for p <= 0). */
  function NaiveCount(a: int, b: int, p: int): int {
    if p <= 0 then 1 else NaiveCountUpTo(a, b, p, p)
  }

  /** `count_points_naive(a, b, p)`: refuses p > 10000, otherwise sums the
      per-abscissa contributions onto 1 for the point at infinity. */
  method CountPointsNaive(a: int, b: int, p: int) returns (r: Result<int>)
    ensures p > 10000 ==> r == Err(TooLargeForNaive)
    ensures p <= 10000 ==> r == Ok(NaiveCount(a, b, p))
  {
    if p > 10000 {
      return Err(TooLargeForNaive);
    }
    var count := 1;
    var x := 0;
    while x < p
      invariant 0 <= x && (p > 0 ==> x <= p)
      invariant p > 0 ==> count == NaiveCountUpTo(a, b, p, x)
      invariant p <= 0 ==> count == 1
    {
      var ySquared := Modulo(ModuloPower(x, 3, p) + a * x + b, p);
      var legendre := ModuloPower(ySquared, (p - 1) / 2, p);
      assert legendre == EulerValue(a, b, p, x);
      ghost var before := count;
      if legendre == 0 {
        count := count + 1;
      } else if legendre == 1 {
        count := count + 2;
      }
      assert count == before + PointsAt(a, b, p, x);
      assert NaiveCountUpTo(a, b, p, x + 1) == NaiveCountUpTo(a, b, p, x) + PointsAt(a, b, p, x);
      x := x + 1;
    }
    return Ok(count);
  }

  /** The count lies between 1 (infinity alone) and 2p + 1. */
  lemma NaiveCountBounds(a: int, b: int, p: int)
    requires p > 0
    ensures 1 <= NaiveCount(a, b, p) <= 2 * p + 1
  {
    NaiveCountUpToBounds(a, b, p, p);
  }

  lemma {:induction false} NaiveCountUpToBounds(a: int, b: int, p: int, n: nat)
    requires p > 0
    ensures 1 <= NaiveCountUpTo(a, b, p, n) <= 2 * n + 1
    decreases n
  {
    if n > 0 {
      NaiveCountUpToBounds(a, b, p, n - 1);
    }
  }

  lemma {:induction false} PowZero(e: nat)
    requires e >= 1
    ensures Pow(0, e) == 0
  {
  }

  /** An abscissa where x^3 + a x + b vanishes mod p contributes exactly the
      one point (x, 0) once p >= 3. */
  lemma VanishingRhsCountsOnce(a: int, b: int, p: int, x: int)
    requires p >= 3
    requires (x * x * x + a * x + b) % p == 0
    ensures PointsAt(a, b, p, x) == 1
  {
    EC.CurveRhsResidue(EC.Curve(a, b, p), x);
    var residue := Modulo(ModuloPower(x, 3, p) + a * x + b, p);
    assert residue == 0;
    var e := (p - 1) / 2;
    PowZero(e);
    assert EulerValue(a, b, p, x) == ModuloPower(residue, e, p) == Pow(0, e) % p == 0;
  }

  /** For p == 2 the exponent (p - 1) / 2 is 0, so every abscissa counts
      two points and the count is 5 whatever the curve. */
  lemma NaiveCountModTwo(a: int, b: int)
    ensures NaiveCount(a, b, 2) == 5
  {
    assert PointsAt(a, b, 2, 0) == 2;
    assert PointsAt(a, b, 2, 1) == 2;
    assert NaiveCountUpTo(a, b, 2, 1) == 3;
  }

  // ---------------------------------------------------------------------
  // schoof_algorithm_simplified / _estimate_order_by_sampling
  // ---------------------------------------------------------------------

  /** `_estimate_order_by_sampling(a, b, p)`: None for a singular curve;
      otherwise it samples up to 20 points in at most 200 tries and then,
      whatever it found, answers p + 1. */
  method EstimateOrderBySampling(a: int, b: int, p: int) returns (r: Option<int>)
    requires p > 0
    ensures r.None? <==> EC.IsSingular(a, b, p)
    ensures r.Some? ==> r.value == p + 1
  {
    var curve := EC.NewCurve(a, b, p);
    if curve.Err? {
      return None;
    }
    var numSamples := 20;
    var points: seq<EC.Point> := [];
    var attempts := 0;
    while |points| < numSamples && attempts < numSamples * 10
      invariant forall P :: P in points ==> EC.IsOnCurve(curve.value, P)
      decreases numSamples * 10 - attempts
    {
      var point, _ := EC.GeneratePoint(curve.value);
      if point.Ok? {
        points := points + [point.value];
      }
      attempts := attempts + 1;
    }
    if |points| < 5 {
      return Some(p + 1);
    }
    return Some(p + 1);
  }

  /** `schoof_algorithm_simplified(a, b, p)`: the Hasse bound it computes is
      unused; the answer is the sampling estimate. */
  method SchoofAlgorithmSimplified(a: int, b: int, p: int) returns (r: Option<int>)
    requires p > 0
    ensures r.None? <==> EC.IsSingular(a, b, p)
    ensures r.Some? ==> r.value == p + 1
  {
    r := EstimateOrderBySampling(a, b, p);
  }

  // ---------------------------------------------------------------------
  // _compute_order_from_cm
  // ---------------------------------------------------------------------

  /** `_compute_order_from_cm(D, p)`: every branch, for D == -3, D == -4
      and the general case alike, answers the placeholder p + 1; it is not
      the Cornacchia-derived order of `compute_curve_order_cm`. */
  function ComputeOrderFromCm(D: int, p: int): (order: int)
    ensures order == p + 1
  {
    if D == -3 && p % 3 == 1 then p + 1
    else if D == -3 && p % 3 == 2 then p + 1
    else if D == -4 && p % 4 == 1 then p + 1
    else if D == -4 && p % 4 == 3 then p + 1
    else p + 1
  }

  // ---------------------------------------------------------------------
  // _find_large_prime_factor
  // ---------------------------------------------------------------------

  /** Every entry of a prime table is at least 2. */
  predicate AtLeastTwo(ps: seq<nat>) {
    forall j :: 0 <= j < |ps| ==> ps[j] >= 2
  }

  lemma PrimeTableAtLeastTwo(sp: seq<nat>)
    requires IsPrimeTable(sp)
    ensures AtLeastTwo(sp) && AtLeastTwo(sp[..Min(|sp|, 100)])
  {
  }

  /** m with every factor p divided out. */
  function StripCopies(m: int, p: int): (r: int)
    requires m > 0 && p >= 2
    ensures r > 0 && r % p != 0 && r <= m
    decreases m
  {
    if m % p == 0 then
      DivideExactly(m, p, m / p);
      StripCopies(m / p, p)
    else m
  }

  /** The prime loop of `_find_large_prime_factor` from prime i on: each
      prime divided out in turn, None as soon as what is left is below
      min_size. */
  function StripFrom(m: int, ps: seq<nat>, i: nat, minSize: int): (r: Option<int>)
    requires m > 0 && i <= |ps| && AtLeastTwo(ps)
    ensures r.Some? ==> 0 < r.value <= m && (i < |ps| ==> r.value >= minSize)
    decreases |ps| - i
  {
    if i == |ps| then Some(m)
    else
      var left := StripCopies(m, ps[i]);
      if left < minSize then None
      else StripFrom(left, ps, i + 1, minSize)
  }

  /** What `_find_large_prime_factor(n, min_size)` answers. */
  function LargePrimeFactor(n: int, minSize: int, sp: seq<nat>, primeCheck: int -> bool): Option<int>
    requires n > 0 && AtLeastTwo(sp[..Min(|sp|, 100)])
  {
    if primeCheck(n) then (if n >= minSize then Some(n) else None)
    else
      match StripFrom(n, sp[..Min(|sp|, 100)], 0, minSize)
      case None => None
      case Some(m) => if m >= minSize && primeCheck(m) then Some(m) else None
  }

  /** `_find_large_prime_factor(n, min_size)`: n itself when `prime_check`
      accepts it; otherwise what is left after dividing out the first 100
      table primes, if that is large enough and accepted. The primality test
      `prime_check` is the parameter `primeCheck`. */
  method FindLargePrimeFactor(n: int, minSize: int, sp: seq<nat>, primeCheck: int -> bool)
      returns (r: Option<int>)
    requires n > 0 && IsPrimeTable(sp)
    ensures r == LargePrimeFactor(n, minSize, sp, primeCheck)
    ensures primeCheck(n) ==> r == (if n >= minSize then Some(n) else None)
    ensures r.Some? ==> r.value > 0 && n % r.value == 0 && r.value >= minSize && primeCheck(r.value)
    ensures r.Some? && !primeCheck(n) ==>
              forall i :: 0 <= i < Min(|sp|, 100) ==> r.value % sp[i] != 0
  {
    if primeCheck(n) {
      return if n >= minSize then Some(n) else None;
    }
    var ps := sp[..Min(|sp|, 100)];
    PrimeTableAtLeastTwo(sp);
    var rest := StripTable(n, ps, minSize);
    if rest.Some? && rest.value >= minSize && primeCheck(rest.value) {
      return rest;
    }
    return None;
  }

  /** The loop over the first 100 table primes in `_find_large_prime_factor`:
      each prime divided out completely, giving up once what is left is
      below min_size. */
  method StripTable(n: int, ps: seq<nat>, minSize: int) returns (r: Option<int>)
    requires n > 0 && AtLeastTwo(ps) && forall j :: 0 <= j < |ps| ==> IsPrime(ps[j])
    ensures r == StripFrom(n, ps, 0, minSize)
    ensures r.Some? ==> n % r.value == 0 && forall j :: 0 <= j < |ps| ==> r.value % ps[j] != 0
  {
    var remaining := n;
    ghost var cofactor := 1;
    for i := 0 to |ps|
      invariant remaining > 0 && n == remaining * cofactor
      invariant forall j :: 0 <= j < i ==> remaining % ps[j] != 0
      invariant StripFrom(remaining, ps, i, minSize) == StripFrom(n, ps, 0, minSize)
    {
      var p := ps[i];
      ghost var start := remaining;
      while remaining % p == 0
        invariant remaining > 0 && n == remaining * cofactor
        invariant forall j :: 0 <= j < i ==> remaining % ps[j] != 0
        invariant StripCopies(remaining, p) == StripCopies(start, p)
        decreases remaining
      {
        ghost var before, cof := remaining, cofactor;
        remaining := remaining / p;
        DivideExactly(before, p, remaining);
        assert StripCopies(before, p) == StripCopies(remaining, p);
        cofactor := cofactor * p;
        ShiftFactor(remaining, p, cof);
        forall j | 0 <= j < i
          ensures remaining % ps[j] != 0
        {
          EcppUtils.NonDivisorOfQuotient(ps[j], p, before, remaining);
        }
      }
      assert StripCopies(remaining, p) == remaining;
      if remaining < minSize {
        return None;
      }
    }
    ModMultiple(remaining, cofactor);
    return Some(remaining);
  }

  lemma ShiftFactor(r: int, p: int, c: int)
    ensures (r * p) * c == r * (c * p)
  {
  }

  /** Dividing a positive multiple of p >= 2 by p gives a smaller positive
      number, the quotient times p being the original. */
  lemma DivideExactly(before: int, p: int, after: int)
    requires before > 0 && p >= 2 && before % p == 0 && after == before / p
    ensures 0 < after < before && before == after * p
  {
    assert before == p * after;
    MulAtLeast(after, p);
  }

  // ---------------------------------------------------------------------
  // _try_discriminant / find_curve_with_good_order / _random_search_curve
  // ---------------------------------------------------------------------

  /** A tuple (a, b, order, q) the searches may return: coefficients reduced
      mod p, the placeholder order p + 1, and a factor q of it beyond min_q
      that `prime_check` accepts. */
  predicate IsGoodCurve(p: int, minQ: int, primeCheck: int -> bool, t: (int, int, int, int)) {
    0 <= t.0 < p && 0 <= t.1 < p && t.2 == p + 1 &&
    t.3 > minQ && t.3 > 0 && t.2 % t.3 == 0 && primeCheck(t.3)
  }

  /** The factor search on the placeholder order p + 1 finds a q beyond
      min_q. Every curve the searches look at has that order, so this one
      test decides for all of them. */
  predicate GoodFactor(p: int, minQ: int, sp: seq<nat>, primeCheck: int -> bool)
    requires p >= 0 && AtLeastTwo(sp[..Min(|sp|, 100)])
  {
    var q := LargePrimeFactor(p + 1, minQ, sp, primeCheck);
    q.Some? && q.value > minQ
  }

  /** For D == -3 and D == -4 the curve search of `find_curve_from_discriminant`
      succeeds: some 1 <= c < min(p, 1000) has 4 c^3 != 0 (mod p). */
  predicate SmallCurveExists(p: int)
    requires p > 0
  {
    exists c :: 1 <= c < Min(p, 1000) && FourCubeNonZero(c, p)
  }

  /** `_try_discriminant(D, p, min_q)`: Kronecker filter, curve from the
      discriminant, placeholder order, large prime factor. The `order is None`
      fallback of the source is dead, since the order is always p + 1. The
      ghost `curveFound` says whether the curve search succeeded; for D other
      than -3 and -4 that search draws random pairs. */
  method TryDiscriminant(D: int, p: int, minQ: int, sp: seq<nat>, primeCheck: int -> bool)
      returns (r: Option<(int, int, int, int)>, ghost curveFound: bool)
    requires p > 0 && IsPrimeTable(sp)
    ensures r.Some? <==> KroneckerSpec(D, p) == 1 && curveFound && GoodFactor(p, minQ, sp, primeCheck)
    ensures (D == -3 || D == -4) && KroneckerSpec(D, p) == 1 ==> (curveFound <==> SmallCurveExists(p))
    ensures r.Some? ==> IsGoodCurve(p, minQ, primeCheck, r.value)
    ensures r.Some? ==> Some(r.value.3) == LargePrimeFactor(p + 1, minQ, sp, primeCheck)
  {
    PrimeTableAtLeastTwo(sp);
    curveFound := false;
    var k := Kronecker(D, p);
    if k != 1 {
      return None, curveFound;
    }
    var curveParams := FindCurveFromDiscriminant(D, p);
    curveFound := curveParams.Some?;
    if curveParams.None? {
      return None, curveFound;
    }
    var (a, b) := curveParams.value;
    var order := ComputeOrderFromCm(D, p);
    var q := FindLargePrimeFactor(order, minQ, sp, primeCheck);
    if q.Some? && q.value > minQ {
      return Some((a, b, order, q.value)), curveFound;
    }
    return None, curveFound;
  }

  /** min_q == int(4 * p ** 0.5), the integer part of sqrt(16 p). */
  function MinQ(p: nat): (q: nat)
    ensures q * q <= 16 * p < (q + 1) * (q + 1)
  {
    Isqrt(16 * p)
  }

  /** A discriminant the list phase may pass over: its Kronecker symbol is
      not 1, the factor search on p + 1 fails, or its curve search came up
      empty. For -3 and -4 the last means no small c works; for the other
      discriminants the curve comes from up to 100 random pairs, which may
      all be singular. */
  predicate MayBeRejected(D: int, p: int, minQ: int, sp: seq<nat>, primeCheck: int -> bool)
    requires p > 0 && AtLeastTwo(sp[..Min(|sp|, 100)])
  {
    KroneckerSpec(D, p) != 1 || !GoodFactor(p, minQ, sp, primeCheck) ||
    ((D == -3 || D == -4) ==> !SmallCurveExists(p))
  }

  /** `find_curve_with_good_order(p)`: the small discriminants in table
      order, then the random fallback. The ghost `index` is the position of
      the discriminant that succeeded, or |SMALL_DISCRIMINANTS| when the
      random search ran; `draws` are the pairs that search drew. The unused
      `target_factor_size` is not modelled. */
  method FindCurveWithGoodOrder(p: int, sp: seq<nat>, primeCheck: int -> bool)
      returns (r: Option<(int, int, int, int)>, ghost index: nat, ghost draws: seq<(int, int)>)
    requires p > 0 && IsPrimeTable(sp)
    ensures r.Some? ==> IsGoodCurve(p, MinQ(p), primeCheck, r.value)
    ensures r.Some? ==> Some(r.value.3) == LargePrimeFactor(p + 1, MinQ(p), sp, primeCheck)
    ensures !GoodFactor(p, MinQ(p), sp, primeCheck) ==> r.None?
    ensures index <= |SmallDiscriminants|
    ensures index < |SmallDiscriminants| ==> r.Some? && KroneckerSpec(SmallDiscriminants[index], p) == 1
    ensures forall j :: 0 <= j < index ==> MayBeRejected(SmallDiscriminants[j], p, MinQ(p), sp, primeCheck)
    ensures index == |SmallDiscriminants| && r.Some? ==> !EC.IsSingular(r.value.0, r.value.1, p)
    ensures r.None? ==> |draws| == 100
    ensures r.None? && GoodFactor(p, MinQ(p), sp, primeCheck) ==>
              forall i :: 0 <= i < |draws| ==>
                0 <= draws[i].0 < p && 0 <= draws[i].1 < p && EC.IsSingular(draws[i].0, draws[i].1, p)
  {
    draws := [];
    r, index := TryInOrder(SmallDiscriminants, p, MinQ(p), sp, primeCheck);
    if r.None? {
      r, draws := RandomSearchCurve(p, MinQ(p), sp, primeCheck);
    }
  }

  /** The loop over the discriminants: the first one `_try_discriminant`
      accepts, at position `index`, or None with index == |ds|. */
  method TryInOrder(ds: seq<int>, p: int, minQ: int, sp: seq<nat>, primeCheck: int -> bool)
      returns (r: Option<(int, int, int, int)>, ghost index: nat)
    requires p > 0 && IsPrimeTable(sp)
    ensures index <= |ds| && (index == |ds| <==> r.None?)
    ensures r.Some? ==> IsGoodCurve(p, minQ, primeCheck, r.value) && KroneckerSpec(ds[index], p) == 1
    ensures r.Some? ==> Some(r.value.3) == LargePrimeFactor(p + 1, minQ, sp, primeCheck)
    ensures r.Some? ==> GoodFactor(p, minQ, sp, primeCheck)
    ensures forall j :: 0 <= j < index ==> MayBeRejected(ds[j], p, minQ, sp, primeCheck)
  {
    PrimeTableAtLeastTwo(sp);
    for i := 0 to |ds|
      invariant forall j :: 0 <= j < i ==> MayBeRejected(ds[j], p, minQ, sp, primeCheck)
    {
      var result, found := TryDiscriminant(ds[i], p, minQ, sp, primeCheck);
      if result.Some? {
        return result, i;
      }
    }
    return None, |ds|;
  }

  /** `_random_search_curve(p, min_q)`: at most 100 random pairs; the
      singular ones are skipped, the others are kept when the estimated order
      has a large prime factor. The pairs drawn are recorded in the ghost
      `draws`. Every estimated order is p + 1, so the factor test gives the
      same answer for all of them: when it succeeds, None means all 100
      pairs were singular. */
  method RandomSearchCurve(p: int, minQ: int, sp: seq<nat>, primeCheck: int -> bool)
      returns (r: Option<(int, int, int, int)>, ghost draws: seq<(int, int)>)
    requires p > 0 && IsPrimeTable(sp)
    ensures r.Some? ==> IsGoodCurve(p, minQ, primeCheck, r.value) && !EC.IsSingular(r.value.0, r.value.1, p)
    ensures r.Some? ==> Some(r.value.3) == LargePrimeFactor(p + 1, minQ, sp, primeCheck)
    ensures r.None? ==> |draws| == 100 && forall i :: 0 <= i < |draws| ==> 0 <= draws[i].0 < p && 0 <= draws[i].1 < p
    ensures r.None? && GoodFactor(p, minQ, sp, primeCheck) ==>
              forall i :: 0 <= i < |draws| ==> EC.IsSingular(draws[i].0, draws[i].1, p)
  {
    draws := [];
    var maxAttempts := 100;
    for attempt := 0 to maxAttempts
      invariant |draws| == attempt
      invariant forall i :: 0 <= i < |draws| ==> 0 <= draws[i].0 < p && 0 <= draws[i].1 < p
      invariant GoodFactor(p, minQ, sp, primeCheck) ==>
                  forall i :: 0 <= i < |draws| ==> EC.IsSingular(draws[i].0, draws[i].1, p)
    {
      var a :| 0 <= a < p;
      var b :| 0 <= b < p;
      draws := draws + [(a, b)];
      var found := TryRandomPair(p, minQ, sp, primeCheck, a, b);
      if found.Some? {
        return found, draws;
      }
    }
    return None, draws;
  }

  /** One attempt of `_random_search_curve` on the drawn pair (a, b): skipped
      when singular, kept when p + 1 has a large prime factor. */
  method TryRandomPair(p: int, minQ: int, sp: seq<nat>, primeCheck: int -> bool, a: int, b: int)
      returns (r: Option<(int, int, int, int)>)
    requires p > 0 && IsPrimeTable(sp) && 0 <= a < p && 0 <= b < p
    ensures r.Some? ==> r.value.0 == a && r.value.1 == b
    ensures r.Some? ==> IsGoodCurve(p, minQ, primeCheck, r.value) && !EC.IsSingular(a, b, p)
    ensures r.Some? ==> Some(r.value.3) == LargePrimeFactor(p + 1, minQ, sp, primeCheck)
    ensures r.None? <==> EC.IsSingular(a, b, p) || !GoodFactor(p, minQ, sp, primeCheck)
  {
    EC.DiscriminantMod(a, b, p);
    var disc := Modulo(4 * ModuloPower(a, 3, p) + 27 * ModuloPower(b, 2, p), p);
    if disc == 0 {
      return None;
    }
    var order := SchoofAlgorithmSimplified(a, b, p);
    var q := FindLargePrimeFactor(order.value, minQ, sp, primeCheck);
    if q.Some? && q.value > minQ {
      return Some((a, b, order.value, q.value));
    }
    return None;
  }

}
