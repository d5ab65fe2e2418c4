/** ECPP/ECPP.py, class `ECPP`: the recursive Goldwasser-Kilian prover that
    builds a certificate chain in its `certificates` list, and the
    independent verifier of such a chain. */
module Ecpp {
  import opened Common
  import opened NumberTheory
  import EC = EllipticCurves
  import opened EcppTypes
  import EcppCore
  import EcppPart2

  /** `SMALL_PRIME_THRESHOLD == 10 ** 6`: below it the prover stops recursing. */
  const SmallPrimeThreshold := 1000000

  /** What the model needs of `prime_check`: like the Miller-Rabin test
      behind it, it rejects every even number other than 2. */
  ghost predicate RejectsEven(primeCheck: int -> bool) {
    forall k :: k % 2 == 0 && k != 2 ==> !primeCheck(k)
  }

  // ---------------------------------------------------------------------
  // _verify_gk_conditions / _verify_single_certificate
  // ---------------------------------------------------------------------

  /** `_verify_gk_conditions(a, b, m, q, point, n)`: m P == O, (m // q) P is
      an affine point whose y is coprime to n, and q > 4 * int(sqrt(n)).
      Every exception inside answers False: a singular curve, a failed
      inversion, n == 0 (modulo by zero), a negative n (complex root),
      q == 0 (division by zero). */
  function VerifyGkConditions(a: int, b: int, m: int, q: int, point: EC.Point, n: int): (r: bool)
  {
    if n <= 0 || EC.IsSingular(a, b, n) then false
    else
      var c := EC.Curve(a, b, n);
      if EC.ScalarMult(c, m, point) != Ok(EC.Inf) || q == 0 then false
      else
        var hP := EC.ScalarMult(c, FloorDiv(m, q), point);
        if hP.Err? || hP.value.Inf? then false
        else Gcd(hP.value.y, n) == 1 && q > 4 * Isqrt(n)
  }

  /** The four Goldwasser-Kilian conditions, stated as one conjunction. */
  ghost predicate IsGkWitness(a: int, b: int, m: int, q: int, point: EC.Point, n: int) {
    n > 0 && !EC.IsSingular(a, b, n) && q != 0 &&
    EC.ScalarMult(EC.Curve(a, b, n), m, point) == Ok(EC.Inf) &&
    (exists x, y :: EC.ScalarMult(EC.Curve(a, b, n), FloorDiv(m, q), point) == Ok(EC.Aff(x, y)) &&
                    Gcd(y, n) == 1) &&
    q > 4 * Isqrt(n)
  }

  /** `_verify_gk_conditions` accepts exactly the witnesses of the four conditions. */
  lemma GkConditionsMeaning(a: int, b: int, m: int, q: int, point: EC.Point, n: int)
    ensures VerifyGkConditions(a, b, m, q, point, n) <==> IsGkWitness(a, b, m, q, point, n)
  {
    if VerifyGkConditions(a, b, m, q, point, n) {
      var hP := EC.ScalarMult(EC.Curve(a, b, n), FloorDiv(m, q), point);
      assert hP == Ok(EC.Aff(hP.value.x, hP.value.y));
    }
  }

  /** `_verify_single_certificate(cert)`: the certificate's curve and the
      point (point_x, point_y) through the Goldwasser-Kilian check. */
  function VerifySingleCertificate(cert: Certificate): bool {
    VerifyGkConditions(cert.a, cert.b, cert.m, cert.q, EC.Aff(cert.pointX, cert.pointY), cert.n)
  }

  // ---------------------------------------------------------------------
  // verify_certificate_chain
  // ---------------------------------------------------------------------

  /** Every certificate passes, consecutive ones are linked by q == next n,
      and the first is about n. */
  predicate IsLinkedChain(n: int, certs: seq<Certificate>) {
    certs != [] ==>
      certs[0].n == n &&
      (forall i :: 0 <= i < |certs| ==> VerifySingleCertificate(certs[i])) &&
      LinkedFrom(certs, 0)
  }

  /** The number the chain leaves to the base-case test: n for an empty
      chain, the last q otherwise. */
  function ChainEnd(n: int, certs: seq<Certificate>): int {
    if certs == [] then n else certs[|certs| - 1].q
  }

  /** What `verify_certificate_chain(n, certificates)` accepts. */
  predicate ChainAccepted(n: int, certs: seq<Certificate>, primeCheck: int -> bool) {
    if certs == [] then primeCheck(n)
    else IsLinkedChain(n, certs) && ChainEnd(n, certs) < SmallPrimeThreshold && primeCheck(ChainEnd(n, certs))
  }

  /** A non-empty linked chain whose end is small and passes the base test
      is accepted; the empty chain is accepted exactly when n passes. */
  lemma LinkedChainAccepted(n: int, certs: seq<Certificate>, primeCheck: int -> bool)
    requires IsLinkedChain(n, certs) && primeCheck(ChainEnd(n, certs))
    requires certs != [] ==> ChainEnd(n, certs) < SmallPrimeThreshold
    ensures ChainAccepted(n, certs, primeCheck)
  {
  }

  /** Prepending a passing certificate for n whose q starts a linked chain
      gives a linked chain for n ending where the old one did. */
  lemma LinkedChainCons(n: int, cert: Certificate, rest: seq<Certificate>)
    requires cert.n == n && VerifySingleCertificate(cert) && IsLinkedChain(cert.q, rest)
    ensures IsLinkedChain(n, [cert] + rest)
    ensures ChainEnd(n, [cert] + rest) == ChainEnd(cert.q, rest)
  {
    var certs := [cert] + rest;
    forall i | 0 < i < |certs|
      ensures certs[i] == rest[i - 1]
    {
    }
    assert certs[0] == cert;
  }

  // ---------------------------------------------------------------------
  // The prover
  // ---------------------------------------------------------------------

  /** Which exit `_ecpp_recursive` took for its own n: the base test, the
      fallback after a failed curve search, a failed witness search, a
      failed re-check, or a certificate appended and the recursion on q. */
  datatype Outcome = BaseCase | NoCurve | NoWitness | GkFailed | Recursed

  /** Four times the root of n is at most the root of 16 n, so a q above
      MinQ(n) is above 4 * int(sqrt(n)). */
  lemma FourRootBelowRootOfSixteen(n: nat)
    ensures 4 * Isqrt(n) <= EcppPart2.MinQ(n)
  {
    var s := Isqrt(n);
    ScaledSquare(n, s);
    RootAtLeast(16 * n, 4 * s);
  }

  lemma ScaledSquare(n: nat, s: nat)
    requires s * s <= n
    ensures (4 * s) * (4 * s) <= 16 * n
  {
    assert (4 * s) * (4 * s) == 16 * (s * s);
  }

  /** Any k with k^2 <= m is at most int(sqrt(m)). */
  lemma RootAtLeast(m: nat, k: nat)
    requires k * k <= m
    ensures k <= Isqrt(m)
  {
    var t := Isqrt(m);
    if t < k {
      MulMono(t + 1, k);
      assert false;
    }
  }

  /** An odd q dividing n + 1 for odd n >= 3 is at most (n + 1) / 2 < n. */
  lemma OddDivisorOfSuccessor(n: int, q: int)
    requires n >= 3 && n % 2 == 1 && q > 0 && q % 2 == 1 && (n + 1) % q == 0
    ensures q < n
  {
    var k := (n + 1) / q;
    CofactorAtLeastTwo(n + 1, q, k);
    MulAtLeast(q, k - 1);
  }

  /** The cofactor of an odd divisor of an even number is at least 2. */
  lemma CofactorAtLeastTwo(e: int, q: int, k: int)
    requires e > 0 && e % 2 == 0 && q > 0 && q % 2 == 1 && e % q == 0 && k == e / q
    ensures e == q * k && k >= 2
  {
    assert e == q * k + e % q;
    assert k <= 0 ==> q * k <= 0;
    if k <= 0 {
      assert false;
    }
    if k == 1 {
      assert false;
    }
  }

  /** The q of a good curve for an odd n above the threshold is an odd
      number in (4, n): above 4 * int(sqrt(n)) >= 4, odd because
      `prime_check` accepts it, and below n because it divides n + 1. */
  lemma NextCandidateSmaller(n: int, t: (int, int, int, int), primeCheck: int -> bool)
    requires n >= SmallPrimeThreshold && n % 2 == 1 && RejectsEven(primeCheck)
    requires EcppPart2.IsGoodCurve(n, EcppPart2.MinQ(n), primeCheck, t)
    ensures 4 < t.3 < n && t.3 % 2 == 1
  {
    FourRootBelowRootOfSixteen(n);
    assert Isqrt(n) >= 1;
    assert t.3 != 2 && primeCheck(t.3);
    OddDivisorOfSuccessor(n, t.3);
  }

  /** After appending a certificate for n to `before` and letting the
      recursion extend the list with a linked chain for its q, the part
      from `before` on is a linked chain for n with the same end. */
  lemma ChainAfterAppend(n: int, before: seq<Certificate>, cert: Certificate, now: seq<Certificate>)
    requires cert.n == n && VerifySingleCertificate(cert)
    requires |now| >= |before| + 1 && now[..|before| + 1] == before + [cert]
    requires IsLinkedChain(cert.q, now[|before| + 1..])
    ensures now[..|before|] == before
    ensures IsLinkedChain(n, now[|before|..])
    ensures ChainEnd(n, now[|before|..]) == ChainEnd(cert.q, now[|before| + 1..])
  {
    var rest := now[|before| + 1..];
    assert now[|before|..] == [cert] + rest;
    assert now[..|before|] == (now[..|before| + 1])[..|before|];
    LinkedChainCons(n, cert, rest);
  }

  /** `ECPP`: the prover object. The small-prime table and `prime_check`,
      which the source imports, are fixed at construction. */
  class Prover {
    var certificates: seq<Certificate>
    const smallPrimes: seq<nat>
    const primeCheck: int -> bool

    ghost predicate Valid() {
      IsPrimeTable(smallPrimes) && RejectsEven(primeCheck)
    }

    /** `__init__`: an empty certificate list. */
    constructor (smallPrimes: seq<nat>, primeCheck: int -> bool)
      ensures this.smallPrimes == smallPrimes && this.primeCheck == primeCheck
      ensures certificates == []
    {
      this.smallPrimes := smallPrimes;
      this.primeCheck := primeCheck;
      certificates := [];
    }

    /** `SMALL_PRIMES[:1000]`. */
    function Table(): (t: seq<nat>)
      ensures |t| <= 1000 && |t| <= |smallPrimes| && t == smallPrimes[..|t|]
    {
      smallPrimes[..EcppCore.Min(|smallPrimes|, 1000)]
    }

    /** `prove_prime(n)`: resets the list, settles small, even and table
        cases directly, and otherwise runs the recursion, returning the
        list it built. */
    method ProvePrime(n: int) returns (isPrime: bool, certs: seq<Certificate>)
      requires Valid()
      modifies this
      ensures certs == certificates
      ensures n < 2 ==> !isPrime && certs == []
      ensures n == 2 ==> isPrime && certs == []
      ensures n > 2 && n % 2 == 0 ==> !isPrime && certs == []
      ensures n > 2 && n % 2 == 1 && n in Table() ==> isPrime && certs == []
      ensures n > 2 && n % 2 == 1 && n !in Table() &&
              (exists i :: 0 <= i < |Table()| && n % Table()[i] == 0) ==>
                !isPrime && certs == []
      ensures n > 2 && n % 2 == 1 && n < SmallPrimeThreshold &&
              (forall i :: 0 <= i < |Table()| ==> n % Table()[i] != 0) ==>
                isPrime == primeCheck(n) && certs == []
      ensures IsLinkedChain(n, certs)
      ensures isPrime ==> primeCheck(ChainEnd(n, certs)) || (certs == [] && (n == 2 || n in Table()))
      ensures isPrime && certs != [] && ChainEnd(n, certs) < SmallPrimeThreshold ==>
                ChainAccepted(n, certs, primeCheck)
    {
      certificates := [];
      if n < 2 {
        return false, [];
      }
      if n == 2 {
        return true, [];
      }
      if n % 2 == 0 {
        return false, [];
      }
      var scan := ScanTable(n);
      if scan.Some? {
        return scan.value, [];
      }
      if n < SmallPrimeThreshold {
        return primeCheck(n), [];
      }
      ghost var outcome;
      isPrime, outcome := EcppRecursive(n);
      certs := certificates;
      if isPrime && certs != [] && ChainEnd(n, certs) < SmallPrimeThreshold {
        LinkedChainAccepted(n, certs, primeCheck);
      }
    }

    /** The loop over `SMALL_PRIMES[:1000]` in `prove_prime`: Some(True) when
        n is a table prime, Some(False) at the first table prime dividing n,
        None when the loop runs out. */
    method ScanTable(n: int) returns (r: Option<bool>)
      requires Valid()
      ensures r == Some(true) <==> n in Table()
      ensures r == Some(false) <==> n !in Table() && exists i :: 0 <= i < |Table()| && n % Table()[i] == 0
      ensures r.None? <==> forall i :: 0 <= i < |Table()| ==> n % Table()[i] != 0
    {
      var table := Table();
      for i := 0 to |table|
        invariant forall j :: 0 <= j < i ==> table[j] != n && n % table[j] != 0
      {
        var p := table[i];
        if n == p {
          return Some(true);
        }
        if n % p == 0 {
          NoLaterTableEntry(n, i);
          return Some(false);
        }
      }
      return None;
    }

    /** A table prime other than n that divides n rules out every later
        entry being n, since those are primes above it. */
    lemma NoLaterTableEntry(n: int, i: nat)
      requires Valid() && i < |Table()| && Table()[i] != n && n % Table()[i] == 0
      ensures forall k :: i <= k < |Table()| ==> Table()[k] != n
    {
      var t := Table();
      forall k | i < k < |t|
        ensures t[k] != n
      {
        assert IsPrime(t[k]) && 2 <= t[i] < t[k];
        assert !Divides(t[i], t[k]);
      }
    }

    /** `_ecpp_recursive(n)`: the base test below the threshold; otherwise a
        curve, a witness, the Goldwasser-Kilian re-check, a certificate
        appended, and the same for q. A failed curve search falls back to
        `prime_check(n)`; a failed witness search or re-check answers
        False. q < n holds because q is an odd divisor of n + 1, so the
        recursion ends. */
    method EcppRecursive(n: int) returns (result: bool, ghost outcome: Outcome)
      requires Valid() && n > 0 && n % 2 == 1
      modifies this
      ensures |certificates| >= |old(certificates)|
      ensures certificates[..|old(certificates)|] == old(certificates)
      ensures IsLinkedChain(n, certificates[|old(certificates)|..])
      ensures result ==> primeCheck(ChainEnd(n, certificates[|old(certificates)|..]))
      ensures outcome == BaseCase <==> n < SmallPrimeThreshold
      ensures outcome == BaseCase || outcome == NoCurve ==>
                result == primeCheck(n) && certificates == old(certificates)
      ensures outcome == NoWitness || outcome == GkFailed ==>
                !result && certificates == old(certificates)
      ensures outcome == Recursed <==> |certificates| > |old(certificates)|
      ensures n >= SmallPrimeThreshold && n % 4 != 3 ==> outcome == NoCurve || outcome == NoWitness
      decreases n
    {
      if n < SmallPrimeThreshold {
        return primeCheck(n), BaseCase;
      }
      var curveData, _, _ := FindSuitableCurve(n);
      if curveData.None? {
        assert certificates[|old(certificates)|..] == [];
        return primeCheck(n), NoCurve;
      }
      var (a, b, m, q) := curveData.value;
      var point, _ := FindWitnessPoint(a, b, m, q, n);
      if point.None? {
        assert certificates[|old(certificates)|..] == [];
        return false, NoWitness;
      }
      if !VerifyGkConditions(a, b, m, q, point.value, n) {
        assert certificates[|old(certificates)|..] == [];
        return false, GkFailed;
      }
      var cert := Certificate(n, a, b, m, q, point.value.x, point.value.y);
      ghost var before := certificates;
      certificates := certificates + [cert];
      NextCandidateSmaller(n, curveData.value, primeCheck);
      ghost var qOutcome;
      result, qOutcome := EcppRecursive(q);
      ChainAfterAppend(n, before, cert, certificates);
      outcome := Recursed;
    }

    /** `_find_suitable_curve(n)`: the curve search, kept only when its q
        exceeds int(4 * sqrt(n)). */
    method FindSuitableCurve(n: int) returns (r: Option<(int, int, int, int)>, ghost index: nat, ghost draws: seq<(int, int)>)
      requires Valid() && n > 0
      ensures r.Some? ==> EcppPart2.IsGoodCurve(n, EcppPart2.MinQ(n), primeCheck, r.value)
      ensures r.Some? ==> Some(r.value.3) == EcppPart2.LargePrimeFactor(n + 1, EcppPart2.MinQ(n), smallPrimes, primeCheck)
      ensures !EcppPart2.GoodFactor(n, EcppPart2.MinQ(n), smallPrimes, primeCheck) ==> r.None?
      ensures index <= |EcppCore.SmallDiscriminants|
      ensures index < |EcppCore.SmallDiscriminants| ==> r.Some? && EcppCore.KroneckerSpec(EcppCore.SmallDiscriminants[index], n) == 1
      ensures forall j :: 0 <= j < index ==>
                EcppPart2.MayBeRejected(EcppCore.SmallDiscriminants[j], n, EcppPart2.MinQ(n), smallPrimes, primeCheck)
      ensures r.None? ==> |draws| == 100
      ensures r.None? && EcppPart2.GoodFactor(n, EcppPart2.MinQ(n), smallPrimes, primeCheck) ==>
                forall i :: 0 <= i < |draws| ==>
                  0 <= draws[i].0 < n && 0 <= draws[i].1 < n && EC.IsSingular(draws[i].0, draws[i].1, n)
    {
      var minQ := EcppPart2.MinQ(n);
      var result;
      result, index, draws := EcppPart2.FindCurveWithGoodOrder(n, smallPrimes, primeCheck);
      if result.Some? {
        var (a, b, m, q) := result.value;
        if q > minQ {
          return Some((a, b, m, q)), index, draws;
        }
      }
      return None, index, draws;
    }

    /** `verify_certificate_chain(n, certificates)`: every certificate
        through the Goldwasser-Kilian check, the first about n, the links,
        then the last q below the threshold and through `prime_check`. */
    method VerifyCertificateChain(n: int, certs: seq<Certificate>) returns (r: bool)
      ensures r == ChainAccepted(n, certs, primeCheck)
    {
      if certs == [] {
        return primeCheck(n);
      }
      for i := 0 to |certs|
        invariant forall j :: 0 <= j < i ==> VerifySingleCertificate(certs[j])
      {
        if !VerifySingleCertificate(certs[i]) {
          return false;
        }
      }
      if certs[0].n != n {
        return false;
      }
      for i := 0 to |certs| - 1
        invariant forall j :: 0 <= j < i ==> certs[j].q == certs[j + 1].n
      {
        if certs[i].q != certs[i + 1].n {
          return false;
        }
      }
      var lastQ := certs[|certs| - 1].q;
      if lastQ >= SmallPrimeThreshold {
        return false;
      }
      return primeCheck(lastQ);
    }
  }

  // ---------------------------------------------------------------------
  // _find_witness_point
  // ---------------------------------------------------------------------

  /** `_find_witness_point(a, b, m, q, p)`: up to 100 random curve points,
      keeping the first with m P == O and (m // q) P an affine point whose
      y is coprime to p; failing generations and multiplications (raised
      exceptions) move on to the next attempt. The ghost `draws` records
      what each attempt's generation returned: None on a nonsingular curve
      means all 100 attempts ran and no generated point is a candidate. */
  method FindWitnessPoint(a: int, b: int, m: int, q: int, p: int)
    returns (r: Option<EC.Point>, ghost draws: seq<Result<EC.Point>>)
    requires p > 0 && q != 0
    ensures r.Some? ==>
              !EC.IsSingular(a, b, p) && r.value.Aff? && EC.IsOnCurve(EC.Curve(a, b, p), r.value) &&
              IsWitnessCandidate(EC.Curve(a, b, p), m, q, r.value)
    ensures p >= 1000000 && p % 4 != 3 ==> r.None?
    ensures r.None? && !EC.IsSingular(a, b, p) ==> |draws| == 100
    ensures r.None? ==>
              forall i :: 0 <= i < |draws| && draws[i].Ok? ==>
                draws[i].value.Aff? && EC.IsOnCurve(EC.Curve(a, b, p), draws[i].value) &&
                !IsWitnessCandidate(EC.Curve(a, b, p), m, q, draws[i].value)
  {
    draws := [];
    var curve := EC.NewCurve(a, b, p);
    if curve.Err? {
      return None, draws;
    }
    var c := curve.value;
    var h := FloorDiv(m, q);
    for attempt := 0 to 100
      invariant |draws| == attempt
      invariant forall i :: 0 <= i < |draws| && draws[i].Ok? ==>
                  draws[i].value.Aff? && EC.IsOnCurve(c, draws[i].value) &&
                  !IsWitnessCandidate(c, m, q, draws[i].value)
    {
      var P, _ := EC.GeneratePoint(c);
      draws := draws + [P];
      if P.Err? {
        continue;
      }
      var mP := EC.PointMultiply(c, m, P.value);
      if mP != Ok(EC.Inf) {
        continue;
      }
      var hP := EC.PointMultiply(c, h, P.value);
      if hP.Err? || hP.value.Inf? {
        continue;
      }
      if Gcd(hP.value.y, p) != 1 {
        continue;
      }
      return Some(P.value), draws;
    }
    return None, draws;
  }

  /** The first three Goldwasser-Kilian conditions on the curve c. */
  predicate IsWitnessCandidate(c: EC.Curve, m: int, q: int, P: EC.Point)
    requires c.p > 0 && q != 0
  {
    var hP := EC.ScalarMult(c, FloorDiv(m, q), P);
    EC.ScalarMult(c, m, P) == Ok(EC.Inf) && hP.Ok? && hP.value.Aff? && Gcd(hP.value.y, c.p) == 1
  }

  /** The re-check in `_ecpp_recursive` cannot fail: a point the witness
      search returns, with the q of a curve the search found, passes
      `_verify_gk_conditions`. */
  lemma WitnessPassesGk(a: int, b: int, m: int, q: int, P: EC.Point, n: int)
    requires n > 0 && q > EcppPart2.MinQ(n) && !EC.IsSingular(a, b, n)
    requires IsWitnessCandidate(EC.Curve(a, b, n), m, q, P)
    ensures VerifyGkConditions(a, b, m, q, P, n)
  {
    FourRootBelowRootOfSixteen(n);
  }
}
