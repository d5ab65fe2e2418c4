// SubDef/SD_Primitive_Root.py: Pollard's rho, factoring by trial division
// and rho, the primitive-root test, and the sequential search for a
// primitive root. gmpy2's `is_prime` is a parameter the model does not open.

module PrimitiveRoot {
  import opened Common
  import opened NumberTheory
  import PrimeAll

  /** `gmpy2.is_prime` answers false below 2. */
  ghost predicate RejectsBelowTwo(isPrime: int -> bool)
  {
    forall k :: k < 2 ==> !isPrime(k)
  }

  /** The oracle never calls a composite prime. */
  ghost predicate SoundOracle(isPrime: int -> bool)
  {
    forall k :: isPrime(k) ==> IsPrime(k)
  }

  // ---------------------------------------------------------------------
  // pollard_rho
  // ---------------------------------------------------------------------

  /** The iteration map of `pollard_rho`: x^2 + 1 modulo n. */
  function RhoStep(x: int, n: int): (y: int)
    requires n > 0
    ensures 0 <= y < n
  {
    (x * x + 1) % n
  }

  /** `pollard_rho(n, seed, max_steps)`: None for 1, n itself when the oracle
      calls it prime, 2 for even n; otherwise Floyd's cycle search from seed
      gives a divisor d, None when d == n, d when the oracle calls it prime,
      and else a recursive search on d with seed + 1. Any factor returned
      divides n and is 2 or called prime by the oracle. The random constant
      c that the source draws is never used and is left out. */
  method PollardRho(n: int, seed: int, maxSteps: int, isPrime: int -> bool) returns (factor: Option<nat>)
    requires n >= 1 && RejectsBelowTwo(isPrime)
    ensures n == 1 ==> factor == None
    ensures n > 1 && isPrime(n) ==> factor == Some(n)
    ensures n > 1 && !isPrime(n) && n % 2 == 0 ==> factor == Some(2)
    ensures factor.Some? ==> factor.value >= 2 && Divides(factor.value, n)
    ensures factor.Some? ==> factor.value == 2 || isPrime(factor.value)
    decreases n
  {
    if n == 1 {
      return None;
    }
    if isPrime(n) {
      ModMultiple(n, 1);
      return Some(n);
    }
    if n % 2 == 0 {
      return Some(2);
    }
    var x := seed;
    var y := x;
    var d := 1;
    var steps := 0;
    ModMultiple(n, 0);
    while d == 1 && steps < maxSteps
      invariant 1 <= d < n && Divides(d, n)
      decreases maxSteps - steps
    {
      x := RhoStep(x, n);
      y := RhoStep(RhoStep(y, n), n);
      d := Gcd(Abs(x - y), n);
      GcdIsGreatestCommonDivisor(Abs(x - y), n, d);
      if d == n {
        return None;
      }
      DividesLe(d, n);
      steps := steps + 1;
    }
    if isPrime(d) {
      return Some(d);
    }
    factor := PollardRho(d, seed + 1, maxSteps, isPrime);
    if factor.Some? {
      DividesTransitive(factor.value, d, n);
    }
  }

  // ---------------------------------------------------------------------
  // factorize
  // ---------------------------------------------------------------------

  /** The odd trial divisors of `factorize`. */
  const TrialDivisors: seq<nat> := [3, 5, 7, 11, 13, 17, 19, 23, 29, 31, 37, 41, 43, 47]

  /** 2 and the trial divisors: every factor the first two phases strip. */
  const SmallFactors: seq<nat> := [2] + TrialDivisors

  /** The product of a list of factors. */
  function Prod(s: seq<nat>): nat
  {
    if s == [] then 1 else Prod(s[..|s| - 1]) * s[|s| - 1]
  }

  lemma ProdAppend(s: seq<nat>, x: nat)
    ensures Prod(s + [x]) == Prod(s) * x
  {
    assert (s + [x])[..|s|] == s;
  }

  /** Moving a factor t from the cofactor into the list keeps the product. */
  lemma ProdShift(s: seq<nat>, t: nat, q: nat, m: nat)
    requires m == t * q
    ensures Prod(s + [t]) * q == Prod(s) * m
  {
    ProdAppend(s, t);
    MulAssociates(Prod(s), t, q);
  }

  /** Every entry divides the product. */
  lemma {:induction false} EntryDividesProd(s: seq<nat>, i: int)
    requires 0 <= i < |s|
    ensures Divides(s[i], Prod(s))
  {
    var init := s[..|s| - 1];
    if i == |s| - 1 {
      if s[i] > 0 {
        ModMultiple(s[i], 1);
      }
      DividesMultiple(s[i], s[i], Prod(init));
    } else {
      EntryDividesProd(init, i);
      DividesMultiple(s[i], Prod(init), s[|s| - 1]);
    }
  }

  /** A prime dividing a product divides one of its entries. */
  lemma {:induction false} PrimeDividesEntry(q: nat, s: seq<nat>) returns (i: int)
    requires IsPrime(q) && Divides(q, Prod(s))
    ensures 0 <= i < |s| && Divides(q, s[i])
  {
    if s == [] {
      assert false;
    }
    var init := s[..|s| - 1];
    EuclidLemma(q, Prod(init), s[|s| - 1]);
    if Prod(init) % q == 0 {
      i := PrimeDividesEntry(q, init);
    } else {
      i := |s| - 1;
    }
  }

  /** Trial division up to n, evaluated on literals. */
  predicate NoDivisorFrom(n: nat, k: nat)
    requires k >= 2
    decreases n - k
  {
    k >= n || (n % k != 0 && NoDivisorFrom(n, k + 1))
  }

  lemma {:induction false} NoDivisorFromSound(n: nat, k: nat)
    requires k >= 2 && NoDivisorFrom(n, k)
    ensures forall d: nat :: k <= d < n ==> !Divides(d, n)
    decreases n - k
  {
    if k < n {
      NoDivisorFromSound(n, k + 1);
    }
  }

  /** Primality of 2, 3, 5, 7, 11, 13, 17, 19, by trial division on literals. */
  lemma SmallPrimesToNineteen()
    ensures IsPrime(2) && IsPrime(3) && IsPrime(5) && IsPrime(7) && IsPrime(11) && IsPrime(13) && IsPrime(17) && IsPrime(19)
  {
    assert IsPrime(2) by {
      assert NoDivisorFrom(2, 2);
      NoDivisorFromSound(2, 2);
    }
    assert IsPrime(3) by {
      assert NoDivisorFrom(3, 2);
      NoDivisorFromSound(3, 2);
    }
    assert IsPrime(5) by {
      assert NoDivisorFrom(5, 2);
      NoDivisorFromSound(5, 2);
    }
    assert IsPrime(7) by {
      assert NoDivisorFrom(7, 2);
      NoDivisorFromSound(7, 2);
    }
    assert IsPrime(11) by {
      assert NoDivisorFrom(11, 2) by { assert NoDivisorFrom(11, 3); }
      NoDivisorFromSound(11, 2);
    }
    assert IsPrime(13) by {
      assert NoDivisorFrom(13, 2) by { assert NoDivisorFrom(13, 5); }
      NoDivisorFromSound(13, 2);
    }
    assert IsPrime(17) by {
      assert NoDivisorFrom(17, 2) by { assert NoDivisorFrom(17, 9); }
      NoDivisorFromSound(17, 2);
    }
    assert IsPrime(19) by {
      assert NoDivisorFrom(19, 2) by { assert NoDivisorFrom(19, 11); assert NoDivisorFrom(19, 3); }
      NoDivisorFromSound(19, 2);
    }
  }

  /** Primality of 23, 29, 31, 37, by trial division on literals. */
  lemma SmallPrimesToThirtySeven()
    ensures IsPrime(23) && IsPrime(29) && IsPrime(31) && IsPrime(37)
  {
    assert IsPrime(23) by {
      assert NoDivisorFrom(23, 2) by { assert NoDivisorFrom(23, 15); assert NoDivisorFrom(23, 7); }
      NoDivisorFromSound(23, 2);
    }
    assert IsPrime(29) by {
      assert NoDivisorFrom(29, 2) by { assert NoDivisorFrom(29, 21); assert NoDivisorFrom(29, 13); assert NoDivisorFrom(29, 5); }
      NoDivisorFromSound(29, 2);
    }
    assert IsPrime(31) by {
      assert NoDivisorFrom(31, 2) by { assert NoDivisorFrom(31, 23); assert NoDivisorFrom(31, 15); assert NoDivisorFrom(31, 7); }
      NoDivisorFromSound(31, 2);
    }
    assert IsPrime(37) by {
      assert NoDivisorFrom(37, 2) by { assert NoDivisorFrom(37, 29); assert NoDivisorFrom(37, 21); assert NoDivisorFrom(37, 13); assert NoDivisorFrom(37, 5); }
      NoDivisorFromSound(37, 2);
    }
  }

  /** Primality of 41, 43, 47, by trial division on literals. */
  lemma SmallPrimesToFortySeven()
    ensures IsPrime(41) && IsPrime(43) && IsPrime(47)
  {
    assert IsPrime(41) by {
      assert NoDivisorFrom(41, 2) by { assert NoDivisorFrom(41, 33); assert NoDivisorFrom(41, 25); assert NoDivisorFrom(41, 17); assert NoDivisorFrom(41, 9); }
      NoDivisorFromSound(41, 2);
    }
    assert IsPrime(43) by {
      assert NoDivisorFrom(43, 2) by { assert NoDivisorFrom(43, 35); assert NoDivisorFrom(43, 27); assert NoDivisorFrom(43, 19); assert NoDivisorFrom(43, 11); assert NoDivisorFrom(43, 3); }
      NoDivisorFromSound(43, 2);
    }
    assert IsPrime(47) by {
      assert NoDivisorFrom(47, 2) by { assert NoDivisorFrom(47, 39); assert NoDivisorFrom(47, 31); assert NoDivisorFrom(47, 23); assert NoDivisorFrom(47, 15); assert NoDivisorFrom(47, 7); }
      NoDivisorFromSound(47, 2);
    }
  }

  lemma SmallFactorsPrime()
    ensures forall i :: 0 <= i < |SmallFactors| ==> IsPrime(SmallFactors[i])
  {
    SmallPrimesToNineteen();
    SmallPrimesToThirtySeven();
    SmallPrimesToFortySeven();
  }

  /** A prime divisible by t >= 2 is t. */
  lemma PrimeDivisibleBy(t: nat, p: nat)
    requires IsPrime(p) && t >= 2 && Divides(t, p)
    ensures t == p
  {
    DividesLe(t, p);
  }

  /** Dividing out a factor t >= 2 leaves a smaller positive quotient. */
  lemma QuotientSmaller(m: nat, t: nat)
    requires m >= 1 && t >= 2 && m % t == 0
    ensures 1 <= m / t < m && m == t * (m / t)
  {
    var q := m / t;
    assert m == t * q;
    MulAtLeast(q, t - 1);
    assert t * q == q + q * (t - 1);
  }

  /** The `while n % i == 0` loop of `factorize` for one divisor t: t is
      appended once per division. */
  method StripFactor(m: nat, t: nat, all: seq<nat>) returns (m': nat, all': seq<nat>)
    requires m >= 1 && t >= 2
    ensures m' >= 1 && m' % t != 0 && Divides(m', m)
    ensures Prod(all') * m' == Prod(all) * m
    ensures forall x :: x in all' <==> x in all || (x == t && m % t == 0)
    ensures forall x :: x in all' && x !in all ==> x == t
  {
    m', all' := m, all;
    ModMultiple(m, 1);
    assert StripInvariant(m, t, all, m', all');
    while m' % t == 0
      invariant StripInvariant(m, t, all, m', all')
      decreases m'
    {
      var q := m' / t;
      QuotientSmaller(m', t);
      StripOnce(m, t, all, m', all', q);
      all', m' := all' + [t], q;
    }
  }

  /** What the loop of `StripFactor` keeps after each division. */
  ghost predicate StripInvariant(m: nat, t: nat, all: seq<nat>, m': nat, all': seq<nat>) {
    t >= 2 && m >= 1 && m' >= 1 && Divides(m', m) &&
    Prod(all') * m' == Prod(all) * m &&
    (forall x :: x in all' <==> x in all || (x == t && m' < m)) &&
    (m' < m ==> m % t == 0)
  }

  /** One division of `StripFactor`, m' = t * q, keeps its invariant. */
  lemma StripOnce(m: nat, t: nat, all: seq<nat>, m': nat, all': seq<nat>, q: nat)
    requires StripInvariant(m, t, all, m', all') && m' == t * q && 1 <= q
    ensures StripInvariant(m, t, all, q, all' + [t])
  {
    ProdShift(all', t, q, m');
    QuotientDivides(m, t, m', q);
    forall x
      ensures x in all' + [t] <==> x in all || (x == t && q < m)
    {
      assert x in all' + [t] <==> x in all' || x == t;
    }
  }

  /** The cofactor q of m' = t * q, where m' divides m, divides m, is
      smaller than m, and t divides m. */
  lemma QuotientDivides(m: nat, t: nat, m': nat, q: nat)
    requires t >= 2 && m >= 1 && Divides(m', m) && (m' < m ==> m % t == 0)
    requires m' == t * q && 1 <= q
    ensures Divides(q, m) && q < m && m % t == 0
  {
    DividesMultiple(q, q, t);
    DividesTransitive(q, m', m);
    MulAtLeast(q, t - 1);
    assert t * q == q + q * (t - 1);
    DividesLe(m', m);
    if m' == m {
      ModMultiple(t, q);
    }
  }

  /** `factorize(n)`: strips 2, then each trial divisor, as often as it
      divides, then splits off factors with Pollard's rho (a second try with
      a random seed in [1, 100] and 100000 steps when the first fails) until
      the oracle calls the rest prime or both tries fail, and returns the
      distinct factors. Every factor is at least 2 and divides n, every prime
      divisor of n divides some factor, and a small factor is listed exactly
      when it divides n. `complete` says that neither rho try failed; then
      every factor is small or called prime by the oracle. */
  method Factorize(n: nat, isPrime: int -> bool) returns (factors: seq<nat>, ghost complete: bool)
    requires n >= 1 && RejectsBelowTwo(isPrime)
    ensures forall i :: 0 <= i < |factors| ==> factors[i] >= 2 && Divides(factors[i], n)
    ensures forall i, j :: 0 <= i < j < |factors| ==> factors[i] != factors[j]
    ensures forall q: nat :: IsPrime(q) && Divides(q, n) ==>
              exists i :: 0 <= i < |factors| && Divides(q, factors[i])
    ensures forall i :: 0 <= i < |SmallFactors| ==> (SmallFactors[i] in factors <==> Divides(SmallFactors[i], n))
    ensures complete ==> forall i :: 0 <= i < |factors| ==> factors[i] in SmallFactors || isPrime(factors[i])
  {
    var all, m := SmallPhase(n);
    var final;
    final, complete := RhoPhase(n, all, m, isPrime);
    factors := Dedup(final);
    DedupKeeps(final, factors, n);
    forall i | 0 <= i < |factors|
      ensures factors[i] >= 2 && (complete ==> factors[i] in SmallFactors || isPrime(factors[i]))
    {
      assert factors[i] in final;
    }
  }

  /** No small factor divides m. */
  ghost predicate NoSmallDivisor(m: nat) {
    forall i :: 0 <= i < |SmallFactors| ==> !Divides(SmallFactors[i], m)
  }

  /** Each small factor is listed exactly when it divides n. */
  ghost predicate SmallListed(all: seq<nat>, n: nat) {
    forall i :: 0 <= i < |SmallFactors| ==> (SmallFactors[i] in all <==> Divides(SmallFactors[i], n))
  }

  /** What the Pollard's rho loop of `factorize` keeps: the factors found so
      far times the cofactor m make n. */
  ghost predicate RhoInvariant(all: seq<nat>, m: nat, n: nat) {
    m >= 1 && Prod(all) * m == n && NoSmallDivisor(m) && SmallListed(all, n) &&
    forall x :: x in all ==> x >= 2
  }

  /** The Pollard's rho phase of `factorize`, from the cofactor m0 left by
      trial division: the factors found multiply out to n. */
  method RhoPhase(n: nat, all0: seq<nat>, m0: nat, isPrime: int -> bool) returns (all: seq<nat>, ghost complete: bool)
    requires RhoInvariant(all0, m0, n) && RejectsBelowTwo(isPrime)
    requires forall x :: x in all0 ==> x in SmallFactors
    ensures Prod(all) == n && SmallListed(all, n)
    ensures forall x :: x in all ==> x >= 2
    ensures complete ==> forall x :: x in all ==> x in SmallFactors || isPrime(x)
  {
    all := all0;
    var m := m0;
    complete := true;
    while m > 1
      invariant RhoInvariant(all, m, n)
      invariant complete ==> forall x :: x in all ==> x in SmallFactors || isPrime(x)
      decreases m
    {
      if isPrime(m) {
        RhoLast(all, m, n);
        all := all + [m];
        return;
      }
      var factor := PollardRho(m, 2, 10000, isPrime);
      if factor == None {
        var seed :| 1 <= seed <= 100;
        factor := PollardRho(m, seed, 100000, isPrime);
      }
      if factor.Some? {
        var f := factor.value;
        RhoOnce(all, m, n, f);
        all := all + [f];
        m := m / f;
      } else {
        RhoLast(all, m, n);
        all := all + [m];
        complete := false;
        return;
      }
    }
  }

  /** Splitting off a factor f of m keeps the loop invariant. */
  lemma RhoOnce(all: seq<nat>, m: nat, n: nat, f: nat)
    requires RhoInvariant(all, m, n) && f >= 2 && Divides(f, m)
    ensures 1 <= m / f < m && RhoInvariant(all + [f], m / f, n)
    ensures forall x :: x in all + [f] <==> x in all || x == f
  {
    NotSmall(f, m);
    AppendLarge(all, f);
    DividesAfterDivision(m, f);
    ProdShift(all, f, m / f, m);
  }

  /** Listing the whole cofactor m >= 2 as the last factor. */
  lemma RhoLast(all: seq<nat>, m: nat, n: nat)
    requires RhoInvariant(all, m, n) && m >= 2
    ensures Prod(all + [m]) == n && SmallListed(all + [m], n)
    ensures forall x :: x in all + [m] <==> x in all || x == m
  {
    ProdAppend(all, m);
    NotSmall(m, m);
    AppendLarge(all, m);
  }

  /** Appending a factor that is not small changes which small factors are
      listed in no way. */
  lemma AppendLarge(all: seq<nat>, f: nat)
    requires f !in SmallFactors
    ensures forall i :: 0 <= i < |SmallFactors| ==> (SmallFactors[i] in all + [f] <==> SmallFactors[i] in all)
    ensures forall x :: x in all + [f] <==> x in all || x == f
  {
  }

  /** Removing duplicates keeps what the factor list says about n. */
  lemma DedupKeeps(all: seq<nat>, factors: seq<nat>, n: nat)
    requires Prod(all) == n && forall x :: x in factors <==> x in all
    ensures forall i :: 0 <= i < |factors| ==> Divides(factors[i], n)
    ensures forall q: nat :: IsPrime(q) && Divides(q, n) ==>
              exists i :: 0 <= i < |factors| && Divides(q, factors[i])
  {
    forall i | 0 <= i < |factors|
      ensures Divides(factors[i], n)
    {
      assert factors[i] in all;
      var j :| 0 <= j < |all| && all[j] == factors[i];
      EntryDividesProd(all, j);
    }
    forall q: nat | IsPrime(q) && Divides(q, n)
      ensures exists i :: 0 <= i < |factors| && Divides(q, factors[i])
    {
      var j := PrimeDividesEntry(q, all);
      assert all[j] in factors;
    }
  }

  /** A divisor f >= 2 of m, where m has no small factor, is not small. */
  lemma NotSmall(f: nat, m: nat)
    requires f >= 2 && m >= 1 && Divides(f, m) && NoSmallDivisor(m)
    ensures f !in SmallFactors
  {
  }

  /** What m / f keeps of m: no small factor, and the product balance. */
  lemma DividesAfterDivision(m: nat, f: nat)
    requires f >= 2 && m >= 1 && Divides(f, m) && NoSmallDivisor(m)
    ensures 1 <= m / f < m && f * (m / f) == m && NoSmallDivisor(m / f)
  {
    var q := m / f;
    QuotientSmaller(m, f);
    forall i | 0 <= i < |SmallFactors|
      ensures !Divides(SmallFactors[i], q)
    {
      if Divides(SmallFactors[i], q) {
        DividesMultiple(SmallFactors[i], q, f);
      }
    }
  }

  /** The first two phases of `factorize`: every factor 2, then every trial
      divisor, stripped in order. */
  method SmallPhase(n: nat) returns (all: seq<nat>, m: nat)
    requires n >= 1
    ensures RhoInvariant(all, m, n)
    ensures forall x :: x in all ==> x in SmallFactors
  {
    SmallFactorsPrime();
    m, all := StripFactor(n, 2, []);
    StripStep([], all, n, n, m, 0);
    for i := 0 to |TrialDivisors|
      invariant m >= 1 && Prod(all) * m == n
      invariant forall x :: x in all ==> x in SmallFactors && IsPrime(x) && x <= SmallFactors[i]
      invariant forall j :: 0 <= j <= i ==> !Divides(SmallFactors[j], m)
      invariant forall j :: 0 <= j <= i ==> (SmallFactors[j] in all <==> Divides(SmallFactors[j], n))
    {
      SmallFactorsIncreasing(i);
      ghost var all0, m0 := all, m;
      m, all := StripFactor(m, TrialDivisors[i], all);
      StripStep(all0, all, m0, n, m, i + 1);
    }
  }

  lemma SmallFactorsIncreasing(k: nat)
    requires k + 1 < |SmallFactors|
    ensures SmallFactors[k] < SmallFactors[k + 1]
  {
  }

  /** Stripping t = SmallFactors[k] keeps the phase invariants: t is listed
      exactly when it divides n, since the primes listed before it are
      smaller and so cannot be divisible by it. */
  lemma StripStep(all0: seq<nat>, all: seq<nat>, m0: nat, n: nat, m: nat, k: nat)
    requires k < |SmallFactors| && forall i :: 0 <= i < |SmallFactors| ==> IsPrime(SmallFactors[i])
    requires m0 >= 1 && Prod(all0) * m0 == n
    requires forall x :: x in all0 ==> x in SmallFactors && IsPrime(x) && x < SmallFactors[k]
    requires forall i :: 0 <= i < k ==> !Divides(SmallFactors[i], m0)
    requires forall i :: 0 <= i < k ==> (SmallFactors[i] in all0 <==> Divides(SmallFactors[i], n))
    requires m >= 1 && !Divides(SmallFactors[k], m) && Divides(m, m0)
    requires forall x :: x in all <==> x in all0 || (x == SmallFactors[k] && Divides(SmallFactors[k], m0))
    ensures forall x :: x in all ==> x in SmallFactors && IsPrime(x) && x <= SmallFactors[k]
    ensures forall i :: 0 <= i <= k ==> !Divides(SmallFactors[i], m)
    ensures forall i :: 0 <= i <= k ==> (SmallFactors[i] in all <==> Divides(SmallFactors[i], n))
  {
    var t := SmallFactors[k];
    forall i | 0 <= i < k
      ensures !Divides(SmallFactors[i], m)
    {
      if Divides(SmallFactors[i], m) {
        DividesTransitive(SmallFactors[i], m, m0);
      }
    }
    PrimeBeyondProduct(t, all0, m0);
  }

  /** A prime t larger than every (prime) entry of s divides Prod(s) * m
      exactly when it divides m. */
  lemma PrimeBeyondProduct(t: nat, s: seq<nat>, m: nat)
    requires IsPrime(t) && forall x :: x in s ==> IsPrime(x) && x < t
    ensures Divides(t, m) <==> Divides(t, Prod(s) * m)
  {
    if Divides(t, m) {
      DividesMultiple(t, m, Prod(s));
      assert m * Prod(s) == Prod(s) * m;
    } else if Divides(t, Prod(s) * m) {
      EuclidLemma(t, Prod(s), m);
      var j := PrimeDividesEntry(t, s);
      PrimeDivisibleBy(t, s[j]);
      assert false;
    }
  }


  /** `list(set(factors))`: the distinct entries (the model keeps them in
      order of first occurrence). */
  method Dedup(all: seq<nat>) returns (unique: seq<nat>)
    ensures forall x :: x in unique <==> x in all
    ensures forall i, j :: 0 <= i < j < |unique| ==> unique[i] != unique[j]
  {
    unique := [];
    for i := 0 to |all|
      invariant forall x :: x in unique <==> x in all[..i]
      invariant forall a, b :: 0 <= a < b < |unique| ==> unique[a] != unique[b]
    {
      assert all[..i + 1] == all[..i] + [all[i]];
      if all[i] !in unique {
        unique := unique + [all[i]];
      }
    }
    assert all[..|all|] == all;
  }

  // ---------------------------------------------------------------------
  // is_primitive_root
  // ---------------------------------------------------------------------

  /** The test of `is_primitive_root`: g^((p - 1) / q) mod p is not 1 for
      any listed q. */
  predicate PassesTest(g: int, p: int, factors: seq<nat>)
    requires p >= 2 && forall i :: 0 <= i < |factors| ==> factors[i] >= 1
  {
    forall i :: 0 <= i < |factors| ==> Pow(g, (p - 1) / factors[i]) % p != 1
  }

  /** `is_primitive_root(g, p, factors)`. */
  method IsPrimitiveRoot(g: int, p: int, factors: seq<nat>) returns (passes: bool)
    requires p >= 2 && forall i :: 0 <= i < |factors| ==> factors[i] >= 1
    ensures passes <==> PassesTest(g, p, factors)
  {
    for i := 0 to |factors|
      invariant forall j :: 0 <= j < i ==> Pow(g, (p - 1) / factors[j]) % p != 1
    {
      var exponent := (p - 1) / factors[i];
      var residue := ModuloPower(g, exponent, p);
      if residue == 1 {
        assert Pow(g, exponent) % p == 1;
        return false;
      }
    }
    return true;
  }

  /** With the factors exactly the prime divisors of p - 1, the test passes
      if and only if no proper divisor e of p - 1 has g^e == 1 (mod p): the
      order of g is not a proper divisor of p - 1. */
  lemma PassesTestMeaning(g: int, p: int, factors: seq<nat>)
    requires p >= 2 && forall i :: 0 <= i < |factors| ==> factors[i] >= 2
    requires ExactPrimeFactors(factors, p)
    ensures PassesTest(g, p, factors) <==> NoProperOrder(g, p)
  {
    if PassesTest(g, p, factors) {
      forall e: nat | 1 <= e < p - 1 && Divides(e, p - 1)
        ensures Pow(g, e) % p != 1
      {
        ProperDivisorFails(g, p, factors, e);
      }
    } else if NoProperOrder(g, p) {
      forall i | 0 <= i < |factors|
        ensures Pow(g, (p - 1) / factors[i]) % p != 1
      {
        QuotientIsProperDivisor(p - 1, factors[i]);
      }
      assert false;
    }
  }

  /** No proper divisor e of p - 1 has g^e == 1 (mod p). */
  ghost predicate NoProperOrder(g: int, p: int) {
    forall e: nat :: 1 <= e < p - 1 && Divides(e, p - 1) ==> Pow(g, e) % p != 1
  }

  /** n / q is a proper divisor of n for a divisor q >= 2 of n >= 1. */
  lemma QuotientIsProperDivisor(n: nat, q: nat)
    requires n >= 1 && q >= 2 && Divides(q, n)
    ensures 1 <= n / q < n && Divides(n / q, n)
  {
    QuotientSmaller(n, q);
    DividesMultiple(n / q, n / q, q);
  }

  /** A proper divisor e of p - 1 with g^e == 1 would make the test fail at
      a prime q dividing (p - 1) / e. */
  lemma ProperDivisorFails(g: int, p: int, factors: seq<nat>, e: nat)
    requires p >= 2 && 1 <= e < p - 1 && Divides(e, p - 1)
    requires forall i :: 0 <= i < |factors| ==> factors[i] >= 1
    requires forall q: nat :: IsPrime(q) && Divides(q, p - 1) ==> q in factors
    requires PassesTest(g, p, factors)
    ensures Pow(g, e) % p != 1
  {
    var q, k := PrimeCofactor(p - 1, e);
    var i :| 0 <= i < |factors| && factors[i] == q;
    PowMul(g, e, k);
    if Pow(g, e) % p == 1 {
      PrimeAll.PowOneMod(Pow(g, e), k, p);
      assert false;
    }
  }

  /** For a proper divisor e of n, some prime q divides n with n / q a
      multiple e * k of e. */
  lemma PrimeCofactor(n: nat, e: nat) returns (q: nat, k: nat)
    requires 1 <= e < n && Divides(e, n)
    ensures IsPrime(q) && Divides(q, n) && n / q == e * k
  {
    var m := DivisorCofactor(n, e);
    q := PrimeDivisorExists(m);
    k := m / q;
    assert m == q * k;
    assert n == q * (e * k) by {
      MulAssociates(e, q, k);
      MulAssociates(q, e, k);
    }
    DivModUnique(n, q, e * k, 0);
  }

  /** The cofactor n / e of a proper divisor e of n is at least 2. */
  lemma DivisorCofactor(n: nat, e: nat) returns (m: nat)
    requires 1 <= e < n && Divides(e, n)
    ensures n == e * m && m >= 2
  {
    m := n / e;
    assert n == e * m;
  }

  // ---------------------------------------------------------------------
  // find_primitive_root
  // ---------------------------------------------------------------------

  /** The outcomes of `find_primitive_root`: the "p must be prime" string,
      a root, or the (None, message) pair after all trials. */
  datatype RootSearch = NotPrime | Found(g: int) | NotFound

  /** The small candidates tried first. */
  const SmallCandidates: seq<int> :=
    [2, 3, 5, 7, 11, 13, 17, 19, 23, 29, 31, 37, 41, 43, 47, 53, 59, 61, 67, 71]

  /** `find_primitive_root(p, use_parallel=False)`: rejects p the oracle
      does not call prime; factors p - 1; returns the first small candidate
      that passes the test, else the first of 100000 random g in [2, p - 1]
      that passes. With a sound oracle and a complete factorisation, a root
      found has no proper divisor of p - 1 as its order. */
  method FindPrimitiveRoot(p: int, isPrime: int -> bool) returns (result: RootSearch, ghost factors: seq<nat>, ghost complete: bool)
    requires RejectsBelowTwo(isPrime)
    ensures forall i :: 0 <= i < |factors| ==> factors[i] >= 2
    ensures isPrime(p) ==> p >= 2
    ensures !isPrime(p) <==> result == NotPrime
    ensures result.Found? ==> p >= 2 && PassesTest(result.g, p, factors)
    ensures result.Found? ==> result.g in SmallCandidates || 2 <= result.g <= p - 1
    ensures isPrime(p) && (exists i :: 0 <= i < |SmallCandidates| && PassesTest(SmallCandidates[i], p, factors)) ==>
              exists i :: 0 <= i < |SmallCandidates| && result == Found(SmallCandidates[i]) &&
                          forall j :: 0 <= j < i ==> !PassesTest(SmallCandidates[j], p, factors)
    ensures result.Found? && complete && SoundOracle(isPrime) ==> NoProperOrder(result.g, p)
  {
    factors, complete := [], false;
    if !isPrime(p) {
      return NotPrime, factors, complete;
    }
    var fs;
    fs, complete := FactorsOfOrder(p, isPrime);
    factors := fs;
    var k := FirstSmallRoot(p, fs);
    if k < |SmallCandidates| {
      result := Found(SmallCandidates[k]);
      assert result == Found(SmallCandidates[k]) &&
             forall j :: 0 <= j < k ==> !PassesTest(SmallCandidates[j], p, factors);
    } else {
      assert !PassesTest(SmallCandidates[0], p, factors);
      if p == 2 {
        NoFactorsOfOne(factors);
        assert false;
      }
      var g, _ := RandomRoot(p, fs);
      result := if g.Some? then Found(g.value) else NotFound;
    }
    if result.Found? && complete && SoundOracle(isPrime) {
      PassesTestMeaning(result.g, p, factors);
    }
  }

  /** The factors are exactly the prime divisors of p - 1. */
  ghost predicate ExactPrimeFactors(factors: seq<nat>, p: int) {
    (forall i :: 0 <= i < |factors| ==> IsPrime(factors[i]) && Divides(factors[i], p - 1)) &&
    (forall q: nat :: IsPrime(q) && Divides(q, p - 1) ==> q in factors)
  }

  /** `factorize(p - 1)` as `find_primitive_root` uses it: with a sound
      oracle and no failed rho search, the factors are exactly the prime
      divisors of p - 1. */
  method FactorsOfOrder(p: int, isPrime: int -> bool) returns (factors: seq<nat>, ghost complete: bool)
    requires p >= 2 && RejectsBelowTwo(isPrime)
    ensures forall i :: 0 <= i < |factors| ==> factors[i] >= 2 && Divides(factors[i], p - 1)
    ensures complete && SoundOracle(isPrime) ==> ExactPrimeFactors(factors, p)
  {
    factors, complete := Factorize(p - 1, isPrime);
    if complete && SoundOracle(isPrime) {
      ExactFactors(p, factors, isPrime);
    }
  }

  /** The loop over the small candidates: the index of the first one that
      passes the test, or |SmallCandidates| when none does. */
  method FirstSmallRoot(p: int, factors: seq<nat>) returns (k: nat)
    requires p >= 2 && forall i :: 0 <= i < |factors| ==> factors[i] >= 2
    ensures k <= |SmallCandidates|
    ensures forall j :: 0 <= j < k ==> !PassesTest(SmallCandidates[j], p, factors)
    ensures k < |SmallCandidates| ==> PassesTest(SmallCandidates[k], p, factors)
  {
    k := 0;
    while k < |SmallCandidates|
      invariant k <= |SmallCandidates|
      invariant forall j :: 0 <= j < k ==> !PassesTest(SmallCandidates[j], p, factors)
    {
      var passes := IsPrimitiveRoot(SmallCandidates[k], p, factors);
      if passes {
        return;
      }
      k := k + 1;
    }
  }

  /** The sequential loop of 100000 random trials g in [2, p - 1]; the
      candidates drawn are recorded in the ghost `draws`. None means every
      one of the 100000 candidates failed the test. */
  method RandomRoot(p: int, factors: seq<nat>) returns (g: Option<int>, ghost draws: seq<int>)
    requires p >= 3 && forall i :: 0 <= i < |factors| ==> factors[i] >= 2
    ensures g.Some? ==> 2 <= g.value <= p - 1 && PassesTest(g.value, p, factors)
    ensures g.None? ==> |draws| == 100000
    ensures g.None? ==>
              forall i :: 0 <= i < |draws| ==> 2 <= draws[i] <= p - 1 && !PassesTest(draws[i], p, factors)
  {
    draws := [];
    for trial := 0 to 100000
      invariant |draws| == trial
      invariant forall i :: 0 <= i < |draws| ==> 2 <= draws[i] <= p - 1 && !PassesTest(draws[i], p, factors)
    {
      var candidate :| 2 <= candidate <= p - 1;
      var passes := IsPrimitiveRoot(candidate, p, factors);
      if passes {
        return Some(candidate), draws;
      }
      draws := draws + [candidate];
    }
    return None, draws;
  }


  lemma NoFactorsOfOne(factors: seq<nat>)
    requires forall i :: 0 <= i < |factors| ==> factors[i] >= 2 && Divides(factors[i], 1)
    ensures factors == []
  {
    if factors != [] {
      DividesLe(factors[0], 1);
    }
  }

  /** With a sound oracle and no failed rho search, the factors are exactly
      the prime divisors of p - 1. */
  lemma ExactFactors(p: int, factors: seq<nat>, isPrime: int -> bool)
    requires p >= 2 && SoundOracle(isPrime)
    requires forall i :: 0 <= i < |factors| ==> factors[i] >= 2 && Divides(factors[i], p - 1)
    requires forall q: nat :: IsPrime(q) && Divides(q, p - 1) ==>
               exists i :: 0 <= i < |factors| && Divides(q, factors[i])
    requires forall i :: 0 <= i < |factors| ==> factors[i] in SmallFactors || isPrime(factors[i])
    ensures forall i :: 0 <= i < |factors| ==> IsPrime(factors[i]) && Divides(factors[i], p - 1)
    ensures forall q: nat :: IsPrime(q) && Divides(q, p - 1) ==> q in factors
  {
    SmallFactorsPrime();
    forall i | 0 <= i < |factors|
      ensures IsPrime(factors[i])
    {
      if factors[i] in SmallFactors {
        var k :| 0 <= k < |SmallFactors| && SmallFactors[k] == factors[i];
      }
    }
    forall q: nat | IsPrime(q) && Divides(q, p - 1)
      ensures q in factors
    {
      var i :| 0 <= i < |factors| && Divides(q, factors[i]);
      PrimeDivisibleBy(q, factors[i]);
    }
  }
}
