/** Prime_All.py: the sieve of Eratosthenes over odd numbers, the segmented
    sieve built on it, Euclid's gcd loop and the multiplicative-order
    search. The boolean arrays the sieves mark in place are Dafny arrays. */
module PrimeAll {
  import opened Common
  import opened NumberTheory

  predicate StrictlyIncreasing(s: seq<nat>) {
    forall a, b :: 0 <= a < b < |s| ==> s[a] < s[b]
  }

  // ---------------------------------------------------------------------
  // Marking a slice `a[start::step] = False`
  // ---------------------------------------------------------------------

  /** Index t is one of start, start + step, start + 2 step, ... */
  predicate OnStride(t: int, start: int, step: int)
    requires step > 0
  {
    t >= start && (t - start) % step == 0
  }

  /** `a[start::step] = False`: every index on the stride is cleared, every
      other entry keeps its value. */
  method ClearStride(a: array<bool>, start: nat, step: nat)
    requires step > 0
    modifies a
    ensures forall t :: 0 <= t < a.Length ==> a[t] == (old(a[t]) && !OnStride(t, start, step))
  {
    var j := start;
    while j < a.Length
      invariant j >= start && (j - start) % step == 0
      invariant forall t :: 0 <= t < a.Length ==> a[t] == (old(a[t]) && !(OnStride(t, start, step) && t < j))
      decreases a.Length - j
    {
      a[j] := false;
      forall t | 0 <= t < a.Length && OnStride(t, start, step) && j <= t < j + step
        ensures t == j
      {
        StrideGap(t, start, step, j);
      }
      ModAddMultiple(j - start, step, 1);
      j := j + step;
    }
  }

  /** Two stride points less than a step apart coincide. */
  lemma StrideGap(t: int, start: int, step: int, j: int)
    requires step > 0 && OnStride(t, start, step) && OnStride(j, start, step) && j <= t < j + step
    ensures t == j
  {
    var a, b := (t - start) / step, (j - start) / step;
    assert t - start == step * a && j - start == step * b;
    assert t - j == step * (a - b);
    if a != b {
      MulSmall(step, a - b);
    }
  }

  // ---------------------------------------------------------------------
  // simple_sieve
  // ---------------------------------------------------------------------

  /** The largest value the sieve's array stands for: index i is 2 i + 3
      and there are (limit + 1) // 2 indices. */
  function SieveTop(limit: nat): nat {
    2 * ((limit + 1) / 2) + 1
  }

  /** No odd d in [3, top] with d * d <= v divides v: what survives after
      the odd numbers up to top have struck out their multiples from
      their squares on. */
  ghost predicate NoOddDivisorUpTo(v: int, top: int) {
    forall d: nat :: 3 <= d <= top && d % 2 == 1 && d * d <= v ==> !Divides(d, v)
  }

  /** `simple_sieve(limit)`: is_prime[i] stands for 2 i + 3; for each i
      below int(sqrt(limit)) // 2 still marked, the multiples of p = 2 i + 3
      from p * p on are cleared; the result is 2 followed by the surviving
      values. It is exactly 2 and the odd primes up to SieveTop(limit),
      which can exceed limit by one or two. */
  method SimpleSieve(limit: nat) returns (primes: seq<nat>)
    ensures |primes| >= 1 && primes[0] == 2
    ensures StrictlyIncreasing(primes)
    ensures forall k :: 1 <= k < |primes| ==> primes[k] % 2 == 1 && 3 <= primes[k] <= SieveTop(limit)
    ensures forall k :: 0 <= k < |primes| ==> IsPrime(primes[k])
    ensures forall v :: 3 <= v <= SieveTop(limit) && IsPrime(v) ==> v in primes
  {
    var isPrime := new bool[(limit + 1) / 2](_ => true);
    MarkOddComposites(isPrime, limit);
    primes := CollectSurvivors(isPrime);
    OddPrimesCovered(limit, primes);
  }

  /** The marking loop of `simple_sieve`: afterwards an entry is set exactly
      when the odd value it stands for is prime. */
  method MarkOddComposites(isPrime: array<bool>, limit: nat)
    requires isPrime.Length == (limit + 1) / 2
    requires forall j :: 0 <= j < isPrime.Length ==> isPrime[j]
    modifies isPrime
    ensures forall j :: 0 <= j < isPrime.Length ==> (isPrime[j] <==> IsPrime(2 * j + 3))
  {
    var size := isPrime.Length;
    var bound := Isqrt(limit) / 2;
    IsqrtAtMost(limit);
    for i := 0 to bound
      invariant forall j :: 0 <= j < size ==> (isPrime[j] <==> NoOddDivisorUpTo(2 * j + 3, 2 * i + 1))
    {
      SieveStep(isPrime, i);
    }
    SurvivorsArePrime(limit, isPrime[..]);
  }

  /** After the rounds up to int(sqrt(limit)) the unmarked entries are the
      odd primes. */
  lemma SurvivorsArePrime(limit: nat, marks: seq<bool>)
    requires |marks| == (limit + 1) / 2
    requires forall j :: 0 <= j < |marks| ==>
               (marks[j] <==> NoOddDivisorUpTo(2 * j + 3, 2 * (Isqrt(limit) / 2) + 1))
    ensures forall j :: 0 <= j < |marks| ==> (marks[j] <==> IsPrime(2 * j + 3))
  {
    assert SieveTop(limit) == 2 * |marks| + 1;
    forall j | 0 <= j < |marks|
      ensures marks[j] <==> IsPrime(2 * j + 3)
    {
      assert (2 * j + 3) % 2 == 1;
      SurvivorIsPrime(limit, 2 * j + 3);
    }
  }

  /** Every prime in [3, SieveTop(limit)] is odd, so it is 2 j + 3 for an
      index j of the array. */
  lemma OddPrimesCovered(limit: nat, primes: seq<nat>)
    requires forall j :: 0 <= j < (limit + 1) / 2 && IsPrime(2 * j + 3) ==> 2 * j + 3 in primes
    ensures forall v :: 3 <= v <= SieveTop(limit) && IsPrime(v) ==> v in primes
  {
    forall v | 3 <= v <= SieveTop(limit) && IsPrime(v)
      ensures v in primes
    {
      if v % 2 == 0 {
        assert Divides(2, v);
      }
      assert 2 * ((v - 3) / 2) + 3 == v;
    }
  }

  lemma IsqrtAtMost(n: nat)
    ensures Isqrt(n) <= n
  {
    var r := Isqrt(n);
    if r >= 1 {
      MulAtLeast(r, r);
    }
  }

  lemma TwoIsPrime()
    ensures IsPrime(2)
  {
  }

  /** One round of the marking loop, for index i (the value p = 2 i + 3). */
  method SieveStep(isPrime: array<bool>, i: nat)
    requires i < isPrime.Length
    requires forall j :: 0 <= j < isPrime.Length ==> (isPrime[j] <==> NoOddDivisorUpTo(2 * j + 3, 2 * i + 1))
    modifies isPrime
    ensures forall j :: 0 <= j < isPrime.Length ==> (isPrime[j] <==> NoOddDivisorUpTo(2 * j + 3, 2 * i + 3))
  {
    var size := isPrime.Length;
    var p := 2 * i + 3;
    ghost var before := isPrime[..];
    if isPrime[i] {
      var start := (p * p - 3) / 2;
      OddSquareIndex(p);
      if start < size {
        ClearStride(isPrime, start, p);
      }
      forall j | 0 <= j < size
        ensures isPrime[j] <==> NoOddDivisorUpTo(2 * j + 3, p)
      {
        ExtendOddBound(2 * j + 3, p);
        StrideIsOddMultiple(j, p);
        assert before[j] == old(isPrime[j]);
      }
    } else {
      forall j | 0 <= j < size
        ensures isPrime[j] <==> NoOddDivisorUpTo(2 * j + 3, p)
      {
        ExtendOddBound(2 * j + 3, p);
        if p * p <= 2 * j + 3 && Divides(p, 2 * j + 3) {
          CompositeStrikesNothingNew(2 * j + 3, p);
        }
      }
    }
  }

  /** Raising the bound from p - 2 to the odd p adds exactly the test by p. */
  lemma ExtendOddBound(v: int, p: nat)
    requires p >= 3 && p % 2 == 1
    ensures NoOddDivisorUpTo(v, p) <==>
              NoOddDivisorUpTo(v, p - 2) && !(p * p <= v && Divides(p, v))
  {
    if NoOddDivisorUpTo(v, p - 2) && !(p * p <= v && Divides(p, v)) {
      forall d: nat | 3 <= d <= p && d % 2 == 1 && d * d <= v
        ensures !Divides(d, v)
      {
        if d != p {
          assert d <= p - 2;
        }
      }
    }
  }

  /** For odd p, p * p is 2 * ((p * p - 3) / 2) + 3. */
  lemma OddSquareIndex(p: nat)
    requires p >= 3 && p % 2 == 1
    ensures p * p >= 9 && (p * p - 3) % 2 == 0 && 2 * ((p * p - 3) / 2) + 3 == p * p
  {
    var c := p / 2;
    assert p == 2 * c + 1;
    assert p * p == 2 * (2 * c * c + 2 * c) + 1;
    MulMono(3, p);
  }

  /** The indices cleared for p = 2 i + 3 are exactly the values from p * p
      on that p divides. */
  lemma StrideIsOddMultiple(j: nat, p: nat)
    requires p >= 3 && p % 2 == 1
    ensures OnStride(j, (p * p - 3) / 2, p) <==> p * p <= 2 * j + 3 && Divides(p, 2 * j + 3)
  {
    OddSquareIndex(p);
    var start := (p * p - 3) / 2;
    var v := 2 * j + 3;
    if OnStride(j, start, p) {
      var k := (j - start) / p;
      assert j - start == p * k;
      assert v == p * (p + 2 * k);
      ModMultiple(p, p + 2 * k);
    }
    if p * p <= v && Divides(p, v) {
      ModMultiple(p, p);
      DividesLinear(p, v, p * p, 1);
      assert v - 1 * (p * p) == 2 * (j - start);
      OddDivisorOfDouble(p, j - start, p);
    }
  }

  /** A p already struck out has an odd divisor below it that has struck
      out every multiple of p from p * p on. */
  lemma CompositeStrikesNothingNew(v: int, p: nat)
    requires p >= 3 && p % 2 == 1 && !NoOddDivisorUpTo(p, p - 2)
    requires p * p <= v && Divides(p, v)
    ensures !NoOddDivisorUpTo(v, p - 2)
  {
    var d: nat :| 3 <= d <= p - 2 && d % 2 == 1 && d * d <= p && Divides(d, p);
    DividesTransitive(d, p, v);
    MulAtLeast(p, p);
  }

  /** A composite v >= 2 has a divisor a >= 2 with a * a <= v. */
  lemma SmallDivisor(v: int) returns (a: nat)
    requires v >= 2 && !IsPrime(v)
    ensures 2 <= a && a * a <= v && Divides(a, v)
  {
    var k: nat :| 2 <= k < v && Divides(k, v);
    var f := Cofactor(v, k);
    if k <= f {
      a := k;
      MulLe(k, k, f);
    } else {
      a := f;
      MulLe(f, f, k);
      assert f * k == k * f;
    }
  }

  /** The cofactor of a proper divisor k of v is at least 2 and divides v. */
  lemma Cofactor(v: int, k: nat) returns (f: nat)
    requires 2 <= k < v && Divides(k, v)
    ensures f >= 2 && v == k * f && Divides(f, v)
  {
    f := v / k;
    assert v == k * f;
    if f < 2 {
      assert false;
    }
    ModMultiple(f, k);
  }

  lemma MulLe(a: nat, b: nat, c: nat)
    requires b <= c
    ensures a * b <= a * c
  {
  }

  /** After the marking loop a value in range survives exactly when it is
      prime: a composite one has an odd divisor whose square is at most
      limit + 2, and every such divisor is at most 2 * bound + 1. */
  lemma SurvivorIsPrime(limit: nat, v: nat)
    requires 3 <= v <= SieveTop(limit) && v % 2 == 1
    ensures NoOddDivisorUpTo(v, 2 * (Isqrt(limit) / 2) + 1) <==> IsPrime(v)
  {
    var top := 2 * (Isqrt(limit) / 2) + 1;
    if IsPrime(v) {
      PrimeSurvives(v, top);
    } else {
      var a := SmallDivisor(v);
      OddDivisorOfOdd(a, v);
      OddRootBound(limit, Isqrt(limit), a);
    }
  }

  lemma PrimeSurvives(v: int, top: int)
    requires IsPrime(v)
    ensures NoOddDivisorUpTo(v, top)
  {
    forall d: nat | 3 <= d <= top && d % 2 == 1 && d * d <= v
      ensures !Divides(d, v)
    {
      MulAtLeast(d, d);
    }
  }

  /** A divisor of an odd number is odd. */
  lemma OddDivisorOfOdd(a: nat, v: int)
    requires Divides(a, v) && v % 2 == 1
    ensures a % 2 == 1
  {
    if a % 2 == 0 {
      var f := v / a;
      assert v == a * f;
      EvenProduct(a, f);
    }
  }

  /** An odd a with a * a <= limit + 2 is at most 2 * (isqrt(limit) // 2) + 1,
      the last value the marking loop visits. */
  lemma OddRootBound(limit: nat, s: nat, a: nat)
    requires s * s <= limit < (s + 1) * (s + 1)
    requires a % 2 == 1 && a * a <= limit + 2
    ensures a <= 2 * (s / 2) + 1
  {
    assert (s + 2) * (s + 2) == (s + 1) * (s + 1) + 2 * s + 3;
    if a >= s + 2 {
      MulMono(s + 2, a);
      assert false;
    }
  }

  /** `primes = [2]; primes.extend(2*i+3 for i ... if is_prime[i])`, given
      that the surviving indices are exactly the prime values. */
  method CollectSurvivors(isPrime: array<bool>) returns (primes: seq<nat>)
    requires forall j :: 0 <= j < isPrime.Length ==> (isPrime[j] <==> IsPrime(2 * j + 3))
    ensures |primes| >= 1 && primes[0] == 2
    ensures StrictlyIncreasing(primes)
    ensures forall k :: 1 <= k < |primes| ==> primes[k] % 2 == 1 && 3 <= primes[k] <= 2 * isPrime.Length + 1
    ensures forall k :: 0 <= k < |primes| ==> IsPrime(primes[k])
    ensures forall j :: 0 <= j < isPrime.Length && IsPrime(2 * j + 3) ==> 2 * j + 3 in primes
  {
    TwoIsPrime();
    primes := [2];
    for i := 0 to isPrime.Length
      invariant |primes| >= 1 && primes[0] == 2
      invariant StrictlyIncreasing(primes)
      invariant forall k :: 1 <= k < |primes| ==> primes[k] % 2 == 1 && 3 <= primes[k] < 2 * i + 3
      invariant forall k :: 0 <= k < |primes| ==> IsPrime(primes[k])
      invariant forall j :: 0 <= j < i && IsPrime(2 * j + 3) ==> 2 * j + 3 in primes
    {
      if isPrime[i] {
        AppendLarger(primes, 2 * i + 3);
        primes := primes + [2 * i + 3];
      }
    }
  }

  /** Appending a value above every entry keeps a list strictly increasing. */
  lemma AppendLarger(s: seq<nat>, x: nat)
    requires StrictlyIncreasing(s)
    requires forall k :: 0 <= k < |s| ==> s[k] < x
    ensures StrictlyIncreasing(s + [x])
  {
  }

  /** `simple_sieve(10)` returns 11 among its primes, although the function
      is documented to return the primes below its argument. */
  method SieveOfTenReturnsEleven() returns (primes: seq<nat>)
    ensures 11 in primes && 11 > 10
  {
    primes := SimpleSieve(10);
    ElevenIsPrime();
  }

  lemma ElevenIsPrime()
    ensures IsPrime(11)
  {
    forall d: nat | 2 <= d < 11
      ensures !Divides(d, 11)
    {
    }
  }

  /** `simple_sieve` as evidently intended (the array comment speaks of the
      odd numbers from 3 to limit): exactly the primes up to limit. The
      surplus of SimpleSieve, at most the last two entries, is dropped. */
  method SimpleSieveUpTo(limit: nat) returns (primes: seq<nat>)
    ensures StrictlyIncreasing(primes)
    ensures forall k :: 0 <= k < |primes| ==> IsPrime(primes[k]) && primes[k] <= limit
    ensures forall v :: 2 <= v <= limit && IsPrime(v) ==> v in primes
  {
    primes := SimpleSieve(limit);
    assert forall v :: 2 <= v <= limit && IsPrime(v) ==> v in primes by {
      forall v | 2 <= v <= limit && IsPrime(v)
        ensures v in primes
      {
        if v != 2 {
          assert v <= SieveTop(limit);
        }
      }
    }
    while |primes| > 0 && primes[|primes| - 1] > limit
      invariant StrictlyIncreasing(primes)
      invariant forall k :: 0 <= k < |primes| ==> IsPrime(primes[k])
      invariant forall v :: 2 <= v <= limit && IsPrime(v) ==> v in primes
    {
      var last := primes[|primes| - 1];
      forall v | 2 <= v <= limit && IsPrime(v)
        ensures v in primes[..|primes| - 1]
      {
        var k :| 0 <= k < |primes| && primes[k] == v;
        assert k != |primes| - 1;
      }
      primes := primes[..|primes| - 1];
    }
    forall k | 0 <= k < |primes|
      ensures primes[k] <= limit
    {
      if k < |primes| - 1 {
        assert primes[k] < primes[|primes| - 1];
      }
    }
  }

  // ---------------------------------------------------------------------
  // segmented_sieve
  // ---------------------------------------------------------------------

  /** `segmented_sieve(n)` as written: the base primes come from
      `simple_sieve(int(sqrt(n)))`, which may add a prime just above
      int(sqrt(n)); each segment [low, high] of (sqrt(n), n] is then sieved
      by all of them. Such a surplus prime strikes itself out of the first
      segment, so for n >= 3 the result is exactly the primes up to n; for
      n == 2 the surplus 3 stays in the result. */
  method SegmentedSieve(n: int) returns (primes: seq<nat>)
    ensures n < 2 ==> primes == []
    ensures StrictlyIncreasing(primes)
    ensures forall k :: 0 <= k < |primes| ==> IsPrime(primes[k])
    ensures forall v :: 2 <= v <= n && IsPrime(v) ==> v in primes
    ensures n >= 3 ==> forall k :: 0 <= k < |primes| ==> primes[k] <= n
    ensures n == 2 ==> 3 in primes
  {
    if n < 2 {
      return [];
    }
    var sqrtN := Isqrt(n);
    var basePrimes := SimpleSieve(sqrtN);
    ghost var top := SieveTop(sqrtN);
    IsqrtAtMost(n);
    SurplusBound(n, sqrtN);
    assert forall v :: 2 <= v <= sqrtN && IsPrime(v) ==> v in basePrimes by {
      forall v | 2 <= v <= sqrtN && IsPrime(v)
        ensures v in basePrimes
      {
        if v != 2 {
          assert v <= top;
        }
      }
    }
    assert forall k :: 0 <= k < |basePrimes| ==> basePrimes[k] <= top by {
      forall k | 0 <= k < |basePrimes|
        ensures basePrimes[k] <= top
      {
        if k == 0 {
          assert basePrimes[0] == 2;
        }
      }
    }
    var segmentSize := if sqrtN > 1000000 then sqrtN else 1000000;
    primes := basePrimes;
    var low := sqrtN + 1;
    while low <= n
      invariant sqrtN + 1 <= low
      invariant StrictlyIncreasing(primes)
      invariant forall k :: 0 <= k < |primes| ==>
                  IsPrime(primes[k]) && (primes[k] < low || (primes[k] in basePrimes && primes[k] <= top))
      invariant forall k :: 0 <= k < |primes| ==> primes[k] <= n || (primes[k] in basePrimes && primes[k] <= top)
      invariant forall v :: 2 <= v < low && v <= n && IsPrime(v) ==> v in primes
      invariant forall v :: v in basePrimes ==> v in primes
      decreases n + 1 - low
    {
      var high := if low + segmentSize - 1 < n then low + segmentSize - 1 else n;
      primes := SieveSegment(n, basePrimes, low, high, primes, top);
      low := low + segmentSize;
    }
    if n == 2 {
      assert top == 3 && 3 in basePrimes;
    }
  }

  /** The surplus of `simple_sieve(int(sqrt(n)))` is at most int(sqrt(n)) + 2,
      which is at most n once n >= 3. */
  lemma SurplusBound(n: int, s: nat)
    requires n >= 2 && s == Isqrt(n)
    ensures 1 <= s && SieveTop(s) <= s + 2
    ensures n >= 3 ==> SieveTop(s) <= n
    ensures n == 2 ==> SieveTop(s) == 3
  {
    if n >= 4 {
      MulLe(s, 2, s);
    } else {
      assert s == 1;
    }
  }

  /** `segmented_sieve` with the base primes as evidently intended: the
      primes up to int(sqrt(n)) only. The result is exactly the primes up to
      n, in increasing order, for every n. */
  method SegmentedSieveUpTo(n: int) returns (primes: seq<nat>)
    ensures n < 2 ==> primes == []
    ensures StrictlyIncreasing(primes)
    ensures forall k :: 0 <= k < |primes| ==> IsPrime(primes[k]) && primes[k] <= n
    ensures forall v :: 2 <= v <= n && IsPrime(v) ==> v in primes
  {
    if n < 2 {
      return [];
    }
    var sqrtN := Isqrt(n);
    var basePrimes := SimpleSieveUpTo(sqrtN);
    IsqrtAtMost(n);
    var segmentSize := if sqrtN > 1000000 then sqrtN else 1000000;
    primes := basePrimes;
    var low := sqrtN + 1;
    while low <= n
      invariant sqrtN + 1 <= low
      invariant StrictlyIncreasing(primes)
      invariant forall k :: 0 <= k < |primes| ==> IsPrime(primes[k]) && primes[k] < low && primes[k] <= n
      invariant forall v :: 2 <= v < low && v <= n && IsPrime(v) ==> v in primes
      invariant forall v :: v in basePrimes ==> v in primes
      decreases n + 1 - low
    {
      var high := if low + segmentSize - 1 < n then low + segmentSize - 1 else n;
      primes := SieveSegment(n, basePrimes, low, high, primes, 0);
      low := low + segmentSize;
    }
  }

  /** No base prime among the first t divides v. */
  ghost predicate Unmarked(base: seq<nat>, t: int, v: int)
    requires 0 <= t <= |base|
  {
    forall u :: 0 <= u < t ==> !Divides(base[u], v)
  }

  /** One segment [low, high]: its array cleared at the multiples of every
      base prime, then the survivors appended to the running list. The base
      may hold primes above int(sqrt(n)) up to `top`; those are already in
      the running list and strike themselves out of the segment. */
  method SieveSegment(ghost n: nat, base: seq<nat>, low: nat, high: nat, acc: seq<nat>, ghost top: int)
      returns (primes: seq<nat>)
    requires Isqrt(n) < low <= high <= n
    requires forall k :: 0 <= k < |base| ==> IsPrime(base[k])
    requires forall v :: 2 <= v <= Isqrt(n) && IsPrime(v) ==> v in base
    requires top <= low || 2 in base
    requires top <= low + 1
    requires StrictlyIncreasing(acc)
    requires forall k :: 0 <= k < |acc| ==> IsPrime(acc[k]) && (acc[k] < low || (acc[k] in base && acc[k] <= top))
    requires forall v :: 2 <= v < low && IsPrime(v) ==> v in acc
    requires forall v :: v in base ==> v in acc
    ensures StrictlyIncreasing(primes)
    ensures forall k :: 0 <= k < |primes| ==>
              IsPrime(primes[k]) && (primes[k] < high + 1 || (primes[k] in base && primes[k] <= top))
    ensures forall v :: 2 <= v < high + 1 && IsPrime(v) ==> v in primes
    ensures forall v :: v in acc ==> v in primes
  {
    var sieve := new bool[high - low + 1](_ => true);
    for t := 0 to |base|
      invariant forall j :: 0 <= j < sieve.Length ==> (sieve[j] <==> Unmarked(base, t, low + j))
    {
      var p := base[t];
      var start := (low + p - 1) / p * p;
      SegmentStart(low, p);
      if start < low {
        start := start + p;
      }
      ClearStride(sieve, start - low, p);
      forall j | 0 <= j < sieve.Length
        ensures sieve[j] <==> Unmarked(base, t + 1, low + j)
      {
        SegmentStride(low, p, j);
      }
    }
    forall j | 0 <= j < sieve.Length
      ensures sieve[j] <==> IsPrime(low + j) && low + j !in base
    {
      UnmarkedIsPrime(n, base, low + j);
    }
    primes := AppendSurvivors(sieve[..], base, low, acc, top);
  }

  /** The loop that appends `low + i` for every position i still marked. */
  method AppendSurvivors(sieve: seq<bool>, base: seq<nat>, low: nat, acc: seq<nat>, ghost top: int)
      returns (primes: seq<nat>)
    requires forall j :: 0 <= j < |sieve| ==> (sieve[j] <==> IsPrime(low + j) && low + j !in base)
    requires top <= low || 2 in base
    requires top <= low + 1
    requires StrictlyIncreasing(acc)
    requires forall k :: 0 <= k < |acc| ==> IsPrime(acc[k]) && (acc[k] < low || (acc[k] in base && acc[k] <= top))
    requires forall v :: 2 <= v < low && IsPrime(v) ==> v in acc
    requires forall v :: v in base ==> v in acc
    ensures StrictlyIncreasing(primes)
    ensures forall k :: 0 <= k < |primes| ==>
              IsPrime(primes[k]) && (primes[k] < low + |sieve| || (primes[k] in base && primes[k] <= top))
    ensures forall v :: 2 <= v < low + |sieve| && IsPrime(v) ==> v in primes
    ensures forall v :: v in acc ==> v in primes
  {
    primes := acc;
    for j := 0 to |sieve|
      invariant StrictlyIncreasing(primes)
      invariant forall k :: 0 <= k < |primes| ==>
                  IsPrime(primes[k]) && (primes[k] < low + j || (primes[k] in base && primes[k] <= top))
      invariant forall v :: 2 <= v < low + j && IsPrime(v) ==> v in primes
      invariant forall v :: v in acc ==> v in primes
    {
      if sieve[j] {
        forall k | 0 <= k < |primes|
          ensures primes[k] < low + j
        {
          if primes[k] >= low + j {
            SurvivorBelowSurplus(low + j, primes[k]);
          }
        }
        primes := primes + [low + j];
      }
    }
  }

  /** A survivor w of the segment and a larger base prime a <= low + 1 would
      be consecutive primes, that is 2 and 3; but 2 is a base prime and
      cannot survive. */
  lemma SurvivorBelowSurplus(w: nat, a: nat)
    requires IsPrime(w) && IsPrime(a) && w <= a <= w + 1 && a != w
    ensures w == 2
  {
    if w % 2 == 1 {
      assert a == w + 1 && a % 2 == 0;
      assert Divides(2, a);
    } else {
      assert Divides(2, w);
    }
  }

  /** (low + p - 1) // p * p is the least multiple of p from low on. */
  lemma SegmentStart(low: nat, p: nat)
    requires p >= 1
    ensures low <= (low + p - 1) / p * p < low + p
    ensures ((low + p - 1) / p * p) % p == 0
  {
    var q := (low + p - 1) / p;
    assert low + p - 1 == q * p + (low + p - 1) % p;
    ModMultiple(p, q);
  }

  /** The slice cleared for base prime p holds exactly the segment
      positions whose value p divides. */
  lemma SegmentStride(low: nat, p: nat, j: nat)
    requires p >= 1
    ensures OnStride(j, (low + p - 1) / p * p - low, p) <==> Divides(p, low + j)
  {
    SegmentStart(low, p);
    var q := (low + p - 1) / p;
    if Divides(p, low + j) {
      assert low + j == p * ((low + j) / p);
      StrideFromMultiple(low, p, q, j, (low + j) / p);
    }
    if OnStride(j, q * p - low, p) {
      MultipleFromStride(low, p, q, j, (j - (q * p - low)) / p);
    }
  }

  /** A multiple p m of p in the segment lies on the stride from q p. */
  lemma StrideFromMultiple(low: nat, p: nat, q: int, j: nat, m: int)
    requires p >= 1 && low <= q * p < low + p
    requires low + j == p * m
    ensures OnStride(j, q * p - low, p)
  {
    var k := m - q;
    assert j - (q * p - low) == p * k;
    if k <= -1 {
      MulAtLeast(p, -k);
      assert false;
    }
    ModMultiple(p, k);
  }

  /** A position on the stride from q p holds a multiple of p. */
  lemma MultipleFromStride(low: nat, p: nat, q: int, j: nat, k: int)
    requires p >= 1 && OnStride(j, q * p - low, p) && k == (j - (q * p - low)) / p
    ensures Divides(p, low + j)
  {
    assert j - (q * p - low) == p * k;
    assert low + j == p * (q + k);
    ModMultiple(p, q + k);
  }

  /** In (sqrt(n), n] the values no base prime divides are the primes that
      are not base primes themselves. */
  lemma UnmarkedIsPrime(n: nat, base: seq<nat>, v: nat)
    requires Isqrt(n) < v <= n
    requires forall k :: 0 <= k < |base| ==> IsPrime(base[k])
    requires forall w :: 2 <= w <= Isqrt(n) && IsPrime(w) ==> w in base
    ensures Unmarked(base, |base|, v) <==> IsPrime(v) && v !in base
  {
    if IsPrime(v) && v !in base {
      forall u | 0 <= u < |base|
        ensures !Divides(base[u], v)
      {
        DistinctPrimesCoprime(base[u], v);
      }
    } else if IsPrime(v) {
      var u :| 0 <= u < |base| && base[u] == v;
      assert Divides(v, v);
    } else {
      CompositeIsMarked(n, base, v);
    }
  }

  /** A prime never divides a different prime. */
  lemma DistinctPrimesCoprime(w: nat, v: nat)
    requires IsPrime(w) && IsPrime(v) && w != v
    ensures !Divides(w, v)
  {
    if Divides(w, v) {
      DividesLe(w, v);
      assert false;
    }
  }

  /** A composite v <= n has a prime factor up to int(sqrt(n)), a base prime. */
  lemma CompositeIsMarked(n: nat, base: seq<nat>, v: nat)
    requires Isqrt(n) < v <= n && !IsPrime(v)
    requires forall w :: 2 <= w <= Isqrt(n) && IsPrime(w) ==> w in base
    ensures !Unmarked(base, |base|, v)
  {
    var a := SmallDivisor(v);
    var q := PrimeDivisorExists(a);
    DividesTransitive(q, a, v);
    MulMono(q, a);
    if q > Isqrt(n) {
      MulMono(Isqrt(n) + 1, q);
      assert false;
    }
    var u :| 0 <= u < |base| && base[u] == q;
  }

  // ---------------------------------------------------------------------
  // gcd_in_prime
  // ---------------------------------------------------------------------

  /** `gcd_in_prime(a, b)` (the same text at AKS_Algorithm.py:7-12):
      Euclid's loop on |a| and |b|. */
  method GcdInPrime(a: int, b: int) returns (g: nat)
    ensures g == Gcd(a, b)
    ensures Divides(g, a) && Divides(g, b)
    ensures forall d: nat :: Divides(d, a) && Divides(d, b) ==> Divides(d, g)
  {
    var x, y := Abs(a), Abs(b);
    while y != 0
      invariant NatGcd(x, y) == Gcd(a, b)
      decreases y
    {
      x, y := y, x % y;
    }
    g := x;
    forall d: nat | Divides(d, a) && Divides(d, b)
      ensures Divides(d, g)
    {
      GcdIsGreatestCommonDivisor(a, b, d);
    }
    GcdIsGreatestCommonDivisor(a, b, 0);
  }

  // ---------------------------------------------------------------------
  // multiplicative_order
  // ---------------------------------------------------------------------

  /** Python's `%`: the remainder takes the sign of the divisor. */
  function PyMod(x: int, m: int): (r: int)
    requires m != 0
    ensures m > 0 ==> 0 <= r < m
    ensures m < 0 ==> m < r <= 0
  {
    if m > 0 then x % m else -((-x) % (-m))
  }

  /** Multiplying a residue keeps it the residue of the product. */
  lemma PyModMul(x: int, n: int, m: int)
    requires m != 0
    ensures PyMod(PyMod(x, m) * n, m) == PyMod(x * n, m)
  {
    if m > 0 {
      PyModMulPositive(x, n, m);
    } else {
      PyModMulNegative(x, n, m);
    }
  }

  lemma PyModMulPositive(x: int, n: int, m: int)
    requires m > 0
    ensures PyMod(PyMod(x, m) * n, m) == PyMod(x * n, m)
  {
    PositiveModulusMul(x, n, m);
  }

  lemma PyModMulNegative(x: int, n: int, m: int)
    requires m < 0
    ensures PyMod(PyMod(x, m) * n, m) == PyMod(x * n, m)
  {
    var M := -m;
    var r := PyMod(x, m);
    var y := x * n;
    var z := r * n;
    NegativeModulusMul(x, n, M, r, y, z);
    assert PyMod(z, m) == -((-z) % M);
  }

  lemma PositiveModulusMul(x: int, n: int, m: int)
    requires m > 0
    ensures ((x % m) * n) % m == (x * n) % m
  {
    ModOfMod(x, m);
    ModMulCongruent(x % m, x, n, n, m);
  }

  lemma NegativeModulusMul(x: int, n: int, M: int, r: int, y: int, z: int)
    requires M > 0 && r == -((-x) % M) && y == x * n && z == r * n
    ensures (-z) % M == (-y) % M
  {
    var t := (-x) % M;
    ModOfMod(-x, M);
    ModMulCongruent(t, -x, n, n, M);
    assert -z == t * n;
    assert -y == (-x) * n;
  }

  /** The source's three kinds of answer: an order (0 standing for "not
      coprime"), or `float('inf')` when the search gives up. */
  datatype Order = Finite(k: nat) | Infinite

  /** k is the least positive exponent with n^k == 1 (mod m), in Python's
      remainder. */
  ghost predicate IsOrder(n: int, m: int, k: nat)
    requires m != 0
  {
    1 <= k && PyMod(Pow(n, k), m) == 1 && forall j :: 1 <= j < k ==> PyMod(Pow(n, j), m) != 1
  }

  const ZeroModulus := "integer division or modulo by zero"

  /** `multiplicative_order(n, r)` (the same text at AKS_Algorithm.py:38-49):
      0 unless gcd(n, r) == 1, otherwise powers of n modulo r until one is
      1, giving up with infinity once the exponent passes r. With r == 0
      (and n == +-1) the first `n % r` raises. */
  method MultiplicativeOrder(n: int, m: int) returns (r: Result<Order>)
    ensures r.Err? <==> m == 0 && Gcd(n, m) == 1
    ensures r == Ok(Finite(0)) <==> Gcd(n, m) != 1
    ensures m != 0 && r.Ok? && r.value.Finite? && r.value.k != 0 ==>
              Gcd(n, m) == 1 && r.value.k <= m && IsOrder(n, m, r.value.k)
    ensures m != 0 ==>
              (r == Ok(Infinite) <==>
                 Gcd(n, m) == 1 && forall j :: 1 <= j <= m ==> PyMod(Pow(n, j), m) != 1)
  {
    var g := GcdInPrime(n, m);
    if g != 1 {
      return Ok(Finite(0));
    }
    if m == 0 {
      return Err(ZeroModulus);
    }
    var k := 1;
    var temp := PyMod(n, m);
    assert Pow(n, 1) == n;
    while temp != 1
      invariant 1 <= k <= Abs(m)
      invariant temp == PyMod(Pow(n, k), m)
      invariant forall j :: 1 <= j < k ==> PyMod(Pow(n, j), m) != 1
      decreases Abs(m) - k
    {
      PyModMul(Pow(n, k), n, m);
      PowSucc(n, k);
      temp := PyMod(temp * n, m);
      k := k + 1;
      if k > m {
        return Ok(Infinite);
      }
    }
    return Ok(Finite(k));
  }

  lemma PowSucc(n: int, k: nat)
    ensures Pow(n, k) * n == Pow(n, k + 1)
  {
    assert Pow(n, k + 1) == n * Pow(n, k);
  }

  /** gcd(n, m) != 1 leaves no exponent k >= 1 with n^k == 1 (mod m): the
      common divisor would divide 1. So the 0 the source returns is not an
      order. */
  lemma NonCoprimeHasNoOrder(n: int, m: int, k: nat)
    requires m != 0 && Gcd(n, m) != 1 && k >= 1
    ensures PyMod(Pow(n, k), m) != 1
  {
    var g := Gcd(n, m);
    GcdIsGreatestCommonDivisor(n, m, g);
    if g == 0 {
      assert false;
    }
    var x := Pow(n, k);
    DividesMultiple(g, n, Pow(n, k - 1));
    assert n * Pow(n, k - 1) == x;
    if PyMod(x, m) == 1 {
      ResidueOne(x, m);
      DividesAbs(g, m);
      DividesTransitive(g, Abs(m), x - 1);
      DividesLinear(g, x, x - 1, 1);
      assert x - 1 * (x - 1) == 1;
      DividesLe(g, 1);
      assert false;
    }
  }

  /** A Python remainder of 1 means the modulus divides x - 1. */
  lemma ResidueOne(x: int, m: int)
    requires m != 0 && PyMod(x, m) == 1
    ensures m > 1 && Divides(Abs(m), x - 1)
  {
    assert m > 1 && x % m == 1;
    var t := x / m;
    assert x - 1 == m * t;
    ModMultiple(m, t);
  }

  /** Every exponent e with n^e == 1 (mod m) is a multiple of the order. */
  lemma OrderDividesExponent(n: int, m: int, k: nat, e: nat)
    requires m > 0 && IsOrder(n, m, k) && PyMod(Pow(n, e), m) == 1
    ensures e % k == 0
  {
    var q, s := e / k, e % k;
    assert e == k * q + s;
    SplitResidue(n, m, k, q, s, e);
    if s != 0 {
      assert false;
    }
  }

  /** n^(k q + s) == n^s (mod m) once n^k == 1 (mod m). */
  lemma SplitResidue(n: int, m: int, k: nat, q: nat, s: nat, e: nat)
    requires m > 1 && e == k * q + s && Pow(n, k) % m == 1
    ensures Pow(n, e) % m == Pow(n, s) % m
  {
    var A, B := Pow(n, k), Pow(n, s);
    PowSplit(n, k, q, s, e);
    PowOneMod(A, q, m);
    MulResidueOne(Pow(A, q), B, m);
  }

  lemma PowSplit(n: int, k: nat, q: nat, s: nat, e: nat)
    requires e == k * q + s
    ensures Pow(n, e) == Pow(Pow(n, k), q) * Pow(n, s)
  {
    PowAdd(n, k * q, s);
    PowMul(n, k, q);
  }

  /** Powers of a number congruent to 1 stay congruent to 1. */
  lemma {:induction false} PowOneMod(x: int, q: nat, m: int)
    requires m > 1 && x % m == 1
    ensures Pow(x, q) % m == 1
  {
    if q == 0 {
      DivModUnique(1, m, 0, 1);
    } else {
      PowOneMod(x, q - 1, m);
      MulResidueOne(x, Pow(x, q - 1), m);
    }
  }

  /** Multiplying by a number congruent to 1 keeps the residue. */
  lemma MulResidueOne(a: int, b: int, m: int)
    requires m > 1 && a % m == 1
    ensures (a * b) % m == b % m
  {
    var t := a / m;
    assert a == m * t + 1;
    assert a * b == m * (t * b) + b;
    ModAddMultiple(b, m, t * b);
  }
}
