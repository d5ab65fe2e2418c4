/** ECPP/ECPP_Core.py, class `ECPPHelper`: the table of small discriminants,
    the fundamental-discriminant and square-free tests, the Jacobi and
    Kronecker symbols, the Hilbert class polynomial lookup table and the two
    curve searches that seed an ECPP step. */
module EcppCore {
  import opened Common
  import opened NumberTheory
  import EC = EllipticCurves

  /** `SMALL_DISCRIMINANTS`, in the order the curve searches try them. */
  const SmallDiscriminants: seq<int> := [
    -3, -4, -7, -8, -11, -15, -19, -20, -23, -24,
    -31, -35, -39, -40, -43, -47, -51, -52, -55, -56,
    -59, -67, -68, -71, -79, -83, -84, -87, -88, -91,
    -95, -103, -104, -107, -115, -116, -119, -120, -123, -127
  ]

  // ---------------------------------------------------------------------
  // is_square_free
  // ---------------------------------------------------------------------

  /** What the for-loop over the prime table decides: it stops (accepting)
      at the first prime whose square exceeds n, and rejects at the first
      prime whose square divides n. */
  function TableSquareFree(n: int, sp: seq<nat>): bool
    requires IsPrimeTable(sp)
  {
    if |sp| == 0 then true
    else if sp[0] * sp[0] > n then true
    else if n % (sp[0] * sp[0]) == 0 then false
    else TableSquareFree(n, sp[1..])
  }

  /** `is_square_free(n)` with the prime table as a parameter. */
  function SquareFreeSpec(n: int, sp: seq<nat>): bool
    requires IsPrimeTable(sp)
  {
    n > 1 && TableSquareFree(n, sp)
  }

  method IsSquareFree(n: int, sp: seq<nat>) returns (r: bool)
    requires IsPrimeTable(sp)
    ensures r == SquareFreeSpec(n, sp)
  {
    if n <= 1 {
      return false;
    }
    for i := 0 to |sp|
      invariant TableSquareFree(n, sp[i..]) == TableSquareFree(n, sp)
    {
      assert sp[i..][1..] == sp[i + 1..];
      var p := sp[i];
      if p * p > n {
        break;
      }
      if n % (p * p) == 0 {
        return false;
      }
    }
    return true;
  }

  /** The loop's early exit loses nothing on an increasing table: the test
      accepts exactly when n > 1 and no table prime p with p^2 <= n has p^2 | n. */
  lemma {:induction false} TableSquareFreeMeaning(n: int, sp: seq<nat>)
    requires IsPrimeTable(sp)
    ensures TableSquareFree(n, sp) <==>
              forall i :: 0 <= i < |sp| && sp[i] * sp[i] <= n ==> n % (sp[i] * sp[i]) != 0
    decreases |sp|
  {
    if |sp| > 0 {
      TableSquareFreeMeaning(n, sp[1..]);
      if sp[0] * sp[0] > n {
        forall i | 0 < i < |sp|
          ensures sp[i] * sp[i] > n
        {
          MulMono(sp[0], sp[i]);
        }
      }
      assert forall i :: 0 < i < |sp| ==> sp[1..][i - 1] == sp[i];
    }
  }

  /** With a table holding every prime up to sqrt(n), the test is exact:
      it accepts n > 1 iff no square of an integer d >= 2 divides n. */
  lemma SquareFreeSound(n: int, sp: seq<nat>)
    requires IsPrimeTable(sp)
    requires forall q: nat :: IsPrime(q) && q * q <= n ==> q in sp
    ensures SquareFreeSpec(n, sp) <==> n > 1 && forall d: nat :: d >= 2 ==> !Divides(d * d, n)
  {
    TableSquareFreeMeaning(n, sp);
    if n > 1 && SquareFreeSpec(n, sp) {
      forall d: nat | d >= 2
        ensures !Divides(d * d, n)
      {
        if Divides(d * d, n) {
          var i := SquareFactorInTable(n, sp, d);
        }
      }
    }
    if n > 1 && forall d: nat :: d >= 2 ==> !Divides(d * d, n) {
      forall i | 0 <= i < |sp| && sp[i] * sp[i] <= n
        ensures n % (sp[i] * sp[i]) != 0
      {
        assert !Divides(sp[i] * sp[i], n);
      }
    }
  }

  /** A square dividing n brings the square of one of its prime factors,
      which the table holds. */
  lemma SquareFactorInTable(n: int, sp: seq<nat>, d: nat) returns (i: int)
    requires IsPrimeTable(sp) && n > 1 && d >= 2 && Divides(d * d, n)
    requires forall q: nat :: IsPrime(q) && q * q <= n ==> q in sp
    ensures 0 <= i < |sp| && sp[i] * sp[i] <= n && n % (sp[i] * sp[i]) == 0
  {
    var q := PrimeDivisorExists(d);
    var k := d / q;
    assert d == q * k;
    assert d * d == (q * q) * (k * k);
    ModMultiple(q * q, k * k);
    DividesTransitive(q * q, d * d, n);
    DividesLe(d * d, n);
    MulMono(q, d);
    i :| 0 <= i < |sp| && sp[i] == q;
  }

  /** Below 144 only the squares of 2, 3, 5, 7 and 11 can divide. */
  lemma SquareFreeBelow144(n: int)
    requires IsPrimeTable(PrimesToEleven)
    requires 1 < n < 144 && n % 4 != 0 && n % 9 != 0 && n % 25 != 0 && n % 49 != 0 && n % 121 != 0
    ensures SquareFreeSpec(n, PrimesToEleven)
  {
    var sp := PrimesToEleven;
    assert sp[4..][1..] == [];
    assert TableSquareFree(n, sp[4..]);
    assert sp[3..][1..] == sp[4..];
    assert TableSquareFree(n, sp[3..]);
    assert sp[2..][1..] == sp[3..];
    assert TableSquareFree(n, sp[2..]);
    assert sp[1..][1..] == sp[2..];
    assert TableSquareFree(n, sp[1..]);
  }

  // ---------------------------------------------------------------------
  // is_fundamental_discriminant
  // ---------------------------------------------------------------------

  /** `is_fundamental_discriminant(D)` as written: after `D = abs(D)` the
      residue classes are taken on |D|, not on D. */
  function IsFundamentalDiscriminant(D: int, sp: seq<nat>): (r: bool)
    requires IsPrimeTable(sp)
    ensures D >= 0 ==> !r
    ensures D < 0 ==> (r <==>
              (Abs(D) % 4 == 1 && SquareFreeSpec(Abs(D), sp)) ||
              (Abs(D) % 4 == 0 && (Abs(D) / 4) % 4 in {2, 3} && SquareFreeSpec(Abs(D) / 4, sp)))
  {
    if D >= 0 then false
    else
      var d := Abs(D);
      if d % 4 == 1 then SquareFreeSpec(d, sp)
      else if d % 4 == 0 && (d / 4) % 4 in {2, 3} then SquareFreeSpec(d / 4, sp)
      else false
  }

  /** The test as its own documentation describes it: a negative D is
      fundamental when D == 1 (mod 4) and |D| is square-free, or D == 4m with
      m == 2, 3 (mod 4) and |m| square-free (residues of the signed values;
      m == -1, whose absolute value 1 has no square factor, included). */
  function IsFundamentalDiscriminantIntended(D: int, sp: seq<nat>): (r: bool)
    requires IsPrimeTable(sp)
    ensures r ==> D < 0 && (D % 4 == 1 || D % 4 == 0)
    ensures r && D % 4 == 1 ==> SquareFreeSpec(-D, sp)
    ensures r && D % 4 == 0 ==> (D / 4) % 4 in {2, 3} && (D == -4 || SquareFreeSpec(-(D / 4), sp))
  {
    if D >= 0 then false
    else if D % 4 == 1 then SquareFreeSpec(-D, sp)
    else if D % 4 == 0 && (D / 4) % 4 in {2, 3} then D == -4 || SquareFreeSpec(-(D / 4), sp)
    else false
  }

  /** The primes up to 11: every square that can divide a number below 144. */
  const PrimesToEleven: seq<nat> := [2, 3, 5, 7, 11]

  lemma PrimesToElevenIsTable()
    ensures IsPrimeTable(PrimesToEleven)
  {
    forall i | 0 <= i < |PrimesToEleven|
      ensures IsPrime(PrimesToEleven[i])
    {
      var q := PrimesToEleven[i];
      forall d: nat | 2 <= d < q
        ensures !Divides(d, q)
      {
      }
    }
  }

  /** As written, the first tabulated discriminants -3, -4 and -7 are
      rejected, while -5 (which is not a discriminant at all, being
      3 mod 4) is accepted. */
  lemma FundamentalDiscriminantAsWritten()
    ensures IsPrimeTable(PrimesToEleven)
    ensures !IsFundamentalDiscriminant(-3, PrimesToEleven)
    ensures !IsFundamentalDiscriminant(-4, PrimesToEleven)
    ensures !IsFundamentalDiscriminant(-7, PrimesToEleven)
    ensures IsFundamentalDiscriminant(-5, PrimesToEleven)
  {
    PrimesToElevenIsTable();
    assert TableSquareFree(5, PrimesToEleven[1..]);
  }

  /** With the signed residues every entry of `SMALL_DISCRIMINANTS` is
      recognised as fundamental, and -5 is not. */
  lemma FundamentalDiscriminantIntended()
    ensures IsPrimeTable(PrimesToEleven)
    ensures forall i :: 0 <= i < |SmallDiscriminants| ==>
              IsFundamentalDiscriminantIntended(SmallDiscriminants[i], PrimesToEleven)
    ensures !IsFundamentalDiscriminantIntended(-5, PrimesToEleven)
  {
    PrimesToElevenIsTable();
    IntendedGroup0();
    IntendedGroup1();
    IntendedGroup2();
    IntendedGroup3();
  }

  lemma IntendedGroup0()
    requires IsPrimeTable(PrimesToEleven)
    ensures forall i :: 0 <= i < 10 ==>
              IsFundamentalDiscriminantIntended(SmallDiscriminants[i], PrimesToEleven)
  {
    IntendedBelow144(-3);
    IntendedBelow144(-4);
    IntendedBelow144(-7);
    IntendedBelow144(-8);
    IntendedBelow144(-11);
    IntendedBelow144(-15);
    IntendedBelow144(-19);
    IntendedBelow144(-20);
    IntendedBelow144(-23);
    IntendedBelow144(-24);
  }

  lemma IntendedGroup1()
    requires IsPrimeTable(PrimesToEleven)
    ensures forall i :: 10 <= i < 20 ==>
              IsFundamentalDiscriminantIntended(SmallDiscriminants[i], PrimesToEleven)
  {
    IntendedBelow144(-31);
    IntendedBelow144(-35);
    IntendedBelow144(-39);
    IntendedBelow144(-40);
    IntendedBelow144(-43);
    IntendedBelow144(-47);
    IntendedBelow144(-51);
    IntendedBelow144(-52);
    IntendedBelow144(-55);
    IntendedBelow144(-56);
  }

  lemma IntendedGroup2()
    requires IsPrimeTable(PrimesToEleven)
    ensures forall i :: 20 <= i < 30 ==>
              IsFundamentalDiscriminantIntended(SmallDiscriminants[i], PrimesToEleven)
  {
    IntendedBelow144(-59);
    IntendedBelow144(-67);
    IntendedBelow144(-68);
    IntendedBelow144(-71);
    IntendedBelow144(-79);
    IntendedBelow144(-83);
    IntendedBelow144(-84);
    IntendedBelow144(-87);
    IntendedBelow144(-88);
    IntendedBelow144(-91);
  }

  lemma IntendedGroup3()
    requires IsPrimeTable(PrimesToEleven)
    ensures forall i :: 30 <= i < 40 ==>
              IsFundamentalDiscriminantIntended(SmallDiscriminants[i], PrimesToEleven)
  {
    IntendedBelow144(-95);
    IntendedBelow144(-103);
    IntendedBelow144(-104);
    IntendedBelow144(-107);
    IntendedBelow144(-115);
    IntendedBelow144(-116);
    IntendedBelow144(-119);
    IntendedBelow144(-120);
    IntendedBelow144(-123);
    IntendedBelow144(-127);
  }

  lemma IntendedBelow144(D: int)
    requires IsPrimeTable(PrimesToEleven)
    requires -144 < D < 0
    requires D % 4 == 1 || (D % 4 == 0 && (D / 4) % 4 in {2, 3})
    requires var m := if D % 4 == 1 then -D else -(D / 4);
               m == 1 || (1 < m && m % 4 != 0 && m % 9 != 0 && m % 25 != 0 && m % 49 != 0 && m % 121 != 0)
    ensures IsFundamentalDiscriminantIntended(D, PrimesToEleven)
  {
    if D != -4 {
      SquareFreeBelow144(if D % 4 == 1 then -D else -(D / 4));
    }
  }

  // ---------------------------------------------------------------------
  // jacobi_symbol
  // ---------------------------------------------------------------------

  /** The inner loop: halve a while it is even, flipping the sign each time
      n == 3, 5 (mod 8). */
  function StripTwos(a: nat, n: int, result: int): (r: (nat, int))
    requires a > 0
    ensures 0 < r.0 <= a && r.0 % 2 == 1
    ensures r.1 == result || r.1 == -result
    decreases a
  {
    if a % 2 == 1 then (a, result)
    else StripTwos(a / 2, n, if n % 8 == 3 || n % 8 == 5 then -result else result)
  }

  /** The outer loop from the state (a, n, result), with 0 <= a < n:
      strip twos, swap with quadratic reciprocity's sign, reduce. */
  function JacobiLoop(a: nat, n: nat, result: int): (r: int)
    requires a < n
    ensures r == 0 || r == result || r == -result
    decreases n
  {
    if a == 0 then (if n == 1 then result else 0)
    else
      var (a1, r1) := StripTwos(a, n, result);
      var r2 := if n % 4 == 3 && a1 % 4 == 3 then -r1 else r1;
      JacobiLoop(n % a1, a1, r2)
  }

  const NotOddPositive := "n must be positive odd integer"

  /** `jacobi_symbol(a, n)`: an error unless n is odd and positive;
      otherwise -1, 0 or 1. */
  function JacobiSpec(a: int, n: int): (r: Result<int>)
    ensures r.Err? <==> n <= 0 || n % 2 == 0
    ensures r.Err? ==> r.msg == NotOddPositive
    ensures r.Ok? ==> r.value in {-1, 0, 1}
  {
    if n <= 0 || n % 2 == 0 then Err(NotOddPositive)
    else Ok(JacobiLoop(a % n, n, 1))
  }

  method Jacobi(a: int, n: int) returns (r: Result<int>)
    ensures r == JacobiSpec(a, n)
  {
    if n <= 0 || n % 2 == 0 {
      return Err(NotOddPositive);
    }
    var x: nat, m: nat := a % n, n;
    var result := 1;
    while x != 0
      invariant x < m
      invariant JacobiLoop(x, m, result) == JacobiSpec(a, n).value
      decreases m
    {
      x, result := RemoveTwos(x, m, result);
      x, m := m, x;
      if x % 4 == 3 && m % 4 == 3 {
        result := -result;
      }
      x := x % m;
    }
    return Ok(if m == 1 then result else 0);
  }

  /** The inner loop of `jacobi_symbol`: halve a while it is even, flipping
      the sign when n is 3 or 5 modulo 8. */
  method RemoveTwos(a: nat, n: int, result: int) returns (odd: nat, sign: int)
    requires a > 0
    ensures (odd, sign) == StripTwos(a, n, result)
  {
    odd, sign := a, result;
    while odd % 2 == 0
      invariant 0 < odd <= a
      invariant StripTwos(odd, n, sign) == StripTwos(a, n, result)
      decreases odd
    {
      odd := odd / 2;
      if n % 8 == 3 || n % 8 == 5 {
        sign := -sign;
      }
    }
  }

  /** The symbol sees a only through its residue modulo n. */
  lemma JacobiDependsOnResidue(a: int, b: int, n: int)
    requires n > 0 && a % n == b % n
    ensures JacobiSpec(a, n) == JacobiSpec(b, n)
  {
  }

  /** Stripping factors of two does not change the gcd with an odd n. */
  lemma {:induction false} StripTwosGcd(a: nat, n: int, result: int)
    requires a > 0 && n % 2 == 1
    ensures Gcd(StripTwos(a, n, result).0, n) == Gcd(a, n)
    decreases a
  {
    if a % 2 == 0 {
      GcdHalveAgainstOdd(a, n);
      StripTwosGcd(a / 2, n, if n % 8 == 3 || n % 8 == 5 then -result else result);
    }
  }

  lemma {:induction false} JacobiLoopZero(a: nat, n: nat, result: int)
    requires a < n && n % 2 == 1 && (result == 1 || result == -1)
    ensures JacobiLoop(a, n, result) == 0 <==> Gcd(a, n) != 1
    decreases n
  {
    if a == 0 {
      assert Gcd(a, n) == NatGcd(n, 0);
    } else {
      var (a1, r1) := StripTwos(a, n, result);
      var r2 := if n % 4 == 3 && a1 % 4 == 3 then -r1 else r1;
      StripTwosGcd(a, n, result);
      JacobiLoopZero(n % a1, a1, r2);
      GcdMod(n, a1);
      GcdSymmetric(n, a1);
    }
  }

  /** (a/n) == 0 exactly when a and n share a factor. */
  lemma JacobiZeroIffNotCoprime(a: int, n: int)
    requires n > 0 && n % 2 == 1
    ensures JacobiSpec(a, n) == Ok(0) <==> Gcd(a, n) != 1
  {
    JacobiLoopZero(a % n, n, 1);
    GcdMod(a, n);
  }

  // ---------------------------------------------------------------------
  // kronecker_symbol
  // ---------------------------------------------------------------------

  /** n == 2^k * m with m odd: what the counting loop computes. */
  function TwoAdic(n: nat): (r: (nat, nat))
    requires n > 0
    ensures r.1 % 2 == 1 && n == Pow(2, r.0) * r.1
    decreases n
  {
    if n % 2 == 1 then (0, n)
    else
      var (k, m) := TwoAdic(n / 2);
      (k + 1, m)
  }

  /** The decomposition n == 2^k * m (m odd) is unique. */
  lemma {:induction false} TwoAdicUnique(n: nat, k: nat, m: nat)
    requires n > 0 && m % 2 == 1 && n == Pow(2, k) * m
    ensures TwoAdic(n) == (k, m)
    decreases n
  {
    if k == 0 {
      assert n == m;
    } else {
      assert n == 2 * (Pow(2, k - 1) * m);
      ModMultiple(2, Pow(2, k - 1) * m);
      TwoAdicUnique(n / 2, k - 1, m);
    }
  }

  /** The sign by which a factor 2^k changes (a/.) for odd a. */
  function TwoPowerSign(a: int, k: nat): int {
    if k % 2 == 1 && !(a % 8 in {1, 7}) then -1 else 1
  }

  /** `kronecker_symbol(a, n)` (the source's recursion; the measure is 2 for
      a negative n, 1 for an even positive n and 0 otherwise). */
  function KroneckerSpec(a: int, n: int): (r: int)
    ensures r in {-1, 0, 1}
    ensures n == 0 ==> (r == 1 <==> Abs(a) == 1)
    ensures n > 0 && n % 2 == 1 ==> JacobiSpec(a, n) == Ok(r)
    decreases if n < 0 then 2 else if n > 0 && n % 2 == 0 then 1 else 0
  {
    if n == 0 then (if Abs(a) == 1 then 1 else 0)
    else if n < 0 then (if a < 0 then -KroneckerSpec(-a, -n) else KroneckerSpec(a, -n))
    else if n % 2 == 0 then
      if a % 2 == 0 then 0
      else
        var (k, m) := TwoAdic(n);
        TwoPowerSign(a, k) * KroneckerSpec(a, m)
    else JacobiLoop(a % n, n, 1)
  }

  method Kronecker(a: int, n: int) returns (r: int)
    ensures r == KroneckerSpec(a, n)
    decreases if n < 0 then 2 else if n > 0 && n % 2 == 0 then 1 else 0
  {
    if n == 0 {
      return if Abs(a) == 1 then 1 else 0;
    }
    if n < 0 {
      if a < 0 {
        r := Kronecker(-a, -n);
        return -r;
      }
      r := Kronecker(a, -n);
      return;
    }
    if n % 2 == 0 {
      if a % 2 == 0 {
        return 0;
      }
      var k, m := CountTwos(n);
      r := Kronecker(a, m);
      if k % 2 == 1 {
        if a % 8 in {1, 7} {
          return r;
        }
        return -r;
      }
      return r;
    }
    var j := Jacobi(a, n);
    return j.value;
  }

  /** Both arguments even: the symbol vanishes. */
  lemma KroneckerEvenPair(a: int, n: int)
    requires a % 2 == 0 && n % 2 == 0
    ensures KroneckerSpec(a, n) == 0
  {
    if n < 0 {
      assert (-a) % 2 == 0 && (-n) % 2 == 0;
    } else if n == 0 {
      assert Abs(a) != 1;
    }
  }

  /** The source's counting loop: k halvings of n leave the odd part m. */
  method CountTwos(n: nat) returns (k: nat, m: nat)
    requires n > 0
    ensures (k, m) == TwoAdic(n)
  {
    k, m := 0, n;
    while m % 2 == 0
      invariant m > 0 && n == Pow(2, k) * m
      decreases m
    {
      MoveFactorTwo(k, m);
      k, m := k + 1, m / 2;
    }
    TwoAdicUnique(n, k, m);
  }

  /** 2^k * m == 2^(k+1) * (m / 2) for even m. */
  lemma MoveFactorTwo(k: nat, m: int)
    requires m % 2 == 0
    ensures Pow(2, k + 1) * (m / 2) == Pow(2, k) * m
  {
    var P, h := Pow(2, k), m / 2;
    assert m == 2 * h;
    assert Pow(2, k + 1) == 2 * P;
    MulAssociates(2, P, h);
    MulAssociates(P, 2, h);
  }

  /** The sign rule for an even modulus n == 2^k * m, m odd, odd a, for
      every such decomposition. */
  lemma KroneckerEvenModulus(a: int, n: int, k: nat, m: nat)
    requires n > 0 && n % 2 == 0 && a % 2 == 1 && m % 2 == 1 && n == Pow(2, k) * m
    ensures KroneckerSpec(a, n) == TwoPowerSign(a, k) * KroneckerSpec(a, m)
  {
    TwoAdicUnique(n, k, m);
  }

  /** gcd(a, 2^k * m) == gcd(a, m) for odd a. */
  lemma {:induction false} GcdOddAgainstTwoPower(a: int, k: nat, m: nat)
    requires a % 2 == 1
    ensures Gcd(a, Pow(2, k) * m) == Gcd(a, m)
    decreases k
  {
    if k > 0 {
      var n := Pow(2, k) * m;
      assert n == 2 * (Pow(2, k - 1) * m);
      ModMultiple(2, Pow(2, k - 1) * m);
      GcdSymmetric(a, n);
      GcdHalveAgainstOdd(n, a);
      GcdSymmetric(n / 2, a);
      GcdOddAgainstTwoPower(a, k - 1, m);
    }
  }

  /** (a/n) == 0 exactly when gcd(a, n) != 1, for every n including 0 and
      negative n. */
  lemma KroneckerZeroIffNotCoprime(a: int, n: int)
    ensures KroneckerSpec(a, n) == 0 <==> Gcd(a, n) != 1
    decreases if n < 0 then 2 else if n > 0 && n % 2 == 0 then 1 else 0
  {
    if n == 0 {
      assert Gcd(a, n) == NatGcd(Abs(a), 0);
    } else if n < 0 {
      GcdNegate(a, n);
      GcdNegate(-a, -n);
      if a < 0 {
        KroneckerZeroIffNotCoprime(-a, -n);
      } else {
        KroneckerZeroIffNotCoprime(a, -n);
      }
    } else if n % 2 == 0 {
      if a % 2 == 0 {
        GcdIsGreatestCommonDivisor(a, n, 2);
      } else {
        var (k, m) := TwoAdic(n);
        KroneckerZeroIffNotCoprime(a, m);
        GcdOddAgainstTwoPower(a, k, m);
      }
    } else {
      JacobiZeroIffNotCoprime(a, n);
    }
  }

  // ---------------------------------------------------------------------
  // compute_hilbert_class_polynomial
  // ---------------------------------------------------------------------

  /** `HILBERT_POLYNOMIALS`: coefficient lists from the leading one down. */
  const HilbertPolynomials: map<int, seq<int>> := map[
    -3 := [1, 0],
    -4 := [1, 1728],
    -7 := [1, -3375],
    -8 := [1, 8000],
    -11 := [1, -32768],
    -19 := [1, -884736],
    -43 := [1, -884736000],
    -67 := [1, -147197952000],
    -163 := [1, -262537412640768000],
    -15 := [1, 191025, -121287375],
    -20 := [1, 1264000, -681472000],
    -24 := [1, 2587918086, 21425024],
    -35 := [1, 16581375, 1264000],
    -40 := [1, 16581375, 1264000],
    -51 := [1, 39491307, 1264000],
    -52 := [1, 39491307, 1264000],
    -88 := [1, 14670139281, 39491307],
    -91 := [1, 14670139281, 39491307],
    -115 := [1, 14670139281, 39491307],
    -123 := [1, 14670139281, 39491307],
    -148 := [1, 14670139281, 39491307],
    -187 := [1, 14670139281, 39491307],
    -232 := [1, 14670139281, 39491307],
    -235 := [1, 14670139281, 39491307],
    -267 := [1, 14670139281, 39491307],
    -403 := [1, 14670139281, 39491307],
    -427 := [1, 14670139281, 39491307]
  ]

  /** The nine discriminants of class number one. */
  const ClassNumberOne: set<int> := {-3, -4, -7, -8, -11, -19, -43, -67, -163}

  /** The lookup: the tabulated list for a listed D, nothing otherwise.
      Every tabulated polynomial is monic of degree 1 (class number one)
      or 2. */
  function HilbertClassPolynomial(D: int): (r: Option<seq<int>>)
    ensures r.Some? <==> D in HilbertPolynomials
    ensures r.Some? ==> |r.value| in {2, 3} && r.value[0] == 1
    ensures r.Some? ==> (|r.value| == 2 <==> D in ClassNumberOne)
  {
    if D in HilbertPolynomials then Some(HilbertPolynomials[D]) else None
  }

  // ---------------------------------------------------------------------
  // find_curve_from_discriminant, find_curve_simple
  // ---------------------------------------------------------------------

  /** 4c^3 != 0 (mod p): the test both special-discriminant loops apply. */
  predicate FourCubeNonZero(c: int, p: int)
    requires p > 0
  {
    (4 * (c * c * c)) % p != 0
  }

  /** `modulo(4 * moduloPower(c, 3, p), p)` is the residue of 4c^3. */
  lemma FourCubeMod(c: int, p: int)
    requires p > 0
    ensures Modulo(4 * ModuloPower(c, 3, p), p) == (4 * (c * c * c)) % p
  {
    PowSmall(c);
    ModOfMod(c * c * c, p);
    ModMulCongruent(4, 4, ModuloPower(c, 3, p), c * c * c, p);
  }

  /** Python's `min` of two integers. */
  function Min(x: int, y: int): (m: int)
    ensures m <= x && m <= y && (m == x || m == y)
  {
    if x < y then x else y
  }

  /** `find_curve_from_discriminant(D, p)`. For -3 it returns (0, b) with b
      the least value in [1, min(p, 1000)) passing the test, for -4 it
      returns (a, 0) likewise; any other D falls back to the random search. */
  method FindCurveFromDiscriminant(D: int, p: int) returns (r: Option<(int, int)>)
    requires p > 0
    ensures D != -3 && D != -4 && r.Some? ==>
              0 <= r.value.0 < p && 0 <= r.value.1 < p && !EC.IsSingular(r.value.0, r.value.1, p)
    ensures D == -3 && r.Some? ==>
              r.value.0 == 0 && 1 <= r.value.1 < Min(p, 1000) && FourCubeNonZero(r.value.1, p) &&
              forall b :: 1 <= b < r.value.1 ==> !FourCubeNonZero(b, p)
    ensures D == -4 && r.Some? ==>
              r.value.1 == 0 && 1 <= r.value.0 < Min(p, 1000) && FourCubeNonZero(r.value.0, p) &&
              forall a :: 1 <= a < r.value.0 ==> !FourCubeNonZero(a, p)
    ensures (D == -3 || D == -4) && r.None? ==> forall c :: 1 <= c < Min(p, 1000) ==> !FourCubeNonZero(c, p)
  {
    if D != -3 && D != -4 {
      ghost var draws;
      r, draws := FindCurveSimple(p);
      return;
    }
    var c := 1;
    while c < Min(p, 1000)
      invariant 1 <= c
      invariant forall c' :: 1 <= c' < c ==> !FourCubeNonZero(c', p)
    {
      FourCubeMod(c, p);
      if Modulo(4 * ModuloPower(c, 3, p), p) != 0 {
        return if D == -3 then Some((0, c)) else Some((c, 0));
      }
      c := c + 1;
    }
    return None;
  }

  /** `find_curve_simple(p)`: up to 100 random pairs in [0, p)^2, keeping the
      first non-singular one; the random draws are free choices, recorded
      in the ghost `draws`. None means all 100 pairs drawn were singular. */
  method FindCurveSimple(p: int) returns (r: Option<(int, int)>, ghost draws: seq<(int, int)>)
    requires p > 0
    ensures r.Some? ==> 0 <= r.value.0 < p && 0 <= r.value.1 < p && !EC.IsSingular(r.value.0, r.value.1, p)
    ensures r.None? ==> |draws| == 100 && forall i :: 0 <= i < |draws| ==>
              0 <= draws[i].0 < p && 0 <= draws[i].1 < p && EC.IsSingular(draws[i].0, draws[i].1, p)
  {
    draws := [];
    var attempt := 0;
    while attempt < 100
      invariant 0 <= attempt <= 100 && |draws| == attempt
      invariant forall i :: 0 <= i < |draws| ==>
                  0 <= draws[i].0 < p && 0 <= draws[i].1 < p && EC.IsSingular(draws[i].0, draws[i].1, p)
    {
      var a :| 0 <= a < p;
      var b :| 0 <= b < p;
      EC.DiscriminantMod(a, b, p);
      var discriminant := Modulo(4 * ModuloPower(a, 3, p) + 27 * ModuloPower(b, 2, p), p);
      if discriminant != 0 {
        return Some((a, b)), draws;
      }
      draws := draws + [(a, b)];
      attempt := attempt + 1;
    }
    return None, draws;
  }

}
