// AKS_Algorithm.py: the search for r (step 2, with its floating-point bound
// (log2 n)^2 passed in as an integer), polynomial multiplication and powering
// modulo (x^r - 1, n), and steps 3 to 5 of `is_prime_aks`. `gcd_in_prime`
// and `multiplicative_order` have the same text as in Prime_All.py and are
// PrimeAll.GcdInPrime and PrimeAll.MultiplicativeOrder.

module Aks {
  import opened NumberTheory
  import opened Polynomials
  import PrimeAll

  // ---------------------------------------------------------------------
  // find_r
  // ---------------------------------------------------------------------

  /** The order of n modulo r exceeds the bound: r is coprime to n and no
      n^k with 1 <= k <= bound is 1 modulo r. */
  predicate OrderExceeds(n: int, r: nat, bound: nat)
    requires r > 0
  {
    Gcd(n, r) == 1 && forall k :: 1 <= k <= bound ==> Pow(n, k) % r != 1
  }

  /** The inner loop of both r searches (AKS_Algorithm.py:67-80,
      new_AKS.py:77-86): n, n^2, ... modulo r in turn, stopping at the first
      1; it passes when no power up to the bound is 1. */
  method NoSmallOrder(n: int, r: nat, bound: nat) returns (passes: bool)
    requires r > 0
    ensures passes <==> forall k :: 1 <= k <= bound ==> Pow(n, k) % r != 1
  {
    var k := 1;
    var result := n % r;
    assert Pow(n, 1) == n;
    while k <= bound
      invariant 1 <= k <= bound + 1
      invariant result == Pow(n, k) % r
      invariant forall j :: 1 <= j < k ==> Pow(n, j) % r != 1
    {
      if result == 1 {
        break;
      }
      PowStep(n, k, r);
      result := (result * n) % r;
      k := k + 1;
    }
    passes := k > bound;
  }

  lemma PowStep(n: int, k: nat, r: nat)
    requires r > 0
    ensures ((Pow(n, k) % r) * n) % r == Pow(n, k + 1) % r
  {
    var x := Pow(n, k);
    ModOfMod(x, r);
    ModMulCongruent(x % r, x, n, n, r);
    PrimeAll.PowSucc(n, k);
  }

  /** `find_r(n)`: the least r >= 2 whose order for n exceeds the bound. The
      source loops without limit; the search ends because n^(bound+1) + 1
      always qualifies. */
  method FindR(n: int, bound: nat) returns (r: nat)
    requires n >= 1 && (n == 1 ==> bound == 0)
    ensures r >= 2 && OrderExceeds(n, r, bound)
    ensures forall s: nat :: 2 <= s < r ==> !OrderExceeds(n, s, bound)
  {
    ghost var top := Pow(n, bound + 1) + 1;
    LargeModulusQualifies(n, bound);
    r := 2;
    while true
      invariant 2 <= r <= top
      invariant forall s: nat :: 2 <= s < r ==> !OrderExceeds(n, s, bound)
      decreases top - r
    {
      if Gcd(n, r) != 1 {
        r := r + 1;
        continue;
      }
      var passes := NoSmallOrder(n, r, bound);
      if passes {
        return;
      }
      r := r + 1;
    }
  }

  /** n^(bound+1) + 1 is coprime to n and exceeds every n^k with k <= bound,
      so none of those powers is 1 modulo it. */
  lemma LargeModulusQualifies(n: int, bound: nat)
    requires n >= 1 && (n == 1 ==> bound == 0)
    ensures Pow(n, bound + 1) + 1 >= 2 && OrderExceeds(n, Pow(n, bound + 1) + 1, bound)
  {
    var top := Pow(n, bound + 1) + 1;
    var g := Gcd(n, top);
    GcdIsGreatestCommonDivisor(n, top, g);
    DividesMultiple(g, n, Pow(n, bound));
    DividesLinear(g, top, n * Pow(n, bound), 1);
    assert top - 1 * (n * Pow(n, bound)) == 1;
    DividesLe(g, 1);
    if g == 0 {
      assert false;
    }
    forall k | 1 <= k <= bound
      ensures Pow(n, k) % top != 1
    {
      PowMonotone(n, 1, k);
      PowMonotone(n, k, bound + 1);
      assert Pow(n, 1) == n;
      DivModUnique(Pow(n, k), top, 0, Pow(n, k));
    }
  }

  // ---------------------------------------------------------------------
  // poly_mul and poly_pow
  // ---------------------------------------------------------------------

  /** `poly_mul(p1, p2, r, n)`: every pair of coefficients is multiplied
      modulo n and added into index (i + j) mod r of an r-entry buffer, which
      is then trimmed. */
  method PolyMul(p1: seq<int>, p2: seq<int>, r: nat, n: nat) returns (res: seq<int>)
    requires r > 0 && n > 0
    ensures res == Trim(Product(p1, p2, r, n))
    ensures 1 <= |res| <= r && Reduced(res, n)
    ensures |res| > 1 ==> res[|res| - 1] != 0
  {
    var acc := new int[r](_ => 0);
    for i := 0 to |p1|
      invariant forall k :: 0 <= k < r ==> acc[k] == ProductUpTo(p1, p2, r, n, k, i) % n
    {
      AddRow(acc, p1, p2, r, n, i);
    }
    assert acc[..] == Product(p1, p2, r, n);
    res := TrimZeros(acc[..]);
  }

  /** The inner loop of `poly_mul`: row i of the pairs. */
  method AddRow(acc: array<int>, p1: seq<int>, p2: seq<int>, r: nat, n: nat, i: nat)
    requires r > 0 && n > 0 && acc.Length == r && i < |p1|
    requires forall k :: 0 <= k < r ==> acc[k] == ProductUpTo(p1, p2, r, n, k, i) % n
    modifies acc
    ensures forall k :: 0 <= k < r ==> acc[k] == ProductUpTo(p1, p2, r, n, k, i + 1) % n
  {
    for j := 0 to |p2|
      invariant forall k :: 0 <= k < r ==>
                  acc[k] == (ProductUpTo(p1, p2, r, n, k, i) + Sum(Row(Term(p1, p2, r, n, k), i), j)) % n
    {
      AddPair(acc, p1, p2, r, n, i, j);
    }
  }

  /** `result[(i + j) % r] = (result[(i + j) % r] + p1[i] * p2[j]) % n`:
      the running sums take in the term of the pair (i, j). */
  method AddPair(acc: array<int>, p1: seq<int>, p2: seq<int>, r: nat, n: nat, i: nat, j: nat)
    requires r > 0 && n > 0 && acc.Length == r && i < |p1| && j < |p2|
    requires forall k :: 0 <= k < r ==>
               acc[k] == (ProductUpTo(p1, p2, r, n, k, i) + Sum(Row(Term(p1, p2, r, n, k), i), j)) % n
    modifies acc
    ensures forall k :: 0 <= k < r ==>
              acc[k] == (ProductUpTo(p1, p2, r, n, k, i) + Sum(Row(Term(p1, p2, r, n, k), i), j + 1)) % n
  {
    var coeff := (p1[i] * p2[j]) % n;
    var power := (i + j) % r;
    ghost var before := acc[..];
    acc[power] := (acc[power] + coeff) % n;
    forall k | 0 <= k < r
      ensures acc[k] == (ProductUpTo(p1, p2, r, n, k, i) + Sum(Row(Term(p1, p2, r, n, k), i), j + 1)) % n
    {
      PairStep(p1, p2, r, n, k, i, j, before[k]);
    }
  }

  /** Adding pair (i, j) moves coefficient k on by that pair's term. */
  lemma PairStep(p1: seq<int>, p2: seq<int>, r: nat, n: nat, k: int, i: nat, j: nat, old_: int)
    requires r > 0 && n > 0 && i < |p1| && j < |p2|
    requires old_ == (ProductUpTo(p1, p2, r, n, k, i) + Sum(Row(Term(p1, p2, r, n, k), i), j)) % n
    ensures (if (i + j) % r == k then (old_ + (p1[i] * p2[j]) % n) % n else old_)
         == (ProductUpTo(p1, p2, r, n, k, i) + Sum(Row(Term(p1, p2, r, n, k), i), j + 1)) % n
  {
    var b := ProductUpTo(p1, p2, r, n, k, i) + Sum(Row(Term(p1, p2, r, n, k), i), j);
    var c := (p1[i] * p2[j]) % n;
    assert Sum(Row(Term(p1, p2, r, n, k), i), j + 1)
        == Sum(Row(Term(p1, p2, r, n, k), i), j) + (if (i + j) % r == k then c else 0);
    if (i + j) % r == k {
      ModOfMod(b, n);
      ModAddCongruent(b % n, b, c, c, n);
    }
  }

  /** The trimming loop of `poly_mul` and of step 5: trailing zeros are
      popped while more than one coefficient is left. */
  method TrimZeros(s: seq<int>) returns (t: seq<int>)
    requires |s| >= 1
    ensures t == Trim(s)
  {
    t := s;
    while |t| > 1 && t[|t| - 1] == 0
      invariant 1 <= |t| <= |s| && t == s[..|t|]
      invariant forall i :: |t| <= i < |s| ==> s[i] == 0
    {
      t := t[..|t| - 1];
    }
    TrimUnique(s, |t|);
  }

  /** `poly_pow(poly, e, r, n)`: square-and-multiply with `poly_mul`. For
      e == 0 the result is [1]; otherwise it is poly^e modulo (x^r - 1, n),
      the e-fold product, trimmed. */
  method PolyPow(poly: seq<int>, e: nat, r: nat, n: nat) returns (res: seq<int>)
    requires r > 0 && n > 0
    ensures e == 0 ==> res == [1]
    ensures e > 0 && |poly| <= r ==> res == Trim(PowSpec(poly, e, r, n))
    ensures 1 <= |res| <= r
  {
    res := [1];
    var temp := poly;
    var k := e;
    ghost var multiplied := false;
    ghost var full: seq<int> := [];
    if |poly| <= r {
      StartPow(poly, e, r, n);
    }
    while k > 0
      invariant 1 <= |res| <= r
      invariant |poly| <= r ==>
                  |temp| <= r && Conv(res, PowSpec(temp, k, r, n), r, n) == PowSpec(poly, e, r, n)
      invariant multiplied ==> |full| == r && Reduced(full, n) && res == Trim(full)
      invariant !multiplied ==> res == [1]
      invariant e > 0 && k == 0 ==> multiplied
      invariant e == 0 ==> k == 0 && !multiplied
      decreases k
    {
      ghost var res0, temp0, k0 := res, temp, k;
      if k % 2 == 1 {
        full := Product(res, temp, r, n);
        res := PolyMul(res, temp, r, n);
        multiplied := true;
      }
      temp := PolyMul(temp, temp, r, n);
      k := k / 2;
      if |poly| <= r {
        PowLoopStep(res0, temp0, res, temp, k0, r, n);
      }
    }
    if e > 0 && |poly| <= r {
      FinishPow(res, full, PowSpec(poly, e, r, n), r, n);
    }
  }

  lemma StartPow(poly: seq<int>, e: nat, r: nat, n: nat)
    requires r > 0 && n > 0
    ensures Conv([1], PowSpec(poly, e, r, n), r, n) == PowSpec(poly, e, r, n)
  {
    ConvOne(PowSpec(poly, e, r, n), r, n);
    PowSpecReduced(poly, e, r, n);
    ReduceReduced(PowSpec(poly, e, r, n), r, n);
  }

  /** One iteration of `poly_pow` keeps res * temp^k, since each `poly_mul`
      result has the coefficients of the cyclic product. */
  lemma PowLoopStep(res0: seq<int>, temp0: seq<int>, res: seq<int>, temp: seq<int>, k0: nat, r: nat, n: nat)
    requires r > 0 && n > 0 && k0 > 0 && |temp0| <= r && |res0| <= r
    requires temp == Trim(Product(temp0, temp0, r, n))
    requires k0 % 2 == 1 ==> res == Trim(Product(res0, temp0, r, n))
    requires k0 % 2 == 0 ==> res == res0
    ensures Conv(res, PowSpec(temp, k0 / 2, r, n), r, n) == Conv(res0, PowSpec(temp0, k0, r, n), r, n)
  {
    ProductIsConv(temp0, temp0, r, n);
    TrimCoeff(Product(temp0, temp0, r, n));
    if k0 % 2 == 1 {
      ProductIsConv(res0, temp0, r, n);
      TrimCoeff(Product(res0, temp0, r, n));
    }
    SquareAndMultiplyStep(res0, temp0, res, temp, k0, r, n);
  }

  /** When the loop ends, res * 1 is the reduced res, which is the full
      product it was trimmed from. */
  lemma FinishPow(res: seq<int>, full: seq<int>, target: seq<int>, r: nat, n: nat)
    requires r > 0 && n > 0 && |full| == r && Reduced(full, n) && res == Trim(full)
    requires Conv(res, Unit(r, n), r, n) == target
    ensures res == Trim(target)
  {
    ConvCommutes(res, Unit(r, n), r, n);
    ConvReduceLeft([1], res, r, n);
    ConvOne(res, r, n);
    var reduced := Reduce(res, r, n);
    assert target == reduced;
    forall i | 0 <= i < r
      ensures reduced[i] == full[i]
    {
      TrimCoeffAt(full, i);
      assert Coeff(res, i) == full[i];
      DivModUnique(full[i], n, 0, full[i]);
    }
    assert reduced == full;
  }

  // ---------------------------------------------------------------------
  // is_prime_aks, steps 3 to 5
  // ---------------------------------------------------------------------

  /** The right-hand side of step 5 as the source builds it before trimming:
      [a], widened with zeros up to index n mod r, with 1 added there modulo
      n. */
  function RightSideUntrimmed(a: int, n: nat, r: nat): (c: seq<int>)
    requires r > 0 && n > 0
    ensures |c| == n % r + 1
  {
    var power := n % r;
    var base := [a] + seq(power, _ => 0);
    base[power := (base[power] + 1) % n]
  }

  /** Step 5's right-hand side: x^(n mod r) + a, trimmed. The constant a is
      not reduced modulo n unless it shares index 0 with the monomial. */
  method RightSide(a: int, n: nat, r: nat) returns (p: seq<int>)
    requires r > 0 && n > 0
    ensures p == Trim(RightSideUntrimmed(a, n, r))
    ensures 0 <= a < n ==> p == Trim(MonomialPlusConstant(a, n % r, r, n))
    ensures n % r != 0 ==> Coeff(p, 0) == a
  {
    var power := n % r;
    p := [a];
    if |p| <= power {
      p := p + seq(power - |p| + 1, _ => 0);
    }
    p := p[power := (p[power] + 1) % n];
    assert p == RightSideUntrimmed(a, n, r);
    ghost var u := p;
    p := TrimZeros(p);
    TrimCoeffAt(u, 0);
    if 0 <= a < n {
      RightSideMeaning(a, n, r);
    }
  }

  /** For 0 <= a < n the list the source builds has the coefficients of
      x^(n mod r) + a modulo (x^r - 1, n). */
  lemma RightSideMeaning(a: int, n: nat, r: nat)
    requires r > 0 && n > 0 && 0 <= a < n
    ensures Trim(RightSideUntrimmed(a, n, r)) == Trim(MonomialPlusConstant(a, n % r, r, n))
  {
    var u, m := RightSideUntrimmed(a, n, r), MonomialPlusConstant(a, n % r, r, n);
    forall i
      ensures Coeff(u, i) == Coeff(m, i)
    {
      if 0 <= i < r {
        DivModUnique(a, n, 0, a);
        assert 0 % n == 0;
      }
    }
    TrimEqualByCoeff(u, m);
  }

  /** x^e is x^(e mod r) modulo (x^r - 1, n): the monomial on the right of
      step 5 is the power of x that the left-hand side raises. */
  lemma {:induction false} MonomialPower(e: nat, r: nat, n: nat)
    requires r >= 2 && n > 0
    ensures PowSpec([0, 1], e, r, n) == MonomialPlusConstant(0, e % r, r, n)
  {
    if e == 0 {
      assert PowSpec([0, 1], 0, r, n) == Unit(r, n);
      assert 0 % r == 0;
    } else {
      MonomialPower(e - 1, r, n);
      ShiftMonomial((e - 1) % r, r, n);
      ModAdd(e - 1, 1, r);
      ModOfMod(e - 1, r);
      DivModUnique(1, r, 0, 1);
      assert Conv(PowSpec([0, 1], e - 1, r, n), [0, 1], r, n) == PowSpec([0, 1], e, r, n);
    }
  }

  /** Multiplying x^s by x moves its coefficient one place round Z_r. */
  lemma ShiftMonomial(s: nat, r: nat, n: nat)
    requires r >= 2 && n > 0 && s < r
    ensures Conv(MonomialPlusConstant(0, s, r, n), [0, 1], r, n) == MonomialPlusConstant(0, (s + 1) % r, r, n)
  {
    var m := MonomialPlusConstant(0, s, r, n);
    var m' := MonomialPlusConstant(0, (s + 1) % r, r, n);
    forall k | 0 <= k < r
      ensures Conv(m, [0, 1], r, n)[k] == m'[k]
    {
      var f := ConvTerms(m, [0, 1], r, k);
      forall i: nat | i < r && i != s
        ensures f(i) == 0
      {
        assert m[i] == 0 % n == 0;
      }
      SumAt(f, r, s);
      IndexAfter(k, s, r);
      assert m[s] == 1 % n;
      if k == (s + 1) % r {
        assert f(s) == 1 % n;
        ModOfMod(1, n);
      } else {
        assert f(s) == 0;
      }
    }
  }

  lemma IndexAfter(k: int, s: int, r: nat)
    requires r >= 2 && 0 <= k < r && 0 <= s < r
    ensures (k - s) % r == 1 <==> k == (s + 1) % r
  {
    DivModUnique(1, r, 0, 1);
    if s + 1 < r {
      DivModUnique(s + 1, r, 0, s + 1);
    } else {
      DivModUnique(s + 1, r, 1, 0);
    }
    if k >= s {
      DivModUnique(k - s, r, 0, k - s);
    } else {
      DivModUnique(k - s, r, -1, k - s + r);
    }
  }

  /** Step 5 passes for a when (x + a)^n, as `poly_pow` computes it, equals
      the right-hand side as the source builds it. */
  ghost predicate CongruencePasses(a: int, n: nat, r: nat)
    requires r > 0 && n > 0
  {
    Trim(PowSpec([a, 1], n, r, n)) == Trim(RightSideUntrimmed(a, n, r))
  }

  /** For 0 <= a < n step 5 tests exactly the AKS congruence
      (x + a)^n == x^n + a modulo (x^r - 1, n), with x^n read as x^(n mod r). */
  lemma CongruenceMeaning(a: int, n: nat, r: nat)
    requires r > 0 && n > 0 && 0 <= a < n
    ensures CongruencePasses(a, n, r) <==> PowSpec([a, 1], n, r, n) == MonomialPlusConstant(a, n % r, r, n)
  {
    RightSideMeaning(a, n, r);
    TrimInjective(PowSpec([a, 1], n, r, n), MonomialPlusConstant(a, n % r, r, n));
  }

  /** Steps 3 to 5 of `is_prime_aks(n)` for the r found in step 2 and the
      bound `limit_a` (a float expression in the source, passed in): false
      if some a <= r has a nontrivial gcd with n; true if n <= r; otherwise
      true exactly when the congruence holds for every a up to the bound. */
  method AksSteps(n: int, r: nat, limitA: nat) returns (prime: bool)
    requires n >= 1 && r >= 2
    ensures prime <==>
              (forall a :: 1 <= a <= r ==> !(1 < Gcd(a, n) < n)) &&
              (n <= r || forall a :: 1 <= a <= limitA ==> CongruencePasses(a, n, r))
  {
    var coprime := NoSharedFactor(n, r);
    if !coprime {
      return false;
    }
    if n <= r {
      return true;
    }
    prime := AllCongruencesPass(n, r, limitA);
  }

  /** Step 3: no a in [1, r] has 1 < gcd(a, n) < n. */
  method NoSharedFactor(n: int, r: nat) returns (ok: bool)
    ensures ok <==> forall a :: 1 <= a <= r ==> !(1 < Gcd(a, n) < n)
  {
    for a := 1 to r + 1
      invariant forall b :: 1 <= b < a ==> !(1 < Gcd(b, n) < n)
    {
      var g := Gcd(a, n);
      if 1 < g < n {
        return false;
      }
    }
    return true;
  }

  lemma ExtendPasses(n: nat, r: nat, a: int)
    requires n > r >= 2
    requires forall b :: 1 <= b < a ==> CongruencePasses(b, n, r)
    requires CongruencePasses(a, n, r)
    ensures forall b :: 1 <= b < a + 1 ==> CongruencePasses(b, n, r)
  {
    forall b | 1 <= b < a + 1
      ensures CongruencePasses(b, n, r)
    {
      if b != a {
        assert 1 <= b < a;
      }
    }
  }

  /** Step 5: the congruence for every a in [1, limit_a]. */
  method AllCongruencesPass(n: nat, r: nat, limitA: nat) returns (ok: bool)
    requires n > r >= 2
    ensures ok <==> forall a :: 1 <= a <= limitA ==> CongruencePasses(a, n, r)
  {
    for a := 1 to limitA + 1
      invariant forall b :: 1 <= b < a ==> CongruencePasses(b, n, r)
    {
      var left := PolyPow([a, 1], n, r, n);
      var right := RightSide(a, n, r);
      if left != right {
        assert !CongruencePasses(a, n, r);
        return false;
      }
      assert CongruencePasses(a, n, r);
      ExtendPasses(n, r, a);
    }
    return true;
  }
}
