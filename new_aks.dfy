// new_AKS.py: the Miller-Rabin pre-filter with a fixed witness list, the
// bounded search for r, the `PolyMod` class of polynomials modulo
// (x^r - 1, n) and the step-5 congruence test for one a. The gmpy2 calls
// `powmod` and `gcd` are NumberTheory.ModuloPower and NumberTheory.Gcd.

module NewAks {
  import opened NumberTheory
  import opened Polynomials
  import Aks

  // ---------------------------------------------------------------------
  // miller_rabin_fast
  // ---------------------------------------------------------------------

  /** The fixed witness list of `miller_rabin_fast`. */
  const Witnesses: seq<nat> := [2, 3, 5, 7, 11, 13, 17, 19, 23, 29, 31, 37]

  /** `witnesses[:k]`: a negative k counts from the end, as Python slicing
      does. */
  function FirstWitnesses(k: int): (w: seq<nat>)
    ensures w <= Witnesses
    ensures k >= 0 ==> |w| == if k < |Witnesses| then k else |Witnesses|
    ensures k < 0 ==> |w| == if -k < |Witnesses| then |Witnesses| + k else 0
  {
    var m := |Witnesses|;
    var end := if k >= m then m else if k >= 0 then k else if -k < m then m + k else 0;
    Witnesses[..end]
  }

  /** The exponent of 2 in m > 0. */
  function TwoExponent(m: nat): (s: nat)
    requires m > 0
    ensures m % 2 == 0 <==> s > 0
  {
    if m % 2 == 1 then 0 else 1 + TwoExponent(m / 2)
  }

  /** m with every factor 2 divided out. */
  function OddPart(m: nat): (d: nat)
    requires m > 0
  {
    if m % 2 == 1 then m else OddPart(m / 2)
  }

  /** m is 2^TwoExponent(m) * OddPart(m), with the odd part odd. */
  lemma {:induction false} OddPartDecomposes(m: nat)
    requires m > 0
    ensures m == Pow(2, TwoExponent(m)) * OddPart(m) && OddPart(m) % 2 == 1
  {
    if m % 2 == 0 {
      OddPartDecomposes(m / 2);
      assert Pow(2, TwoExponent(m)) == 2 * Pow(2, TwoExponent(m / 2));
      MulAssociates(2, Pow(2, TwoExponent(m / 2)), OddPart(m));
    }
  }

  /** The halving loop of `miller_rabin_fast`: n - 1 == 2^s * d with d odd. */
  method SplitPowerOfTwo(m: nat) returns (d: nat, s: nat)
    requires m > 0
    ensures d == OddPart(m) && s == TwoExponent(m)
    ensures m == Pow(2, s) * d && d % 2 == 1
  {
    d, s := m, 0;
    while d % 2 == 0
      invariant d > 0
      invariant OddPart(d) == OddPart(m) && s + TwoExponent(d) == TwoExponent(m)
      decreases d
    {
      d := d / 2;
      s := s + 1;
    }
    OddPartDecomposes(m);
  }

  /** x squared j times modulo n. */
  function Squarings(x: int, j: nat, n: int): int
    requires n > 0
  {
    if j == 0 then x else (Squarings(x, j - 1, n) * Squarings(x, j - 1, n)) % n
  }

  lemma SquaringsStep(x: int, j: nat, n: int)
    requires n > 0
    ensures Squarings(x, j + 1, n) == (Squarings(x, j, n) * Squarings(x, j, n)) % n
  {
  }

  lemma PowTwo(x: int)
    ensures Pow(x, 2) == x * x
  {
    assert Pow(x, 1) == x * Pow(x, 0);
  }

  /** Witness a passes for n - 1 == 2^s * d: a^d mod n is 1 or n - 1, or one
      of the next s - 1 squarings modulo n reaches n - 1. */
  predicate WitnessPasses(a: int, n: int, d: nat, s: nat)
    requires n > 1
  {
    var x := Pow(a, d) % n;
    x == 1 || x == n - 1 || exists j :: 1 <= j < s && Squarings(x, j, n) == n - 1
  }

  /** The body of the witness loop for one a < n. */
  method CheckWitness(a: int, n: int, d: nat, s: nat) returns (passes: bool)
    requires n > 1
    ensures passes <==> WitnessPasses(a, n, d, s)
  {
    var x := ModuloPower(a, d, n);
    if x == 1 || x == n - 1 {
      return true;
    }
    ghost var x0 := x;
    var composite := true;
    var j := 0;
    while j < s - 1
      invariant 0 <= j && (s >= 1 ==> j <= s - 1)
      invariant x == Squarings(x0, j, n)
      invariant composite && forall i :: 1 <= i <= j ==> Squarings(x0, i, n) != n - 1
    {
      PowTwo(x);
      SquaringsStep(x0, j, n);
      x := ModuloPower(x, 2, n);
      j := j + 1;
      if x == n - 1 {
        composite := false;
        break;
      }
    }
    passes := !composite;
  }

  /** Every listed witness below n passes (n odd and above 3). */
  predicate AllWitnessesPass(n: int, k: int)
    requires n > 3 && n % 2 == 1
  {
    var w := FirstWitnesses(k);
    forall i :: 0 <= i < |w| && w[i] < n ==> WitnessPasses(w[i], n, OddPart(n - 1), TwoExponent(n - 1))
  }

  /** `miller_rabin_fast(n, k)`: false below 2 and for even n > 2, true for 2
      and 3, and otherwise true exactly when every witness among the first k
      that is below n passes. */
  method MillerRabinFast(n: int, k: int) returns (probablyPrime: bool)
    ensures n < 2 ==> !probablyPrime
    ensures n == 2 || n == 3 ==> probablyPrime
    ensures n > 3 && n % 2 == 0 ==> !probablyPrime
    ensures n > 3 && n % 2 == 1 ==> (probablyPrime <==> AllWitnessesPass(n, k))
  {
    if n < 2 {
      return false;
    }
    if n == 2 || n == 3 {
      return true;
    }
    if n % 2 == 0 {
      return false;
    }
    var d, s := SplitPowerOfTwo(n - 1);
    var w := FirstWitnesses(k);
    for i := 0 to |w|
      invariant forall t :: 0 <= t < i && w[t] < n ==> WitnessPasses(w[t], n, d, s)
    {
      var a := w[i];
      if a >= n {
        continue;
      }
      var passes := CheckWitness(a, n, d, s);
      if !passes {
        return false;
      }
    }
    return true;
  }

  /** The squarings of the loop are the powers a^(d * 2^j) modulo n. */
  lemma {:induction false} SquaringsArePowers(a: int, d: nat, j: nat, n: int)
    requires n > 0
    ensures Squarings(Pow(a, d) % n, j, n) == Pow(a, d * Pow(2, j)) % n
  {
    if j > 0 {
      SquaringsArePowers(a, d, j - 1, n);
      var e := d * Pow(2, j - 1);
      var y := Pow(a, e);
      ModMul(y, y, n);
      PowSquare(a, e);
      DoubleExponent(d, j);
      SquaringsStep(Pow(a, d) % n, j - 1, n);
    }
  }

  lemma DoubleExponent(d: nat, j: nat)
    requires j > 0
    ensures d * Pow(2, j) == 2 * (d * Pow(2, j - 1))
  {
    var q := Pow(2, j - 1);
    assert Pow(2, j) == 2 * q;
  }

  /** A prime n satisfying Fermat's congruence a^(n-1) == 1 (mod n) is never
      rejected by witness a: the first 1 in the chain of squarings is either
      a^d itself or preceded by a square root of 1, which modulo a prime is
      n - 1. */
  lemma PrimePassesWitness(a: int, n: int)
    requires IsPrime(n) && n > 3 && n % 2 == 1
    requires Pow(a, n - 1) % n == 1
    ensures WitnessPasses(a, n, OddPart(n - 1), TwoExponent(n - 1))
  {
    var d, s := OddPart(n - 1), TwoExponent(n - 1);
    var x0 := Pow(a, d) % n;
    ChainEndsInOne(a, n, d, s);
    var j := FirstOne(x0, s, n);
    if j > 0 {
      var y := Squarings(x0, j - 1, n);
      SquaringsStep(x0, j - 1, n);
      SquaringsInRange(x0, j - 1, n);
      RootOfOne(n, y);
      if j - 1 > 0 {
        assert 1 <= j - 1 < s && Squarings(x0, j - 1, n) == n - 1;
      }
    }
  }

  /** After s squarings a^d becomes a^(n-1), which is 1 by assumption. */
  lemma ChainEndsInOne(a: int, n: int, d: nat, s: nat)
    requires n > 3 && n % 2 == 1 && d == OddPart(n - 1) && s == TwoExponent(n - 1)
    requires Pow(a, n - 1) % n == 1
    ensures Squarings(Pow(a, d) % n, s, n) == 1
  {
    OddPartDecomposes(n - 1);
    SquaringsArePowers(a, d, s, n);
    assert d * Pow(2, s) == n - 1;
  }

  /** Modulo a prime, the only square root of 1 other than 1 is n - 1. */
  lemma RootOfOne(n: int, y: int)
    requires IsPrime(n) && 0 <= y < n && (y * y) % n == 1 && y != 1
    ensures y == n - 1
  {
    assert (y * y) % n == (1 * 1) % n;
    SquareRootsModPrime(n, y, 1);
    if (y - 1) % n == 0 {
      if y == 0 {
        DivModUnique(-1, n, -1, n - 1);
      } else {
        DivModUnique(y - 1, n, 0, y - 1);
      }
    } else {
      DivModUnique(y + 1, n, if y + 1 == n then 1 else 0, if y + 1 == n then 0 else y + 1);
    }
  }

  /** The first index of the chain of squarings that is 1. */
  lemma FirstOne(x0: int, s: nat, n: int) returns (j: nat)
    requires n > 1 && Squarings(x0, s, n) == 1
    ensures j <= s && Squarings(x0, j, n) == 1
    ensures forall i :: 0 <= i < j ==> Squarings(x0, i, n) != 1
  {
    j := 0;
    while Squarings(x0, j, n) != 1
      invariant j <= s
      invariant forall i :: 0 <= i < j ==> Squarings(x0, i, n) != 1
      decreases s - j
    {
      j := j + 1;
    }
  }

  lemma SquaringsInRange(x0: int, j: nat, n: int)
    requires n > 1 && 0 <= x0 < n
    ensures 0 <= Squarings(x0, j, n) < n
  {
  }

  /** With Fermat's congruence for every listed witness below n, a prime n
      is reported probably prime. */
  lemma MillerRabinAcceptsPrimes(n: int, k: int)
    requires IsPrime(n) && n > 3 && n % 2 == 1
    requires forall a :: a in FirstWitnesses(k) && a < n ==> Pow(a, n - 1) % n == 1
    ensures AllWitnessesPass(n, k)
  {
    var w := FirstWitnesses(k);
    forall i | 0 <= i < |w| && w[i] < n
      ensures WitnessPasses(w[i], n, OddPart(n - 1), TwoExponent(n - 1))
    {
      assert w[i] in w;
      PrimePassesWitness(w[i], n);
    }
  }

  // ---------------------------------------------------------------------
  // find_r_optimized
  // ---------------------------------------------------------------------

  /** `int.bit_length()` of m >= 0. */
  function BitLength(m: nat): (b: nat)
    ensures m == 0 <==> b == 0
    ensures m > 0 ==> Pow(2, b - 1) <= m < Pow(2, b)
  {
    if m == 0 then 0
    else
      var b' := BitLength(m / 2);
      assert Pow(2, b' + 1) == 2 * Pow(2, b');
      b' + 1
  }

  /** The search limit: min(bitlen(n)^5, n - 1). */
  function MaxR(n: int): int
  {
    var l := BitLength(Abs(n));
    if Pow(l, 5) < n - 1 then Pow(l, 5) else n - 1
  }

  /** The order bound bitlen(n)^2. */
  function OrderBound(n: int): nat
  {
    BitLength(Abs(n)) * BitLength(Abs(n))
  }

  /** `find_r_optimized(n)`: the least r in [2, MaxR(n)] whose order for n
      exceeds bitlen(n)^2; when there is none, the first value past the
      limit (and 2 when the limit is below 2). */
  method FindROptimized(n: int) returns (r: int)
    ensures r >= 2
    ensures forall s: nat :: 2 <= s < r ==> !Aks.OrderExceeds(n, s, OrderBound(n))
    ensures r <= MaxR(n) ==> Aks.OrderExceeds(n, r, OrderBound(n))
    ensures r > MaxR(n) ==> r == if MaxR(n) < 2 then 2 else MaxR(n) + 1
  {
    var bound := OrderBound(n);
    var maxR := MaxR(n);
    r := 2;
    while r <= maxR
      invariant r >= 2 && (maxR >= 2 ==> r <= maxR + 1) && (maxR < 2 ==> r == 2)
      invariant forall s: nat :: 2 <= s < r ==> !Aks.OrderExceeds(n, s, bound)
      decreases maxR - r
    {
      if Gcd(n, r) != 1 {
        r := r + 1;
        continue;
      }
      var passes := Aks.NoSmallOrder(n, r, bound);
      if passes {
        return;
      }
      r := r + 1;
    }
  }

  // ---------------------------------------------------------------------
  // PolyMod
  // ---------------------------------------------------------------------

  /** `PolyMod`: exactly r coefficients of a polynomial modulo (x^r - 1, n),
      each in [0, n). No method changes an existing object: `__mul__` and
      `__pow__` build new ones. */
  class PolyMod {
    const r: nat
    const n: nat
    const coeffs: array<int>

    ghost predicate Valid()
      reads this, coeffs
    {
      n > 0 && coeffs.Length == r && Reduced(coeffs[..], n)
    }

    /** The coefficient list held by the object. */
    function Coeffs(): (c: seq<int>)
      reads this, coeffs
      ensures |c| == coeffs.Length
    {
      coeffs[..]
    }

    /** `__init__(coeffs, r, n)`: the first r entries, padded with zeros to
        length r, each reduced modulo n (n == 0 raises in the source). */
    constructor (c: seq<int>, r: nat, n: nat)
      requires n > 0
      ensures Valid() && this.r == r && this.n == n && fresh(coeffs)
      ensures Coeffs() == Reduce(c, r, n)
    {
      this.r := r;
      this.n := n;
      coeffs := new int[r](i => Coeff(c, i) % n);
    }

    /** `__mul__`: for every pair of nonzero coefficients, c_i * c_j mod n is
        added into index (i + j) mod r of a zero buffer, which becomes a new
        PolyMod. The result is the full pairwise product. */
    method Mul(other: PolyMod) returns (p: PolyMod)
      requires Valid() && other.Valid() && r > 0
      ensures p.Valid() && p.r == r && p.n == n && fresh(p.coeffs)
      ensures p.Coeffs() == Product(Coeffs(), other.Coeffs(), r, n)
    {
      var res := new int[r](_ => 0);
      for i := 0 to coeffs.Length
        invariant forall k :: 0 <= k < r ==> res[k] == ProductUpTo(Coeffs(), other.Coeffs(), r, n, k, i) % n
      {
        if coeffs[i] != 0 {
          AddNonzeroRow(res, Coeffs(), other.Coeffs(), r, n, i);
        } else {
          forall k | 0 <= k < r
            ensures ProductUpTo(Coeffs(), other.Coeffs(), r, n, k, i + 1) == ProductUpTo(Coeffs(), other.Coeffs(), r, n, k, i)
          {
            ZeroRow(Coeffs(), other.Coeffs(), r, n, k, i);
          }
        }
      }
      assert res[..] == Product(Coeffs(), other.Coeffs(), r, n);
      ReduceReduced(res[..], r, n);
      p := new PolyMod(res[..], r, n);
    }

    /** `__pow__(exp)`: square-and-multiply with `__mul__`, starting from the
        constant 1. exp <= 0 gives the constant 1; otherwise the result is
        the exp-th power modulo (x^r - 1, n). */
    method Pow(exp: int) returns (p: PolyMod)
      requires Valid() && r > 0
      ensures p.Valid() && p.r == r && p.n == n
      ensures exp <= 0 ==> p.Coeffs() == Unit(r, n)
      ensures exp > 0 ==> p.Coeffs() == PowSpec(Coeffs(), exp, r, n)
    {
      if exp == 0 {
        var res := new int[r](_ => 0);
        res[0] := 1;
        p := new PolyMod(res[..], r, n);
        UnitBuffer(res[..], r, n);
        return;
      }
      var resultCoeffs := new int[r](_ => 0);
      resultCoeffs[0] := 1;
      var result := new PolyMod(resultCoeffs[..], r, n);
      UnitBuffer(resultCoeffs[..], r, n);
      var base := new PolyMod(coeffs[..], r, n);
      ReduceReduced(coeffs[..], r, n);
      if exp > 0 {
        UnitIdentity(PowSpec(Coeffs(), exp, r, n), r, n);
        PowSpecReduced(Coeffs(), exp, r, n);
      }
      var e := exp;
      while e > 0
        invariant result.Valid() && result.r == r && result.n == n
        invariant base.Valid() && base.r == r && base.n == n
        invariant exp > 0 ==> e >= 0
        invariant exp > 0 ==>
                    Conv(result.Coeffs(), PowSpec(base.Coeffs(), e, r, n), r, n) == PowSpec(Coeffs(), exp, r, n)
        invariant exp <= 0 ==> result.Coeffs() == Unit(r, n)
        decreases e
      {
        ghost var result0, base0 := result.Coeffs(), base.Coeffs();
        if e % 2 == 1 {
          result := result.Mul(base);
          ProductIsConv(result0, base0, r, n);
        }
        base := base.Mul(base);
        ProductIsConv(base0, base0, r, n);
        SquareAndMultiplyStep(result0, base0, result.Coeffs(), base.Coeffs(), e, r, n);
        e := e / 2;
      }
      if exp > 0 {
        assert PowSpec(base.Coeffs(), 0, r, n) == Unit(r, n);
        UnitIdentity(result.Coeffs(), r, n);
      }
      p := result;
    }

    /** `__eq__`: `np.array_equal`, the same length and the same entries. */
    function Equals(other: PolyMod): (eq: bool)
      reads this, coeffs, other, other.coeffs
      ensures eq <==> coeffs.Length == other.coeffs.Length &&
                      forall i :: 0 <= i < coeffs.Length ==> coeffs[i] == other.coeffs[i]
    {
      coeffs[..] == other.coeffs[..]
    }
  }

  /** The zero buffer with 1 at index 0 becomes the constant 1. */
  lemma UnitBuffer(b: seq<int>, r: nat, n: nat)
    requires r > 0 && n > 0 && |b| == r
    requires b[0] == 1 && forall i :: 0 < i < r ==> b[i] == 0
    ensures Reduce(b, r, n) == Unit(r, n)
  {
    forall i | 0 <= i < r
      ensures Reduce(b, r, n)[i] == Unit(r, n)[i]
    {
    }
  }

  /** A zero coefficient contributes nothing to any product coefficient. */
  lemma ZeroRow(p1: seq<int>, p2: seq<int>, r: nat, n: nat, k: int, i: nat)
    requires r > 0 && n > 0 && i < |p1| && p1[i] == 0
    ensures ProductUpTo(p1, p2, r, n, k, i + 1) == ProductUpTo(p1, p2, r, n, k, i)
  {
    var row := Row(Term(p1, p2, r, n, k), i);
    forall j: nat | j < |p2|
      ensures row(j) == 0
    {
      assert Coeff(p1, i) * Coeff(p2, j) == 0;
    }
    SumZeroTail(row, 0, |p2|);
  }

  /** The inner loop of `__mul__` over the nonzero coefficients of the
      other factor, for one nonzero coefficient i of the first. */
  method AddNonzeroRow(acc: array<int>, p1: seq<int>, p2: seq<int>, r: nat, n: nat, i: nat)
    requires r > 0 && n > 0 && acc.Length == r && i < |p1|
    requires forall k :: 0 <= k < r ==> acc[k] == ProductUpTo(p1, p2, r, n, k, i) % n
    modifies acc
    ensures forall k :: 0 <= k < r ==> acc[k] == ProductUpTo(p1, p2, r, n, k, i + 1) % n
  {
    for j := 0 to |p2|
      invariant forall k :: 0 <= k < r ==>
                  acc[k] == (ProductUpTo(p1, p2, r, n, k, i) + Sum(Row(Term(p1, p2, r, n, k), i), j)) % n
    {
      if p2[j] != 0 {
        Aks.AddPair(acc, p1, p2, r, n, i, j);
      } else {
        forall k | 0 <= k < r
          ensures acc[k] == (ProductUpTo(p1, p2, r, n, k, i) + Sum(Row(Term(p1, p2, r, n, k), i), j + 1)) % n
        {
          SkippedPair(p1, p2, r, n, k, i, j, acc[k]);
        }
      }
    }
  }

  /** A zero coefficient of the other factor leaves every entry as it is. */
  lemma SkippedPair(p1: seq<int>, p2: seq<int>, r: nat, n: nat, k: int, i: nat, j: nat, v: int)
    requires r > 0 && n > 0 && i < |p1| && j < |p2| && p2[j] == 0
    requires v == (ProductUpTo(p1, p2, r, n, k, i) + Sum(Row(Term(p1, p2, r, n, k), i), j)) % n
    ensures v == (ProductUpTo(p1, p2, r, n, k, i) + Sum(Row(Term(p1, p2, r, n, k), i), j + 1)) % n
  {
    assert Coeff(p1, i) * Coeff(p2, j) == 0;
    assert Sum(Row(Term(p1, p2, r, n, k), i), j + 1) == Sum(Row(Term(p1, p2, r, n, k), i), j);
  }

  // ---------------------------------------------------------------------
  // check_polynomial_congruence
  // ---------------------------------------------------------------------

  /** `check_polynomial_congruence((a, n, r))`: (a, whether (x + a)^n equals
      x^(n mod r) + a modulo (x^r - 1, n)), with both sides built as PolyMod
      objects. For r <= 0 or n == 0 the source raises and its handler answers
      (a, False). */
  method CheckPolynomialCongruence(a: int, n: nat, r: int) returns (result: (int, bool))
    ensures result.0 == a
    ensures result.1 <==> (r > 0 && n > 0 &&
                           PowSpec(Reduce([a, 1], r, n), n, r, n) == MonomialPlusConstant(a, n % r, r, n))
  {
    if r <= 0 || n == 0 {
      return (a, false);
    }
    var left0 := new PolyMod([a, 1], r, n);
    var left := left0.Pow(n);
    var power := n % r;
    var right0 := new int[r](_ => 0);
    right0[0] := a;
    right0[power] := (right0[power] + 1) % n;
    var right := new PolyMod(right0[..], r, n);
    RightSideIsMonomial(right0[..], a, n, r);
    result := (a, left.Equals(right));
    assert result.1 <==> left.Coeffs() == right.Coeffs();
  }

  /** The buffer `coeffs_right`, reduced, is x^(n mod r) + a for every a. */
  lemma RightSideIsMonomial(b: seq<int>, a: int, n: nat, r: nat)
    requires r > 0 && n > 0 && |b| == r
    requires b == seq(r, i => if i == 0 then a else 0)[n % r := ((if n % r == 0 then a else 0) + 1) % n]
    ensures Reduce(b, r, n) == MonomialPlusConstant(a, n % r, r, n)
  {
    forall i | 0 <= i < r
      ensures Reduce(b, r, n)[i] == MonomialPlusConstant(a, n % r, r, n)[i]
    {
      if i == n % r {
        ModOfMod((if i == 0 then a else 0) + 1, n);
      } else if i == 0 {
        assert a + 0 == a;
      }
    }
  }

  /** For 2 <= r and 0 <= a < n the two AKS implementations agree on step
      5: this congruence test passes exactly when the list-based comparison
      of AKS_Algorithm.py does. */
  lemma CongruenceTestsAgree(a: int, n: nat, r: nat)
    requires r >= 2 && n >= 2 && 0 <= a < n
    ensures PowSpec(Reduce([a, 1], r, n), n, r, n) == MonomialPlusConstant(a, n % r, r, n)
            <==> Aks.CongruencePasses(a, n, r)
  {
    forall i | 0 <= i < r
      ensures Coeff(Reduce([a, 1], r, n), i) == Coeff([a, 1], i)
    {
      DivModUnique(a, n, 0, a);
      DivModUnique(1, n, 0, 1);
      DivModUnique(0, n, 0, 0);
    }
    PowSpecExt(Reduce([a, 1], r, n), [a, 1], n, r, n);
    Aks.CongruenceMeaning(a, n, r);
  }
}
