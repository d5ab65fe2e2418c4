/** ECPP/ECPP_Utils.py, class `ECPPUtils`: Tonelli-Shanks square roots,
    Cornacchia's solver for x^2 + |D| y^2 = 4p, the trace and curve order
    derived from it, the discriminant survey for a prime and trial division
    by the small-prime table. */
module EcppUtils {
  import opened Common
  import opened NumberTheory
  import opened EcppCore

  // ---------------------------------------------------------------------
  // tonelli_shanks
  // ---------------------------------------------------------------------

  /** The source's search for a non-residue z never ends: no integer z has
      z^((p-1)/2) == -1 (mod p). */
  const NoNonResidue := "no quadratic non-residue: the search never ends"
  /** `1 << (M - i - 1)` with a negative count raises. */
  const NegativeShift := "negative shift count"

  /** x^(2^k) mod p, by k successive squarings modulo p. */
  function Squarings(x: int, k: nat, p: int): (r: int)
    requires p > 0
    ensures 0 <= r < p
    decreases k
  {
    if k == 0 then x % p
    else (Squarings(x, k - 1, p) * Squarings(x, k - 1, p)) % p
  }

  lemma {:induction false} SquaringsCompose(x: int, a: nat, b: nat, p: int)
    requires p > 0
    ensures Squarings(Squarings(x, a, p), b, p) == Squarings(x, a + b, p)
    decreases b
  {
    if b == 0 {
      DivModUnique(Squarings(x, a, p), p, 0, Squarings(x, a, p));
    } else {
      SquaringsCompose(x, a, b - 1, p);
    }
  }

  lemma {:induction false} SquaringsMul(x: int, y: int, k: nat, p: int)
    requires p > 0
    ensures Squarings((x * y) % p, k, p) == (Squarings(x, k, p) * Squarings(y, k, p)) % p
    decreases k
  {
    if k == 0 {
      ModOfMod(x * y, p);
      ModMul(x, y, p);
    } else {
      SquaringsMul(x, y, k - 1, p);
      var u, v := Squarings(x, k - 1, p), Squarings(y, k - 1, p);
      ModMul(u * v, u * v, p);
      ModMul(u * u, v * v, p);
      SquareOfProduct(u, v);
    }
  }

  lemma SquareOfProduct(u: int, v: int)
    ensures (u * v) * (u * v) == (u * u) * (v * v)
  {
  }

  lemma {:induction false} SquaringsPow(x: int, k: nat, p: int)
    requires p > 0
    ensures Pow(x, Pow(2, k)) % p == Squarings(x, k, p)
    decreases k
  {
    if k == 0 {
      PowSmall(x);
    } else {
      SquaringsPow(x, k - 1, p);
      var e := Pow(2, k - 1);
      PowSquare(x, e);
      ModMul(Pow(x, e), Pow(x, e), p);
    }
  }

  lemma {:induction false} SquaringsOfZero(k: nat, p: int)
    requires p > 0
    ensures Squarings(0, k, p) == 0
    decreases k
  {
    if k > 0 {
      SquaringsOfZero(k - 1, p);
    }
  }

  /** `moduloPower(y, 2^k, p)` applied to `moduloPower(x, e, p)` is x^(e 2^k) mod p. */
  lemma SquaringsOfPower(x: int, e: nat, k: nat, p: int)
    requires p > 0
    ensures Squarings(ModuloPower(x, e, p), k, p) == ModuloPower(x, e * Pow(2, k), p)
  {
    SquaringsPow(ModuloPower(x, e, p), k, p);
    PowMod(Pow(x, e), Pow(2, k), p);
    PowMul(x, e, Pow(2, k));
  }

  /** A residue other than 1 whose square is 1 modulo a prime is -1. */
  lemma UnitSquareRoot(p: int, x: int)
    requires IsPrime(p) && 0 <= x < p && x != 1 && (x * x) % p == 1
    ensures x == p - 1
  {
    assert 1 % p == 1;
    SquareRootsModPrime(p, x, 1);
    if (x - 1) % p == 0 {
      if x == 0 {
        DivModUnique(-1, p, -1, p - 1);
      } else {
        DivModUnique(x - 1, p, 0, x - 1);
      }
    } else if x + 1 < p {
      DivModUnique(x + 1, p, 0, x + 1);
    }
  }

  lemma MinusOneSquared(p: int)
    requires p >= 2
    ensures ((p - 1) * (p - 1)) % p == 1
  {
    assert (p - 1) * (p - 1) == p * (p - 2) + 1;
    DivModUnique((p - 1) * (p - 1), p, p - 2, 1);
  }

  /** One update step of the main loop, for a prime p: with c of order
      exactly 2^M (c^(2^(M-1)) == -1), t^(2^(M-1)) == 1 and i the least index
      with t^(2^i) == 1, the new c and t satisfy the same facts for M := i. */
  lemma TonelliStep(p: int, c: int, t: int, M: nat, i: nat)
    requires IsPrime(p) && 0 <= t < p && 1 <= i < M
    requires Squarings(c, M - 1, p) == p - 1
    requires Squarings(t, i, p) == 1
    requires forall j :: 0 <= j < i ==> Squarings(t, j, p) != 1
    ensures var c' := Squarings(c, M - i, p);
            Squarings(c', i - 1, p) == p - 1 && Squarings((t * c') % p, i - 1, p) == 1
  {
    var c' := Squarings(c, M - i, p);
    SquaringsCompose(c, M - i, i - 1, p);
    SquaringsMul(t, c', i - 1, p);
    var x := Squarings(t, i - 1, p);
    assert Squarings(t, i, p) == (x * x) % p;
    UnitSquareRoot(p, x);
    MinusOneSquared(p);
  }

  /** R^2 == n t (mod p) survives R := R b, t := t b^2. */
  lemma RootUpdate(p: int, n: int, R: int, t: int, b: int)
    requires p > 0 && (R * R) % p == (n * t) % p
    ensures (((R * b) % p) * ((R * b) % p)) % p == (n * ((t * ((b * b) % p)) % p)) % p
  {
    var Rb := (R * b) % p;
    ModOfMod(R * b, p);
    ModMulCongruent(Rb, R * b, Rb, R * b, p);
    assert (R * b) * (R * b) == (R * R) * (b * b);
    ModOfMod(R * R, p);
    ModMulCongruent(R * R, n * t, b * b, b * b, p);
    assert (n * t) * (b * b) == n * (t * (b * b));
    ModOfMod(b * b, p);
    ModMulCongruent(t, t, (b * b) % p, b * b, p);
    ModOfMod(t * (b * b), p);
    ModMulCongruent(n, n, (t * ((b * b) % p)) % p, t * (b * b), p);
  }

  /** The first R: n^((Q+1)/2) squared is n * n^Q for odd Q. */
  lemma InitialRoot(p: int, n: int, Q: nat)
    requires p > 0 && Q % 2 == 1
    ensures (ModuloPower(n, (Q + 1) / 2, p) * ModuloPower(n, (Q + 1) / 2, p)) % p
         == (n * ModuloPower(n, Q, p)) % p
  {
    var h := (Q + 1) / 2;
    var R, P := ModuloPower(n, h, p), Pow(n, h);
    var T, PQ := ModuloPower(n, Q, p), Pow(n, Q);
    assert R == P % p && T == PQ % p;
    ModOfMod(P, p);
    ModOfMod(PQ, p);
    ModMulCongruent(R, P, R, P, p);
    assert 2 * h == Q + 1;
    PowSquare(n, h);
    assert P * P == Pow(n, Q + 1) == n * PQ;
    ModMulCongruent(n, n, PQ, T, p);
  }

  /** y is a square root of n modulo p. */
  predicate IsSquareRootMod(y: int, n: int, p: int)
    requires p > 0
  {
    (y * y) % p == n % p
  }

  /** z^((p-1)/2) == -1 (mod p): z is a quadratic non-residue. */
  predicate IsNonResidueWitness(z: int, p: int)
    requires p > 0
  {
    ModuloPower(z, (p - 1) / 2, p) == p - 1
  }

  /** z^e mod p depends on z only through its residue: every z has a
      representative in [2, p + 2) with the same power. */
  lemma PowerRepresentative(y: int, e: nat, p: int) returns (w: int)
    requires p > 0
    ensures 2 <= w < p + 2 && ModuloPower(w, e, p) == ModuloPower(y, e, p)
  {
    var q := (y - 2) / p;
    w := 2 + (y - 2) % p;
    assert w == y + p * (-q);
    ModAddMultiple(y, p, -q);
    PowMod(y, e, p);
    PowMod(w, e, p);
  }

  /** A witness anywhere has a representative among 2 .. p + 1. */
  lemma NoWitnessAnywhere(p: int)
    requires p > 0
    requires forall w :: 2 <= w < p + 2 ==> !IsNonResidueWitness(w, p)
    ensures forall z :: !IsNonResidueWitness(z, p)
  {
    forall y
      ensures !IsNonResidueWitness(y, p)
    {
      var w := PowerRepresentative(y, (p - 1) / 2, p);
      assert !IsNonResidueWitness(w, p);
    }
  }

  /** The non-residue search from z == 2 upwards: after p consecutive
      failures every residue class has failed. */
  method FindNonResidue(p: int) returns (r: Option<int>)
    requires p > 0
    ensures r.Some? ==> r.value >= 2 && IsNonResidueWitness(r.value, p)
    ensures r.None? ==> forall z :: !IsNonResidueWitness(z, p)
  {
    var z := 2;
    while z < p + 2
      invariant 2 <= z <= p + 2
      invariant forall w :: 2 <= w < z ==> !IsNonResidueWitness(w, p)
    {
      if IsNonResidueWitness(z, p) {
        return Some(z);
      }
      z := z + 1;
    }
    NoWitnessAnywhere(p);
    return None;
  }

  /** For p == 3 (mod 4), once n^((p-1)/2) == 1 (mod p) the power
      x = n^((p+1)/4) squares to n: x^2 = n^((p-1)/2) n. The check of
      `tonelli_shanks` on that branch therefore never fails. */
  lemma ThreeModFourRoot(n: int, p: int)
    requires p > 0 && p % 4 == 3 && ModuloPower(n, (p - 1) / 2, p) == 1
    ensures var x := ModuloPower(n, (p + 1) / 4, p); Modulo(x * x, p) == Modulo(n, p)
  {
    var k := p / 4;
    assert p == 4 * k + 3;
    var e, h := (p + 1) / 4, (p - 1) / 2;
    assert e == k + 1 && h == 2 * k + 1;
    var x := ModuloPower(n, e, p);
    PowSquare(n, e);
    PowAdd(n, h, 1);
    assert Pow(n, 1) == n;
    ModMul(Pow(n, e), Pow(n, e), p);
    ModMul(Pow(n, h), n, p);
    ModOfMod(n, p);
    calc {
      (x * x) % p;
      Pow(n, 2 * e) % p;
      (Pow(n, h) * n) % p;
      ((Pow(n, h) % p) * (n % p)) % p;
      n % p;
    }
  }

  /** The other half of Euler's criterion, under Fermat's congruence for
      the root: when y^2 == n (mod p) and y^(p-1) == 1 (mod p), then
      n^((p-1)/2) == 1 (mod p), so `tonelli_shanks` does not answer None.
      For a prime p the congruence holds for every y not divisible by p. */
  lemma SquareIsEulerResidue(n: int, p: int, y: int)
    requires p > 0 && p % 2 == 1 && IsSquareRootMod(y, n, p)
    requires Pow(y, p - 1) % p == 1
    ensures ModuloPower(n, (p - 1) / 2, p) == 1
  {
    var h := (p - 1) / 2;
    assert 2 * h == p - 1;
    assert Pow(y, 2) == y * y by {
      assert Pow(y, 1) == y;
    }
    PowMul(y, 2, h);
    PowMod(n, h, p);
    PowMod(y * y, h, p);
    calc {
      Pow(n, h) % p;
      Pow(n % p, h) % p;
      Pow((y * y) % p, h) % p;
      Pow(y * y, h) % p;
      Pow(y, p - 1) % p;
    }
  }

  /** `tonelli_shanks(n, p)`. `None` when Euler's criterion fails; the
      (p+1)/4 power when p == 3 (mod 4); otherwise the general loop, whose
      counter M strictly decreases. The two ways the source can fail (a
      search that never ends, a negative shift count) are errors here. */
  method TonelliShanks(n: int, p: int) returns (r: Result<Option<int>>)
    requires p > 0
    ensures ModuloPower(n, (p - 1) / 2, p) != 1 ==> r == Ok(None)
    ensures ModuloPower(n, (p - 1) / 2, p) == 1 ==> r != Ok(None)
    ensures r.Ok? && r.value.Some? ==> 0 <= r.value.value < p
    ensures r.Ok? && r.value.Some? && r.value.value != 0 ==> IsSquareRootMod(r.value.value, n, p)
    ensures IsPrime(p) && r.Ok? && r.value.Some? ==> IsSquareRootMod(r.value.value, n, p)
    ensures p % 4 == 3 ==> r.Ok?
    ensures r == Err(NoNonResidue) ==> forall z :: !IsNonResidueWitness(z, p)
    ensures r.Err? ==> r == Err(NoNonResidue) || r == Err(NegativeShift)
    ensures IsPrime(p) ==> r != Err(NegativeShift)
  {
    if ModuloPower(n, (p - 1) / 2, p) != 1 {
      return Ok(None);
    }
    if p % 4 == 3 {
      var x := ModuloPower(n, (p + 1) / 4, p);
      ThreeModFourRoot(n, p);
      if Modulo(x * x, p) == Modulo(n, p) {
        return Ok(Some(x));
      }
      assert false;
      return Ok(None);
    }
    var Q: nat, S: nat := p - 1, 0;
    while Q % 2 == 0
      invariant Q >= 1 && p - 1 == Q * Pow(2, S)
      decreases Q
    {
      HalveOddPart(Q, S);
      Q, S := Q / 2, S + 1;
    }
    var found := FindNonResidue(p);
    if found.None? {
      return Err(NoNonResidue);
    }
    var z := found.value;
    var M: nat, c, t, R := S, ModuloPower(z, Q, p), ModuloPower(n, Q, p), ModuloPower(n, (Q + 1) / 2, p);
    TonelliInit(p, n, z, Q, S);
    r := TonelliMainLoop(n, p, M, c, t, R);
  }

  /** The `while True` loop of `tonelli_shanks` from its initial state. */
  method TonelliMainLoop(n: int, p: int, M0: nat, c0: int, t0: int, R0: int) returns (r: Result<Option<int>>)
    requires p > 0 && 0 <= c0 < p && 0 <= t0 < p && 0 <= R0 < p
    requires TonelliInvariant(p, n, M0, c0, t0, R0)
    ensures r.Ok? ==> r.value.Some?
    ensures r.Ok? ==> 0 <= r.value.value < p
    ensures r.Ok? && r.value.value != 0 ==> IsSquareRootMod(r.value.value, n, p)
    ensures IsPrime(p) && r.Ok? ==> IsSquareRootMod(r.value.value, n, p)
    ensures r.Err? ==> r == Err(NegativeShift) && !IsPrime(p)
  {
    var M: nat, c, t, R := M0, c0, t0, R0;
    while true
      invariant 0 <= c < p && 0 <= t < p && 0 <= R < p
      invariant TonelliInvariant(p, n, M, c, t, R)
      decreases M
    {
      if t == 0 {
        if IsPrime(p) && p > 2 {
          SquaringsOfZero(M - 1, p);
        }
        return Ok(Some(0));
      }
      if t == 1 {
        return Ok(Some(R));
      }
      var i: nat := 1;
      var temp := Modulo(t * t, p);
      DivModUnique(t, p, 0, t);
      while temp != 1 && i < M
        invariant 1 <= i && (i <= M || M == 0)
        invariant temp == Squarings(t, i, p)
        invariant forall j :: 0 <= j < i ==> Squarings(t, j, p) != 1
        decreases M - i
      {
        temp := Modulo(temp * temp, p);
        i := i + 1;
      }
      TonelliShiftBound(p, n, M, c, t, R, i);
      if M - i - 1 < 0 {
        return Err(NegativeShift);
      }
      var b := ModuloPower(c, Pow(2, M - i - 1), p);
      TonelliIteration(p, n, M, c, t, R, i);
      M := i;
      c := Modulo(b * b, p);
      t := Modulo(t * c, p);
      R := Modulo(R * b, p);
    }
  }

  /** Moving a factor 2 from Q to the power of two keeps Q 2^S. */
  lemma HalveOddPart(Q: nat, S: nat)
    requires Q % 2 == 0
    ensures Q * Pow(2, S) == (Q / 2) * Pow(2, S + 1)
  {
    var h, P := Q / 2, Pow(2, S);
    assert Q == 2 * h;
    assert Pow(2, S + 1) == 2 * P;
    assert Q * P == h * (2 * P) by {
      MulAssocAt(2, h, P);
    }
  }

  /** The facts the main loop keeps: R^2 == n t (mod p); for an odd prime,
      c^(2^(M-1)) == -1 and t^(2^(M-1)) == 1; for p == 2, M == 0 and t is n
      reduced. */
  ghost predicate TonelliInvariant(p: int, n: int, M: nat, c: int, t: int, R: int)
    requires p > 0
  {
    && (R * R) % p == (n * t) % p
    && (IsPrime(p) && p > 2 ==> M >= 1 && Squarings(c, M - 1, p) == p - 1 && Squarings(t, M - 1, p) == 1)
    && (p == 2 ==> M == 0 && t == n % 2)
  }

  /** The loop is entered with M == S, c == z^Q, t == n^Q, R == n^((Q+1)/2). */
  lemma TonelliInit(p: int, n: int, z: int, Q: nat, S: nat)
    requires p > 0 && Q % 2 == 1 && p - 1 == Q * Pow(2, S)
    requires IsNonResidueWitness(z, p) && ModuloPower(n, (p - 1) / 2, p) == 1
    ensures TonelliInvariant(p, n, S, ModuloPower(z, Q, p), ModuloPower(n, Q, p), ModuloPower(n, (Q + 1) / 2, p))
  {
    InitialRoot(p, n, Q);
    if IsPrime(p) && p > 2 {
      InitOddPrime(p, n, z, Q, S);
    }
    if p == 2 {
      InitTwo(n, Q, S);
    }
  }

  lemma InitOddPrime(p: int, n: int, z: int, Q: nat, S: nat)
    requires IsPrime(p) && p > 2 && Q % 2 == 1 && p - 1 == Q * Pow(2, S)
    requires IsNonResidueWitness(z, p) && ModuloPower(n, (p - 1) / 2, p) == 1
    ensures S >= 1
    ensures Squarings(ModuloPower(z, Q, p), S - 1, p) == p - 1
    ensures Squarings(ModuloPower(n, Q, p), S - 1, p) == 1
  {
    PowerAtHalf(p, z, Q, S);
    PowerAtHalf(p, n, Q, S);
  }

  /** x^Q squared S - 1 times is x^((p-1)/2), for p - 1 == Q 2^S. */
  lemma PowerAtHalf(p: int, x: int, Q: nat, S: nat)
    requires IsPrime(p) && p > 2 && Q % 2 == 1 && p - 1 == Q * Pow(2, S)
    ensures S >= 1 && Squarings(ModuloPower(x, Q, p), S - 1, p) == ModuloPower(x, (p - 1) / 2, p)
  {
    HalfOfOrder(p, Q, S);
    SquaringsOfPower(x, Q, S - 1, p);
  }

  lemma InitTwo(n: int, Q: nat, S: nat)
    requires Q % 2 == 1 && 1 == Q * Pow(2, S)
    ensures S == 0 && ModuloPower(n, Q, 2) == n % 2
  {
    if S > 0 {
      assert false;
    }
    PowSmall(n);
  }

  /** p - 1 == Q 2^S with Q odd and p an odd prime: S >= 1, and
      (p - 1) / 2 == Q 2^(S-1). */
  lemma HalfOfOrder(p: int, Q: nat, S: nat)
    requires IsPrime(p) && p > 2 && Q % 2 == 1 && p - 1 == Q * Pow(2, S)
    ensures S >= 1 && (p - 1) / 2 == Q * Pow(2, S - 1)
  {
    if S == 0 {
      assert p == Q + 1;
      assert p == 2 * ((Q + 1) / 2);
      assert Divides(2, p);
      assert false;
    }
    var h := Q * Pow(2, S - 1);
    assert p - 1 == 2 * h by {
      assert Pow(2, S) == 2 * Pow(2, S - 1);
    }
    DivModUnique(p - 1, 2, h, 0);
  }

  /** For a prime the inner search stops below M, so the shift is never
      negative. */
  lemma TonelliShiftBound(p: int, n: int, M: nat, c: int, t: int, R: int, i: nat)
    requires p > 0 && 0 <= t < p && t != 0 && t != 1
    requires TonelliInvariant(p, n, M, c, t, R)
    requires 1 <= i && (i <= M || M == 0)
    requires forall j :: 0 <= j < i ==> Squarings(t, j, p) != 1
    ensures IsPrime(p) ==> i < M
  {
    if IsPrime(p) && i >= M {
      assert false;
    }
  }

  /** One pass of the main loop keeps its invariant, with M := i. */
  lemma TonelliIteration(p: int, n: int, M: nat, c: int, t: int, R: int, i: nat)
    requires p > 0 && 0 <= c < p && 0 <= t < p && t != 0 && t != 1
    requires TonelliInvariant(p, n, M, c, t, R)
    requires 1 <= i < M
    requires Squarings(t, i, p) == 1 || i >= M
    requires forall j :: 0 <= j < i ==> Squarings(t, j, p) != 1
    ensures var b := ModuloPower(c, Pow(2, M - i - 1), p);
            var c' := (b * b) % p;
            TonelliInvariant(p, n, i, c', (t * c') % p, (R * b) % p)
  {
    var b := ModuloPower(c, Pow(2, M - i - 1), p);
    SquaringsPow(c, M - i - 1, p);
    assert Squarings(c, M - i, p) == (b * b) % p;
    if IsPrime(p) && p > 2 {
      TonelliStep(p, c, t, M, i);
    }
    RootUpdate(p, n, R, t, b);
  }

  // ---------------------------------------------------------------------
  // cornacchia
  // ---------------------------------------------------------------------

  /** x^2 + |D| y^2 == 4p. */
  predicate IsNormSolution(D: int, p: int, x: int, y: int) {
    x * x + Abs(D) * (y * y) == 4 * p
  }

  lemma QuotientNonNegative(a: int, d: int)
    requires a >= 0 && d > 0
    ensures a / d >= 0
  {
  }

  /** The source's final test, written left-associated, is IsNormSolution. */
  lemma NormCheck(D: int, p: int, x: int, y: int)
    ensures (x * x + Abs(D) * y * y == 4 * p) == IsNormSolution(D, p, x, y)
  {
    MulAssocAt(y, Abs(D), y);
  }

  /** `cornacchia(D, p)`. Errors of the inner square root are passed on. */
  method Cornacchia(D: int, p: int) returns (r: Result<Option<(int, int)>>)
    requires p > 0
    ensures D >= 0 ==> r == Ok(None)
    ensures D < 0 && p == 2 ==> r == Ok(if D == -1 then Some((2, 2)) else None)
    ensures D < 0 && p != 2 && KroneckerSpec(D, p) != 1 ==> r == Ok(None)
    ensures r.Ok? && r.value.Some? ==>
              r.value.value.0 >= 0 && r.value.value.1 >= 0 &&
              IsNormSolution(D, p, r.value.value.0, r.value.value.1)
    ensures r.Err? ==> r == Err(NoNonResidue) || r == Err(NegativeShift)
    ensures IsPrime(p) ==> r != Err(NegativeShift)
  {
    if D >= 0 {
      return Ok(None);
    }
    if p == 2 {
      return Ok(if D == -1 then Some((2, 2)) else None);
    }
    var k := Kronecker(D, p);
    if k != 1 {
      return Ok(None);
    }
    var root := TonelliShanks(Modulo(D, p), p);
    if root.Err? {
      return Err(root.msg);
    }
    if root.value.None? {
      return Ok(None);
    }
    var x0 := root.value.value;
    if Abs(D) % 2 == 1 && x0 % 2 == 0 {
      x0 := p - x0;
    }
    var solution := CornacchiaDescent(D, p, x0);
    return Ok(solution);
  }

  /** The second half of `cornacchia`: Euclid's remainders from (2p, x0)
      until one is at most sqrt(4p), then the test that it is the x of a
      solution. */
  method CornacchiaDescent(D: int, p: int, x0: int) returns (r: Option<(int, int)>)
    requires D < 0 && p > 0 && x0 >= 0
    ensures r.Some? ==> r.value.0 >= 0 && r.value.1 >= 0 && IsNormSolution(D, p, r.value.0, r.value.1)
  {
    var a: int, b: int := 2 * p, x0;
    var limit := Isqrt(4 * p);
    while b > limit
      invariant b >= 0
      decreases b
    {
      a, b := b, a % b;
    }
    var x := b;
    var remainder := 4 * p - x * x;
    if remainder < 0 || remainder % Abs(D) != 0 {
      return None;
    }
    QuotientNonNegative(remainder, Abs(D));
    var ySquared := remainder / Abs(D);
    var y := Isqrt(ySquared);
    if y * y != ySquared {
      return None;
    }
    NormCheck(D, p, x, y);
    if x * x + Abs(D) * y * y != 4 * p {
      return None;
    }
    return Some((x, y));
  }

  // ---------------------------------------------------------------------
  // compute_trace_from_cornacchia, compute_curve_order_cm
  // ---------------------------------------------------------------------

  /** The trace the source derives from Cornacchia's x: the special rules
      for D == -3 and D == -4, x otherwise. */
  function TraceFromSolution(D: int, p: int, x: int): (t: int)
    ensures t == x || t == -x || t == 0
    ensures D != -3 && D != -4 ==> t == x
  {
    if D == -3 && p % 3 == 1 then x
    else if D == -3 && p % 3 == 2 then -x
    else if D == -4 && p % 4 == 1 then x
    else if D == -4 && p % 4 == 3 then 0
    else x
  }

  /** Squares are 0 or 1 modulo 3 and modulo 4. */
  lemma SquareResidues(u: int)
    ensures (u * u) % 3 in {0, 1} && (u * u) % 4 in {0, 1}
  {
    ModMul(u, u, 3);
    ModMul(u, u, 4);
    var r3, r4 := u % 3, u % 4;
    assert r3 in {0, 1, 2} && r4 in {0, 1, 2, 3};
  }

  /** The `-x` rule for D == -3 never fires: with p == 2 (mod 3) the
      equation x^2 + 3y^2 == 4p has no solution. */
  lemma NoNormSolutionMinusThree(p: int, x: int, y: int)
    requires p % 3 == 2
    ensures !IsNormSolution(-3, p, x, y)
  {
    if IsNormSolution(-3, p, x, y) {
      NormSquareModThree(p, x, y);
      SquareResidues(x);
      assert false;
    }
  }

  /** A solution for D == -3 makes x^2 congruent to 4p, that is to p,
      modulo 3. */
  lemma NormSquareModThree(p: int, x: int, y: int)
    requires IsNormSolution(-3, p, x, y)
    ensures (x * x) % 3 == p % 3
  {
    assert x * x == 3 * (-(y * y)) + 4 * p;
    ModAddMultiple(4 * p, 3, -(y * y));
    ModMul(4, p, 3);
    ModOfMod(p, 3);
  }

  /** The `0` rule for D == -4 never fires: with p == 3 (mod 4) the
      equation x^2 + 4y^2 == 4p has no solution. */
  lemma NoNormSolutionMinusFour(p: int, x: int, y: int)
    requires p % 4 == 3
    ensures !IsNormSolution(-4, p, x, y)
  {
    if IsNormSolution(-4, p, x, y) {
      var u := NormHalf(p, x, y);
      SumOfSquaresModFour(u, y);
      assert false;
    }
  }

  /** A solution for D == -4 has x even, and u = x / 2 solves u^2 + y^2 == p. */
  lemma NormHalf(p: int, x: int, y: int) returns (u: int)
    requires IsNormSolution(-4, p, x, y)
    ensures u * u + y * y == p
  {
    assert x * x == 4 * (p - y * y);
    if x % 2 == 1 {
      ModMultiple(2, 2 * (p - y * y));
      assert x * x == 2 * (2 * (p - y * y));
      OddProduct(x, x);
      assert false;
    }
    u := x / 2;
    assert x == 2 * u;
    assert 4 * (u * u) == 4 * (p - y * y);
  }

  /** A sum of two squares is never 3 modulo 4. */
  lemma SumOfSquaresModFour(u: int, y: int)
    ensures (u * u + y * y) % 4 != 3
  {
    SquareResidues(u);
    SquareResidues(y);
    ModAdd(u * u, y * y, 4);
  }

  /** Every trace that comes from a solution satisfies t^2 <= 4p, the
      integer form of Hasse's bound |t| <= 2 sqrt(p). */
  lemma TraceWithinHasse(D: int, p: int, x: int, y: int)
    requires IsNormSolution(D, p, x, y)
    ensures TraceFromSolution(D, p, x) * TraceFromSolution(D, p, x) <= 4 * p
  {
    assert Abs(D) * (y * y) >= 0;
  }

  /** A trace obtained from a solution of Cornacchia's equation. */
  ghost predicate IsCmTrace(D: int, p: int, t: int) {
    exists x: int, y: int :: x >= 0 && IsNormSolution(D, p, x, y) && t == TraceFromSolution(D, p, x)
  }

  /** `compute_trace_from_cornacchia(D, p)`. */
  method ComputeTraceFromCornacchia(D: int, p: int) returns (r: Result<Option<int>>)
    requires p > 0
    ensures r.Ok? && r.value.Some? ==> IsCmTrace(D, p, r.value.value) && r.value.value * r.value.value <= 4 * p
    ensures D >= 0 ==> r == Ok(None)
    ensures D < 0 && p != 2 && KroneckerSpec(D, p) != 1 ==> r == Ok(None)
    ensures r.Err? ==> r == Err(NoNonResidue) || r == Err(NegativeShift)
    ensures IsPrime(p) ==> r != Err(NegativeShift)
  {
    var sol := Cornacchia(D, p);
    if sol.Err? {
      return Err(sol.msg);
    }
    if sol.value.None? {
      return Ok(None);
    }
    var (x, y) := sol.value.value;
    TraceWithinHasse(D, p, x, y);
    return Ok(Some(TraceFromSolution(D, p, x)));
  }

  /** The interval the source checks, with floor(sqrt(p)) for sqrt(p). */
  function HasseLow(p: nat): int { p + 1 - 2 * Isqrt(p) }
  function HasseHigh(p: nat): int { p + 1 + 2 * Isqrt(p) }

  /** An order p + 1 - t for a CM trace t, inside the checked interval. */
  ghost predicate IsCmOrder(D: int, p: nat, m: int) {
    HasseLow(p) <= m <= HasseHigh(p) && IsCmTrace(D, p, p + 1 - m)
  }

  /** `compute_curve_order_cm(D, p)`: p + 1 - t, kept only inside the
      interval [p + 1 - 2 floor(sqrt p), p + 1 + 2 floor(sqrt p)]. */
  method ComputeCurveOrderCm(D: int, p: int) returns (r: Result<Option<int>>)
    requires p > 0
    ensures r.Ok? && r.value.Some? ==> IsCmOrder(D, p, r.value.value)
    ensures D >= 0 ==> r == Ok(None)
    ensures r.Err? ==> r == Err(NoNonResidue) || r == Err(NegativeShift)
    ensures IsPrime(p) ==> r != Err(NegativeShift)
  {
    var trace := ComputeTraceFromCornacchia(D, p);
    if trace.Err? {
      return Err(trace.msg);
    }
    if trace.value.None? {
      return Ok(None);
    }
    var order := p + 1 - trace.value.value;
    if !(HasseLow(p) <= order <= HasseHigh(p)) {
      return Ok(None);
    }
    assert p + 1 - order == trace.value.value;
    return Ok(Some(order));
  }

  /** Each later entry of `SMALL_DISCRIMINANTS` is larger in absolute value. */
  lemma SmallDiscriminantsIncreasing()
    ensures IncreasingInAbs(SmallDiscriminants)
  {
    var s := SmallDiscriminants;
    assert forall i :: 0 <= i < |s| ==> s[i] < 0;
    assert forall i :: 0 < i < |s| ==> s[i] < s[i - 1];
    forall i, j | 0 <= i < j < |s|
      ensures s[j] < s[i]
    {
      DecreasingPair(s, i, j);
    }
  }

  lemma {:induction false} DecreasingPair(s: seq<int>, i: int, j: int)
    requires 0 <= i < j < |s|
    requires forall k :: 0 < k < |s| ==> s[k] < s[k - 1]
    ensures s[j] < s[i]
    decreases j - i
  {
    if j > i + 1 {
      DecreasingPair(s, i, j - 1);
    }
  }

  /** A table whose entries grow strictly in absolute value, as
      `SMALL_DISCRIMINANTS` does. */
  predicate IncreasingInAbs(table: seq<int>) {
    forall i, j :: 0 <= i < j < |table| ==> Abs(table[i]) < Abs(table[j])
  }

  /** In such a table the entries up to max_D form a prefix, ending at the
      first entry beyond max_D. */
  lemma ExaminedPrefix(table: seq<int>, maxD: int, n: int)
    requires IncreasingInAbs(table) && 0 <= n <= |table|
    requires forall i :: 0 <= i < n ==> Abs(table[i]) <= maxD
    requires n < |table| ==> Abs(table[n]) > maxD
    ensures forall i :: 0 <= i < |table| ==> (i < n <==> Abs(table[i]) <= maxD)
  {
    forall i | n < i < |table|
      ensures Abs(table[i]) > maxD
    {
      assert Abs(table[n]) < Abs(table[i]);
    }
  }

  /** What `find_all_discriminants_for_prime` learnt about one table
      entry D: the answer of `cornacchia(D, p)` (None when the Kronecker
      test already rejected D) and that of `compute_curve_order_cm(D, p)`
      (None when Cornacchia found nothing). */
  datatype Trial = Trial(D: int, solution: Option<(int, int)>, order: Option<int>)

  /** The trials a run may record: the Kronecker symbol decides whether
      Cornacchia runs, Cornacchia's answer whether the order is computed,
      and each answer satisfies the contract of the step that gave it. */
  ghost predicate IsTrial(p: int, t: Trial)
    requires p > 0
  {
    && (KroneckerSpec(t.D, p) != 1 ==> t.solution.None?)
    && (t.solution.None? ==> t.order.None?)
    && (t.solution.Some? ==> t.solution.value.0 >= 0 && t.solution.value.1 >= 0 &&
                             IsNormSolution(t.D, p, t.solution.value.0, t.solution.value.1))
    && (t.order.Some? ==> IsCmOrder(t.D, p, t.order.value))
  }

  /** The (D, order) pairs of the trials that produced an order, in order. */
  function Listed(trials: seq<Trial>): (r: seq<(int, int)>)
    ensures |r| <= |trials|
  {
    if |trials| == 0 then []
    else
      var last := trials[|trials| - 1];
      Listed(trials[..|trials| - 1]) + (if last.order.Some? then [(last.D, last.order.value)] else [])
  }

  /** Nothing that produced an order is left out: each such trial's
      (D, order) is listed, and every listed pair comes from such a trial. */
  lemma {:induction false} ListedExactly(trials: seq<Trial>)
    ensures forall i :: 0 <= i < |trials| && trials[i].order.Some? ==>
              (trials[i].D, trials[i].order.value) in Listed(trials)
    ensures forall e :: e in Listed(trials) ==>
              exists i :: 0 <= i < |trials| && trials[i].order.Some? && e == (trials[i].D, trials[i].order.value)
  {
    if |trials| > 0 {
      var n := |trials| - 1;
      var front, last := trials[..n], trials[n];
      ListedExactly(front);
      assert Listed(trials) == Listed(front) + (if last.order.Some? then [(last.D, last.order.value)] else []);
      forall e | e in Listed(trials)
        ensures exists i :: 0 <= i < |trials| && trials[i].order.Some? && e == (trials[i].D, trials[i].order.value)
      {
        if e in Listed(front) {
          var i :| 0 <= i < |front| && front[i].order.Some? && e == (front[i].D, front[i].order.value);
          assert trials[i] == front[i];
        } else {
          assert trials[n].order.Some? && e == (trials[n].D, trials[n].order.value);
        }
      }
      forall i | 0 <= i < |trials| && trials[i].order.Some?
        ensures (trials[i].D, trials[i].order.value) in Listed(trials)
      {
        if i < n {
          assert trials[i] == front[i];
        }
      }
    }
  }

  /** The trials of the first |trials| entries of the table, all within
      max_D. */
  ghost predicate Scanned(p: int, table: seq<int>, maxD: int, trials: seq<Trial>)
    requires p > 0
  {
    |trials| <= |table| &&
    forall i :: 0 <= i < |trials| ==> trials[i].D == table[i] && Abs(table[i]) <= maxD && IsTrial(p, trials[i])
  }

  /** One more trial, of the next table entry, extends the scan and the
      list by that trial's pair, if it has one. */
  lemma ScannedSnoc(p: int, table: seq<int>, maxD: int, trials: seq<Trial>, t: Trial)
    requires p > 0 && Scanned(p, table, maxD, trials) && |trials| < |table|
    requires t.D == table[|trials|] && Abs(t.D) <= maxD && IsTrial(p, t)
    ensures Scanned(p, table, maxD, trials + [t])
    ensures Listed(trials + [t]) == Listed(trials) + (if t.order.Some? then [(t.D, t.order.value)] else [])
  {
    var ts := trials + [t];
    assert ts[..|ts| - 1] == trials;
    assert ts[|ts| - 1] == t;
    forall i | 0 <= i < |ts|
      ensures ts[i].D == table[i] && Abs(table[i]) <= maxD && IsTrial(p, ts[i])
    {
      if i < |trials| {
        assert ts[i] == trials[i];
      }
    }
  }

  /** Trials of a prefix of the table list only table entries up to max_D
      with Kronecker symbol 1 and a CM order, in increasing absolute value,
      none beyond the last entry tried. */
  lemma {:induction false} ListedFromTable(p: int, table: seq<int>, maxD: int, trials: seq<Trial>)
    requires p > 0 && IncreasingInAbs(table) && Scanned(p, table, maxD, trials)
    ensures forall e :: e in Listed(trials) ==>
              e.0 in table && Abs(e.0) <= maxD && KroneckerSpec(e.0, p) == 1 && IsCmOrder(e.0, p, e.1)
    ensures forall k, l :: 0 <= k < l < |Listed(trials)| ==> Abs(Listed(trials)[k].0) < Abs(Listed(trials)[l].0)
    ensures |trials| > 0 ==> forall k :: 0 <= k < |Listed(trials)| ==>
              Abs(Listed(trials)[k].0) <= Abs(table[|trials| - 1])
  {
    if |trials| > 0 {
      var n := |trials| - 1;
      var front, last := trials[..n], trials[n];
      ListedFromTable(p, table, maxD, front);
      assert Listed(trials) == Listed(front) + (if last.order.Some? then [(last.D, last.order.value)] else []);
      assert last.D == table[n];
      if n > 0 {
        assert Abs(table[n - 1]) < Abs(table[n]);
      }
    }
  }

  /** The body of the loop of `find_all_discriminants_for_prime` for one
      entry D: the Kronecker test, then Cornacchia, then the order. */
  method TryDiscriminantSteps(D: int, p: int) returns (r: Result<Trial>)
    requires p > 0
    ensures r.Ok? ==> r.value.D == D && IsTrial(p, r.value)
    ensures r.Err? ==> KroneckerSpec(D, p) == 1
    ensures r.Err? ==> r == Err(NoNonResidue) || r == Err(NegativeShift)
    ensures IsPrime(p) ==> r != Err(NegativeShift)
  {
    var k := Kronecker(D, p);
    if k != 1 {
      return Ok(Trial(D, None, None));
    }
    var sol := Cornacchia(D, p);
    if sol.Err? {
      return Err(sol.msg);
    }
    if sol.value.None? {
      return Ok(Trial(D, None, None));
    }
    var cm := ComputeCurveOrderCm(D, p);
    if cm.Err? {
      return Err(cm.msg);
    }
    return Ok(Trial(D, sol.value, cm.value));
  }

  /** The loop of `find_all_discriminants_for_prime` over a table sorted by
      absolute value. The ghost `trials` records, entry by entry, what the
      steps answered: the entries examined are exactly the table's prefix up
      to max_D, and an entry is listed exactly when both steps succeeded. */
  method ScanDiscriminants(p: int, table: seq<int>, maxD: int) returns (r: Result<seq<(int, int)>>, ghost trials: seq<Trial>)
    requires p > 0 && IncreasingInAbs(table)
    ensures r.Ok? ==> forall e :: e in r.value ==>
              e.0 in table && Abs(e.0) <= maxD && KroneckerSpec(e.0, p) == 1 && IsCmOrder(e.0, p, e.1)
    ensures r.Ok? ==> forall k, l :: 0 <= k < l < |r.value| ==> Abs(r.value[k].0) < Abs(r.value[l].0)
    ensures r.Ok? ==> |trials| <= |table|
    ensures r.Ok? ==> forall i :: 0 <= i < |trials| ==> trials[i].D == table[i] && IsTrial(p, trials[i])
    ensures r.Ok? ==> forall i :: 0 <= i < |table| ==> (i < |trials| <==> Abs(table[i]) <= maxD)
    ensures r.Ok? ==> r.value == Listed(trials)
    ensures r.Err? ==> r == Err(NoNonResidue) || r == Err(NegativeShift)
    ensures IsPrime(p) ==> r != Err(NegativeShift)
  {
    var found: seq<(int, int)> := [];
    trials := [];
    for idx := 0 to |table|
      invariant |trials| == idx && Scanned(p, table, maxD, trials)
      invariant found == Listed(trials)
    {
      var D := table[idx];
      if Abs(D) > maxD {
        // the source breaks out of the loop and returns what it found
        ExaminedPrefix(table, maxD, idx);
        ListedFromTable(p, table, maxD, trials);
        return Ok(found), trials;
      }
      var trial := TryDiscriminantSteps(D, p);
      if trial.Err? {
        return Err(trial.msg), trials;
      }
      if trial.value.order.Some? {
        found := found + [(D, trial.value.order.value)];
      }
      ScannedSnoc(p, table, maxD, trials, trial.value);
      trials := trials + [trial.value];
    }
    ExaminedPrefix(table, maxD, |table|);
    ListedFromTable(p, table, maxD, trials);
    return Ok(found), trials;
  }


  /** `find_all_discriminants_for_prime(p, max_D)`: the scan of
      `SMALL_DISCRIMINANTS`. Each (D, order) listed has D in the table with
      abs(D) <= max_D, Kronecker symbol 1 and a CM order; the list is
      sorted by abs(D); and, through the ghost `trials`, every table entry
      up to max_D was examined and is listed exactly when Cornacchia and
      the order both succeeded for it. */
  method FindAllDiscriminantsForPrime(p: int, maxD: int) returns (r: Result<seq<(int, int)>>, ghost trials: seq<Trial>)
    requires p > 0
    ensures r.Ok? ==> forall e :: e in r.value ==>
              e.0 in SmallDiscriminants && Abs(e.0) <= maxD && KroneckerSpec(e.0, p) == 1 && IsCmOrder(e.0, p, e.1)
    ensures r.Ok? ==> forall k, l :: 0 <= k < l < |r.value| ==> Abs(r.value[k].0) < Abs(r.value[l].0)
    ensures r.Ok? ==> |trials| <= |SmallDiscriminants|
    ensures r.Ok? ==> forall i :: 0 <= i < |trials| ==> trials[i].D == SmallDiscriminants[i] && IsTrial(p, trials[i])
    ensures r.Ok? ==> forall i :: 0 <= i < |SmallDiscriminants| ==> (i < |trials| <==> Abs(SmallDiscriminants[i]) <= maxD)
    ensures r.Ok? ==> r.value == Listed(trials)
    ensures r.Err? ==> r == Err(NoNonResidue) || r == Err(NegativeShift)
    ensures IsPrime(p) ==> r != Err(NegativeShift)
  {
    SmallDiscriminantsIncreasing();
    r, trials := ScanDiscriminants(p, SmallDiscriminants, maxD);
  }


  // ---------------------------------------------------------------------
  // factor_simple
  // ---------------------------------------------------------------------

  /** The product of p^e over the primes ps, e being p's multiplicity in
      `factors` (0 when absent). */
  function FactorProduct(ps: seq<nat>, factors: map<nat, nat>): int
    decreases |ps|
  {
    if |ps| == 0 then 1
    else
      var p := ps[|ps| - 1];
      FactorProduct(ps[..|ps| - 1], factors) * (if p in factors then Pow(p, factors[p]) else 1)
  }

  lemma {:induction false} FactorProductIgnores(ps: seq<nat>, factors: map<nat, nat>, q: nat, e: nat)
    requires q !in ps
    ensures FactorProduct(ps, factors[q := e]) == FactorProduct(ps, factors)
    decreases |ps|
  {
    if |ps| > 0 {
      FactorProductIgnores(ps[..|ps| - 1], factors, q, e);
    }
  }

  lemma {:induction false} FactorProductEmpty(ps: seq<nat>)
    ensures FactorProduct(ps, map[]) == 1
    decreases |ps|
  {
    if |ps| > 0 {
      FactorProductEmpty(ps[..|ps| - 1]);
    }
  }

  function MultiplicityOf(factors: map<nat, nat>, p: nat): nat {
    if p in factors then factors[p] else 0
  }

  /** `factor_simple(n)`: trial division by the first 200 table primes,
      stopping at the first prime whose square exceeds what remains. The
      ghost `k` is the index where the division stopped: no prime before it
      divides what remains, and either the primes ran out or ps[k]^2
      exceeds what remains. */
  method FactorSimple(n: int, sp: seq<nat>) returns (factors: map<nat, nat>, remaining: int, ghost k: nat)
    requires IsPrimeTable(sp)
    ensures var ps := sp[..if |sp| < 200 then |sp| else 200];
            n == remaining * FactorProduct(ps, factors) &&
            (forall q :: q in factors ==> q in ps && factors[q] >= 1 && remaining % q != 0)
    ensures var ps := sp[..if |sp| < 200 then |sp| else 200];
            k <= |ps| && (forall j :: 0 <= j < k ==> remaining % ps[j] != 0) &&
            (k == |ps| || ps[k] * ps[k] > remaining)
  {
    var ps := sp[..if |sp| < 200 then |sp| else 200];
    factors, remaining := map[], n;
    FactorProductEmpty(ps);
    for i := 0 to |ps|
      invariant n == remaining * FactorProduct(ps, factors)
      invariant forall q :: q in factors ==> q in ps[..i] && factors[q] >= 1 && remaining % q != 0
      invariant forall j :: 0 <= j < i ==> remaining % ps[j] != 0
    {
      var p := ps[i];
      if p * p > remaining {
        k := i;
        return;
      }
      assert p >= 2;
      MulAtLeast(p, p);
      factors, remaining := DivideOut(n, ps, i, p, factors, remaining);
    }
    k := |ps|;
  }

  /** The inner `while remaining % p == 0` loop of `factor_simple`: divides
      the table prime ps[i] out of `remaining`, counting it in `factors`. */
  method DivideOut(ghost n: int, ghost ps: seq<nat>, ghost i: nat, p: nat, factors0: map<nat, nat>, remaining0: int)
      returns (factors: map<nat, nat>, remaining: int)
    requires forall a, b :: 0 <= a < b < |ps| ==> ps[a] < ps[b]
    requires forall j :: 0 <= j < |ps| ==> ps[j] >= 2
    requires i < |ps| && p == ps[i] && remaining0 > 0
    requires n == remaining0 * FactorProduct(ps, factors0)
    requires forall q :: q in factors0 ==> q in ps[..i] && factors0[q] >= 1 && remaining0 % q != 0
    requires forall j :: 0 <= j < i ==> remaining0 % ps[j] != 0
    ensures n == remaining * FactorProduct(ps, factors)
    ensures forall q :: q in factors ==> q in ps[..i + 1] && factors[q] >= 1 && remaining % q != 0
    ensures forall j :: 0 <= j <= i ==> remaining % ps[j] != 0
  {
    factors, remaining := factors0, remaining0;
    while remaining % p == 0
      invariant remaining > 0
      invariant n == remaining * FactorProduct(ps, factors)
      invariant forall q :: q in factors ==> q in ps[..i + 1] && factors[q] >= 1
      invariant forall q :: q in factors && q != p ==> remaining % q != 0
      invariant forall j :: 0 <= j < i ==> remaining % ps[j] != 0
      decreases remaining
    {
      ghost var old_factors, old_remaining := factors, remaining;
      factors := factors[p := MultiplicityOf(factors, p) + 1];
      remaining := remaining / p;
      assert p in ps;
      FactorSimpleStep(ps, old_factors, p, old_remaining, remaining);
      QuotientKeepsNonDivisors(old_factors, p, old_remaining, remaining);
      forall j | 0 <= j < i
        ensures remaining % ps[j] != 0
      {
        NonDivisorOfQuotient(ps[j], p, old_remaining, remaining);
      }
    }
  }

  /** A number that does not divide x does not divide x / p either. */
  lemma NonDivisorOfQuotient(q: nat, p: nat, before: int, after: int)
    requires q >= 1 && p > 0 && before % p == 0 && after == before / p
    requires before % q != 0
    ensures after % q != 0
  {
    assert before == after * p;
    if after % q == 0 {
      DividesMultiple(q, after, p);
    }
  }

  lemma QuotientKeepsNonDivisors(factors: map<nat, nat>, p: nat, before: int, after: int)
    requires p > 0 && before % p == 0 && after == before / p
    requires forall q :: q in factors ==> q >= 2
    requires forall q :: q in factors && q != p ==> before % q != 0
    ensures forall q :: q in factors && q != p ==> after % q != 0
  {
    forall q | q in factors && q != p
      ensures after % q != 0
    {
      NonDivisorOfQuotient(q, p, before, after);
    }
  }

  /** Moving one factor p from what remains into the multiplicity map keeps
      the product. */
  lemma FactorSimpleStep(ps: seq<nat>, factors: map<nat, nat>, p: nat, before: int, after: int)
    requires p > 0 && p in ps && before % p == 0 && after == before / p
    requires forall i, j :: 0 <= i < j < |ps| ==> ps[i] < ps[j]
    ensures before > 0 && p >= 2 ==> 0 < after < before
    ensures after * FactorProduct(ps, factors[p := MultiplicityOf(factors, p) + 1])
         == before * FactorProduct(ps, factors)
  {
    FactorProductBump(ps, factors, p);
    var P := FactorProduct(ps, factors);
    assert before == p * after + before % p;
    MulAssoc(after, p, P);
    if before > 0 && p >= 2 {
      assert after > 0;
      assert after * p == after + after * (p - 1);
      MulAtLeast(after, p - 1);
    }
  }

  lemma {:induction false} FactorProductBump(ps: seq<nat>, factors: map<nat, nat>, p: nat)
    requires p in ps
    requires forall i, j :: 0 <= i < j < |ps| ==> ps[i] < ps[j]
    ensures FactorProduct(ps, factors[p := MultiplicityOf(factors, p) + 1]) == p * FactorProduct(ps, factors)
    decreases |ps|
  {
    var m := MultiplicityOf(factors, p);
    var f' := factors[p := m + 1];
    var init, q := ps[..|ps| - 1], ps[|ps| - 1];
    var rest := FactorProduct(init, factors);
    var term := if q in factors then Pow(q, factors[q]) else 1;
    var term' := if q in f' then Pow(q, f'[q]) else 1;
    assert FactorProduct(ps, factors) == rest * term;
    if q == p {
      assert p !in init;
      FactorProductIgnores(init, factors, p, m + 1);
      assert term' == p * term;
      MulAssoc(rest, p, term);
    } else {
      assert p in init;
      FactorProductBump(init, factors, p);
      assert term' == term;
      MulAssoc(p, rest, term);
    }
  }

  lemma MulAssocAt(x: int, y: int, z: int)
    ensures (x * y) * z == y * (x * z)
  {
  }

  lemma MulAssoc(x: int, y: int, z: int)
    ensures x * (y * z) == y * (x * z) == (x * y) * z
  {
  }
}
