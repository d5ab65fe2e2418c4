/** The integer kernel of NumberTheory.py (`gcd`, `modulo`, `moduloPower`,
    `inverseModulo`) and the arithmetic facts the rest of the model leans on.
    Python's `%` and `//` with a positive right operand agree with Dafny's
    Euclidean `%` and `/`, so every modulus below is required to be positive
    where the source divides by it. */
module NumberTheory {
  import opened Common

  function Abs(x: int): nat { if x < 0 then -x else x }

  /** b to the power e. */
  function Pow(b: int, e: nat): (r: int)
    ensures b >= 1 ==> r >= 1
    decreases e
  {
    if e == 0 then 1 else b * Pow(b, e - 1)
  }

  /** d divides x (0 divides only 0). */
  predicate Divides(d: nat, x: int) {
    if d == 0 then x == 0 else x % d == 0
  }

  ghost predicate IsPrime(n: int) {
    n >= 2 && forall d: nat :: 2 <= d < n ==> !Divides(d, n)
  }

  /** The shape of the `SMALL_PRIMES` table: primes in increasing order. */
  ghost predicate IsPrimeTable(sp: seq<nat>) {
    (forall i :: 0 <= i < |sp| ==> IsPrime(sp[i])) &&
    (forall i, j :: 0 <= i < j < |sp| ==> sp[i] < sp[j])
  }

  // ---------------------------------------------------------------------
  // Division and remainder
  // ---------------------------------------------------------------------

  lemma MulAtLeast(d: int, t: int)
    requires d > 0 && t >= 1
    ensures d * t >= d
  {
  }

  lemma MulSmall(d: int, t: int)
    requires d > 0 && -d < d * t < d
    ensures t == 0
  {
    if t >= 1 {
      MulAtLeast(d, t);
    } else if t <= -1 {
      MulAtLeast(d, -t);
    }
  }

  /** Quotient and remainder are determined by a = d*q + r, 0 <= r < d. */
  lemma DivModUnique(a: int, d: int, q: int, r: int)
    requires d > 0 && a == d * q + r && 0 <= r < d
    ensures a / d == q && a % d == r
  {
    var q', r' := a / d, a % d;
    assert d * (q - q') == r' - r;
    MulSmall(d, q - q');
  }

  lemma ModAddMultiple(x: int, d: int, k: int)
    requires d > 0
    ensures (d * k + x) % d == x % d
    ensures (x + d * k) % d == x % d
  {
    DivModUnique(d * k + x, d, k + x / d, x % d);
  }

  lemma ModMultiple(d: int, k: int)
    requires d > 0
    ensures (d * k) % d == 0 && (k * d) % d == 0
  {
    ModAddMultiple(0, d, k);
  }

  lemma ModOfMod(x: int, d: int)
    requires d > 0
    ensures (x % d) % d == x % d
  {
    DivModUnique(x % d, d, 0, x % d);
  }

  lemma ModAdd(a: int, b: int, d: int)
    requires d > 0
    ensures (a + b) % d == (a % d + b % d) % d
  {
    var qa, qb := a / d, b / d;
    assert a + b == d * (qa + qb) + (a % d + b % d);
    ModAddMultiple(a % d + b % d, d, qa + qb);
  }

  lemma ModSub(a: int, b: int, d: int)
    requires d > 0
    ensures (a - b) % d == (a % d - b % d) % d
  {
    var qa, qb := a / d, b / d;
    assert a - b == d * (qa - qb) + (a % d - b % d);
    ModAddMultiple(a % d - b % d, d, qa - qb);
  }

  lemma ModMul(a: int, b: int, d: int)
    requires d > 0
    ensures (a * b) % d == ((a % d) * (b % d)) % d
  {
    var qa, ra, qb, rb := a / d, a % d, b / d, b % d;
    calc {
      a * b;
      (d * qa + ra) * (d * qb + rb);
      d * (qa * (d * qb + rb) + ra * qb) + ra * rb;
    }
    ModAddMultiple(ra * rb, d, qa * (d * qb + rb) + ra * qb);
  }

  /** x and y are congruent modulo d exactly when d divides x - y. */
  lemma CongruentIffDivides(x: int, y: int, d: int)
    requires d > 0
    ensures x % d == y % d <==> (x - y) % d == 0
  {
    ModSub(x, y, d);
    var rx, ry := x % d, y % d;
    if (x - y) % d == 0 {
      DivModUnique(rx - ry, d, 0, rx - ry);
      if rx < ry {
        DivModUnique(rx - ry, d, -1, rx - ry + d);
      }
    }
  }

  /** Congruent operands give congruent products. */
  lemma ModMulCongruent(a: int, a': int, b: int, b': int, m: int)
    requires m > 0 && a % m == a' % m && b % m == b' % m
    ensures (a * b) % m == (a' * b') % m
  {
    ModMul(a, b, m);
    ModMul(a', b', m);
  }

  /** Congruent operands give congruent sums. */
  lemma ModAddCongruent(a: int, a': int, b: int, b': int, m: int)
    requires m > 0 && a % m == a' % m && b % m == b' % m
    ensures (a + b) % m == (a' + b') % m
  {
    ModAdd(a, b, m);
    ModAdd(a', b', m);
  }

  // ---------------------------------------------------------------------
  // Powers
  // ---------------------------------------------------------------------

  lemma {:induction false} PowAdd(b: int, e1: nat, e2: nat)
    ensures Pow(b, e1 + e2) == Pow(b, e1) * Pow(b, e2)
    decreases e1
  {
    if e1 > 0 {
      PowAdd(b, e1 - 1, e2);
      assert Pow(b, e1 + e2) == b * Pow(b, (e1 - 1) + e2);
      MulAssociates(b, Pow(b, e1 - 1), Pow(b, e2));
    }
  }

  lemma MulPredecessor(a: nat, b: nat)
    requires b > 0
    ensures a * (b - 1) + a == a * b
  {
  }

  lemma MulAssociates(x: int, y: int, z: int)
    ensures x * (y * z) == (x * y) * z
  {
  }

  lemma {:induction false} PowMul(b: int, e1: nat, e2: nat)
    ensures Pow(b, e1 * e2) == Pow(Pow(b, e1), e2)
    decreases e2
  {
    if e2 > 0 {
      PowMul(b, e1, e2 - 1);
      PowAdd(b, e1 * (e2 - 1), e1);
      MulPredecessor(e1, e2);
    }
  }

  lemma {:induction false} PowMod(b: int, e: nat, m: int)
    requires m > 0
    ensures Pow(b % m, e) % m == Pow(b, e) % m
    decreases e
  {
    if e > 0 {
      PowMod(b, e - 1, m);
      ModMul(b % m, Pow(b % m, e - 1), m);
      ModMul(b, Pow(b, e - 1), m);
      ModOfMod(b, m);
    }
  }

  lemma {:induction false} PowMonotone(b: int, e1: nat, e2: nat)
    requires b >= 1 && e1 <= e2
    ensures Pow(b, e1) <= Pow(b, e2)
    decreases e2
  {
    if e1 < e2 {
      PowMonotone(b, e1, e2 - 1);
      MulAtLeast(Pow(b, e2 - 1), b);
    }
  }

  lemma PowSquare(b: int, e: nat)
    ensures Pow(b, 2 * e) == Pow(b, e) * Pow(b, e)
  {
    PowAdd(b, e, e);
  }

  lemma PowSmall(x: int)
    ensures Pow(x, 1) == x && Pow(x, 2) == x * x && Pow(x, 3) == x * x * x
  {
    assert Pow(x, 1) == x * Pow(x, 0);
    assert Pow(x, 2) == x * Pow(x, 1);
    assert Pow(x, 3) == x * Pow(x, 2);
  }

  // ---------------------------------------------------------------------
  // moduloPower (NumberTheory.py:26-32)
  // ---------------------------------------------------------------------

  /** `pow(number, power, mod)`: both branches of the source compute the same
      value, so the model is a single square-and-multiply definition. */
  function ModuloPower(b: int, e: nat, m: int): (r: int)
    requires m > 0
    ensures 0 <= r < m
    ensures r == Pow(b, e) % m
    decreases e
  {
    if e == 0 then 1 % m
    else
      var half := ModuloPower(b, e / 2, m);
      var sq := (half * half) % m;
      PowSquare(b, e / 2);
      ModMul(Pow(b, e / 2), Pow(b, e / 2), m);
      ModOfMod(Pow(b, e / 2), m);
      if e % 2 == 0 then
        sq
      else
        PowAdd(b, 2 * (e / 2), 1);
        ModMul(Pow(b, 2 * (e / 2)), b, m);
        ModOfMod(Pow(b, 2 * (e / 2)), m);
        (sq * (b % m)) % m
  }

  /** `modulo(number, mod)` (NumberTheory.py:19-24): the residue of x. */
  function Modulo(x: int, m: int): (r: int)
    requires m > 0
    ensures 0 <= r < m
    ensures (x - r) % m == 0
  {
    CongruentIffDivides(x, x % m, m);
    ModOfMod(x, m);
    x % m
  }

  // ---------------------------------------------------------------------
  // gcd (NumberTheory.py:10-17)
  // ---------------------------------------------------------------------

  function NatGcd(a: nat, b: nat): nat
    decreases b
  {
    if b == 0 then a else NatGcd(b, a % b)
  }

  /** `math.gcd` / `gmpy2.gcd`: the non-negative greatest common divisor. */
  function Gcd(a: int, b: int): nat {
    NatGcd(Abs(a), Abs(b))
  }

  lemma DividesAbs(d: nat, x: int)
    ensures Divides(d, x) <==> Divides(d, Abs(x))
  {
    if d > 0 && x < 0 {
      CongruentIffDivides(x, 0, d);
      CongruentIffDivides(-x, 0, d);
      ModSub(0, x, d);
      ModSub(0, -x, d);
    }
  }

  lemma DividesLinear(d: nat, x: int, y: int, k: int)
    requires Divides(d, x) && Divides(d, y)
    ensures Divides(d, x - k * y)
  {
    if d > 0 {
      var qx, qy := x / d, y / d;
      assert x - k * y == d * (qx - k * qy);
      ModMultiple(d, qx - k * qy);
    }
  }

  lemma {:induction false} NatGcdDivides(a: nat, b: nat)
    ensures Divides(NatGcd(a, b), a) && Divides(NatGcd(a, b), b)
    decreases b
  {
    if b > 0 {
      NatGcdDivides(b, a % b);
      var g := NatGcd(a, b);
      // a == (a % b) + (a / b) * b
      DividesLinear(g, a % b, b, -(a / b));
      assert a % b - (-(a / b)) * b == a;
    }
  }

  lemma {:induction false} NatGcdGreatest(a: nat, b: nat, d: nat)
    requires Divides(d, a) && Divides(d, b)
    ensures Divides(d, NatGcd(a, b))
    decreases b
  {
    if b > 0 {
      DividesLinear(d, a, b, a / b);
      assert a - (a / b) * b == a % b;
      NatGcdGreatest(b, a % b, d);
    }
  }

  /** gcd(a, b) divides both arguments and every common divisor divides it. */
  lemma GcdIsGreatestCommonDivisor(a: int, b: int, d: nat)
    ensures Divides(Gcd(a, b), a) && Divides(Gcd(a, b), b)
    ensures Divides(d, a) && Divides(d, b) ==> Divides(d, Gcd(a, b))
  {
    NatGcdDivides(Abs(a), Abs(b));
    DividesAbs(Gcd(a, b), a);
    DividesAbs(Gcd(a, b), b);
    DividesAbs(d, a);
    DividesAbs(d, b);
    if Divides(d, a) && Divides(d, b) {
      NatGcdGreatest(Abs(a), Abs(b), d);
    }
  }

  /** Reducing one argument modulo a common divisor's multiple keeps divisibility. */
  lemma DividesMod(d: nat, a: int, m: int)
    requires m > 0 && Divides(d, m)
    ensures Divides(d, a) <==> Divides(d, a % m)
  {
    var q := a / m;
    assert a % m == a - q * m;
    if Divides(d, a) {
      DividesLinear(d, a, m, q);
    }
    if Divides(d, a % m) {
      DividesLinear(d, a % m, m, -q);
      assert a % m - (-q) * m == a;
    }
  }

  lemma DividesAntisymmetric(x: nat, y: nat)
    requires Divides(x, y) && Divides(y, x)
    ensures x == y
  {
    if x > 0 && y > 0 {
      DividesLe(x, y);
      DividesLe(y, x);
    }
  }

  lemma DividesLe(d: nat, x: int)
    requires Divides(d, x) && x > 0
    ensures d <= x
  {
    if d > x {
      DivModUnique(x, d, 0, x);
    }
  }

  lemma GcdSymmetric(a: int, b: int)
    ensures Gcd(a, b) == Gcd(b, a)
  {
    GcdIsGreatestCommonDivisor(a, b, Gcd(b, a));
    GcdIsGreatestCommonDivisor(b, a, Gcd(a, b));
    DividesAntisymmetric(Gcd(a, b), Gcd(b, a));
  }

  lemma GcdNegate(a: int, b: int)
    ensures Gcd(-a, -b) == Gcd(a, b) && Gcd(-a, b) == Gcd(a, b)
  {
    assert Abs(-a) == Abs(a) && Abs(-b) == Abs(b);
  }

  /** gcd(b mod m, m) == gcd(b, m). */
  lemma GcdMod(b: int, m: int)
    requires m > 0
    ensures Gcd(b % m, m) == Gcd(b, m)
  {
    InverseGcd(b, m);
  }

  lemma OddProduct(x: int, y: int)
    requires x % 2 == 1 && y % 2 == 1
    ensures (x * y) % 2 == 1
  {
    var qx, qy := x / 2, y / 2;
    assert x * y == 2 * (2 * qx * qy + qx + qy) + 1;
    DivModUnique(x * y, 2, 2 * qx * qy + qx + qy, 1);
  }

  lemma EvenProduct(x: int, y: int)
    requires x % 2 == 0
    ensures (x * y) % 2 == 0
  {
    var qx := x / 2;
    assert x * y == 2 * (qx * y);
    ModMultiple(2, qx * y);
  }

  /** Halving an even number does not change its gcd with an odd number. */
  lemma GcdHalveAgainstOdd(a: int, n: int)
    requires a % 2 == 0 && n % 2 == 1
    ensures Gcd(a / 2, n) == Gcd(a, n)
  {
    var h := a / 2;
    assert a == 2 * h;
    var g1, g2 := Gcd(h, n), Gcd(a, n);
    GcdIsGreatestCommonDivisor(h, n, g2);
    GcdIsGreatestCommonDivisor(a, n, g1);
    DividesMultiple(g1, h, 2);
    assert h * 2 == a;
    OddDivisorOfDouble(g2, h, n);
    DividesAntisymmetric(g1, g2);
  }

  lemma OddDivisorOfDouble(d: nat, h: int, n: int)
    requires n % 2 == 1 && Divides(d, n) && Divides(d, 2 * h)
    ensures Divides(d, h)
  {
    var k := n / d;
    assert n == d * k;
    if d % 2 == 0 {
      EvenProduct(d, k);
      assert false;
    }
    var j := (2 * h) / d;
    assert 2 * h == d * j;
    if j % 2 == 1 {
      OddProduct(d, j);
      assert false;
    }
    var j2 := j / 2;
    MulAssociates(d, 2, j2);
    assert h == d * j2;
    ModMultiple(d, j2);
  }

  // ---------------------------------------------------------------------
  // inverseModulo (NumberTheory.py:34-41)
  // ---------------------------------------------------------------------

  /** Extended Euclid: Bezout coefficients for gcd(a, b). */
  function ExtGcd(a: nat, b: nat): (r: (nat, int, int))
    ensures r.0 == NatGcd(a, b)
    ensures a * r.1 + b * r.2 == r.0
    decreases b
  {
    if b == 0 then (a, 1, 0)
    else
      var sub := ExtGcd(b, a % b);
      assert a % b == a - (a / b) * b;
      (sub.0, sub.2, sub.1 - (a / b) * sub.2)
  }

  /** `pow(a, -1, mod)` / `gmpy2.invert`: the inverse of a in [0, mod), or no
      value (the source raises) when a and mod are not coprime. */
  function InverseModulo(a: int, m: int): (r: Option<int>)
    requires m > 0
    ensures r.Some? <==> Gcd(a, m) == 1
    ensures r.Some? ==> 0 <= r.value < m && (a * r.value) % m == 1 % m
  {
    var e := ExtGcd(a % m, m);
    InverseGcd(a, m);
    if e.0 == 1 then
      InverseFromBezout(a, m, e.1, e.2);
      Some(e.1 % m)
    else
      None
  }

  /** A unit modulo m has an inverse. */
  lemma InverseExists(a: int, m: int) returns (inv: int)
    requires m > 0 && Gcd(a, m) == 1
    ensures (a * inv) % m == 1 % m
  {
    inv := InverseModulo(a, m).value;
  }

  lemma InverseGcd(a: int, m: int)
    requires m > 0
    ensures NatGcd(a % m, m) == Gcd(a, m)
  {
    // a % m and a have the same common divisors with m
    var g1, g2 := Gcd(a % m, m), Gcd(a, m);
    assert g1 == NatGcd(a % m, m);
    GcdIsGreatestCommonDivisor(a % m, m, g2);
    GcdIsGreatestCommonDivisor(a, m, g1);
    DividesMod(g1, a, m);
    DividesMod(g2, a, m);
    DividesAntisymmetric(g1, g2);
  }

  lemma InverseFromBezout(a: int, m: int, x: int, y: int)
    requires m > 0 && (a % m) * x + m * y == 1
    ensures (a * (x % m)) % m == 1 % m
  {
    ModMul(a, x % m, m);
    ModOfMod(x, m);
    ModMul(a % m, x, m);
    ModOfMod(a, m);
    ModMul(a, x, m);
    assert (a % m) * x == 1 + m * (-y);
    ModAddMultiple(1, m, -y);
  }

  /** q = num * inv(den) solves q * den == num (mod p). */
  lemma QuotientFromInverse(p: int, num: int, den: int, inv: int, q: int)
    requires p > 0
    requires (den * inv) % p == 1 % p
    requires q == (num * inv) % p
    ensures (q * den) % p == num % p
  {
    var ni, id := num * inv, inv * den;
    assert ni * den == num * id;
    assert id == den * inv;
    calc {
      (q * den) % p;
      { ModOfMod(ni, p); ModMulCongruent(q, ni, den, den, p); }
      (ni * den) % p;
      (num * id) % p;
      { ModMulCongruent(num, num, id, 1, p); }
      (num * 1) % p;
    }
  }

  /** When gcd(a, m) != 1 nothing is an inverse of a modulo m, so the
      failure of `inverseModulo` is exactly the absence of an inverse. */
  lemma NoInverseWithoutCoprimality(a: int, m: int, x: int)
    requires m > 0 && Gcd(a, m) != 1
    ensures (a * x) % m != 1 % m
  {
    if (a * x) % m == 1 % m {
      var g := Gcd(a, m);
      GcdIsGreatestCommonDivisor(a, m, g);
      // a*x - 1 is a multiple of m, so g divides a*x - (a*x - 1) == 1
      CongruentIffDivides(a * x, 1, m);
      var k := (a * x - 1) / m;
      assert a * x - 1 == m * k;
      DividesMultiple(g, a, x);
      DividesMultiple(g, m, k);
      DividesLinear(g, a * x, m * k, 1);
      DividesLe(g, 1);
    }
  }

  /** Having an inverse modulo m forces coprimality with m. */
  lemma CoprimeFromInverse(a: int, m: int, x: int)
    requires m > 0 && (a * x) % m == 1 % m
    ensures Gcd(a, m) == 1
  {
    if Gcd(a, m) != 1 {
      NoInverseWithoutCoprimality(a, m, x);
    }
  }

  lemma DividesMultiple(d: nat, y: int, k: int)
    requires Divides(d, y)
    ensures Divides(d, y * k)
  {
    DividesLinear(d, 0, y, -k);
    assert 0 - (-k) * y == y * k;
  }

  lemma DividesTransitive(a: nat, b: nat, c: int)
    requires Divides(a, b) && Divides(b, c)
    ensures Divides(a, c)
  {
    if b == 0 {
      assert c == 0;
    } else {
      DividesMultiple(a, b, c / b);
      assert b * (c / b) == c;
    }
  }

  /** Every integer from 2 on has a prime divisor no larger than itself. */
  lemma {:induction false} PrimeDivisorExists(d: int) returns (q: nat)
    requires d >= 2
    ensures IsPrime(q) && Divides(q, d) && q <= d
    decreases d
  {
    if IsPrime(d) {
      q := d;
      ModMultiple(d, 1);
    } else {
      var k: nat :| 2 <= k < d && Divides(k, d);
      q := PrimeDivisorExists(k);
      DividesTransitive(q, k, d);
    }
  }

  /** Modulo a prime every non-multiple is coprime to the modulus. */
  lemma PrimeCoprime(p: int, a: int)
    requires IsPrime(p) && a % p != 0
    ensures Gcd(a, p) == 1
  {
    var g := Gcd(a, p);
    GcdIsGreatestCommonDivisor(a, p, g);
    DividesLe(g, p);
    assert g != 0;
    assert !(2 <= g < p);
  }

  /** Euclid's lemma: a prime dividing a product divides one of the factors. */
  lemma EuclidLemma(p: int, a: int, b: int)
    requires IsPrime(p) && (a * b) % p == 0
    ensures a % p == 0 || b % p == 0
  {
    if a % p != 0 {
      PrimeCoprime(p, a);
      var inv := InverseExists(a, p);
      assert 1 % p == 1;
      CancelUnit(p, a, b, inv);
    }
  }

  lemma CancelUnit(p: int, a: int, b: int, inv: int)
    requires p > 1 && (a * inv) % p == 1 && (a * b) % p == 0
    ensures b % p == 0
  {
    var ai, ab := a * inv, a * b;
    MulSwap(a, inv, b);
    ModMulByOne(ai, b, p);
    ModMulByZero(ab, inv, p);
  }

  lemma ModMulByOne(x: int, y: int, m: int)
    requires m > 1 && x % m == 1
    ensures (x * y) % m == y % m
  {
    ModMul(x, y, m);
    ModOfMod(y, m);
    assert (x % m) * (y % m) == y % m;
  }

  lemma ModMulByZero(x: int, y: int, m: int)
    requires m > 0 && x % m == 0
    ensures (x * y) % m == 0
  {
    ModMul(x, y, m);
    assert (x % m) * (y % m) == 0;
  }

  lemma MulSwap(x: int, y: int, z: int)
    ensures (x * y) * z == (x * z) * y
  {
  }

  /** Modulo a prime, x^2 == y^2 only for x == y or x == -y. */
  lemma SquareRootsModPrime(p: int, x: int, y: int)
    requires IsPrime(p) && (x * x) % p == (y * y) % p
    ensures (x - y) % p == 0 || (x + y) % p == 0
  {
    CongruentIffDivides(x * x, y * y, p);
    assert x * x - y * y == (x - y) * (x + y);
    EuclidLemma(p, x - y, x + y);
  }

  // ---------------------------------------------------------------------
  // Integer square root (every `** 0.5` of the source)
  // ---------------------------------------------------------------------

  /** floor(sqrt(n)), the exact value the source approximates with floats. */
  function Isqrt(n: nat): (r: nat)
    ensures r * r <= n < (r + 1) * (r + 1)
    decreases n
  {
    if n < 4 then (if n == 0 then 0 else 1)
    else
      var s := Isqrt(n / 4);
      IsqrtStep(n, s);
      if (2 * s + 1) * (2 * s + 1) <= n then 2 * s + 1 else 2 * s
  }

  /** Doubling the root of n / 4 brackets the root of n. */
  lemma IsqrtStep(n: nat, s: nat)
    requires s * s <= n / 4 < (s + 1) * (s + 1)
    ensures (2 * s) * (2 * s) <= n < (2 * s + 2) * (2 * s + 2)
  {
    var q := n / 4;
    assert n == 4 * q + n % 4;
    assert (2 * s) * (2 * s) == 4 * (s * s);
    assert (2 * s + 2) * (2 * s + 2) == 4 * ((s + 1) * (s + 1));
  }

  /** The integer square root is the unique r with r^2 <= n < (r+1)^2. */
  lemma IsqrtUnique(n: nat, r: nat)
    requires r * r <= n < (r + 1) * (r + 1)
    ensures r == Isqrt(n)
  {
    var s := Isqrt(n);
    if r < s {
      assert r + 1 <= s;
      MulMono(r + 1, s);
    } else if s < r {
      assert s + 1 <= r;
      MulMono(s + 1, r);
    }
  }

  lemma MulMono(x: nat, y: nat)
    requires x <= y
    ensures x * x <= y * y
  {
  }
}
