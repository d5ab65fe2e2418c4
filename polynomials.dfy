// Polynomials modulo (x^r - 1, n), as both AKS implementations compute them:
// the source's double loop over coefficient pairs, the cyclic convolution it
// amounts to, and the algebra (commutativity, associativity, powers) that
// square-and-multiply relies on.

module Polynomials {
  import opened NumberTheory

  // ---------------------------------------------------------------------
  // Finite sums
  // ---------------------------------------------------------------------

  /** f(0) + f(1) + ... + f(m - 1). */
  function Sum(f: nat -> int, m: nat): int
  {
    if m == 0 then 0 else Sum(f, m - 1) + f(m - 1)
  }

  lemma {:induction false} SumExt(f: nat -> int, g: nat -> int, m: nat)
    requires forall i: nat :: i < m ==> f(i) == g(i)
    ensures Sum(f, m) == Sum(g, m)
  {
    if m > 0 {
      SumExt(f, g, m - 1);
    }
  }

  lemma {:induction false} SumAdd(f: nat -> int, g: nat -> int, h: nat -> int, m: nat)
    requires forall i: nat :: i < m ==> h(i) == f(i) + g(i)
    ensures Sum(h, m) == Sum(f, m) + Sum(g, m)
  {
    if m > 0 {
      SumAdd(f, g, h, m - 1);
    }
  }

  lemma {:induction false} SumScale(f: nat -> int, g: nat -> int, c: int, m: nat)
    requires forall i: nat :: i < m ==> g(i) == c * f(i)
    ensures Sum(g, m) == c * Sum(f, m)
  {
    if m > 0 {
      SumScale(f, g, c, m - 1);
      assert c * Sum(f, m) == c * Sum(f, m - 1) + c * f(m - 1);
    }
  }

  /** Sums of pointwise congruent terms are congruent. */
  lemma {:induction false} SumCongruent(f: nat -> int, g: nat -> int, n: int, m: nat)
    requires n > 0 && forall i: nat :: i < m ==> f(i) % n == g(i) % n
    ensures Sum(f, m) % n == Sum(g, m) % n
  {
    if m > 0 {
      SumCongruent(f, g, n, m - 1);
      ModAddCongruent(Sum(f, m - 1), Sum(g, m - 1), f(m - 1), g(m - 1), n);
    }
  }

  /** Terms past m that are all zero do not change the sum. */
  lemma {:induction false} SumZeroTail(f: nat -> int, m: nat, m': nat)
    requires m <= m' && forall i: nat :: m <= i < m' ==> f(i) == 0
    ensures Sum(f, m') == Sum(f, m)
  {
    if m' > m {
      SumZeroTail(f, m, m' - 1);
    }
  }

  /** A sum whose only nonzero term is the one at index 0. */
  lemma {:induction false} SumSingle(f: nat -> int, m: nat)
    requires m > 0 && forall i: nat :: 0 < i < m ==> f(i) == 0
    ensures Sum(f, m) == f(0)
  {
    if m > 1 {
      SumSingle(f, m - 1);
    }
  }

  /** A sum whose only nonzero term is the one at index s. */
  lemma SumAt(f: nat -> int, m: nat, s: nat)
    requires s < m && forall i: nat :: i < m && i != s ==> f(i) == 0
    ensures Sum(f, m) == f(s)
  {
    SumZeroTail(f, 0, s);
    SumZeroTail(f, s + 1, m);
  }

  /** Row i of a double-indexed family, as a function of the column. */
  function Row(f: (nat, nat) -> int, i: nat): nat -> int
  {
    (j: nat) => f(i, j)
  }

  /** Column j of a double-indexed family, as a function of the row. */
  function Column(f: (nat, nat) -> int, j: nat): nat -> int
  {
    (i: nat) => f(i, j)
  }

  /** The row sums over the first b columns. */
  function RowSums(f: (nat, nat) -> int, b: nat): nat -> int
  {
    (i: nat) => Sum(Row(f, i), b)
  }

  /** The column sums over the first a rows. */
  function ColumnSums(f: (nat, nat) -> int, a: nat): nat -> int
  {
    (j: nat) => Sum(Column(f, j), a)
  }

  /** The order of summation of a double sum does not matter. */
  lemma {:induction false} SumSwap(f: (nat, nat) -> int, a: nat, b: nat)
    ensures Sum(RowSums(f, b), a) == Sum(ColumnSums(f, a), b)
  {
    if a > 0 {
      SumSwap(f, a - 1, b);
      forall j: nat | j < b
        ensures ColumnSums(f, a)(j) == ColumnSums(f, a - 1)(j) + Row(f, a - 1)(j)
      {
        assert ColumnSums(f, a)(j) == Sum(Column(f, j), a);
        assert Column(f, j)(a - 1) == Row(f, a - 1)(j);
      }
      SumAdd(ColumnSums(f, a - 1), Row(f, a - 1), ColumnSums(f, a), b);
      assert Sum(RowSums(f, b), a) == Sum(RowSums(f, b), a - 1) + Sum(Row(f, a - 1), b);
    } else {
      SumZeroTail(ColumnSums(f, 0), 0, b);
    }
  }

  /** h read starting at offset s, cyclically modulo r. */
  function Rotated(h: nat -> int, r: nat, s: nat): nat -> int
    requires r > 0
  {
    (l: nat) => h((l + s) % r)
  }

  /** h read one place further on. */
  function Shifted(h: nat -> int): nat -> int
  {
    (l: nat) => h(l + 1)
  }

  lemma {:induction false} SumShift(h: nat -> int, m: nat)
    ensures Sum(Shifted(h), m) + h(0) == Sum(h, m + 1)
  {
    if m > 0 {
      SumShift(h, m - 1);
    }
  }

  lemma SumRotateOne(h: nat -> int, r: nat)
    requires r > 0
    ensures Sum(Rotated(h, r, 1), r) == Sum(h, r)
  {
    SumExt(Rotated(h, r, 1), Shifted(h), r - 1);
    SumShift(h, r - 1);
    assert (r - 1 + 1) % r == 0;
  }

  /** Summing over Z_r starting at any offset gives the same total. */
  lemma {:induction false} SumRotate(h: nat -> int, r: nat, s: nat)
    requires r > 0
    ensures Sum(Rotated(h, r, s), r) == Sum(h, r)
  {
    if s > 0 {
      SumRotate(h, r, s - 1);
      RotateStep(h, r, s);
    } else {
      RotateZero(h, r);
    }
  }

  lemma RotateStep(h: nat -> int, r: nat, s: nat)
    requires r > 0 && s > 0
    ensures Sum(Rotated(h, r, s), r) == Sum(Rotated(h, r, s - 1), r)
  {
    var g := Rotated(h, r, s - 1);
    SumRotateOne(g, r);
    forall l: nat | l < r
      ensures Rotated(h, r, s)(l) == Rotated(g, r, 1)(l)
    {
      RotateIndex(l, s, r);
    }
    SumExt(Rotated(h, r, s), Rotated(g, r, 1), r);
  }

  lemma RotateZero(h: nat -> int, r: nat)
    requires r > 0
    ensures Sum(Rotated(h, r, 0), r) == Sum(h, r)
  {
    forall l: nat | l < r
      ensures Rotated(h, r, 0)(l) == h(l)
    {
      DivModUnique(l, r, 0, l);
    }
    SumExt(Rotated(h, r, 0), h, r);
  }

  lemma RotateIndex(l: nat, s: nat, r: nat)
    requires r > 0 && s > 0
    ensures (l + s) % r == ((l + 1) % r + (s - 1)) % r
  {
    var u := (l + 1) % r;
    ModAdd(l + 1, s - 1, r);
    ModAdd(u, s - 1, r);
    ModOfMod(l + 1, r);
    assert l + 1 + (s - 1) == l + s;
  }

  lemma SubModLeft(x: int, y: int, r: nat)
    requires r > 0
    ensures (x % r - y) % r == (x - y) % r
  {
    ModSub(x % r, y, r);
    ModSub(x, y, r);
    ModOfMod(x, r);
  }

  lemma SubModRight(x: int, y: int, r: nat)
    requires r > 0
    ensures (x - y % r) % r == (x - y) % r
  {
    ModSub(x, y % r, r);
    ModSub(x, y, r);
    ModOfMod(y, r);
  }

  // ---------------------------------------------------------------------
  // Coefficient lists
  // ---------------------------------------------------------------------

  /** Coefficient i of p (p[0] is the constant term), zero past its end. */
  function Coeff(p: seq<int>, i: int): int
  {
    if 0 <= i < |p| then p[i] else 0
  }

  /** Every coefficient lies in [0, n). */
  predicate Reduced(p: seq<int>, n: int)
  {
    forall i :: 0 <= i < |p| ==> 0 <= p[i] < n
  }

  /** The first r coefficients of p, each reduced modulo n, padded with
      zeros to exactly r entries. */
  function Reduce(p: seq<int>, r: nat, n: nat): (c: seq<int>)
    requires n > 0
    ensures |c| == r && Reduced(c, n)
    ensures forall i :: 0 <= i < r ==> c[i] == Coeff(p, i) % n
  {
    seq(r, i => Coeff(p, i) % n)
  }

  /** The trimming both AKS loops end with: trailing zero coefficients are
      popped while more than one coefficient is left. */
  function Trim(s: seq<int>): (t: seq<int>)
    requires |s| >= 1
    ensures 1 <= |t| <= |s| && t == s[..|t|]
    ensures |t| > 1 ==> t[|t| - 1] != 0
    ensures forall i :: |t| <= i < |s| ==> s[i] == 0
  {
    if |s| > 1 && s[|s| - 1] == 0 then Trim(s[..|s| - 1]) else s
  }

  lemma TrimCoeffAt(s: seq<int>, i: int)
    requires |s| >= 1
    ensures Coeff(Trim(s), i) == Coeff(s, i)
  {
  }

  /** Trimming never changes a coefficient. */
  lemma TrimCoeff(s: seq<int>)
    requires |s| >= 1
    ensures forall i :: Coeff(Trim(s), i) == Coeff(s, i)
  {
  }

  /** The trimmed list is the prefix up to the last nonzero coefficient
      (or the first coefficient when all are zero). */
  lemma TrimUnique(s: seq<int>, len: nat)
    requires 1 <= len <= |s|
    requires len > 1 ==> s[len - 1] != 0
    requires forall i :: len <= i < |s| ==> s[i] == 0
    ensures Trim(s) == s[..len]
  {
    var t := Trim(s);
    if |t| < len {
      assert false;
    }
    if |t| > len {
      assert false;
    }
  }

  /** Lists with the same coefficients, whatever their trailing zeros, trim
      to the same list. */
  lemma TrimEqualByCoeff(x: seq<int>, y: seq<int>)
    requires |x| >= 1 && |y| >= 1
    requires forall i :: Coeff(x, i) == Coeff(y, i)
    ensures Trim(x) == Trim(y)
  {
    var tx, ty := Trim(x), Trim(y);
    TrimNotLonger(x, y);
    TrimNotLonger(y, x);
    TrimCoeff(x);
    TrimCoeff(y);
    forall i | 0 <= i < |tx|
      ensures tx[i] == ty[i]
    {
      assert Coeff(tx, i) == Coeff(ty, i);
    }
  }

  lemma TrimNotLonger(x: seq<int>, y: seq<int>)
    requires |x| >= 1 && |y| >= 1
    requires forall i :: Coeff(x, i) == Coeff(y, i)
    ensures |Trim(x)| <= |Trim(y)|
  {
    if |Trim(x)| > |Trim(y)| {
      var j := |Trim(x)| - 1;
      TrimTopNonzero(x);
      TrimBeyondZero(y, j);
      assert false;
    }
  }

  /** The last coefficient kept by Trim is nonzero unless it is the only one. */
  lemma TrimTopNonzero(x: seq<int>)
    requires |x| >= 1 && |Trim(x)| > 1
    ensures Coeff(x, |Trim(x)| - 1) != 0
  {
    var t := Trim(x);
    assert x[|t| - 1] == t[|t| - 1];
  }

  /** Every coefficient past the trimmed length is zero. */
  lemma TrimBeyondZero(y: seq<int>, j: int)
    requires |y| >= 1 && j >= |Trim(y)|
    ensures Coeff(y, j) == 0
  {
  }

  /** Two lists of r coefficients trim to the same list exactly when they
      are equal, so comparing trimmed lists compares the polynomials. */
  lemma TrimInjective(x: seq<int>, y: seq<int>)
    requires |x| == |y| >= 1
    ensures Trim(x) == Trim(y) <==> x == y
  {
    if Trim(x) == Trim(y) {
      TrimCoeff(x);
      TrimCoeff(y);
      forall i | 0 <= i < |x|
        ensures x[i] == y[i]
      {
        assert Coeff(x, i) == Coeff(y, i);
      }
    }
  }

  // ---------------------------------------------------------------------
  // The product modulo (x^r - 1, n), as the source's double loop adds it up
  // ---------------------------------------------------------------------

  /** The contribution of the pair (i, j) to coefficient k: p1[i] p2[j]
      reduced modulo n, when i + j falls on k modulo r. */
  function Term(p1: seq<int>, p2: seq<int>, r: nat, n: nat, k: int): (nat, nat) -> int
    requires r > 0 && n > 0
  {
    (i: nat, j: nat) => if (i + j) % r == k then (Coeff(p1, i) * Coeff(p2, j)) % n else 0
  }

  /** Coefficient k before its final reduction, once the first `rows`
      coefficients of p1 have been paired with every coefficient of p2. */
  function ProductUpTo(p1: seq<int>, p2: seq<int>, r: nat, n: nat, k: int, rows: nat): int
    requires r > 0 && n > 0
  {
    Sum(RowSums(Term(p1, p2, r, n, k), |p2|), rows)
  }

  /** The untrimmed result of `poly_mul(p1, p2, r, n)`. */
  function Product(p1: seq<int>, p2: seq<int>, r: nat, n: nat): (c: seq<int>)
    requires r > 0 && n > 0
    ensures |c| == r && Reduced(c, n)
  {
    seq(r, k => ProductUpTo(p1, p2, r, n, k, |p1|) % n)
  }

  /** The product does not depend on the order of its factors. */
  lemma ProductCommutes(p1: seq<int>, p2: seq<int>, r: nat, n: nat)
    requires r > 0 && n > 0
    ensures Product(p1, p2, r, n) == Product(p2, p1, r, n)
  {
    forall k | 0 <= k < r
      ensures ProductUpTo(p1, p2, r, n, k, |p1|) == ProductUpTo(p2, p1, r, n, k, |p2|)
    {
      ProductSumCommutes(p1, p2, r, n, k);
    }
  }

  lemma ProductSumCommutes(p1: seq<int>, p2: seq<int>, r: nat, n: nat, k: int)
    requires r > 0 && n > 0
    ensures ProductUpTo(p1, p2, r, n, k, |p1|) == ProductUpTo(p2, p1, r, n, k, |p2|)
  {
    var f, g := Term(p1, p2, r, n, k), Term(p2, p1, r, n, k);
    SumSwap(f, |p1|, |p2|);
    forall j: nat | j < |p2|
      ensures ColumnSums(f, |p1|)(j) == RowSums(g, |p1|)(j)
    {
      forall i: nat | i < |p1|
        ensures Column(f, j)(i) == Row(g, j)(i)
      {
        assert (i + j) % r == (j + i) % r;
        assert Coeff(p1, i) * Coeff(p2, j) == Coeff(p2, j) * Coeff(p1, i);
      }
      SumExt(Column(f, j), Row(g, j), |p1|);
    }
    SumExt(ColumnSums(f, |p1|), RowSums(g, |p1|), |p2|);
  }

  // ---------------------------------------------------------------------
  // Cyclic convolution
  // ---------------------------------------------------------------------

  /** The terms a_i b_((k - i) mod r) of coefficient k of the cyclic
      product. */
  function ConvTerms(a: seq<int>, b: seq<int>, r: nat, k: int): nat -> int
    requires r > 0
  {
    (i: nat) => Coeff(a, i) * Coeff(b, (k - i) % r)
  }

  /** a(x) b(x) modulo (x^r - 1, n) as r coefficients: since x^r == 1,
      coefficient k collects every a_i b_j with i + j == k (mod r). */
  function Conv(a: seq<int>, b: seq<int>, r: nat, n: nat): (c: seq<int>)
    requires r > 0 && n > 0
    ensures |c| == r
  {
    seq(r, k => Sum(ConvTerms(a, b, r, k), r) % n)
  }

  lemma ConvReduced(a: seq<int>, b: seq<int>, r: nat, n: nat)
    requires r > 0 && n > 0
    ensures Reduced(Conv(a, b, r, n), n)
  {
  }

  /** For i + b on coefficient k modulo r, b is determined: the pairs of the
      double loop that land on k are exactly those of the convolution. */
  lemma LandsOn(i: nat, b: nat, r: nat, k: int)
    requires 0 <= k < r && b < r
    ensures (i + b) % r == k <==> b == (k - i) % r
  {
    if (i + b) % r == k {
      SubModLeft(i + b, i, r);
      DivModUnique(b, r, 0, b);
    }
    if b == (k - i) % r {
      ModAdd(i, k - i, r);
      ModAdd(i, b, r);
      ModOfMod(k - i, r);
      DivModUnique(k, r, 0, k);
    }
  }

  /** Row i of the double loop, over the first b columns, holds at most the
      one pair that lands on k. */
  lemma {:induction false} RowSingle(p1: seq<int>, p2: seq<int>, r: nat, n: nat, k: int, i: nat, b: nat)
    requires r > 0 && n > 0 && 0 <= k < r && b <= r
    ensures Sum(Row(Term(p1, p2, r, n, k), i), b)
         == if (k - i) % r < b then (Coeff(p1, i) * Coeff(p2, (k - i) % r)) % n else 0
  {
    if b > 0 {
      RowSingle(p1, p2, r, n, k, i, b - 1);
      LandsOn(i, b - 1, r, k);
    }
  }

  /** The convolution terms, each reduced modulo n. */
  function ReducedTerms(a: seq<int>, b: seq<int>, r: nat, n: nat, k: int): nat -> int
    requires r > 0 && n > 0
  {
    (i: nat) => ConvTerms(a, b, r, k)(i) % n
  }

  /** For factors of at most r coefficients, the double loop computes the
      cyclic convolution. */
  lemma ProductIsConv(p1: seq<int>, p2: seq<int>, r: nat, n: nat)
    requires r > 0 && n > 0 && |p1| <= r && |p2| <= r
    ensures Product(p1, p2, r, n) == Conv(p1, p2, r, n)
  {
    forall k | 0 <= k < r
      ensures ProductUpTo(p1, p2, r, n, k, |p1|) % n == Sum(ConvTerms(p1, p2, r, k), r) % n
    {
      ProductCoefficient(p1, p2, r, n, k);
    }
  }

  lemma ProductCoefficient(p1: seq<int>, p2: seq<int>, r: nat, n: nat, k: int)
    requires r > 0 && n > 0 && |p1| <= r && |p2| <= r && 0 <= k < r
    ensures ProductUpTo(p1, p2, r, n, k, |p1|) % n == Sum(ConvTerms(p1, p2, r, k), r) % n
  {
    var f := Term(p1, p2, r, n, k);
    var g := ReducedTerms(p1, p2, r, n, k);
    forall i: nat | i < |p1|
      ensures RowSums(f, |p2|)(i) == g(i)
    {
      RowIsReducedTerm(p1, p2, r, n, k, i);
    }
    SumExt(RowSums(f, |p2|), g, |p1|);
    forall i: nat | |p1| <= i < r
      ensures g(i) == 0
    {
      assert ConvTerms(p1, p2, r, k)(i) == 0 * Coeff(p2, (k - i) % r);
    }
    SumZeroTail(g, |p1|, r);
    forall i: nat | i < r
      ensures g(i) % n == ConvTerms(p1, p2, r, k)(i) % n
    {
      ModOfMod(ConvTerms(p1, p2, r, k)(i), n);
    }
    SumCongruent(g, ConvTerms(p1, p2, r, k), n, r);
  }

  lemma RowIsReducedTerm(p1: seq<int>, p2: seq<int>, r: nat, n: nat, k: int, i: nat)
    requires r > 0 && n > 0 && |p2| <= r && 0 <= k < r
    ensures RowSums(Term(p1, p2, r, n, k), |p2|)(i) == ReducedTerms(p1, p2, r, n, k)(i)
  {
    RowSingle(p1, p2, r, n, k, i, |p2|);
    var x := Coeff(p2, (k - i) % r);
    assert ConvTerms(p1, p2, r, k)(i) == Coeff(p1, i) * x;
    if (k - i) % r >= |p2| {
      assert x == 0;
    }
  }

  /** Cyclic convolution is commutative. */
  lemma ConvCommutes(a: seq<int>, b: seq<int>, r: nat, n: nat)
    requires r > 0 && n > 0 && |a| <= r && |b| <= r
    ensures Conv(a, b, r, n) == Conv(b, a, r, n)
  {
    ProductIsConv(a, b, r, n);
    ProductIsConv(b, a, r, n);
    ProductCommutes(a, b, r, n);
  }

  /** Coefficients that agree below r give the same cyclic product. */
  lemma ConvExt(a: seq<int>, a': seq<int>, b: seq<int>, b': seq<int>, r: nat, n: nat)
    requires r > 0 && n > 0
    requires forall i :: 0 <= i < r ==> Coeff(a, i) == Coeff(a', i) && Coeff(b, i) == Coeff(b', i)
    ensures Conv(a, b, r, n) == Conv(a', b', r, n)
  {
    forall k | 0 <= k < r
      ensures Sum(ConvTerms(a, b, r, k), r) == Sum(ConvTerms(a', b', r, k), r)
    {
      forall i: nat | i < r
        ensures ConvTerms(a, b, r, k)(i) == ConvTerms(a', b', r, k)(i)
      {
        var j := (k - i) % r;
        assert Coeff(b, j) == Coeff(b', j);
      }
      SumExt(ConvTerms(a, b, r, k), ConvTerms(a', b', r, k), r);
    }
  }

  /** Reducing the coefficients of a factor first does not change the
      product. */
  lemma ConvReduceLeft(a: seq<int>, b: seq<int>, r: nat, n: nat)
    requires r > 0 && n > 0
    ensures Conv(Reduce(a, r, n), b, r, n) == Conv(a, b, r, n)
  {
    var a' := Reduce(a, r, n);
    forall k | 0 <= k < r
      ensures Sum(ConvTerms(a', b, r, k), r) % n == Sum(ConvTerms(a, b, r, k), r) % n
    {
      forall i: nat | i < r
        ensures ConvTerms(a', b, r, k)(i) % n == ConvTerms(a, b, r, k)(i) % n
      {
        var c := Coeff(b, (k - i) % r);
        ModOfMod(Coeff(a, i), n);
        ModMulCongruent(Coeff(a, i) % n, Coeff(a, i), c, c, n);
      }
      SumCongruent(ConvTerms(a', b, r, k), ConvTerms(a, b, r, k), n, r);
    }
  }

  /** The constant polynomial 1 multiplies to the reduced other factor. */
  lemma ConvOne(x: seq<int>, r: nat, n: nat)
    requires r > 0 && n > 0
    ensures Conv([1], x, r, n) == Reduce(x, r, n)
  {
    forall k | 0 <= k < r
      ensures Sum(ConvTerms([1], x, r, k), r) == Coeff(x, k)
    {
      forall i: nat | 0 < i < r
        ensures ConvTerms([1], x, r, k)(i) == 0
      {
        assert Coeff([1], i) == 0;
      }
      SumSingle(ConvTerms([1], x, r, k), r);
      DivModUnique(k, r, 0, k);
    }
  }

  /** The identity of the ring: 1 reduced modulo n, as r coefficients. */
  function Unit(r: nat, n: nat): (u: seq<int>)
    requires n > 0
    ensures |u| == r && Reduced(u, n)
  {
    Reduce([1], r, n)
  }

  lemma ReduceReduced(x: seq<int>, r: nat, n: nat)
    requires n > 0 && |x| == r && Reduced(x, n)
    ensures Reduce(x, r, n) == x
  {
    forall i | 0 <= i < r
      ensures Reduce(x, r, n)[i] == x[i]
    {
      DivModUnique(x[i], n, 0, x[i]);
    }
  }

  /** Unit(r, n) is a two-sided identity on reduced polynomials. */
  lemma UnitIdentity(x: seq<int>, r: nat, n: nat)
    requires r > 0 && n > 0 && |x| == r && Reduced(x, n)
    ensures Conv(Unit(r, n), x, r, n) == x
    ensures Conv(x, Unit(r, n), r, n) == x
  {
    ConvReduceLeft([1], x, r, n);
    ConvOne(x, r, n);
    ReduceReduced(x, r, n);
    ConvCommutes(x, Unit(r, n), r, n);
  }

  // Associativity: both bracketings equal, modulo n, the triple sum over
  // i, l of a_i b_((l - i) mod r) c_((k - l) mod r).

  function Triple(a: seq<int>, b: seq<int>, c: seq<int>, r: nat, k: int): (nat, nat) -> int
    requires r > 0
  {
    (l: nat, i: nat) => Coeff(a, i) * Coeff(b, (l - i) % r) * Coeff(c, (k - l) % r)
  }

  function LeftTerms(a: seq<int>, b: seq<int>, c: seq<int>, r: nat, k: int): nat -> int
    requires r > 0
  {
    (l: nat) => Sum(ConvTerms(a, b, r, l), r) * Coeff(c, (k - l) % r)
  }

  function RightTerms(a: seq<int>, b: seq<int>, c: seq<int>, r: nat, k: int): nat -> int
    requires r > 0
  {
    (i: nat) => Coeff(a, i) * Sum(ConvTerms(b, c, r, (k - i) % r), r)
  }

  function Inner(b: seq<int>, c: seq<int>, r: nat, k: int, i: nat): nat -> int
    requires r > 0
  {
    (l: nat) => Coeff(b, (l - i) % r) * Coeff(c, (k - l) % r)
  }

  lemma AssocLeft(a: seq<int>, b: seq<int>, c: seq<int>, r: nat, n: nat, k: int)
    requires r > 0 && n > 0 && 0 <= k < r
    ensures Sum(ConvTerms(Conv(a, b, r, n), c, r, k), r) % n == Sum(LeftTerms(a, b, c, r, k), r) % n
  {
    var ab := Conv(a, b, r, n);
    forall l: nat | l < r
      ensures ConvTerms(ab, c, r, k)(l) % n == LeftTerms(a, b, c, r, k)(l) % n
    {
      var t := Sum(ConvTerms(a, b, r, l), r);
      var x := Coeff(c, (k - l) % r);
      assert Coeff(ab, l) == t % n;
      ModOfMod(t, n);
      ModMulCongruent(t % n, t, x, x, n);
    }
    SumCongruent(ConvTerms(ab, c, r, k), LeftTerms(a, b, c, r, k), n, r);
  }

  lemma AssocRight(a: seq<int>, b: seq<int>, c: seq<int>, r: nat, n: nat, k: int)
    requires r > 0 && n > 0 && 0 <= k < r
    ensures Sum(ConvTerms(a, Conv(b, c, r, n), r, k), r) % n == Sum(RightTerms(a, b, c, r, k), r) % n
  {
    var bc := Conv(b, c, r, n);
    forall i: nat | i < r
      ensures ConvTerms(a, bc, r, k)(i) % n == RightTerms(a, b, c, r, k)(i) % n
    {
      var j := (k - i) % r;
      var t := Sum(ConvTerms(b, c, r, j), r);
      assert Coeff(bc, j) == t % n;
      ModOfMod(t, n);
      ModMulCongruent(Coeff(a, i), Coeff(a, i), t % n, t, n);
    }
    SumCongruent(ConvTerms(a, bc, r, k), RightTerms(a, b, c, r, k), n, r);
  }

  /** Summing b_((l - i) mod r) c_((k - l) mod r) over l is coefficient
      (k - i) mod r of the product of b and c, by a rotation of Z_r. */
  lemma InnerRotate(b: seq<int>, c: seq<int>, r: nat, k: int, i: nat)
    requires r > 0
    ensures Sum(Inner(b, c, r, k, i), r) == Sum(ConvTerms(b, c, r, (k - i) % r), r)
  {
    var h := Inner(b, c, r, k, i);
    SumRotate(h, r, i);
    forall l: nat | l < r
      ensures Rotated(h, r, i)(l) == ConvTerms(b, c, r, (k - i) % r)(l)
    {
      var u := (l + i) % r;
      SubModLeft(l + i, i, r);
      DivModUnique(l, r, 0, l);
      assert (u - i) % r == l;
      SubModRight(k, l + i, r);
      SubModLeft(k - i, l, r);
      assert (k - u) % r == ((k - i) % r - l) % r;
    }
    SumExt(Rotated(h, r, i), ConvTerms(b, c, r, (k - i) % r), r);
  }

  lemma AssocSwap(a: seq<int>, b: seq<int>, c: seq<int>, r: nat, k: int)
    requires r > 0
    ensures Sum(LeftTerms(a, b, c, r, k), r) == Sum(RightTerms(a, b, c, r, k), r)
  {
    var f := Triple(a, b, c, r, k);
    forall l: nat | l < r
      ensures LeftTerms(a, b, c, r, k)(l) == RowSums(f, r)(l)
    {
      LeftTermIsRow(a, b, c, r, k, l);
    }
    SumExt(LeftTerms(a, b, c, r, k), RowSums(f, r), r);
    SumSwap(f, r, r);
    forall i: nat | i < r
      ensures ColumnSums(f, r)(i) == RightTerms(a, b, c, r, k)(i)
    {
      ColumnIsRightTerm(a, b, c, r, k, i);
    }
    SumExt(ColumnSums(f, r), RightTerms(a, b, c, r, k), r);
  }

  lemma LeftTermIsRow(a: seq<int>, b: seq<int>, c: seq<int>, r: nat, k: int, l: nat)
    requires r > 0
    ensures LeftTerms(a, b, c, r, k)(l) == RowSums(Triple(a, b, c, r, k), r)(l)
  {
    var f := Triple(a, b, c, r, k);
    var x := Coeff(c, (k - l) % r);
    forall i: nat | i < r
      ensures Row(f, l)(i) == x * ConvTerms(a, b, r, l)(i)
    {
    }
    SumScale(ConvTerms(a, b, r, l), Row(f, l), x, r);
  }

  lemma ColumnIsRightTerm(a: seq<int>, b: seq<int>, c: seq<int>, r: nat, k: int, i: nat)
    requires r > 0
    ensures ColumnSums(Triple(a, b, c, r, k), r)(i) == RightTerms(a, b, c, r, k)(i)
  {
    var f := Triple(a, b, c, r, k);
    forall l: nat | l < r
      ensures Column(f, i)(l) == Coeff(a, i) * Inner(b, c, r, k, i)(l)
    {
    }
    SumScale(Inner(b, c, r, k, i), Column(f, i), Coeff(a, i), r);
    InnerRotate(b, c, r, k, i);
  }

  /** Cyclic convolution is associative. */
  lemma ConvAssociates(a: seq<int>, b: seq<int>, c: seq<int>, r: nat, n: nat)
    requires r > 0 && n > 0
    ensures Conv(Conv(a, b, r, n), c, r, n) == Conv(a, Conv(b, c, r, n), r, n)
  {
    forall k | 0 <= k < r
      ensures Sum(ConvTerms(Conv(a, b, r, n), c, r, k), r) % n
           == Sum(ConvTerms(a, Conv(b, c, r, n), r, k), r) % n
    {
      AssocLeft(a, b, c, r, n, k);
      AssocSwap(a, b, c, r, k);
      AssocRight(a, b, c, r, n, k);
    }
  }

  // ---------------------------------------------------------------------
  // Powers
  // ---------------------------------------------------------------------

  /** p(x)^e modulo (x^r - 1, n), as the e-fold product. */
  function PowSpec(p: seq<int>, e: nat, r: nat, n: nat): (c: seq<int>)
    requires r > 0 && n > 0
    ensures |c| == r
  {
    if e == 0 then Unit(r, n) else Conv(PowSpec(p, e - 1, r, n), p, r, n)
  }

  lemma PowSpecReduced(p: seq<int>, e: nat, r: nat, n: nat)
    requires r > 0 && n > 0
    ensures Reduced(PowSpec(p, e, r, n), n)
  {
    if e == 0 {
      assert PowSpec(p, e, r, n) == Unit(r, n);
    } else {
      ConvReduced(PowSpec(p, e - 1, r, n), p, r, n);
    }
  }

  /** p^(e+1) == p * p^e as well as p^e * p. */
  lemma PowSpecSucc(p: seq<int>, e: nat, r: nat, n: nat)
    requires r > 0 && n > 0 && |p| <= r
    ensures Conv(p, PowSpec(p, e, r, n), r, n) == PowSpec(p, e + 1, r, n)
  {
    ConvCommutes(p, PowSpec(p, e, r, n), r, n);
  }

  /** p^a p^b == p^(a+b). */
  lemma {:induction false} PowSpecAdd(p: seq<int>, a: nat, b: nat, r: nat, n: nat)
    requires r > 0 && n > 0
    ensures Conv(PowSpec(p, a, r, n), PowSpec(p, b, r, n), r, n) == PowSpec(p, a + b, r, n)
  {
    if b == 0 {
      var x := PowSpec(p, a, r, n);
      PowSpecReduced(p, a, r, n);
      UnitIdentity(x, r, n);
      assert PowSpec(p, b, r, n) == Unit(r, n);
      assert a + b == a;
      assert Conv(x, PowSpec(p, b, r, n), r, n) == x;
    } else {
      PowSpecAdd(p, a, b - 1, r, n);
      PowSpecAddStep(p, a, b, r, n);
    }
  }

  lemma PowSpecAddStep(p: seq<int>, a: nat, b: nat, r: nat, n: nat)
    requires r > 0 && n > 0 && b > 0
    requires Conv(PowSpec(p, a, r, n), PowSpec(p, b - 1, r, n), r, n) == PowSpec(p, a + b - 1, r, n)
    ensures Conv(PowSpec(p, a, r, n), PowSpec(p, b, r, n), r, n) == PowSpec(p, a + b, r, n)
  {
    var xa, xb := PowSpec(p, a, r, n), PowSpec(p, b - 1, r, n);
    ConvAssociates(xa, xb, p, r, n);
  }

  /** (t^2)^m == t^(2m): squaring the base halves the exponent. */
  lemma {:induction false} PowSpecSquare(t: seq<int>, m: nat, r: nat, n: nat)
    requires r > 0 && n > 0
    ensures PowSpec(Conv(t, t, r, n), m, r, n) == PowSpec(t, 2 * m, r, n)
  {
    if m == 0 {
      assert PowSpec(Conv(t, t, r, n), m, r, n) == Unit(r, n);
      assert PowSpec(t, 2 * m, r, n) == Unit(r, n);
    } else {
      var k := m - 1;
      PowSpecSquare(t, k, r, n);
      PowSpecSquareStep(t, k, r, n);
      assert k + 1 == m && 2 * k + 2 == 2 * m;
    }
  }

  /** Squaring the base once more multiplies by t twice. */
  lemma PowSpecSquareStep(t: seq<int>, k: nat, r: nat, n: nat)
    requires r > 0 && n > 0
    requires PowSpec(Conv(t, t, r, n), k, r, n) == PowSpec(t, 2 * k, r, n)
    ensures PowSpec(Conv(t, t, r, n), k + 1, r, n) == PowSpec(t, 2 * k + 2, r, n)
  {
    var tt, x := Conv(t, t, r, n), PowSpec(t, 2 * k, r, n);
    var y := PowSpec(t, 2 * k + 1, r, n);
    PowSpecUnfold(t, 2 * k + 1, r, n);
    PowSpecUnfold(t, 2 * k + 2, r, n);
    PowSpecUnfold(tt, k + 1, r, n);
    ConvAssociates(x, t, t, r, n);
    calc {
      PowSpec(tt, k + 1, r, n);
      Conv(x, tt, r, n);
      Conv(Conv(x, t, r, n), t, r, n);
      Conv(y, t, r, n);
      PowSpec(t, 2 * k + 2, r, n);
    }
  }

  lemma PowSpecUnfold(p: seq<int>, e: nat, r: nat, n: nat)
    requires r > 0 && n > 0 && e > 0
    ensures PowSpec(p, e, r, n) == Conv(PowSpec(p, e - 1, r, n), p, r, n)
  {
  }

  /** Coefficients that agree below r give the same powers. */
  lemma {:induction false} PowSpecExt(p: seq<int>, q: seq<int>, e: nat, r: nat, n: nat)
    requires r > 0 && n > 0
    requires forall i :: 0 <= i < r ==> Coeff(p, i) == Coeff(q, i)
    ensures PowSpec(p, e, r, n) == PowSpec(q, e, r, n)
  {
    if e == 0 {
      assert PowSpec(p, e, r, n) == Unit(r, n) == PowSpec(q, e, r, n);
    } else {
      var x, y := PowSpec(p, e - 1, r, n), PowSpec(q, e - 1, r, n);
      PowSpecExt(p, q, e - 1, r, n);
      ConvExt(x, y, p, q, r, n);
      assert PowSpec(p, e, r, n) == Conv(x, p, r, n);
      assert PowSpec(q, e, r, n) == Conv(y, q, r, n);
    }
  }

  /** One round of square-and-multiply keeps res * temp^e unchanged: with
      e odd the result absorbs one factor temp, and temp is squared while e
      is halved. res' and temp' are any lists with the coefficients of the
      new products. */
  lemma SquareAndMultiplyStep(res: seq<int>, temp: seq<int>, res': seq<int>, temp': seq<int>,
                              e: nat, r: nat, n: nat)
    requires r > 0 && n > 0 && e > 0 && |temp| <= r
    requires forall i :: 0 <= i < r ==> Coeff(temp', i) == Coeff(Conv(temp, temp, r, n), i)
    requires e % 2 == 1 ==> forall i :: 0 <= i < r ==> Coeff(res', i) == Coeff(Conv(res, temp, r, n), i)
    requires e % 2 == 0 ==> res' == res
    ensures Conv(res', PowSpec(temp', e / 2, r, n), r, n) == Conv(res, PowSpec(temp, e, r, n), r, n)
  {
    SquaredBase(temp, temp', e / 2, r, n);
    if e % 2 == 1 {
      MultipliedResult(res, temp, res', e, r, n);
    } else {
      assert 2 * (e / 2) == e;
    }
  }

  lemma SquaredBase(temp: seq<int>, temp': seq<int>, m: nat, r: nat, n: nat)
    requires r > 0 && n > 0
    requires forall i :: 0 <= i < r ==> Coeff(temp', i) == Coeff(Conv(temp, temp, r, n), i)
    ensures PowSpec(temp', m, r, n) == PowSpec(temp, 2 * m, r, n)
  {
    PowSpecExt(temp', Conv(temp, temp, r, n), m, r, n);
    PowSpecSquare(temp, m, r, n);
  }

  lemma MultipliedResult(res: seq<int>, temp: seq<int>, res': seq<int>, e: nat, r: nat, n: nat)
    requires r > 0 && n > 0 && e % 2 == 1 && |temp| <= r
    requires forall i :: 0 <= i < r ==> Coeff(res', i) == Coeff(Conv(res, temp, r, n), i)
    ensures Conv(res', PowSpec(temp, e - 1, r, n), r, n) == Conv(res, PowSpec(temp, e, r, n), r, n)
  {
    var rt := Conv(res, temp, r, n);
    var below := PowSpec(temp, e - 1, r, n);
    ConvExt(res', rt, below, below, r, n);
    ConvAssociates(res, temp, below, r, n);
    PowSpecSucc(temp, e - 1, r, n);
  }

  /** The coefficients of x^s + a, reduced modulo n, as r coefficients. */
  function MonomialPlusConstant(a: int, s: nat, r: nat, n: nat): (c: seq<int>)
    requires n > 0
    ensures |c| == r
  {
    seq(r, i => ((if i == 0 then a else 0) + (if i == s then 1 else 0)) % n)
  }
}
