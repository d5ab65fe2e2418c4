/** SubDef/String_Point.py: a text is read as a base-256 number, and the
    message point is the first curve point whose x coordinate is that number
    plus an offset below 100, reduced modulo p; decoding subtracts the
    offset again and writes the number back out in base 256. */
module StringPoint {
  import opened Common
  import opened NumberTheory
  import opened EllipticCurves
  import opened StringInt

  /** How many offsets `string_to_point` tries before it gives up. */
  const OffsetLimit := 100

  /** The point found for a text and the offset that reached it. */
  datatype Encoded = Encoded(point: Point, offset: int)

  /** The x coordinate tried for a given offset. */
  function Candidate(number: int, offset: int, p: int): (x: int)
    requires p > 0
    ensures 0 <= x < p
    ensures (x - offset) % p == number % p
  {
    var x := (number + offset) % p;
    ModAddCongruent(x, number + offset, -offset, -offset, p);
    ModOfMod(number + offset, p);
    x
  }

  /** No point of the curve has x as its first coordinate. */
  ghost predicate NoPointAt(c: Curve, x: int)
    requires c.p > 0
  {
    forall y :: 0 <= y < c.p ==> !IsOnCurve(c, Aff(x, y))
  }

  /** `string_to_point`: the first offset in [0, 100) whose x has a square
      root of x^3 + a*x + b, found by `_mod_sqrt`; past the last offset the
      encoding fails. */
  method StringToPoint(text: string, c: Curve) returns (r: Result<Encoded>)
    requires c.p > 0
    ensures r.Ok? ==> r.value.point.Aff? && 0 <= r.value.offset < OffsetLimit
    ensures r.Ok? ==> r.value.point.x == Candidate(Value(text), r.value.offset, c.p)
    ensures r.Ok? ==> 0 <= r.value.point.y < c.p && IsOnCurve(c, r.value.point)
    ensures r.Ok? && c.p < 1000000 ==>
              forall o :: 0 <= o < r.value.offset ==> NoPointAt(c, Candidate(Value(text), o, c.p))
    ensures r.Err? && c.p < 1000000 ==>
              forall o :: 0 <= o < OffsetLimit ==> NoPointAt(c, Candidate(Value(text), o, c.p))
    ensures c.p >= 1000000 && c.p % 4 != 3 ==> r.Err?
  {
    var number := TextToInt(text);
    for offset := 0 to OffsetLimit
      invariant c.p < 1000000 ==>
                  forall o :: 0 <= o < offset ==> NoPointAt(c, Candidate(number, o, c.p))
    {
      var x := Candidate(number, offset, c.p);
      var y := PointAt(c, x);
      if y.Some? {
        return Ok(Encoded(Aff(x, y.value), offset));
      }
    }
    return Err("cannot encode the text as a point");
  }

  /** One attempt of `string_to_point`: `_mod_sqrt` of x^3 + a*x + b mod p. */
  method PointAt(c: Curve, x: int) returns (y: Option<int>)
    requires c.p > 0
    ensures y.Some? ==> 0 <= y.value < c.p && IsOnCurve(c, Aff(x, y.value))
    ensures y.None? && c.p < 1000000 ==> NoPointAt(c, x)
    ensures c.p >= 1000000 && c.p % 4 != 3 ==> y.None?
  {
    var ySquared := Modulo(ModuloPower(x, 3, c.p) + c.a * x + c.b, c.p);
    CurveRhsResidue(c, x);
    y := ModSqrt(ySquared, c.p);
    if y.Some? {
      RootIsPoint(c, x, y.value, ySquared);
    } else if c.p < 1000000 {
      forall z | 0 <= z < c.p
        ensures !IsOnCurve(c, Aff(x, z))
      {
        RootIsPoint(c, x, z, ySquared);
      }
    }
  }

  /** A square root of the reduced right-hand side is a y coordinate. */
  lemma RootIsPoint(c: Curve, x: int, y: int, ySquared: int)
    requires c.p > 0 && ySquared == Rhs(c, x) % c.p
    ensures IsRootOf(y, ySquared, c.p) <==> IsOnCurve(c, Aff(x, y))
  {
  }

  /** `point_to_string`: the number (x - offset) mod p written in base 256,
      most significant character first; 0 gives the empty text. */
  method PointToString(x: int, y: int, offset: int, c: Curve) returns (text: string)
    requires c.p > 0
    ensures text == Digits((x - offset) % c.p)
    ensures Value(text) == (x - offset) % c.p
  {
    var number := (x - offset) % c.p;
    text := IntToText(number);
    ValueOfDigits(number);
  }

  /** Decoding the x an offset reached gives the text back exactly when the
      text is a byte text whose value is below p. */
  lemma RoundTrip(text: string, c: Curve, offset: int)
    requires c.p > 0 && IsByteText(text)
    ensures Digits((Candidate(Value(text), offset, c.p) - offset) % c.p) == text
        <==> Value(text) < c.p
  {
    var v := Value(text);
    var m := (Candidate(v, offset, c.p) - offset) % c.p;
    assert m == v % c.p && m < c.p;
    if v < c.p {
      DivModUnique(v, c.p, 0, v);
      DigitsOfValue(text);
    } else if Digits(m) == text {
      ValueOfDigits(m);
      assert false;
    }
  }

  /** A byte text of k characters fits whenever 256^k <= p, so every such
      text survives encoding and decoding. */
  lemma ShortTextRoundTrip(text: string, c: Curve, offset: int)
    requires c.p > 0 && IsByteText(text) && PowRadix(|text|) <= c.p
    ensures Digits((Candidate(Value(text), offset, c.p) - offset) % c.p) == text
  {
    ValueBound(text);
    RoundTrip(text, c, offset);
  }
}
