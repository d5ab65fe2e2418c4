/** ECPP/ECPP_Types.py: the `ECPPCertificate` record with its dictionary
    form, its cofactor and its structural self-check, and the structural
    validator of a certificate chain. Nothing here touches a curve. */
module EcppTypes {
  import opened Common
  import opened NumberTheory

  /** One step of a proof: the curve y^2 = x^3 + a x + b mod n, its order m,
      the large prime factor q of m and the witness point. */
  datatype Certificate = Certificate(n: int, a: int, b: int, m: int, q: int, pointX: int, pointY: int)

  const ZeroDivision := "integer division or modulo by zero"
  /** int() of the complex number a negative n ** 0.5 yields raises. */
  const ComplexRoot := "int() argument must not be complex"

  // ---------------------------------------------------------------------
  // to_dict / from_dict
  // ---------------------------------------------------------------------

  const FieldNames: set<string> := {"n", "a", "b", "m", "q", "point_x", "point_y"}

  /** `to_dict`: one entry per field, under the field's name. */
  function ToDict(c: Certificate): (d: map<string, int>)
    ensures d.Keys == FieldNames
  {
    map["n" := c.n, "a" := c.a, "b" := c.b, "m" := c.m, "q" := c.q,
        "point_x" := c.pointX, "point_y" := c.pointY]
  }

  /** `from_dict`: reads the fields in declaration order, raising KeyError
      (here `Err` naming the key) at the first missing one; other keys are
      ignored. */
  function FromDict(d: map<string, int>): (r: Result<Certificate>)
    ensures r.Ok? <==> FieldNames <= d.Keys
    ensures r.Err? ==> r.msg in FieldNames && r.msg !in d
  {
    if "n" !in d then Err("n")
    else if "a" !in d then Err("a")
    else if "b" !in d then Err("b")
    else if "m" !in d then Err("m")
    else if "q" !in d then Err("q")
    else if "point_x" !in d then Err("point_x")
    else if "point_y" !in d then Err("point_y")
    else Ok(Certificate(d["n"], d["a"], d["b"], d["m"], d["q"], d["point_x"], d["point_y"]))
  }

  /** Reading back a written certificate gives the certificate. */
  lemma FromDictToDict(c: Certificate)
    ensures FromDict(ToDict(c)) == Ok(c)
  {
  }

  /** A dictionary with exactly the seven fields survives the other round
      trip unchanged. */
  lemma ToDictFromDict(d: map<string, int>)
    requires d.Keys == FieldNames
    ensures FromDict(d).Ok? && ToDict(FromDict(d).value) == d
  {
    var d' := ToDict(FromDict(d).value);
    assert d'.Keys == d.Keys;
    forall k | k in d
      ensures d'[k] == d[k]
    {
    }
  }

  // ---------------------------------------------------------------------
  // get_cofactor
  // ---------------------------------------------------------------------

  /** Python's `//`: the floor of x / d, for either sign of d. */
  function FloorDiv(x: int, d: int): (r: int)
    requires d != 0
    ensures d > 0 ==> d * r <= x < d * r + d
    ensures d < 0 ==> d * r + d < x <= d * r
  {
    if d > 0 then x / d else (-x) / (-d)
  }

  /** `get_cofactor()`: h == m // q; a zero q raises. */
  function GetCofactor(c: Certificate): (r: Result<int>)
    ensures r.Err? <==> c.q == 0
  {
    if c.q == 0 then Err(ZeroDivision) else Ok(FloorDiv(c.m, c.q))
  }

  /** When q divides m the cofactor is exact: h * q == m. */
  lemma CofactorExact(c: Certificate)
    requires c.q != 0 && c.m % c.q == 0
    ensures GetCofactor(c).Ok? && GetCofactor(c).value * c.q == c.m
  {
    var h := GetCofactor(c).value;
    var k := c.m / c.q;
    assert c.m == c.q * k;
    if c.q > 0 {
      DivModUnique(c.m, c.q, k, 0);
    } else {
      assert -c.m == -c.q * k;
      DivModUnique(-c.m, -c.q, k, 0);
    }
  }

  // ---------------------------------------------------------------------
  // verify_basic_properties
  // ---------------------------------------------------------------------

  /** Why a certificate fails the structural check (the source's messages). */
  datatype Reason = QDoesNotDivideM | QNotAboveBound(q: int, bound: int) | NotPositive

  /** (True, "OK") or (False, message). */
  datatype Check = Pass | Fail(reason: Reason)

  /** `verify_basic_properties()`: q | m first, then q > 4 * int(sqrt(n)),
      then positivity. A zero q and a negative n (whose square root is
      complex) raise instead. */
  function VerifyBasicProperties(c: Certificate): (r: Result<Check>)
    ensures r.Err? <==> c.q == 0 || (c.m % c.q == 0 && c.n < 0)
    ensures c.q != 0 && c.m % c.q != 0 ==> r == Ok(Fail(QDoesNotDivideM))
    ensures r == Ok(Pass) <==> c.q != 0 && c.m % c.q == 0 && c.n > 0 && c.m > 0 && c.q > 4 * Isqrt(c.n)
  {
    if c.q == 0 then Err(ZeroDivision)
    else if c.m % c.q != 0 then Ok(Fail(QDoesNotDivideM))
    else if c.n < 0 then Err(ComplexRoot)
    else if c.q <= 4 * Isqrt(c.n) then Ok(Fail(QNotAboveBound(c.q, 4 * Isqrt(c.n))))
    else if c.n <= 0 || c.q <= 0 || c.m <= 0 then Ok(Fail(NotPositive))
    else Ok(Pass)
  }

  /** The positivity test can only trip over n == 0 or m <= 0: a q <= 0 has
      already failed the bound, since 4 * int(sqrt(n)) >= 0. */
  lemma PositivityNeverSeesSmallQ(c: Certificate)
    requires VerifyBasicProperties(c) == Ok(Fail(NotPositive))
    ensures c.q > 0 && (c.n == 0 || c.m <= 0)
  {
  }

  predicate PassesBasic(c: Certificate) {
    VerifyBasicProperties(c) == Ok(Pass)
  }

  // ---------------------------------------------------------------------
  // validate_certificate_chain
  // ---------------------------------------------------------------------

  /** The outcome of the chain validator, one constructor per message. */
  datatype ChainVerdict =
    | EmptyChain
    | ValidChain
    | FirstInvalid(reason: Reason)
    | ChainBroken(step: nat, q: int, next: int)
    | CertificateInvalid(index: nat, reason: Reason)
  {
    /** The boolean half of the source's (is_valid, message) pair. */
    predicate IsValid() {
      this == EmptyChain || this == ValidChain
    }
  }

  /** Consecutive certificates are linked: each q is the next n. */
  predicate LinkedFrom(certs: seq<Certificate>, i: nat) {
    forall j :: i <= j < |certs| - 1 ==> certs[j].q == certs[j + 1].n
  }

  /** The loop of the validator from step i on: the link i -> i + 1 is
      checked before certificate i + 1's own properties. */
  function ValidateFrom(certs: seq<Certificate>, i: nat): (r: Result<ChainVerdict>)
    requires i < |certs|
    ensures r == Ok(ValidChain) <==>
              (forall j :: i < j < |certs| ==> PassesBasic(certs[j])) && LinkedFrom(certs, i)
    ensures r.Ok? ==> r.value == ValidChain || r.value.ChainBroken? || r.value.CertificateInvalid?
    decreases |certs| - i
  {
    if i == |certs| - 1 then Ok(ValidChain)
    else if certs[i].q != certs[i + 1].n then Ok(ChainBroken(i, certs[i].q, certs[i + 1].n))
    else
      match VerifyBasicProperties(certs[i + 1])
      case Err(e) => Err(e)
      case Ok(Fail(reason)) => Ok(CertificateInvalid(i + 1, reason))
      case Ok(Pass) => ValidateFrom(certs, i + 1)
  }

  /** A broken link the validator reports is the first one, and every
      certificate up to it passed its own check. */
  lemma {:induction false} ValidateFromBrokenIsFirst(certs: seq<Certificate>, i: nat)
    requires i < |certs|
    ensures var r := ValidateFrom(certs, i);
            r.Ok? && r.value.ChainBroken? ==>
              i <= r.value.step < |certs| - 1 &&
              certs[r.value.step].q != certs[r.value.step + 1].n &&
              (forall j :: i < j <= r.value.step ==> PassesBasic(certs[j])) &&
              (forall j :: i <= j < r.value.step ==> certs[j].q == certs[j + 1].n)
    decreases |certs| - i
  {
    if i < |certs| - 1 && certs[i].q == certs[i + 1].n && PassesBasic(certs[i + 1]) {
      ValidateFromBrokenIsFirst(certs, i + 1);
    }
  }

  /** `validate_certificate_chain(certificates)`: the empty chain is valid;
      otherwise the first certificate's properties, then each link and the
      properties of the certificate it leads to, stopping at the first
      failure. */
  function ValidateCertificateChain(certs: seq<Certificate>): (r: Result<ChainVerdict>)
    ensures |certs| == 0 ==> r == Ok(EmptyChain)
    ensures r.Ok? && r.value.IsValid() <==>
              (forall j :: 0 <= j < |certs| ==> PassesBasic(certs[j])) && LinkedFrom(certs, 0)
    ensures r.Ok? && r.value.ChainBroken? ==>
              r.value.step < |certs| - 1 &&
              certs[r.value.step].q != certs[r.value.step + 1].n &&
              (forall j :: 0 <= j <= r.value.step ==> PassesBasic(certs[j])) &&
              (forall j :: 0 <= j < r.value.step ==> certs[j].q == certs[j + 1].n)
  {
    if |certs| == 0 then Ok(EmptyChain)
    else
      match VerifyBasicProperties(certs[0])
      case Err(e) => Err(e)
      case Ok(Fail(reason)) => Ok(FirstInvalid(reason))
      case Ok(Pass) =>
        ValidateFromBrokenIsFirst(certs, 0);
        ValidateFrom(certs, 0)
  }
}
