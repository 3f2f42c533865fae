// fwdpp::validators: a value is returned unchanged when a predicate holds
// of it and std::invalid_argument is thrown otherwise.  Values are doubles,
// which may be infinite or NaN.

module Validators {
  import opened Types

  /** unary_validator<E>: t itself when f(t) holds, else the exception E. */
  function Validate<T>(t: T, e: Error, f: T -> bool): (r: Result<T>)
    ensures r.Ok? <==> f(t)
    ensures r.Ok? ==> r.value == t
    ensures r.Err? ==> r.error == e
  {
    if f(t) then Ok(t) else Err(e)
  }

  /** The integral part of a finite value, rounded toward zero as std::modf does. */
  function Trunc(v: real): (r: int)
    ensures v >= 0.0 ==> r as real <= v < r as real + 1.0
    ensures v < 0.0 ==> r as real - 1.0 < v <= r as real
  {
    if v >= 0.0 then v.Floor else -((-v).Floor)
  }

  /**
   * The fractional part std::modf returns: v - trunc(v) for a finite v,
   * zero for an infinity, and NaN for NaN.
   */
  function FractionalPart(d: Double): (r: Double)
    ensures d.NaN? <==> r.NaN?
    ensures d.Finite? ==> r.Finite? && (r.v == 0.0 <==> d.v == (d.v.Floor as real))
  {
    match d
    case Finite(v) =>
      assert v == (v.Floor as real) ==> v == (Trunc(v) as real);
      Finite(v - Trunc(v) as real)
    case PosInf => Finite(0.0)
    case NegInf => Finite(0.0)
    case NaN => NaN
  }

  /** casts_to_int: modf's fractional part compares equal to 0. */
  function CastsToInt(d: Double): (r: Result<Double>)
    ensures r.Ok? <==> (d.Finite? && d.v == (d.v.Floor as real)) || d.PosInf? || d.NegInf?
    ensures r.Ok? ==> r.value == d
    ensures r.Err? ==> r.error == InvalidArgument
  {
    Validate(d, InvalidArgument, (x: Double) => FractionalPart(x) == Finite(0.0))
  }

  /** v >= 0, which is false for NaN. */
  function NonNegative(d: Double): (r: Result<Double>)
    ensures r.Ok? <==> (d.Finite? && d.v >= 0.0) || d.PosInf?
    ensures r.Ok? ==> r.value == d
    ensures r.Err? ==> r.error == InvalidArgument
  {
    Validate(d, InvalidArgument, (x: Double) => match x case Finite(v) => v >= 0.0 case PosInf => true case _ => false)
  }

  /** v > 0, which is false for NaN. */
  function IsPositive(d: Double): (r: Result<Double>)
    ensures r.Ok? <==> (d.Finite? && d.v > 0.0) || d.PosInf?
    ensures r.Ok? ==> r.value == d
    ensures r.Err? ==> r.error == InvalidArgument
  {
    Validate(d, InvalidArgument, (x: Double) => match x case Finite(v) => v > 0.0 case PosInf => true case _ => false)
  }

  /** std::isfinite: neither infinite nor NaN. */
  function IsFinite(d: Double): (r: Result<Double>)
    ensures r.Ok? <==> d.Finite?
    ensures r.Ok? ==> r.value == d
    ensures r.Err? ==> r.error == InvalidArgument
  {
    Validate(d, InvalidArgument, (x: Double) => x.Finite?)
  }

  /** A positive value is non-negative; NaN passes neither. */
  lemma PositiveIsNonNegative(d: Double)
    ensures IsPositive(d).Ok? ==> NonNegative(d).Ok?
    ensures d.NaN? ==> NonNegative(d).Err? && IsPositive(d).Err? && CastsToInt(d).Err?
  {
  }

  /** casts_to_int lets both infinities through; only isfinite in front of it rules them out. */
  lemma InfinityCastsToInt()
    ensures CastsToInt(PosInf).Ok? && CastsToInt(NegInf).Ok?
    ensures IsFinite(PosInf).Err?
  {
  }

  /** A value that passes isfinite and casts_to_int is an integer. */
  lemma FiniteIntegral(d: Double)
    requires IsFinite(d).Ok? && CastsToInt(d).Ok?
    ensures d == Finite(Trunc(d.v) as real)
  {
  }
}
