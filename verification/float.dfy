/**
  The few `f64` operations the line code performs, with IEEE 754 infinities
  and NaN kept as values of their own. Finite values are exact reals: no
  rounding is modelled.
 */
module Float {
  import opened Numeric

  datatype F64 = Finite(value: real) | PosInf | NegInf | NaN

  /** `a as f64 / b as f64` for integers that convert exactly (the `i32`
      differences of the line code). The divisor zero is `+0.0`, so a
      positive numerator gives `+inf`, a negative one `-inf`, and `0 / 0`
      is NaN. */
  function Div(a: int, b: int): (r: F64)
    ensures r.Finite? <==> b != 0
    ensures r.Finite? ==> r.value * b as real == a as real
    ensures r == PosInf <==> b == 0 && a > 0
    ensures r == NegInf <==> b == 0 && a < 0
    ensures r == NaN <==> b == 0 && a == 0
  {
    if b != 0 then Finite(a as real / b as real)
    else if a > 0 then PosInf
    else if a < 0 then NegInf
    else NaN
  }

  /** The sign of a non-NaN value: -1, 0 or 1. */
  function SignOf(a: F64): int {
    match a
    case Finite(x) => if x > 0.0 then 1 else if x < 0.0 then -1 else 0
    case PosInf => 1
    case NegInf => -1
    case NaN => 0
  }

  predicate IsInf(a: F64) {
    a.PosInf? || a.NegInf?
  }

  predicate IsZero(a: F64) {
    a == Finite(0.0)
  }

  /** `a` lies above zero (`+inf` included). */
  predicate Positive(a: F64) {
    a.PosInf? || (a.Finite? && a.value > 0.0)
  }

  /** `a * b`: exact on finite factors; NaN when either factor is NaN or an
      infinity meets a zero; otherwise an infinite factor gives the infinity
      whose sign is the product of the signs. */
  function Mul(a: F64, b: F64): (r: F64)
    ensures a.Finite? && b.Finite? ==> r == Finite(a.value * b.value)
    ensures a.NaN? || b.NaN? ==> r == NaN
    ensures (IsInf(a) && IsZero(b)) || (IsZero(a) && IsInf(b)) ==> r == NaN
    ensures (IsInf(a) || IsInf(b)) && !a.NaN? && !b.NaN? && !IsZero(a) && !IsZero(b) ==>
      r == if Positive(a) == Positive(b) then PosInf else NegInf
  {
    if a.Finite? && b.Finite? then Finite(a.value * b.value)
    else if a.NaN? || b.NaN? then NaN
    else
      var s := SignOf(a) * SignOf(b);
      if s > 0 then PosInf else if s < 0 then NegInf else NaN
  }

  /** `a - b`: exact on finite operands; NaN when either is NaN or both are
      the same infinity; otherwise an infinite minuend is kept, and an
      infinite subtrahend gives the opposite infinity. */
  function Sub(a: F64, b: F64): (r: F64)
    ensures a.Finite? && b.Finite? ==> r == Finite(a.value - b.value)
    ensures a.NaN? || b.NaN? || (IsInf(a) && a == b) ==> r == NaN
    ensures IsInf(a) && !b.NaN? && a != b ==> r == a
    ensures a.Finite? && IsInf(b) ==> r == if b.PosInf? then NegInf else PosInf
  {
    match (a, b)
    case (Finite(x), Finite(y)) => Finite(x - y)
    case (NaN, _) => NaN
    case (_, NaN) => NaN
    case (PosInf, PosInf) => NaN
    case (NegInf, NegInf) => NaN
    case (PosInf, _) => PosInf
    case (_, NegInf) => PosInf
    case _ => NegInf
  }

  /** Multiplication is commutative, infinities and NaN included. */
  lemma MulCommutes(a: F64, b: F64)
    ensures Mul(a, b) == Mul(b, a)
  {
  }

  /** `a as u32`: saturating, with NaN mapped to 0. */
  function ToU32(a: F64): (n: U32)
    ensures a.Finite? ==> Truncates(n, a.value, U32_MAX)
    ensures a == PosInf ==> n == U32_MAX
    ensures a == NegInf || a == NaN ==> n == 0
  {
    match a
    case Finite(x) => SatU32(x)
    case PosInf => U32_MAX
    case NegInf => 0
    case NaN => 0
  }
}
