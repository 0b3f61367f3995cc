/**
 * The part of Rust's `f64` that the genetic algorithm relies on.
 *
 * A gene is kept as its IEEE-754 binary64 bit pattern, so `f64::to_bits` and
 * `f64::from_bits` are the identity on this representation; `Value` decodes a
 * pattern into the number it denotes. Fitness values are kept as decoded
 * numbers. Comparisons follow IEEE-754: every comparison involving NaN is false.
 * Addition and division are exact on the finite values (rounding is not modelled).
 */
module F64 {

  /** The raw 64-bit pattern of an `f64`. */
  type Bits = bv64

  /** The value an `f64` denotes; the two zeros both decode to `Finite(0.0)`. */
  datatype Float = Finite(v: real) | PosInf | NegInf | NaN

  const Zero: Float := Finite(0.0)

  function Pow2(n: nat): (p: real)
    ensures p >= 1.0
  {
    if n == 0 then 1.0 else 2.0 * Pow2(n - 1)
  }

  /** The 11-bit biased exponent field. */
  function ExponentField(b: Bits): bv64 {
    (b >> 52) & 0x7FF
  }

  /** The 52-bit fraction field. */
  function FractionField(b: Bits): bv64 {
    b & 0xF_FFFF_FFFF_FFFF
  }

  /** The sign bit is set. */
  predicate Negative(b: Bits) {
    b >> 63 == 1
  }

  /** The number a pattern with exponent field below 0x7FF denotes: significand times a power of two. */
  function Magnitude(b: Bits): real {
    var biased := ExponentField(b) as int;
    var fraction := FractionField(b) as int;
    var significand := if biased == 0 then fraction else fraction + 0x10_0000_0000_0000;
    var exponent := (if biased == 0 then 1 else biased) - 1075;
    var magnitude :=
      if exponent >= 0 then significand as real * Pow2(exponent)
      else significand as real / Pow2(-exponent);
    if Negative(b) then -magnitude else magnitude
  }

  /** Decodes a binary64 bit pattern (sign, biased exponent, fraction). */
  function Value(b: Bits): (x: Float)
    ensures x.NaN? <==> ExponentField(b) == 0x7FF && FractionField(b) != 0
  {
    if ExponentField(b) == 0x7FF then
      if FractionField(b) != 0 then NaN else if Negative(b) then NegInf else PosInf
    else
      Finite(Magnitude(b))
  }

  /** IEEE-754 `x < y`. */
  predicate Lt(x: Float, y: Float) {
    !x.NaN? && !y.NaN? &&
    if x.Finite? && y.Finite? then x.v < y.v else Tier(x) < Tier(y)
  }

  /** -inf below every number, +inf above. */
  function Tier(x: Float): int {
    match x
    case NegInf => 0
    case Finite(_) => 1
    case PosInf => 2
    case NaN => 3
  }

  /** IEEE-754 `x <= y`. */
  predicate Le(x: Float, y: Float) {
    !x.NaN? && !y.NaN? && (x == y || Lt(x, y))
  }

  /** IEEE-754 addition, exact on finite operands. */
  function Add(x: Float, y: Float): (z: Float)
    ensures z.NaN? <==> x.NaN? || y.NaN? || (x.PosInf? && y.NegInf?) || (x.NegInf? && y.PosInf?)
    ensures x.Finite? && y.Finite? ==> z == Finite(x.v + y.v)
  {
    if x.NaN? || y.NaN? then NaN
    else if x.Finite? && y.Finite? then Finite(x.v + y.v)
    else if x.Finite? then y
    else if y.Finite? then x
    else if x == y then x
    else NaN
  }

  function Negate(x: Float): Float {
    match x
    case Finite(a) => Finite(-a)
    case PosInf => NegInf
    case NegInf => PosInf
    case NaN => NaN
  }

  /**
   * IEEE-754 division, exact on finite operands. A zero divisor is taken as
   * +0.0: a positive dividend gives +inf, a negative one -inf, zero gives NaN.
   */
  function Div(x: Float, y: Float): (z: Float)
    ensures x == Zero && y == Zero ==> z.NaN?
    ensures x.Finite? && y.Finite? && y.v != 0.0 ==> z == Finite(x.v / y.v)
  {
    if x.NaN? || y.NaN? then NaN
    else if x.Finite? && y.Finite? then
      if y.v != 0.0 then Finite(x.v / y.v)
      else if x.v > 0.0 then PosInf
      else if x.v < 0.0 then NegInf
      else NaN
    else if x.Finite? then Zero
    else if y.Finite? then (if y.v < 0.0 then Negate(x) else x)
    else NaN
  }

  /** On values other than NaN, `<=` is a total order and `<` is its strict part. */
  lemma OrderFacts(x: Float, y: Float, z: Float)
    requires !x.NaN? && !y.NaN? && !z.NaN?
    ensures Le(x, x)
    ensures Le(x, y) || Le(y, x)
    ensures Lt(x, y) <==> !Le(y, x)
    ensures Le(x, y) && Le(y, z) ==> Le(x, z)
    ensures Le(x, y) && Lt(y, z) ==> Lt(x, z)
    ensures Lt(x, y) && Le(y, z) ==> Lt(x, z)
  {
  }

  /** Both comparisons are false as soon as one side is NaN. */
  lemma NaNIsUnordered(x: Float, y: Float)
    requires x.NaN? || y.NaN?
    ensures !Lt(x, y) && !Le(x, y)
  {
  }

  /** A bitwise AND can only clear exponent bits, so it never makes a NaN out of a number. */
  lemma {:induction false} AndKeepsNumbers(a: Bits, b: Bits)
    requires ExponentField(a) != 0x7FF
    ensures !Value(a & b).NaN?
  {
    assert ExponentField(a & b) == ExponentField(a) & ExponentField(b);
    assert ExponentField(a & b) & ExponentField(a) == ExponentField(a & b);
  }

  /** 1.5 is `0x3FF8_0000_0000_0000`; flipping its bit 62 yields a NaN pattern. */
  lemma FlippingAnExponentBitCanYieldNaN()
    ensures Value(0x3FF8_0000_0000_0000).Finite?
    ensures Value(0x3FF8_0000_0000_0000 ^ (1 << 62)).NaN?
  {
    assert ExponentField(0x3FF8_0000_0000_0000) == 0x3FF;
    assert 0x3FF8_0000_0000_0000 ^ (1 << 62) == 0x7FF8_0000_0000_0000 as bv64;
    assert ExponentField(0x7FF8_0000_0000_0000) == 0x7FF;
    assert FractionField(0x7FF8_0000_0000_0000) != 0;
  }
}
