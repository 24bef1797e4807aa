/** The Kotlin/Java numeric primitives that Calculations.kt relies on: the 64-bit
    `Long` and its wrap-around subtraction, `Math.round(double)`, and the special
    values that a `Double` division by zero produces. Finite doubles are modelled
    as exact reals. */
module JavaNumerics {

  const MinLong: int := -0x8000_0000_0000_0000
  const MaxLong: int := 0x7FFF_FFFF_FFFF_FFFF
  const LongModulus: int := 0x1_0000_0000_0000_0000

  /** Kotlin's `Long`: a 64-bit two's-complement integer. */
  type Long = x: int | MinLong <= x <= MaxLong

  function Abs(x: real): real { if x < 0.0 then -x else x }

  /** `a - b` on two `Long`s: the exact difference, wrapped around into 64 bits. */
  function LongSub(a: Long, b: Long): (r: Long)
    ensures MinLong <= a - b <= MaxLong ==> r == a - b
    ensures a - b > MaxLong ==> r == a - b - LongModulus
    ensures a - b < MinLong ==> r == a - b + LongModulus
  {
    (a - b - MinLong) % LongModulus + MinLong
  }

  /** The value of a Kotlin `Double` expression: a finite number, or one of the
      special values of IEEE 754. */
  datatype Double = Finite(value: real) | PositiveInfinity | NegativeInfinity | NaN

  /** `a / b` on doubles, where a zero divisor is positive zero (as it is when it
      comes from converting the integer 0). */
  function Divide(a: real, b: real): (r: Double)
    ensures r.Finite? <==> b != 0.0
    ensures r.Finite? ==> r.value * b == a
    ensures b == 0.0 ==> (r.PositiveInfinity? <==> a > 0.0)
    ensures b == 0.0 ==> (r.NegativeInfinity? <==> a < 0.0)
    ensures b == 0.0 ==> (r.NaN? <==> a == 0.0)
  {
    if b != 0.0 then Finite(a / b)
    else if a > 0.0 then PositiveInfinity
    else if a < 0.0 then NegativeInfinity
    else NaN
  }

  /** `Math.round(double)`: the nearest `Long`, a tie going up (towards positive
      infinity); values beyond the `Long` range clamp to its ends. */
  function MathRound(x: real): (r: Long)
    ensures MinLong as real - 0.5 <= x < MaxLong as real + 0.5 ==>
              r as real - 0.5 <= x < r as real + 0.5
    ensures x < MinLong as real - 0.5 ==> r == MinLong
    ensures x >= MaxLong as real + 0.5 ==> r == MaxLong
  {
    var n := (x + 0.5).Floor;
    if n < MinLong then MinLong else if n > MaxLong then MaxLong else n
  }

  /** Half-up rounding is determined by the half-open unit interval around the result. */
  lemma MathRoundIs(x: real, k: Long)
    requires k as real - 0.5 <= x < k as real + 0.5
    ensures MathRound(x) == k
  {
  }

  /** Rounding never moves a value by more than one half, and ties go up. */
  lemma MathRoundNearest(x: real)
    requires MinLong as real - 0.5 <= x < MaxLong as real + 0.5
    ensures Abs(MathRound(x) as real - x) <= 0.5
    ensures Abs(MathRound(x) as real - x) == 0.5 ==> MathRound(x) as real > x
  {
  }

  /** Rounding is monotone. */
  lemma MathRoundMonotone(x: real, y: real)
    requires x <= y
    ensures MathRound(x) <= MathRound(y)
  {
  }
}
