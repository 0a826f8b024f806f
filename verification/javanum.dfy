/** The slice of Java's numeric semantics that the converter depends on:
    the 32-bit `int` range, `double` division by an `int`, adding a constant,
    and the narrowing cast `(int)` of section 5.1.3 of the Java Language
    Specification.

    A `double` is idealised here: a finite value is an exact real number.
    The converter only divides integers of at most 65025 by integers of at
    most 255, so this idealisation is exact for every result the cast can
    observe (see `RoundedQuotient` and `Gray` in the Pixel module). */
module JavaNum {

  const IntMin: int := -0x8000_0000
  const IntMax: int := 0x7FFF_FFFF

  predicate IsInt32(x: int)
  {
    IntMin <= x <= IntMax
  }

  /** A Java `double`, with finite values held exactly. */
  datatype Double = Finite(value: real) | PositiveInfinity | NegativeInfinity | NaN

  /** `n / d` in double arithmetic, both operands widened from `int`.
      A zero divisor is `+0.0`: `0/0` is NaN, otherwise the result is an
      infinity with the sign of the dividend. */
  function Divide(n: int, d: int): (q: Double)
    ensures d != 0 ==> q.Finite? && q.value * d as real == n as real
    ensures d == 0 && n == 0 ==> q.NaN?
    ensures d == 0 && n > 0 ==> q.PositiveInfinity?
    ensures d == 0 && n < 0 ==> q.NegativeInfinity?
  {
    if d != 0 then Finite(n as real / d as real)
    else if n == 0 then NaN
    else if n > 0 then PositiveInfinity
    else NegativeInfinity
  }

  /** `x + c` for a finite constant `c`: infinities and NaN absorb it, and
      on a finite value the constant is taken back by subtracting it. */
  function Plus(x: Double, c: real): (y: Double)
    ensures y.Finite? <==> x.Finite?
    ensures y.Finite? ==> y.value - c == x.value
    ensures !x.Finite? ==> y == x
  {
    match x
    case Finite(v) => Finite(v + c)
    case _ => x
  }

  /** Rounding toward zero, the rounding of a `double`-to-`int` cast. */
  function TruncateTowardZero(v: real): (t: int)
    ensures 0.0 <= v ==> 0 <= t && t as real <= v < t as real + 1.0
    ensures v < 0.0 ==> t <= 0 && t as real - 1.0 < v <= t as real
  {
    if v >= 0.0 then v.Floor else -((-v).Floor)
  }

  /** The cast `(int) x` of a `double`: NaN becomes 0, values beyond the
      `int` range (infinities included) saturate at its ends, and everything
      else is rounded toward zero. */
  function NarrowToInt(x: Double): (r: int)
    ensures IsInt32(r)
    ensures x.Finite? && IsInt32(TruncateTowardZero(x.value)) ==> r == TruncateTowardZero(x.value)
  {
    match x
    case NaN => 0
    case PositiveInfinity => IntMax
    case NegativeInfinity => IntMin
    case Finite(v) =>
      var t := TruncateTowardZero(v);
      if t < IntMin then IntMin else if t > IntMax then IntMax else t
  }

  /** The real quotient of two non-negative integers truncates to their
      integer quotient. */
  lemma {:induction false} TruncateQuotient(n: int, d: int)
    requires 0 <= n && 0 < d
    ensures TruncateTowardZero(n as real / d as real) == n / d
  {
    var k := n / d;
    var q := n as real / d as real;
    assert k * d <= n < (k + 1) * d;
    assert (k * d) as real == (k as real) * (d as real);
    assert ((k + 1) * d) as real == (k as real + 1.0) * (d as real);
    QuotientBetween(q, d as real, k as real, k as real + 1.0, n as real);
  }

  /** Multiplying by a positive number preserves the order of reals. */
  lemma QuotientBetween(x: real, d: real, lo: real, hi: real, n: real)
    requires 0.0 < d && x * d == n
    requires lo * d <= n < hi * d
    ensures lo <= x < hi
  {
    if x < lo {
      PositiveProduct(lo - x, d);
    }
    if hi < x {
      PositiveProduct(x - hi, d);
    }
  }

  lemma PositiveProduct(a: real, b: real)
    requires 0.0 < a && 0.0 < b
    ensures 0.0 < a * b
  {
  }
}
