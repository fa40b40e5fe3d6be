/** The arithmetic `switch` of `handleOperators`: the exact value of
    `previousNumber <op> Number(currentNumberString)`, the non-finite and
    too-long faults, and the rounding to 12 fraction digits. */
module Arithmetic {
  import opened Numbers

  /** The operator keys. */
  datatype Op = Plus | Minus | Times | Divide | Power | Equals

  /** The key label, as shown in the expression line. */
  function Symbol(op: Op): string
  {
    match op
    case Plus => "+"
    case Minus => "-"
    case Times => "*"
    case Divide => "/"
    case Power => "^"
    case Equals => "="
  }

  /** The value of a decimal. */
  function ValueOf(d: Decimal): (v: real)
    ensures v == 0.0 <==> d.mant == 0
    ensures v > 0.0 <==> d.mant > 0
  {
    d.mant as real / Pow10(d.scale) as real
  }

  lemma NegOver(m: int, p: real)
    requires p != 0.0
    ensures (-m) as real / p == -(m as real / p)
  {
  }

  /** Changing the sign of the digits negates the value. */
  lemma NegateValue(d: Decimal)
    ensures ValueOf(Negate(d)) == -ValueOf(d)
  {
    NegOver(d.mant, Pow10(d.scale) as real);
  }

  lemma CastMul(a: int, b: int)
    ensures (a * b) as real == a as real * b as real
  {
  }

  lemma CancelCommon(x: real, p: real, q: real)
    requires p != 0.0 && q != 0.0
    ensures (x * q) / (p * q) == x / p
  {
  }

  /** m / 10^s == (m * 10^(t - s)) / 10^t */
  lemma DivScale(m: int, s: nat, t: nat)
    requires s <= t
    ensures m as real / Pow10(s) as real == (m * Pow10(t - s)) as real / Pow10(t) as real
  {
    Pow10Add(s, t - s);
    CastMul(Pow10(s), Pow10(t - s));
    CastMul(m, Pow10(t - s));
    CancelCommon(m as real, Pow10(s) as real, Pow10(t - s) as real);
  }

  /** Dropping trailing zeros keeps the value. */
  lemma NormalizeValue(k: int, s: nat)
    ensures ValueOf(Normalize(k, s)) == k as real / Pow10(s) as real
  {
    var d := Normalize(k, s);
    DivScale(d.mant, d.scale, s);
  }

  /** x^k */
  function RealPow(x: real, k: nat): (r: real)
    ensures x != 0.0 ==> r != 0.0
  {
    if k == 0 then 1.0 else x * RealPow(x, k - 1)
  }

  /** `Math.pow(a, b)` for a positive base and an exponent that is not whole:
      the floating-point library call, supplied by the caller. */
  type InexactPow = (Decimal, Decimal) -> real

  /** The operations whose JavaScript result is Infinity or NaN: division by zero,
      zero to a negative power, a negative base to a fractional power, and any
      arithmetic with an operand that does not read as a number. */
  predicate NonFinite(op: Op, a: Decimal, b: Option<Decimal>)
  {
    match b
    case None => op != Equals
    case Some(y) =>
      || (op == Divide && y.mant == 0)
      || (op == Power && a.mant == 0 && y.mant < 0)
      || (op == Power && a.mant < 0 && y.scale > 0)
  }

  /** The exact value of `a <op> b`, or None when it is not finite. `=` gives `a`. */
  function Exact(op: Op, a: Decimal, b: Option<Decimal>, pow: InexactPow): (r: Option<real>)
    ensures r.None? <==> NonFinite(op, a, b)
  {
    if op == Equals then Some(ValueOf(a))
    else match b
      case None => None
      case Some(y) =>
        var x := ValueOf(a);
        var z := ValueOf(y);
        match op
        case Plus => Some(x + z)
        case Minus => Some(x - z)
        case Times => Some(x * z)
        case Divide => if y.mant == 0 then None else Some(x / z)
        case Power =>
          if y.scale == 0 then
            if y.mant >= 0 then Some(RealPow(x, y.mant))
            else if a.mant == 0 then None
            else Some(1.0 / RealPow(x, -y.mant))
          else if a.mant < 0 then None
          else if a.mant == 0 then (if y.mant > 0 then Some(0.0) else None)
          else Some(pow(a, y))
  }

  /** Results beyond this magnitude are refused as too long. */
  const MaxMagnitude: int := 999999999999999

  predicate OutOfRange(x: real)
  {
    x > MaxMagnitude as real || x < -MaxMagnitude as real
  }

  const Scale12: nat := 1000000000000

  lemma Pow10Twelve()
    ensures Pow10(12) == Scale12
  {
  }

  /** The nearest integer to x, halves away from zero. */
  function RoundHalfAway(x: real): (k: int)
    ensures -0.5 <= k as real - x <= 0.5
    ensures x >= 0.0 ==> k >= 0
  {
    if x >= 0.0 then (x + 0.5).Floor else -((0.5 - x).Floor)
  }

  lemma RoundWhole(k: int)
    ensures RoundHalfAway(k as real) == k
  {
    if k >= 0 {
      assert (k as real + 0.5).Floor == k;
    } else {
      assert (0.5 - k as real).Floor == -k;
    }
  }

  /** The k-th multiple of 10^-12 lies within half a unit of x when k is x * 10^12 rounded. */
  lemma RoundedStep(x: real)
    ensures var k := RoundHalfAway(x * Scale12 as real);
            -0.5 <= (ValueOf(Normalize(k, 12)) - x) * Scale12 as real <= 0.5
  {
    var k := RoundHalfAway(x * Scale12 as real);
    Pow10Twelve();
    NormalizeValue(k, 12);
    assert ValueOf(Normalize(k, 12)) == k as real / Scale12 as real;
    assert (k as real / Scale12 as real - x) * Scale12 as real == k as real - x * Scale12 as real;
  }

  /** `Number(x.toFixed(12))`: x rounded to 12 fraction digits. */
  function Round12(x: real): (r: Decimal)
    ensures r.scale <= 12
    ensures -0.5 <= (ValueOf(r) - x) * Scale12 as real <= 0.5
  {
    RoundedStep(x);
    Normalize(RoundHalfAway(x * Scale12 as real), 12)
  }

  /** A value with at most 12 fraction digits comes through the rounding unchanged. */
  lemma Round12Exact(d: Decimal)
    requires d.scale <= 12
    ensures Round12(ValueOf(d)) == d
  {
    var t := 12 - d.scale;
    var k := d.mant * Pow10(t);
    assert ValueOf(d) * Scale12 as real == k as real by {
      ScaleTwelve(d.mant, d.scale);
    }
    RoundWhole(k);
    NormalizePadded(d, t);
  }

  lemma DivTimes(x: real, p: real)
    requires p != 0.0
    ensures x / p * p == x
  {
  }

  /** m / 10^s, scaled up by 10^12, is the whole number m * 10^(12 - s). */
  lemma ScaleTwelve(m: int, s: nat)
    requires s <= 12
    ensures m as real / Pow10(s) as real * Scale12 as real == (m * Pow10(12 - s)) as real
  {
    Pow10Twelve();
    DivScale(m, s, 12);
    DivTimes((m * Pow10(12 - s)) as real, Pow10(12) as real);
  }

  /** The outcome of a commit. */
  datatype Evaluation = Ok(result: Decimal) | NotFiniteResult | TooLong

  /** The checks `handleOperators` makes on a result, in order: not finite,
      then beyond the range, then rounded to 12 fraction digits. */
  function Evaluate(op: Op, a: Decimal, b: Option<Decimal>, pow: InexactPow): (r: Evaluation)
    ensures r.NotFiniteResult? <==> NonFinite(op, a, b)
    ensures r.TooLong? <==> !NonFinite(op, a, b) && OutOfRange(Exact(op, a, b, pow).value)
    ensures r.Ok? ==> -0.5 <= (ValueOf(r.result) - Exact(op, a, b, pow).value) * Scale12 as real <= 0.5
    ensures r.Ok? ==> r.result == Round12(Exact(op, a, b, pow).value)
  {
    match Exact(op, a, b, pow)
    case None => NotFiniteResult
    case Some(x) => if OutOfRange(x) then TooLong else Ok(Round12(x))
  }

  /** Rounding never leaves the range: an accepted result is at most 999999999999999 in magnitude. */
  lemma Round12InRange(x: real)
    requires !OutOfRange(x)
    ensures !OutOfRange(ValueOf(Round12(x)))
  {
    var y := x * Scale12 as real;
    var bound := MaxMagnitude * Scale12;
    assert -bound as real <= y <= bound as real;
    var k := RoundHalfAway(y);
    assert -bound <= k <= bound;
    assert Round12(x) == Normalize(k, 12);
    Pow10Twelve();
    NormalizeValue(k, 12);
    assert ValueOf(Round12(x)) == k as real / Scale12 as real;
    ScaledDownInRange(k);
  }

  lemma ScaledDownInRange(k: int)
    requires -MaxMagnitude * Scale12 <= k <= MaxMagnitude * Scale12
    ensures !OutOfRange(k as real / Scale12 as real)
  {
    assert Scale12 as real == 1000000000000.0;
  }

  lemma EvaluateInRange(op: Op, a: Decimal, b: Option<Decimal>, pow: InexactPow)
    requires Evaluate(op, a, b, pow).Ok?
    ensures !OutOfRange(ValueOf(Evaluate(op, a, b, pow).result))
  {
    Round12InRange(Exact(op, a, b, pow).value);
  }

  /** `=` gives back the left operand, whatever the right one is. */
  lemma EqualsGivesLeft(a: Decimal, b: Option<Decimal>, pow: InexactPow)
    requires a.scale <= 12 && !OutOfRange(ValueOf(a))
    ensures Evaluate(Equals, a, b, pow) == Ok(a)
  {
    Round12Exact(a);
  }

  lemma AddOver(x: real, y: real, p: real)
    requires p != 0.0
    ensures (x + y) / p == x / p + y / p
  {
  }

  /** The sum of m / 10^s and n / 10^t over a common scale u. */
  lemma SumStep(m: int, s: nat, n: int, t: nat, u: nat)
    requires s <= u && t <= u
    ensures (m * Pow10(u - s) + n * Pow10(u - t)) as real / Pow10(u) as real
            == m as real / Pow10(s) as real + n as real / Pow10(t) as real
  {
    var k1 := m * Pow10(u - s);
    var k2 := n * Pow10(u - t);
    DivScale(m, s, u);
    DivScale(n, t, u);
    AddOver(k1 as real, k2 as real, Pow10(u) as real);
  }

  /** The exact sum of two decimals. */
  function Sum(a: Decimal, b: Decimal): (r: Decimal)
    ensures ValueOf(r) == ValueOf(a) + ValueOf(b)
    ensures r.scale <= if a.scale < b.scale then b.scale else a.scale
  {
    var s := if a.scale < b.scale then b.scale else a.scale;
    SumStep(a.mant, a.scale, b.mant, b.scale, s);
    NormalizeValue(a.mant * Pow10(s - a.scale) + b.mant * Pow10(s - b.scale), s);
    Normalize(a.mant * Pow10(s - a.scale) + b.mant * Pow10(s - b.scale), s)
  }

  /** Sums of numbers with at most 12 fraction digits are exact: no rounding happens. */
  lemma AdditionExact(a: Decimal, b: Decimal, pow: InexactPow)
    requires a.scale <= 12 && b.scale <= 12
    requires !OutOfRange(ValueOf(a) + ValueOf(b))
    ensures Evaluate(Plus, a, Some(b), pow) == Ok(Sum(a, b))
  {
    var x := ValueOf(a) + ValueOf(b);
    assert Exact(Plus, a, Some(b), pow) == Some(x);
    EvaluateRounds(Plus, a, Some(b), pow, x);
    var d := Sum(a, b);
    assert ValueOf(d) == x;
    Round12Exact(d);
  }

  lemma EvaluateRounds(op: Op, a: Decimal, b: Option<Decimal>, pow: InexactPow, x: real)
    requires Exact(op, a, b, pow) == Some(x) && !OutOfRange(x)
    ensures Evaluate(op, a, b, pow) == Ok(Round12(x))
  {
  }

  /** Dividing by zero is refused, whatever the left operand. */
  lemma DivideByZero(a: Decimal, pow: InexactPow)
    ensures Evaluate(Divide, a, Some(Zero), pow) == NotFiniteResult
  {
  }
}
