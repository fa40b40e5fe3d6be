/** Decimal numbers as the calculator holds them, and the two conversions the
    component relies on: reading entry text as a number (JavaScript's
    `Number(text)`) and writing a number back as text (`number.toString()`).

    A JavaScript number is an IEEE double; every value the calculator can hold
    is modelled here as an exact finite decimal `mant / 10^scale`. */
module Numbers {

  datatype Option<T> = None | Some(value: T)

  /** 10^k */
  function Pow10(k: nat): (r: nat)
    ensures r >= 1
  {
    if k == 0 then 1 else 10 * Pow10(k - 1)
  }

  lemma {:induction false} Pow10Add(a: nat, b: nat)
    ensures Pow10(a + b) == Pow10(a) * Pow10(b)
  {
    if a > 0 {
      Pow10Add(a - 1, b);
      calc {
        Pow10(a + b);
        10 * Pow10(a - 1 + b);
        10 * (Pow10(a - 1) * Pow10(b));
        (10 * Pow10(a - 1)) * Pow10(b);
      }
    }
  }

  // ---------------------------------------------------------------------------
  // Decimal values

  /** The value `mant / 10^scale`. */
  datatype RawDecimal = Dec(mant: int, scale: nat)

  /** One representation per value: no trailing zero digit after the point. */
  predicate Canonical(d: RawDecimal)
  {
    d.scale == 0 || d.mant % 10 != 0
  }

  type Decimal = d: RawDecimal | Canonical(d) witness Dec(0, 0)

  const Zero: Decimal := Dec(0, 0)

  /** Drops trailing zero digits after the point; the value is unchanged. */
  function Normalize(mant: int, scale: nat): (d: Decimal)
    ensures d.scale <= scale
    ensures d.mant * Pow10(scale - d.scale) == mant
    decreases scale
  {
    if scale > 0 && mant % 10 == 0 then
      var d := Normalize(mant / 10, scale - 1);
      assert Pow10(scale - d.scale) == 10 * Pow10(scale - 1 - d.scale);
      assert d.mant * Pow10(scale - d.scale) == 10 * (d.mant * Pow10(scale - 1 - d.scale));
      d
    else
      Dec(mant, scale)
  }

  lemma {:induction false} NormalizeCanonical(d: Decimal)
    ensures Normalize(d.mant, d.scale) == d
  {
  }

  /** Normalizing a decimal padded with k zero digits gives the decimal back. */
  lemma {:induction false} NormalizePadded(d: Decimal, k: nat)
    ensures Normalize(d.mant * Pow10(k), d.scale + k) == d
  {
    if k > 0 {
      var j := d.mant * Pow10(k - 1);
      MulAssoc(d.mant, Pow10(k - 1), 10);
      TenMultiple(j);
      NormalizePadded(d, k - 1);
    }
  }

  lemma MulAssoc(a: int, b: int, c: int)
    ensures a * (c * b) == (a * b) * c
  {
  }

  lemma TenMultiple(j: int)
    ensures (j * 10) % 10 == 0 && (j * 10) / 10 == j
  {
  }

  /** `-1 * d`; JavaScript's negative zero prints as "0" and is the same value here. */
  function Negate(d: Decimal): (r: Decimal)
    ensures r.scale == d.scale && r.mant == -d.mant
  {
    Dec(-d.mant, d.scale)
  }

  // ---------------------------------------------------------------------------
  // Digits

  predicate IsDigit(c: char)
  {
    '0' <= c <= '9'
  }

  predicate AllDigits(s: string)
  {
    forall i :: 0 <= i < |s| ==> IsDigit(s[i])
  }

  function DigitValue(c: char): (n: nat)
    requires IsDigit(c)
    ensures n < 10
  {
    c as int - '0' as int
  }

  function DigitChar(n: nat): (c: char)
    requires n < 10
    ensures IsDigit(c) && DigitValue(c) == n
  {
    (n + '0' as int) as char
  }

  /** The natural number a string of decimal digits denotes (leading zeros allowed). */
  function DigitsValue(s: string): nat
    requires AllDigits(s)
    decreases |s|
  {
    if s == [] then 0 else 10 * DigitsValue(s[..|s| - 1]) + DigitValue(s[|s| - 1])
  }

  /** The shortest decimal digits of n. */
  function NatToDigits(n: nat): (s: string)
    ensures |s| >= 1 && AllDigits(s)
  {
    if n < 10 then [DigitChar(n)] else NatToDigits(n / 10) + [DigitChar(n % 10)]
  }

  /** The last `width` decimal digits of n, with leading zeros. */
  function PadDigits(n: nat, width: nat): (s: string)
    ensures |s| == width && AllDigits(s)
  {
    if width == 0 then [] else PadDigits(n / 10, width - 1) + [DigitChar(n % 10)]
  }

  lemma {:induction false} NatToDigitsRoundTrip(n: nat)
    ensures DigitsValue(NatToDigits(n)) == n
  {
    if n >= 10 {
      var s := NatToDigits(n);
      assert s[..|s| - 1] == NatToDigits(n / 10);
      NatToDigitsRoundTrip(n / 10);
    }
  }

  lemma {:induction false} PadDigitsRoundTrip(n: nat, width: nat)
    requires n < Pow10(width)
    ensures DigitsValue(PadDigits(n, width)) == n
  {
    if width > 0 {
      var s := PadDigits(n, width);
      assert s[..|s| - 1] == PadDigits(n / 10, width - 1);
      assert n / 10 < Pow10(width - 1);
      PadDigitsRoundTrip(n / 10, width - 1);
    }
  }

  // ---------------------------------------------------------------------------
  // Entry text: an optional '-', integer digits, an optional '.' and fraction digits

  /** The index of the first '.', or |s| when there is none (JavaScript's split(".")). */
  function FirstDot(s: string): (i: nat)
    ensures i <= |s|
    ensures forall j :: 0 <= j < i ==> s[j] != '.'
    ensures i < |s| ==> s[i] == '.'
  {
    if s == [] || s[0] == '.' then 0 else 1 + FirstDot(s[1..])
  }

  lemma {:induction false} FirstDotConcat(a: string, b: string)
    requires '.' !in a
    ensures FirstDot(a + b) == |a| + FirstDot(b)
  {
    if a != [] {
      assert (a + b)[1..] == a[1..] + b;
      FirstDotConcat(a[1..], b);
    } else {
      assert a + b == b;
    }
  }

  /** The text after a leading minus sign. */
  function Unsigned(s: string): string
  {
    if |s| > 0 && s[0] == '-' then s[1..] else s
  }

  /** The digits before the point (after the sign). */
  function IntegerDigits(s: string): string
  {
    var b := Unsigned(s);
    b[..FirstDot(b)]
  }

  /** The text after the first point. */
  function FractionDigits(s: string): string
  {
    var b := Unsigned(s);
    var i := FirstDot(b);
    if i < |b| then b[i + 1..] else []
  }

  /** The digits ip.fp read as a whole number of units of 10^-|fp|. */
  function PartsValue(ip: string, fp: string): nat
    requires AllDigits(ip) && AllDigits(fp)
  {
    NatProduct(DigitsValue(ip), Pow10(|fp|));
    DigitsValue(ip) * Pow10(|fp|) + DigitsValue(fp)
  }

  lemma NatProduct(a: nat, b: nat)
    ensures a * b >= 0
  {
  }

  /** `Number(s)` for decimal entry text: None stands for NaN. The empty text is 0,
      as in JavaScript; text with no digit (such as "-", "." or "-.") is NaN. */
  function Parse(s: string): (r: Option<Decimal>)
    ensures s == [] ==> r == Some(Zero)
    ensures r.Some? && s != [] ==> |IntegerDigits(s)| + |FractionDigits(s)| > 0
    ensures r.Some? ==> r.value.scale <= |FractionDigits(s)|
  {
    if s == [] then Some(Zero)
    else
      var ip := IntegerDigits(s);
      var fp := FractionDigits(s);
      if AllDigits(ip) && AllDigits(fp) && |ip| + |fp| > 0 then
        var m: int := PartsValue(ip, fp);
        Some(Normalize(if s[0] == '-' then -m else m, |fp|))
      else
        None
  }

  /** Parse reads only the sign, the digits before the point and the digits after it. */
  lemma SameParts(s: string, t: string)
    requires s != [] && t != [] && s[0] == t[0]
    requires IntegerDigits(s) == IntegerDigits(t) && FractionDigits(s) == FractionDigits(t)
    ensures Parse(s) == Parse(t)
  {
  }

  /** `number.toString()` in plain positional notation. */
  function ToString(d: Decimal): (s: string)
    ensures s != [] && (s[0] == '-' <==> d.mant < 0)
  {
    var p := Positional(Magnitude(d), d.scale);
    assert IsDigit(p[0]);
    SignText(d) + p
  }

  function SignText(d: Decimal): string
  {
    if d.mant < 0 then "-" else ""
  }

  function Magnitude(d: Decimal): nat
  {
    if d.mant < 0 then -d.mant else d.mant
  }

  /** The digits of a / 10^scale, with a point and `scale` fraction digits when scale > 0. */
  function Positional(a: nat, scale: nat): string
  {
    DivNat(a, Pow10(scale));
    NatToDigits(a / Pow10(scale)) + FractionText(a, scale)
  }

  lemma DivNat(a: nat, p: nat)
    requires p >= 1
    ensures 0 <= a / p <= a
  {
  }

  function FractionText(a: nat, scale: nat): string
  {
    if scale == 0 then "" else "." + PadDigits(a % Pow10(scale), scale)
  }

  lemma DigitsHaveNoDot(s: string)
    requires AllDigits(s)
    ensures '.' !in s
  {
  }

  /** How Parse splits digits followed by nothing or by a point and more text. */
  lemma DigitsThenPoint(ip: string, tail: string)
    requires |ip| > 0 && AllDigits(ip)
    requires tail == [] || tail[0] == '.'
    ensures Unsigned(ip + tail) == ip + tail
    ensures IntegerDigits(ip + tail) == ip
    ensures FractionDigits(ip + tail) == if tail == [] then [] else tail[1..]
  {
    var s := ip + tail;
    assert s[0] == ip[0] && IsDigit(ip[0]);
    DigitsHaveNoDot(ip);
    FirstDotConcat(ip, tail);
    assert s[..|ip|] == ip;
    if tail != [] {
      assert s[|ip| + 1..] == tail[1..];
    }
  }

  /** How Parse splits positional text. */
  lemma PositionalParts(a: nat, scale: nat)
    ensures Unsigned(Positional(a, scale)) == Positional(a, scale)
    ensures IntegerDigits(Positional(a, scale)) == NatToDigits(a / Pow10(scale))
    ensures FractionDigits(Positional(a, scale))
         == if scale == 0 then [] else PadDigits(a % Pow10(scale), scale)
  {
    DivNat(a, Pow10(scale));
    var ip := NatToDigits(a / Pow10(scale));
    var tail := FractionText(a, scale);
    DigitsThenPoint(ip, tail);
    if scale != 0 {
      assert tail[1..] == PadDigits(a % Pow10(scale), scale);
    }
  }

  /** The value Parse reads from positional text. */
  lemma {:induction false} PositionalValue(a: nat, scale: nat)
    ensures AllDigits(IntegerDigits(Positional(a, scale)))
    ensures AllDigits(FractionDigits(Positional(a, scale)))
    ensures |FractionDigits(Positional(a, scale))| == scale
    ensures |IntegerDigits(Positional(a, scale))| > 0
    ensures PartsValue(IntegerDigits(Positional(a, scale)), FractionDigits(Positional(a, scale))) == a
  {
    var p := Pow10(scale);
    PositionalParts(a, scale);
    PadDigitsRoundTrip(a % p, scale);
    NatToDigitsRoundTrip(a / p);
    DivMod(a, p);
  }

  lemma DivMod(a: nat, p: nat)
    requires p >= 1
    ensures (a / p) * p + a % p == a
  {
  }

  /** The text of a number is its sign and the positional text of its magnitude. */
  lemma ToStringParts(d: Decimal)
    ensures ToString(d) != []
    ensures ToString(d)[0] == '-' <==> d.mant < 0
    ensures IntegerDigits(ToString(d)) == IntegerDigits(Positional(Magnitude(d), d.scale))
    ensures FractionDigits(ToString(d)) == FractionDigits(Positional(Magnitude(d), d.scale))
  {
    var t := Positional(Magnitude(d), d.scale);
    var s := ToString(d);
    PositionalParts(Magnitude(d), d.scale);
    DivNat(Magnitude(d), Pow10(d.scale));
    assert t[0] == NatToDigits(Magnitude(d) / Pow10(d.scale))[0];
    if d.mant < 0 {
      assert s == ['-'] + t;
      assert s[1..] == t;
    } else {
      assert s == t;
    }
    assert Unsigned(s) == Unsigned(t);
  }

  /** Reading back the text of a number gives the number. */
  lemma ParseToString(d: Decimal)
    ensures Parse(ToString(d)) == Some(d)
  {
    var s := ToString(d);
    ToStringParts(d);
    PositionalValue(Magnitude(d), d.scale);
    var ip := IntegerDigits(s);
    var fp := FractionDigits(s);
    assert PartsValue(ip, fp) == Magnitude(d);
    assert AllDigits(ip) && AllDigits(fp) && |ip| + |fp| > 0;
    NormalizeCanonical(d);
  }
}
