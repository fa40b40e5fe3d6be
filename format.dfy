/** Display formatting: `addCommasToNumber`, `formatForDisplay` and
    `formatCurrentNumberDisplayed`. */
module Format {
  import opened Numbers
  import opened Entry
  import History

  // ---------------------------------------------------------------------------
  // Thousands grouping

  /** Puts a ',' after every character that is followed by a positive multiple
      of three characters. */
  function Group(cs: string): string
  {
    if |cs| <= 3 then cs
    else [cs[0]] + (if (|cs| - 1) % 3 == 0 then "," else "") + Group(cs[1..])
  }

  /** `text.replace(/,/g, "")` */
  function RemoveCommas(s: string): (r: string)
    ensures ',' !in r
    ensures |r| <= |s|
  {
    if s == [] then [] else (if s[0] == ',' then [] else [s[0]]) + RemoveCommas(s[1..])
  }

  lemma {:induction false} RemoveCommasConcat(a: string, b: string)
    ensures RemoveCommas(a + b) == RemoveCommas(a) + RemoveCommas(b)
  {
    if a != [] {
      assert (a + b)[1..] == a[1..] + b;
      RemoveCommasConcat(a[1..], b);
    } else {
      assert a + b == b;
    }
  }

  lemma {:induction false} RemoveCommasNoComma(s: string)
    requires ',' !in s
    ensures RemoveCommas(s) == s
  {
    if s != [] {
      RemoveCommasNoComma(s[1..]);
    }
  }

  /** Deleting the commas of a grouping gives back the characters grouped. */
  lemma {:induction false} GroupRoundTrip(cs: string)
    requires ',' !in cs
    ensures RemoveCommas(Group(cs)) == cs
  {
    if |cs| <= 3 {
      RemoveCommasNoComma(cs);
    } else {
      var sep := if (|cs| - 1) % 3 == 0 then "," else "";
      GroupRoundTrip(cs[1..]);
      RemoveCommasSeparated(cs[0], sep, Group(cs[1..]));
      assert cs == [cs[0]] + cs[1..];
    }
  }

  lemma RemoveCommasSeparated(c: char, sep: string, rest: string)
    requires c != ',' && (sep == "" || sep == ",")
    ensures RemoveCommas([c] + sep + rest) == [c] + RemoveCommas(rest)
  {
    RemoveCommasConcat([c] + sep, rest);
    RemoveCommasConcat([c], sep);
    assert RemoveCommas(sep) == [];
    assert RemoveCommas([c]) == [c];
  }

  /** Every group after the first holds exactly three characters: the grouping
      ends in ',' and the last three characters, after the grouping of the rest. */
  lemma {:induction false} GroupLastThree(cs: string)
    requires |cs| > 3
    ensures Group(cs) == Group(cs[..|cs| - 3]) + "," + cs[|cs| - 3..]
  {
    var n := |cs|;
    if n <= 6 {
      GroupLastThreeShort(cs);
    } else {
      var pre := cs[..n - 3];
      var last := cs[n - 3..];
      var head := [cs[0]] + (if (n - 1) % 3 == 0 then "," else "");
      assert Group(cs[1..]) == Group(pre[1..]) + "," + last by {
        GroupLastThree(cs[1..]);
        assert cs[1..][..n - 4] == pre[1..];
        assert cs[1..][n - 4..] == last;
      }
      assert Group(pre) == head + Group(pre[1..]) by {
        assert pre[0] == cs[0];
        ModThreeShift(n - 1);
      }
      calc {
        Group(cs);
        head + Group(cs[1..]);
        head + ((Group(pre[1..]) + ",") + last);
        { History.AppendAssoc(head, Group(pre[1..]) + ",", last); }
        (head + (Group(pre[1..]) + ",")) + last;
        { History.AppendAssoc(head, Group(pre[1..]), ","); }
        ((head + Group(pre[1..])) + ",") + last;
      }
    }
  }

  /** GroupLastThree for four to six characters, where the front is not grouped. */
  lemma {:induction false} GroupLastThreeShort(cs: string)
    requires 3 < |cs| <= 6
    ensures Group(cs) == cs[..|cs| - 3] + "," + cs[|cs| - 3..]
  {
    var n := |cs|;
    if n == 4 {
      assert cs[..1] == [cs[0]];
      assert cs[1..] == cs[n - 3..];
    } else {
      GroupLastThreeShort(cs[1..]);
      assert cs[1..][..n - 4] == cs[1..n - 3];
      assert cs[1..][n - 4..] == cs[n - 3..];
      assert cs[..n - 3] == [cs[0]] + cs[1..n - 3];
    }
  }

  lemma ModThreeShift(k: int)
    ensures (k - 3) % 3 == k % 3
  {
  }

  // ---------------------------------------------------------------------------
  // addCommasToNumber

  /** `value.split(".")[0]`: the text before the first '.'. */
  function BeforePoint(v: string): string
  {
    v[..FirstDot(v)]
  }

  /** `value.split(".")[1]`: the text between the first '.' and the next, or "" without a '.'. */
  function AfterPoint(v: string): string
  {
    var i := FirstDot(v);
    if i < |v| then
      var rest := v[i + 1..];
      rest[..FirstDot(rest)]
    else
      ""
  }

  /** `decimalValue`: the point and what follows it, or "" when nothing follows it. */
  function DecimalValue(v: string): string
  {
    if AfterPoint(v) != "" then "." + AfterPoint(v) else ""
  }

  /** `addCommasToNumber` as written: the whole text before the point is
      grouped, a leading '-' counted as a digit. */
  function AddCommas(value: string): string
  {
    Group(BeforePoint(value)) + DecimalValue(value)
  }

  /** The grouping `addCommasToNumber` evidently intends: a leading '-' is kept
      in front and only the digits after it are grouped. */
  function AddCommasSigned(value: string): string
  {
    SignedGroup(BeforePoint(value)) + DecimalValue(value)
  }

  function SignedGroup(ip: string): string
  {
    if |ip| > 0 && ip[0] == '-' then "-" + Group(ip[1..]) else Group(ip)
  }

  /** On text without a leading '-' the corrected grouping is the original one. */
  lemma SignedAgreesUnsigned(v: string)
    requires |v| == 0 || v[0] != '-'
    ensures AddCommasSigned(v) == AddCommas(v)
  {
    var ip := BeforePoint(v);
    if |ip| > 0 {
      assert ip[0] == v[0];
    }
  }

  /** `nonDecimals[i]` gets a ',' appended when i is followed by a positive
      multiple of three characters (the loop condition of `addCommasToNumber`). */
  predicate CommaAfter(n: int, i: int)
  {
    n - 1 - i >= 3 && (n - 1 - i) % 3 == 0
  }

  /** `array.join("")` */
  function Join(parts: seq<string>): string
  {
    if parts == [] then "" else parts[0] + Join(parts[1..])
  }

  /** The array `nonDecimals` after the loop of `addCommasToNumber`. */
  function MarkedParts(cs: string): (p: seq<string>)
    ensures |p| == |cs|
    ensures forall k :: 0 <= k < |cs| ==> p[k] == [cs[k]] + (if CommaAfter(|cs|, k) then "," else "")
  {
    seq(|cs|, k requires 0 <= k < |cs| => [cs[k]] + (if CommaAfter(|cs|, k) then "," else ""))
  }

  lemma {:induction false} JoinMarked(cs: string)
    ensures Join(MarkedParts(cs)) == Group(cs)
  {
    if cs != [] {
      var p := MarkedParts(cs);
      assert p[1..] == MarkedParts(cs[1..]);
      JoinMarked(cs[1..]);
      if |cs| <= 3 {
        assert Group(cs[1..]) == cs[1..];
        assert cs == [cs[0]] + cs[1..];
      }
    }
  }

  /** `addCommasToNumber`, as written: the characters before the point go into
      an array, a descending loop appends "," to every third one from the point,
      and the array is joined. */
  method AddCommasToNumber(value: string) returns (r: string)
    ensures r == AddCommas(value)
  {
    var digits := BeforePoint(value);
    var decimalValue := DecimalValue(value);
    var n := |digits|;
    var nonDecimals := new string[n](k requires 0 <= k < n => [digits[k]]);
    var i := n - 4;
    while i >= 0
      invariant i <= n - 4
      invariant forall k :: 0 <= k < n ==>
        nonDecimals[k] == [digits[k]] + (if k > i && CommaAfter(n, k) then "," else "")
      decreases i
    {
      var indexFromDecimal := n - 1 - i;
      if indexFromDecimal % 3 == 0 {
        nonDecimals[i] := nonDecimals[i] + ",";
      }
      i := i - 1;
    }
    assert nonDecimals[..] == MarkedParts(digits);
    JoinMarked(digits);
    r := Join(nonDecimals[..]) + decimalValue;
  }

  /** At most one '.' in the text. */
  predicate SinglePoint(v: string)
  {
    forall i, j :: 0 <= i < j < |v| && v[i] == '.' ==> v[j] != '.'
  }

  predicate EndsWith(v: string, c: char)
  {
    |v| > 0 && v[|v| - 1] == c
  }

  lemma BeforePointHasNoDot(v: string)
    ensures '.' !in BeforePoint(v)
  {
    forall k | 0 <= k < FirstDot(v) ensures BeforePoint(v)[k] != '.' {
      assert BeforePoint(v)[k] == v[k];
    }
  }

  /** With a single point, no '.' follows the first one. */
  lemma NoPointAfter(v: string, i: nat)
    requires SinglePoint(v) && i < |v| && v[i] == '.'
    ensures '.' !in v[i + 1..]
  {
    var rest := v[i + 1..];
    forall k | 0 <= k < |rest| ensures rest[k] != '.' {
      assert rest[k] == v[i + 1 + k];
    }
  }

  lemma FirstDotAbsent(s: string)
    requires '.' !in s
    ensures FirstDot(s) == |s|
  {
  }

  /** With a single point, the text after it is `split(".")[1]`. */
  lemma AfterSinglePoint(v: string)
    requires SinglePoint(v) && FirstDot(v) < |v|
    ensures AfterPoint(v) == v[FirstDot(v) + 1..]
  {
    NoPointAfter(v, FirstDot(v));
    FirstDotAbsent(v[FirstDot(v) + 1..]);
  }

  lemma SplitAt(v: string, i: nat)
    requires i <= |v|
    ensures v == v[..i] + v[i..]
  {
  }

  /** With a single point, the decimal value is the point and everything after it. */
  lemma DecimalValueIsTail(v: string)
    requires SinglePoint(v) && !EndsWith(v, '.')
    ensures DecimalValue(v) == v[FirstDot(v)..]
  {
    var i := FirstDot(v);
    if i < |v| {
      AfterSinglePoint(v);
      SplitAt(v[i..], 1);
    }
  }

  /** A text with at most one point, not ending in it, is its integer part and its decimal value. */
  lemma SplitAtPoint(v: string)
    requires SinglePoint(v) && !EndsWith(v, '.')
    ensures v == BeforePoint(v) + DecimalValue(v)
    ensures DecimalValue(v) == v[FirstDot(v)..]
    ensures '.' !in BeforePoint(v)
  {
    BeforePointHasNoDot(v);
    DecimalValueIsTail(v);
    SplitAt(v, FirstDot(v));
  }

  /** A text without commas splits at its point into two texts without commas. */
  lemma SplitWithoutCommas(v: string)
    requires ',' !in v && SinglePoint(v) && !EndsWith(v, '.')
    ensures v == BeforePoint(v) + DecimalValue(v)
    ensures ',' !in BeforePoint(v) && ',' !in DecimalValue(v)
  {
    SplitAtPoint(v);
    NoCommaInSlice(v, 0, FirstDot(v));
    NoCommaInSlice(v, FirstDot(v), |v|);
    assert v[0..FirstDot(v)] == BeforePoint(v);
    assert v[FirstDot(v)..|v|] == DecimalValue(v);
  }

  lemma NoCommaInSlice(v: string, i: nat, j: nat)
    requires ',' !in v && i <= j <= |v|
    ensures ',' !in v[i..j]
  {
    forall k | 0 <= k < j - i ensures v[i..j][k] != ',' {
      assert v[i..j][k] == v[i + k];
    }
  }

  /** Comma round trip of `addCommasToNumber` as written. */
  lemma AddCommasRoundTrip(v: string)
    requires ',' !in v && SinglePoint(v) && !EndsWith(v, '.')
    ensures RemoveCommas(AddCommas(v)) == v
  {
    SplitWithoutCommas(v);
    GroupRoundTrip(BeforePoint(v));
    RemoveCommasConcat(Group(BeforePoint(v)), DecimalValue(v));
    RemoveCommasNoComma(DecimalValue(v));
  }

  /** Deleting the commas of the corrected grouping gives back the integer part. */
  lemma SignedGroupRoundTrip(ip: string)
    requires ',' !in ip
    ensures RemoveCommas(SignedGroup(ip)) == ip
  {
    if |ip| > 0 && ip[0] == '-' {
      NoCommaInSlice(ip, 1, |ip|);
      assert ip[1..|ip|] == ip[1..];
      GroupRoundTrip(ip[1..]);
      RemoveCommasConcat("-", Group(ip[1..]));
      assert ip == "-" + ip[1..];
    } else {
      GroupRoundTrip(ip);
    }
  }

  /** Comma round trip of the corrected grouping. */
  lemma AddCommasSignedRoundTrip(v: string)
    requires ',' !in v && SinglePoint(v) && !EndsWith(v, '.')
    ensures RemoveCommas(AddCommasSigned(v)) == v
  {
    SplitWithoutCommas(v);
    SignedGroupRoundTrip(BeforePoint(v));
    RemoveCommasConcat(SignedGroup(BeforePoint(v)), DecimalValue(v));
    RemoveCommasNoComma(DecimalValue(v));
  }

  /** The corrected grouping copies the point and the fraction unchanged. */
  lemma AddCommasSignedKeepsFraction(v: string)
    requires SinglePoint(v) && !EndsWith(v, '.')
    ensures AddCommasSigned(v) == SignedGroup(v[..FirstDot(v)]) + v[FirstDot(v)..]
  {
    SplitAtPoint(v);
  }

  /** The corrected grouping of a negative number is '-' before the grouping of its digits. */
  lemma AddCommasSignedNegates(ds: string)
    requires AllDigits(ds)
    ensures AddCommasSigned("-" + ds) == "-" + AddCommasSigned(ds)
  {
    var v := "-" + ds;
    DigitsHaveNoDot(ds);
    FirstDotConcat(ds, []);
    assert ds + [] == ds;
    FirstDotConcat(v, []);
    assert v + [] == v;
    assert BeforePoint(v) == v && BeforePoint(ds) == ds;
    assert v[1..] == ds;
  }

  /** As written, "-123" is shown as "-,123": the sign is grouped as a digit. */
  lemma SignGroupedAsDigit()
    ensures AddCommas("-123") == "-,123"
    ensures AddCommasSigned("-123") == "-123"
    ensures AddCommas("-123456") == "-,123,456"
  {
    NoPointParts("-123");
    NoPointParts("-123456");
    GroupSignedThree();
    GroupSignedSix();
  }

  lemma GroupSignedThree()
    ensures Group("-123") == "-,123"
    ensures SignedGroup("-123") == "-123"
  {
    assert "-123"[1..] == "123";
  }

  lemma GroupSignedSix()
    ensures Group("-123456") == "-,123,456"
  {
    assert Group("3456") == "3,456" by {
      assert "3456"[1..] == "456";
    }
    assert Group("23456") == "23,456" by {
      assert "23456"[1..] == "3456";
    }
    assert Group("123456") == "123,456" by {
      assert "123456"[1..] == "23456";
    }
    assert "-123456"[1..] == "123456";
  }

  // ---------------------------------------------------------------------------
  // formatForDisplay and formatCurrentNumberDisplayed

  /** `formatForDisplay(str)` for a string argument. Text that is not a number
      comes back unchanged; a trailing '.' and trailing zeros after the point are
      kept; otherwise the integer part is grouped. Grouping uses the corrected
      `AddCommasSigned`. */
  function FormatText(s: string): (r: string)
    ensures Parse(s).None? ==> r == s
  {
    if Parse(s).None? then s
    else if EndsWith(s, '.') then
      (match Parse(s[..|s| - 1])
       case Some(n) => AddCommasSigned(ToString(n))
       case None => "NaN") + "."
    else if EndsWith(s, '0') && '.' in s then
      AddCommasSigned(BeforePoint(s)) + "." + AfterPoint(s)
    else
      AddCommasSigned(s)
  }

  /** `formatForDisplay(n)` for a number argument: its text, formatted. */
  function FormatNumber(n: Decimal): string
  {
    FormatText(ToString(n))
  }

  /** The argument of `formatForDisplay`: null, a string or a number. */
  datatype Shown = Null | Text(text: string) | Number(number: Decimal)

  function OfNumber(p: Option<Decimal>): Shown
  {
    match p
    case None => Null
    case Some(n) => Number(n)
  }

  /** `formatForDisplay`: null comes back as null. */
  function FormatForDisplay(v: Shown): (r: Option<string>)
    ensures r.None? <==> v.Null?
  {
    match v
    case Null => None
    case Text(s) => Some(FormatText(s))
    case Number(n) => Some(FormatNumber(n))
  }

  /** `formatCurrentNumberDisplayed`: with no entry, the previous number is shown. */
  function FormatCurrentNumberDisplayed(entry: Option<string>, previousNumber: Option<Decimal>): (r: Option<string>)
    ensures entry.None? ==> r == FormatForDisplay(OfNumber(previousNumber))
    ensures entry.Some? ==> r == Some(FormatText(entry.value))
    ensures r.None? <==> entry.None? && previousNumber.None?
  {
    match entry
    case None => FormatForDisplay(OfNumber(previousNumber))
    case Some(s) => FormatForDisplay(Text(s))
  }

  // ---------------------------------------------------------------------------
  // Properties of the formatter

  lemma ParsedShape(s: string)
    ensures Parse(s).Some? ==> SinglePoint(s) && ',' !in s
  {
    if Parse(s).Some? {
      ParsedIsWellFormed(s);
    }
  }

  /** "-", "." and "-." are not numbers, and are shown as typed. */
  lemma IncompleteShownAsIs(t: string)
    requires IsIncomplete(t)
    ensures Parse(t).None? && FormatText(t) == t
  {
    assert IntegerDigits(t) == [] && FractionDigits(t) == [] by {
      if t == "-." {
        assert Unsigned(t) == ".";
      } else if t == "-" {
        assert Unsigned(t) == [];
      }
    }
  }

  /** A text that starts with a letter is not a number. */
  lemma LetterFirstNotNumber(t: string)
    requires |t| > 0 && 'A' <= t[0] <= 'Z'
    ensures Parse(t).None?
  {
    assert Unsigned(t) == t;
    assert FirstDot(t) > 0;
    assert IntegerDigits(t)[0] == t[0];
  }

  /** The text of a number has at most one point and ends in a digit. */
  lemma ToStringShape(d: Decimal)
    ensures SinglePoint(ToString(d)) && ',' !in ToString(d)
    ensures |ToString(d)| > 0 && IsDigit(ToString(d)[|ToString(d)| - 1])
    ensures d.scale == 0 ==> '.' !in ToString(d)
  {
    ToStringWellFormed(d);
    var a := Magnitude(d);
    var q := NatToDigits(a / Pow10(d.scale));
    var f := FractionText(a, d.scale);
    assert ToString(d) == SignText(d) + q + f;
    if d.scale == 0 {
      assert f == [];
      DigitsHaveNoDot(q);
      assert SignText(d) != "." && '.' !in SignText(d);
    } else {
      var pd := PadDigits(a % Pow10(d.scale), d.scale);
      assert f == "." + pd;
      assert ToString(d)[|ToString(d)| - 1] == pd[|pd| - 1];
    }
  }

  /** Text with no point reads as a whole number. */
  lemma ParseWithoutPoint(t: string)
    requires '.' !in t && Parse(t).Some?
    ensures Parse(t).value.scale == 0
  {
    if t != [] {
      var b := Unsigned(t);
      assert '.' !in b by {
        assert forall k :: 0 <= k < |b| ==> b[k] == t[k + |t| - |b|];
      }
      assert FirstDot(b) == |b|;
    }
  }

  /** A trailing '.' does not change the number a text reads as. */
  lemma ParseTrailingDot(t: string)
    requires '.' !in t && t != []
    ensures Parse(t + ".") == Parse(t)
  {
    TrailingDotSameParts(t);
    SameParts(t + ".", t);
  }

  lemma TrailingDotSameParts(t: string)
    requires '.' !in t && t != []
    ensures (t + ".")[0] == t[0]
    ensures IntegerDigits(t + ".") == IntegerDigits(t)
    ensures FractionDigits(t + ".") == FractionDigits(t)
  {
    var s := t + ".";
    var b := Unsigned(t);
    assert Unsigned(s) == b + "." by {
      if t[0] == '-' {
        assert s[1..] == t[1..] + ".";
      }
    }
    assert '.' !in b by {
      assert forall k :: 0 <= k < |b| ==> b[k] == t[k + |t| - |b|];
    }
    FirstDotConcat(b, ".");
    FirstDotAbsent(b);
    assert (b + ".")[..|b|] == b;
  }

  lemma NoPointParts(ip: string)
    requires '.' !in ip
    ensures BeforePoint(ip) == ip && DecimalValue(ip) == ""
  {
    FirstDotConcat(ip, []);
    assert ip + [] == ip;
  }

  /** The trailing-zeros case of `formatForDisplay` gives what the general case gives. */
  lemma ZeroBranchAgrees(s: string)
    requires SinglePoint(s) && '.' in s && !EndsWith(s, '.')
    ensures AddCommasSigned(BeforePoint(s)) + "." + AfterPoint(s) == AddCommasSigned(s)
  {
    SplitAtPoint(s);
    assert DecimalValue(s) != "" by {
      assert FirstDot(s) < |s|;
    }
    NoPointParts(BeforePoint(s));
  }

  /** For a number not ending in '.', `formatForDisplay` is the grouping. */
  lemma FormatTextGroups(s: string)
    requires Parse(s).Some? && !EndsWith(s, '.')
    ensures FormatText(s) == AddCommasSigned(s)
  {
    ParsedShape(s);
    if EndsWith(s, '0') && '.' in s {
      ZeroBranchAgrees(s);
    }
  }

  /** `formatForDisplay` only inserts commas into a number not ending in '.'. */
  lemma FormatOnlyInsertsCommas(s: string)
    requires Parse(s).Some? && !EndsWith(s, '.')
    ensures RemoveCommas(FormatText(s)) == s
  {
    ParsedShape(s);
    FormatTextGroups(s);
    AddCommasSignedRoundTrip(s);
  }

  /** The point and every digit after it, trailing zeros included, are shown as typed. */
  lemma FormatKeepsFraction(s: string)
    requires Parse(s).Some? && !EndsWith(s, '.')
    ensures FormatText(s) == SignedGroup(s[..FirstDot(s)]) + s[FirstDot(s)..]
  {
    ParsedShape(s);
    FormatTextGroups(s);
    AddCommasSignedKeepsFraction(s);
  }

  /** A number typed with a trailing '.' is a whole number followed by the point. */
  lemma TrailingDotParts(s: string)
    requires Parse(s).Some? && EndsWith(s, '.')
    ensures '.' !in s[..|s| - 1] && s[..|s| - 1] != []
    ensures Parse(s[..|s| - 1]) == Parse(s) && Parse(s).value.scale == 0
  {
    ParsedShape(s);
    var p := s[..|s| - 1];
    assert s == p + ".";
    assert '.' !in p by {
      assert forall k :: 0 <= k < |p| ==> p[k] == s[k];
    }
    assert p != [] by {
      assert Parse(".").None? by {
        assert FractionDigits(".") == [] && IntegerDigits(".") == [];
      }
    }
    ParseTrailingDot(p);
    ParseWithoutPoint(p);
  }

  /** The integer text of a number, grouped, reads back as the number. */
  lemma GroupedIntegerParts(n: Decimal)
    requires n.scale == 0
    ensures '.' !in ToString(n) && ToString(n) != []
    ensures RemoveCommas(AddCommasSigned(ToString(n))) == ToString(n)
    ensures Parse(ToString(n) + ".") == Some(n)
  {
    var t := ToString(n);
    ToStringShape(n);
    assert !EndsWith(t, '.');
    AddCommasSignedRoundTrip(t);
    ParseTrailingDot(t);
    ParseToString(n);
  }

  /** A number typed with a trailing '.' is shown with it, as the same number. */
  lemma FormatKeepsTrailingDot(s: string)
    requires Parse(s).Some? && EndsWith(s, '.')
    ensures EndsWith(FormatText(s), '.')
    ensures Parse(RemoveCommas(FormatText(s))) == Parse(s)
  {
    TrailingDotParts(s);
    var n := Parse(s).value;
    var t := ToString(n);
    GroupedIntegerParts(n);
    assert FormatText(s) == AddCommasSigned(t) + ".";
    RemoveCommasConcat(AddCommasSigned(t), ".");
    assert RemoveCommas(".") == ".";
  }

  /** The text before a trailing '.' is shown as the number it reads as, so the
      sign of a negative zero being typed is not shown. */
  lemma NegativeZeroPointShown()
    ensures FormatText("-0.") == "0."
  {
    var s := "-0.";
    assert Unsigned(s) == "0." && FirstDot("0.") == 1;
    assert IntegerDigits(s) == "0" && FractionDigits(s) == [];
    assert Parse(s).Some?;
    assert EndsWith(s, '.');
    assert s[..|s| - 1] == "-0";
    assert Unsigned("-0") == "0" && FirstDot("0") == 1;
    assert IntegerDigits("-0") == "0" && FractionDigits("-0") == [];
    assert Parse("-0") == Some(Zero);
    assert ToString(Zero) == "0";
    assert BeforePoint("0") == "0" && DecimalValue("0") == "";
    assert AddCommasSigned("0") == "0";
  }

  lemma FormatWholeWithDot(n: Decimal)
    requires n.scale == 0
    ensures FormatText(ToString(n) + ".") == AddCommasSigned(ToString(n)) + "."
  {
    var t := ToString(n);
    var u := t + ".";
    GroupedIntegerParts(n);
    assert Parse(u).Some? && EndsWith(u, '.');
    assert u[..|u| - 1] == t;
    ParseToString(n);
  }

  /** Formatting the display of a number typed with a trailing '.' changes nothing. */
  lemma TrailingDotIdempotent(s: string)
    requires Parse(s).Some? && EndsWith(s, '.') && ',' !in FormatText(s)
    ensures FormatText(FormatText(s)) == FormatText(s)
  {
    TrailingDotParts(s);
    var n := Parse(s).value;
    var t := ToString(n);
    GroupedIntegerParts(n);
    var g := AddCommasSigned(t);
    assert FormatText(s) == g + ".";
    assert ',' !in g by {
      assert forall k :: 0 <= k < |g| ==> g[k] == FormatText(s)[k];
    }
    RemoveCommasNoComma(g);
    FormatWholeWithDot(n);
  }

  /** Formatting what `formatForDisplay` shows changes nothing. */
  lemma FormatTextIdempotent(s: string)
    ensures FormatText(FormatText(s)) == FormatText(s)
  {
    var out := FormatText(s);
    ParsedShape(out);
    if Parse(s).Some? && ',' !in out {
      if EndsWith(s, '.') {
        TrailingDotIdempotent(s);
      } else {
        FormatOnlyInsertsCommas(s);
        RemoveCommasNoComma(out);
      }
    }
  }

  /** `formatForDisplay(n)` for a number: the grouped text of the number, which reads back as n. */
  lemma FormatNumberReadsBack(n: Decimal)
    ensures FormatNumber(n) == AddCommasSigned(ToString(n))
    ensures Parse(RemoveCommas(FormatNumber(n))) == Some(n)
  {
    var t := ToString(n);
    ParseToString(n);
    ToStringShape(n);
    FormatTextGroups(t);
    FormatOnlyInsertsCommas(t);
  }
}
