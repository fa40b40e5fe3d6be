/** The text of the operand being typed (`currentNumberString`): which texts the
    keypad can produce, which of them are numbers, and the length guard
    `numberTooBig`. */
module Entry {
  import opened Numbers

  /** An optional leading '-', then digits with at most one '.' among them.
      This is every text the keypad, the sign toggle and backspace can build. */
  predicate WellFormedEntry(s: string)
  {
    && (forall i :: 0 <= i < |s| ==> IsDigit(s[i]) || s[i] == '.' || (i == 0 && s[i] == '-'))
    && (forall i, j :: 0 <= i < j < |s| && s[i] == '.' ==> s[j] != '.')
  }

  /** The three texts an operator press refuses: an operand with no digit yet. */
  predicate IsIncomplete(s: string)
  {
    s == "-" || s == "." || s == "-."
  }

  /** Where the first '.' after the sign would sit. */
  function DotIndex(s: string): nat
  {
    (if |s| > 0 && s[0] == '-' then 1 else 0) + FirstDot(Unsigned(s))
  }

  /** A parsed text has digits on both sides of its first point. */
  lemma ParsedDigits(s: string)
    requires Parse(s).Some? && s != []
    ensures AllDigits(IntegerDigits(s)) && AllDigits(FractionDigits(s))
  {
  }

  /** In such a text the only '.' sits at the first-dot position after the sign. */
  lemma DotPosition(s: string, k: nat)
    requires AllDigits(IntegerDigits(s)) && AllDigits(FractionDigits(s))
    requires k < |s| && (k > 0 || s[0] != '-')
    ensures IsDigit(s[k]) || (s[k] == '.' && k == DotIndex(s))
  {
    var off := if s[0] == '-' then 1 else 0;
    var b := Unsigned(s);
    assert b == s[off..];
    var i := FirstDot(b);
    var ip := IntegerDigits(s);
    var fp := FractionDigits(s);
    var c := k - off;
    assert s[k] == b[c];
    if c < i {
      assert b[c] == ip[c];
    } else if c > i {
      assert b[c] == fp[c - i - 1];
    }
  }

  lemma ParsedIsWellFormed(s: string)
    requires Parse(s).Some?
    ensures WellFormedEntry(s)
  {
    if s != [] {
      ParsedCharacters(s);
      ParsedOneDot(s);
    }
  }

  lemma ParsedCharacters(s: string)
    requires Parse(s).Some? && s != []
    ensures forall k :: 0 <= k < |s| ==> IsDigit(s[k]) || s[k] == '.' || (k == 0 && s[k] == '-')
  {
    ParsedDigits(s);
    forall k | 0 <= k < |s|
      ensures IsDigit(s[k]) || s[k] == '.' || (k == 0 && s[k] == '-')
    {
      if k > 0 || s[0] != '-' {
        DotPosition(s, k);
      }
    }
  }

  lemma ParsedOneDot(s: string)
    requires Parse(s).Some? && s != []
    ensures forall k, l :: 0 <= k < l < |s| && s[k] == '.' ==> s[l] != '.'
  {
    ParsedDigits(s);
    forall k, l | 0 <= k < l < |s| && s[k] == '.'
      ensures s[l] != '.'
    {
      DotPosition(s, k);
      if s[l] == '.' {
        DotPosition(s, l);
        assert false;
      }
    }
  }

  /** Every keypad text with a digit (or the empty text) is a number. */
  lemma WellFormedParses(s: string)
    requires WellFormedEntry(s) && !IsIncomplete(s)
    ensures Parse(s).Some?
  {
    if s != [] {
      var off := if s[0] == '-' then 1 else 0;
      var b := Unsigned(s);
      assert b == s[off..];
      var i := FirstDot(b);
      forall c | 0 <= c < |b|
        ensures IsDigit(b[c]) || b[c] == '.'
      {
        assert b[c] == s[c + off];
      }
      var ip := IntegerDigits(s);
      var fp := FractionDigits(s);
      assert AllDigits(ip) by {
        forall c | 0 <= c < |ip| ensures IsDigit(ip[c]) {
          assert ip[c] == b[c];
        }
      }
      assert AllDigits(fp) by {
        forall c | 0 <= c < |fp| ensures IsDigit(fp[c]) {
          assert fp[c] == b[c + i + 1] == s[c + i + 1 + off];
          assert s[i + off] == '.';
        }
      }
    }
  }

  lemma ToStringWellFormed(d: Decimal)
    ensures WellFormedEntry(ToString(d)) && !IsIncomplete(ToString(d))
  {
    ParseToString(d);
    ParsedIsWellFormed(ToString(d));
  }

  lemma AppendDigitWellFormed(s: string, c: char)
    requires WellFormedEntry(s) && IsDigit(c)
    ensures WellFormedEntry(s + [c])
  {
  }

  lemma AppendDotWellFormed(s: string)
    requires WellFormedEntry(s) && '.' !in s
    ensures WellFormedEntry(s + ['.'])
  {
  }

  lemma PrefixWellFormed(s: string, n: nat)
    requires WellFormedEntry(s) && n <= |s|
    ensures WellFormedEntry(s[..n])
  {
  }

  lemma ToggleSignWellFormed(s: string)
    requires WellFormedEntry(s)
    ensures |s| > 0 && s[0] == '-' ==> WellFormedEntry(s[1..])
    ensures !(|s| > 0 && s[0] == '-') ==> WellFormedEntry(['-'] + s)
  {
  }

  // ---------------------------------------------------------------------------
  // numberTooBig

  /** The length of the text, not counting a '.' or a '-'. */
  function CountedLength(s: string): int
  {
    |s| - (if '.' in s then 1 else 0) - (if '-' in s then 1 else 0)
  }

  const TooBigLength := 13

  /** `numberTooBig`: the entry already holds 13 or more counted characters. */
  function NumberTooBig(entry: Option<string>): (r: bool)
    ensures r ==> entry.Some? && |entry.value| >= TooBigLength
    ensures entry.Some? && |entry.value| >= TooBigLength + 2 ==> r
  {
    match entry
    case None => false
    case Some(s) => CountedLength(s) >= TooBigLength
  }
}
