/** The event handlers of the calculator as transitions of its state record.

    Each handler reads the state as it was when the event arrived and all its
    setters take effect together afterwards, so each transition here is a
    function of the state before the event. */
module Machine {
  import opened Numbers
  import opened Entry
  import opened Format
  import opened Arithmetic
  import History

  /** The state of the calculator component. */
  datatype State = State(
    entry: Option<string>,            // currentNumberString; None is null
    previousNumber: Option<Decimal>,  // None is null
    previousDisplay: Option<string>,  // the expression line; None is null
    currentOperator: Option<Op>,
    isOperatorActive: bool,
    currentNumberIsResult: bool,
    hasError: bool,
    pastResults: seq<Decimal>)

  const ErrorText := "ERROR, CLEAR"
  const TooLongText := "TOO LONG, CLEAR"

  /** The state on mount. */
  const Initial := State(Some("0"), None, Some(""), None, false, false, false, [])

  /** A keypad key: a digit or the point. */
  type Key = c: char | IsDigit(c) || c == '.' witness '0'

  /** JavaScript truthiness of `previousNumber`: not null and not zero. */
  predicate NumberTruthy(p: Option<Decimal>)
  {
    p.Some? && p.value.mant != 0
  }

  /** JavaScript truthiness of `currentNumberString`: not null and not empty. */
  predicate TextTruthy(e: Option<string>)
  {
    e.Some? && e.value != ""
  }

  /** `${currentNumberString}` */
  function EntryText(e: Option<string>): string
  {
    match e
    case None => "null"
    case Some(t) => t
  }

  /** What every reachable state satisfies. */
  predicate Consistent(s: State)
  {
    && |s.pastResults| <= History.Capacity
    && (s.currentNumberIsResult ==> s.isOperatorActive)
    && (s.hasError ==> s.entry == Some(ErrorText) || s.entry == Some(TooLongText))
    && (!s.hasError && s.entry.None? ==> s.isOperatorActive)
    && (!s.hasError && s.entry.Some? ==> WellFormedEntry(s.entry.value))
  }

  lemma InitialConsistent()
    ensures Consistent(Initial)
  {
  }

  // ---------------------------------------------------------------------------
  // handleNumberClicks

  /** The press of a point is ignored when the entry already has one. */
  predicate PointIgnored(s: State, k: Key)
  {
    TextTruthy(s.entry) && '.' in s.entry.value && k == '.'
  }

  /** The guards of `handleNumberClicks`: an error, a full entry still being typed, a second point. */
  predicate DigitIgnored(s: State, k: Key)
  {
    s.hasError || (NumberTooBig(s.entry) && !s.isOperatorActive) || PointIgnored(s, k)
  }

  /** The entry after k is typed into it with no operator active. */
  function Typed(e: Option<string>, k: Key): string
  {
    if k == '.' then EntryText(e) + "."
    else if e == Some("0") || !TextTruthy(e) then [k]
    else if e == Some("-0") then "-" + [k]
    else e.value + [k]
  }

  /** A digit or point press that is not ignored, unless it ends a calculation
      closed by `=`, copies a non-zero previous number to the expression line. */
  lemma DigitDisplay(s: State, k: Key)
    requires !DigitIgnored(s, k) && !(s.isOperatorActive && s.currentOperator == Some(Equals))
    ensures OnDigit(s, k).previousDisplay
            == if NumberTruthy(s.previousNumber) then Some(FormatNumber(s.previousNumber.value)) else s.previousDisplay
  {
  }

  /** The typed key ends the entry. What precedes it is the entry, or for a digit typed over a
      placeholder zero ("0", "-0", or no entry at all) a prefix of it. */
  lemma TypedExtends(e: Option<string>, k: Key)
    ensures var r := Typed(e, k);
            && |r| > 0 && r[|r| - 1] == k
            && r[..|r| - 1] <= EntryText(e)
            && (k == '.' || EntryText(e) !in {"0", "-0", "null"} ==> r[..|r| - 1] == EntryText(e))
  {
    var r := Typed(e, k);
    if k == '.' {
      assert r[..|r| - 1] == EntryText(e);
    } else if e == Some("0") || !TextTruthy(e) {
    } else if e == Some("-0") {
      assert r[..|r| - 1] == "-";
    } else {
      assert r[..|r| - 1] == e.value;
    }
  }

  /** `handleNumberClicks(k)` */
  function OnDigit(s: State, k: Key): (r: State)
    ensures DigitIgnored(s, k) ==> r == s
    ensures r.hasError == s.hasError && r.pastResults == s.pastResults
    ensures !DigitIgnored(s, k) ==> !r.isOperatorActive && !r.currentNumberIsResult
    ensures !DigitIgnored(s, k) && s.isOperatorActive ==> r.entry == Some([k])
    ensures !DigitIgnored(s, k) && s.isOperatorActive && s.currentOperator == Some(Equals)
            ==> r.previousNumber.None? && r.currentOperator.None? && r.previousDisplay == Some("")
    ensures !DigitIgnored(s, k) && !(s.isOperatorActive && s.currentOperator == Some(Equals))
            ==> r.previousNumber == s.previousNumber && r.currentOperator == s.currentOperator
    ensures !DigitIgnored(s, k) && !s.isOperatorActive ==> r.entry == Some(Typed(s.entry, k))
    ensures r.entry != s.entry ==> r.entry.Some? && CountedLength(r.entry.value) <= TooBigLength
  {
    if DigitIgnored(s, k) then s
    else
      var display := if NumberTruthy(s.previousNumber) then Some(FormatNumber(s.previousNumber.value)) else s.previousDisplay;
      if s.isOperatorActive then
        if s.currentOperator == Some(Equals) then
          s.(entry := Some([k]), isOperatorActive := false, currentNumberIsResult := false,
             previousDisplay := Some(""), previousNumber := None, currentOperator := None)
        else
          s.(entry := Some([k]), isOperatorActive := false, currentNumberIsResult := false,
             previousDisplay := display)
      else
        TypedLength(s.entry, k);
        s.(entry := Some(Typed(s.entry, k)), currentNumberIsResult := false, previousDisplay := display)
  }

  /** Typing into an entry with no operator active: the point is appended, a
      digit replaces a lone zero (keeping its sign) or an empty entry, and is
      appended otherwise; the operands are left alone. */
  lemma DigitTyped(s: State, k: Key)
    requires !DigitIgnored(s, k) && !s.isOperatorActive && s.entry.Some?
    ensures var t := s.entry.value;
            OnDigit(s, k).entry == Some(if k == '.' then t + "."
                                        else if t == "0" || t == "" then [k]
                                        else if t == "-0" then "-" + [k]
                                        else t + [k])
    ensures OnDigit(s, k).previousNumber == s.previousNumber && OnDigit(s, k).currentOperator == s.currentOperator
  {
  }

  lemma CountedLengthAppend(t: string, c: char)
    ensures CountedLength(t + [c]) <= CountedLength(t) + 1
  {
    assert '.' in t ==> '.' in t + [c] by {
      if '.' in t {
        var i :| 0 <= i < |t| && t[i] == '.';
        assert (t + [c])[i] == '.';
      }
    }
    assert '-' in t ==> '-' in t + [c] by {
      if '-' in t {
        var i :| 0 <= i < |t| && t[i] == '-';
        assert (t + [c])[i] == '-';
      }
    }
  }

  /** A typed key adds at most one counted character to an entry that is not yet full. */
  lemma TypedLength(e: Option<string>, k: Key)
    requires !NumberTooBig(e)
    ensures CountedLength(Typed(e, k)) <= TooBigLength
  {
    if k == '.' {
      CountedLengthAppend(EntryText(e), '.');
    } else if e == Some("0") || !TextTruthy(e) {
    } else if e == Some("-0") {
      assert '-' in "-" + [k];
    } else {
      CountedLengthAppend(e.value, k);
    }
  }

  lemma DigitKeepsConsistent(s: State, k: Key)
    requires Consistent(s)
    ensures Consistent(OnDigit(s, k))
  {
    if !DigitIgnored(s, k) && !s.isOperatorActive {
      var t := s.entry.value;
      if k == '.' {
        if t != "" {
          AppendDotWellFormed(t);
        }
      } else if t == "-0" {
      } else if t != "0" && t != "" {
        AppendDigitWellFormed(t, k);
      }
    }
  }

  // ---------------------------------------------------------------------------
  // handleOperators

  /** The expression line after a commit: the previous number, and for an
      arithmetic operator the operator and the entry. */
  function Expression(previous: Decimal, op: Op, entry: string): (r: string)
    ensures FormatNumber(previous) <= r
    ensures r == FormatNumber(previous) <==> op == Equals
    ensures op != Equals ==> r[|FormatNumber(previous)|..] == " " + Symbol(op) + " " + FormatText(entry)
  {
    var f := FormatNumber(previous);
    if op == Equals then f
    else
      var tail := " " + Symbol(op) + " " + FormatText(entry);
      Extended(f, tail);
      Regrouped(f, " ", Symbol(op), " ", FormatText(entry));
      f + " " + Symbol(op) + " " + FormatText(entry)
  }

  lemma Regrouped(a: string, b: string, c: string, d: string, e: string)
    ensures a + b + c + d + e == a + (b + c + d + e)
  {
  }

  lemma Extended(a: string, b: string)
    requires b != []
    ensures a <= a + b && a + b != a && (a + b)[|a|..] == b
  {
    assert |a + b| > |a|;
  }

  /** An operator press with a previous number, an entry and a pending operator. */
  predicate Commits(s: State)
  {
    s.previousNumber.Some? && s.entry.Some? && s.currentOperator.Some?
  }

  /** The guards of `handleOperators`: an error, or an entry with no digit. */
  predicate OperatorIgnored(s: State)
  {
    s.hasError || (s.entry.Some? && IsIncomplete(s.entry.value))
  }

  /** The outcome of the pending operation. */
  function Pending(s: State, pow: InexactPow): Evaluation
    requires Commits(s)
  {
    Evaluate(s.currentOperator.value, s.previousNumber.value, Parse(s.entry.value), pow)
  }

  /** The setters of `handleOperators` once the pending operation has given `outcome`. */
  function Settle(s: State, op: Op, outcome: Evaluation): State
    requires Commits(s)
  {
    var display := Expression(s.previousNumber.value, s.currentOperator.value, s.entry.value);
    var t := s.(isOperatorActive := true, previousDisplay := Some(display));
    match outcome
    case NotFiniteResult => t.(hasError := true, entry := Some(ErrorText))
    case TooLong => t.(hasError := true, entry := Some(TooLongText))
    case Ok(result) =>
      t.(entry := None, currentNumberIsResult := true,
         pastResults := History.Pushed(s.pastResults, result),
         previousNumber := Some(result), currentOperator := Some(op))
  }

  /** `handleOperators(op)`; `pow` is `Math.pow` for fractional exponents. */
  function OnOperator(s: State, op: Op, pow: InexactPow): (r: State)
    ensures OperatorIgnored(s) ==> r == s
    ensures !OperatorIgnored(s) ==> r.isOperatorActive
    ensures !OperatorIgnored(s) && Commits(s) && !Pending(s, pow).Ok? ==>
              && r.hasError
              && r.entry == Some(if Pending(s, pow).TooLong? then TooLongText else ErrorText)
              && r.pastResults == s.pastResults
              && r.currentOperator == s.currentOperator
    ensures !OperatorIgnored(s) && Commits(s) && Pending(s, pow).Ok? ==>
              && r.entry.None? && r.currentNumberIsResult && !r.hasError
              && r.previousNumber == Some(Pending(s, pow).result)
              && r.pastResults == History.Pushed(s.pastResults, Pending(s, pow).result)
              && r.currentOperator == Some(op)
    ensures !OperatorIgnored(s) && !Commits(s) ==>
              && r.currentOperator == Some(op) && r.pastResults == s.pastResults && !r.hasError
              && (TextTruthy(s.entry) ==> r.entry.None? && r.previousNumber == Parse(s.entry.value))
  {
    if OperatorIgnored(s) then s
    else if Commits(s) then Settle(s, op, Pending(s, pow))
    else if TextTruthy(s.entry) then
      s.(isOperatorActive := true, currentOperator := Some(op),
         previousNumber := Parse(s.entry.value), entry := None)
    else
      s.(isOperatorActive := true, currentOperator := Some(op))
  }

  /** A successful commit, field by field: the expression line shows the
      calculation, the result becomes the previous number and joins the
      history, and the pressed operator is pending. */
  lemma OperatorCommits(s: State, op: Op, pow: InexactPow)
    requires !OperatorIgnored(s) && Commits(s) && Pending(s, pow).Ok?
    ensures OnOperator(s, op, pow)
            == s.(isOperatorActive := true,
                  previousDisplay := Some(Expression(s.previousNumber.value, s.currentOperator.value, s.entry.value)),
                  entry := None, currentNumberIsResult := true,
                  pastResults := History.Pushed(s.pastResults, Pending(s, pow).result),
                  previousNumber := Some(Pending(s, pow).result), currentOperator := Some(op))
  {
  }

  /** An operator press with nothing to commit, field by field. */
  lemma OperatorSettles(s: State, op: Op, pow: InexactPow)
    requires !OperatorIgnored(s) && !Commits(s)
    ensures TextTruthy(s.entry) ==>
              OnOperator(s, op, pow)
              == s.(isOperatorActive := true, currentOperator := Some(op),
                    previousNumber := Parse(s.entry.value), entry := None)
    ensures !TextTruthy(s.entry) ==>
              OnOperator(s, op, pow) == s.(isOperatorActive := true, currentOperator := Some(op))
  {
  }

  /** A failed commit, field by field: the failed expression stays on the
      expression line above the error text, and the previous number, the
      operator and the history are kept. */
  lemma OperatorFails(s: State, op: Op, pow: InexactPow)
    requires !OperatorIgnored(s) && Commits(s) && !Pending(s, pow).Ok?
    ensures OnOperator(s, op, pow)
            == s.(isOperatorActive := true,
                  previousDisplay := Some(Expression(s.previousNumber.value, s.currentOperator.value, s.entry.value)),
                  hasError := true, entry := Some(if Pending(s, pow).TooLong? then TooLongText else ErrorText))
  {
  }

  lemma OperatorKeepsConsistent(s: State, op: Op, pow: InexactPow)
    requires Consistent(s)
    ensures Consistent(OnOperator(s, op, pow))
  {
  }

  /** In a consistent state the entry an operator reads is always a number. */
  lemma EntryReadsAsNumber(s: State)
    requires Consistent(s) && !OperatorIgnored(s) && s.entry.Some?
    ensures Parse(s.entry.value).Some?
  {
    WellFormedParses(s.entry.value);
  }

  // ---------------------------------------------------------------------------
  // removeLastEntry

  /** `removeLastEntry`. With no entry the source throws, and nothing changes. */
  function OnBackspace(s: State): (r: State)
    ensures s.currentNumberIsResult || s.isOperatorActive || s.hasError || s.entry.None? ==> r == s
    ensures r.pastResults == s.pastResults && r.hasError == s.hasError
    ensures r.entry != s.entry ==>
              s.entry.Some? && r.entry.Some? && (r.entry.value == "0" || (r.entry.value < s.entry.value && |r.entry.value| + 1 == |s.entry.value|))
    ensures !(s.currentNumberIsResult || s.isOperatorActive || s.hasError) && s.entry.Some? ==>
              var t := s.entry.value;
              r == s.(entry := Some(if |t| <= 1 then "0" else t[..|t| - 1]))
  {
    if s.currentNumberIsResult || s.isOperatorActive || s.hasError || s.entry.None? then s
    else
      var t := s.entry.value;
      if |t| <= 1 then s.(entry := Some("0"))
      else s.(entry := Some(t[..|t| - 1]))
  }

  lemma BackspaceKeepsConsistent(s: State)
    requires Consistent(s)
    ensures Consistent(OnBackspace(s))
  {
    if !(s.currentNumberIsResult || s.isOperatorActive || s.hasError || s.entry.None?) {
      var t := s.entry.value;
      if |t| > 1 {
        PrefixWellFormed(t, |t| - 1);
      }
    }
  }

  // ---------------------------------------------------------------------------
  // handleNegativeToggle

  /** `${-1 * previousNumber}`: null counts as zero. */
  function NegatedText(p: Option<Decimal>): string
  {
    match p
    case None => ToString(Zero)
    case Some(d) => ToString(Negate(d))
  }

  /** `handleNegativeToggle`. With no entry the source throws, and nothing changes. */
  function OnNegate(s: State): (r: State)
    ensures s.hasError ==> r == s
    ensures r.pastResults == s.pastResults && r.hasError == s.hasError
    ensures !s.hasError && !s.currentNumberIsResult && !s.isOperatorActive && s.entry.Some? ==>
              r.entry.Some? && (r.entry.value == "-" + s.entry.value || s.entry.value == "-" + r.entry.value)
    ensures !s.hasError && (s.currentNumberIsResult || s.isOperatorActive) && s.currentOperator != Some(Equals) ==>
              r.previousNumber.Some? && ValueOf(r.previousNumber.value) == -ValueOf(if s.previousNumber.Some? then s.previousNumber.value else Zero)
  {
    if s.hasError then s
    else if s.currentNumberIsResult || s.isOperatorActive then
      var t := s.(currentNumberIsResult := false, previousDisplay := Some(""));
      if s.currentOperator == Some(Equals) then
        t.(isOperatorActive := false, currentOperator := None,
           entry := Some(NegatedText(s.previousNumber)), previousNumber := None)
      else
        var p := if s.previousNumber.Some? then s.previousNumber.value else Zero;
        NegateValue(p);
        t.(previousNumber := Some(Negate(p)))
    else if s.entry.None? then s
    else
      var e := s.entry.value;
      if |e| > 0 && e[0] == '-' then
        assert e == "-" + e[1..];
        s.(entry := Some(e[1..]))
      else
        s.(entry := Some("-" + e))
  }

  /** The sign toggle when no `=` is pending, field by field: a typed entry
      gains or loses its '-' and nothing else changes; after a result or with
      an operator active, the previous number is negated, the result flag is
      cleared and the expression line is emptied. */
  lemma NegateSettles(s: State)
    requires !s.hasError
    ensures !s.currentNumberIsResult && !s.isOperatorActive && s.entry.Some? ==>
              var e := s.entry.value;
              OnNegate(s) == s.(entry := Some(if |e| > 0 && e[0] == '-' then e[1..] else "-" + e))
    ensures (s.currentNumberIsResult || s.isOperatorActive) && s.currentOperator != Some(Equals) ==>
              var p := if s.previousNumber.Some? then s.previousNumber.value else Zero;
              OnNegate(s) == s.(currentNumberIsResult := false, previousDisplay := Some(""), previousNumber := Some(Negate(p)))
  {
  }

  /** The sign toggle right after `=`: the entry reads as the negated result
      (zero when there is none) and the calculation is closed. */
  lemma NegateAfterEquals(s: State)
    requires !s.hasError && (s.currentNumberIsResult || s.isOperatorActive) && s.currentOperator == Some(Equals)
    ensures var r := OnNegate(s);
            var p := if s.previousNumber.Some? then s.previousNumber.value else Zero;
            && r.entry.Some? && Parse(r.entry.value) == Some(Negate(p))
            && r.previousNumber.None? && r.currentOperator.None?
            && !r.isOperatorActive && !r.currentNumberIsResult && r.previousDisplay == Some("")
  {
    assert OnNegate(s).entry == Some(NegatedText(s.previousNumber));
    NegatedTextParses(s.previousNumber);
  }

  lemma NegatedTextParses(p: Option<Decimal>)
    ensures Parse(NegatedText(p)) == Some(Negate(if p.Some? then p.value else Zero))
  {
    if p.Some? {
      ParseToString(Negate(p.value));
    } else {
      ParseToString(Zero);
      assert Negate(Zero) == Zero;
    }
  }

  /** Toggling the sign of a typed entry twice gives the entry back. */
  lemma NegateTwice(s: State)
    requires !s.hasError && !s.currentNumberIsResult && !s.isOperatorActive && s.entry.Some?
    requires WellFormedEntry(s.entry.value)
    ensures OnNegate(OnNegate(s)) == s
  {
    var e := s.entry.value;
    if |e| > 0 && e[0] == '-' {
      assert e == "-" + e[1..];
    } else {
      assert ("-" + e)[1..] == e;
    }
  }

  lemma NegateKeepsConsistent(s: State)
    requires Consistent(s)
    ensures Consistent(OnNegate(s))
  {
    if !s.hasError {
      if s.currentNumberIsResult || s.isOperatorActive {
        if s.currentOperator == Some(Equals) {
          ToStringWellFormed(if s.previousNumber.Some? then Negate(s.previousNumber.value) else Zero);
        }
      } else if s.entry.Some? {
        ToggleSignWellFormed(s.entry.value);
      }
    }
  }

  // ---------------------------------------------------------------------------
  // reset

  /** `reset`: the entry back to "0", the operands and the error cleared. The
      operator flag and the past results are left as they are. */
  function OnReset(s: State): (r: State)
    ensures r.entry == Some("0") && r.previousNumber.None? && r.currentOperator.None?
    ensures !r.hasError && !r.currentNumberIsResult && r.previousDisplay.None?
    ensures r.pastResults == s.pastResults && r.isOperatorActive == s.isOperatorActive
  {
    s.(entry := Some("0"), currentNumberIsResult := false, previousNumber := None,
       currentOperator := None, previousDisplay := None, hasError := false)
  }

  lemma ResetKeepsConsistent(s: State)
    requires Consistent(s)
    ensures Consistent(OnReset(s))
  {
  }

  // ---------------------------------------------------------------------------
  // handleUsePastResult

  /** Past results and pasted text: at most 14 characters unless the caller lifts the limit. */
  const MaxPastedLength := 14

  /** Why `handleUsePastResult` refuses a text, once its commas are removed. */
  predicate PastRejected(value: string, noLimit: bool)
  {
    Parse(RemoveCommas(value)).None? || (|RemoveCommas(value)| > MaxPastedLength && !noLimit)
  }

  /** The first setters of `handleUsePastResult`: `reset()` after an error, or
      the previous number copied to the expression line. */
  function LeaveError(s: State): (r: State)
    ensures !r.hasError && r.pastResults == s.pastResults && r.isOperatorActive == s.isOperatorActive
    ensures s.hasError ==> r == OnReset(s)
    ensures !s.hasError ==>
              r == s.(previousDisplay := if NumberTruthy(s.previousNumber) then Some(FormatNumber(s.previousNumber.value)) else s.previousDisplay)
  {
    if s.hasError then OnReset(s)
    else if NumberTruthy(s.previousNumber) then s.(previousDisplay := Some(FormatNumber(s.previousNumber.value)))
    else s
  }

  /** The remaining setters of `handleUsePastResult`, applied to u, given the
      operator flag and the operator from before the event. */
  function Accept(u: State, active: bool, operator: Option<Op>, v: string): (r: State)
    ensures r.entry == Some(v) && !r.currentNumberIsResult
    ensures r.isOperatorActive == (u.isOperatorActive && !active)
    ensures r.hasError == u.hasError && r.pastResults == u.pastResults
    ensures active && operator == Some(Equals) ==>
              r.previousNumber.None? && r.currentOperator.None? && r.previousDisplay == Some("")
    ensures !(active && operator == Some(Equals)) ==>
              r.previousNumber == u.previousNumber && r.currentOperator == u.currentOperator && r.previousDisplay == u.previousDisplay
  {
    var w := u.(currentNumberIsResult := false);
    var x := if !active then w
             else if operator == Some(Equals) then
               w.(isOperatorActive := false, previousDisplay := Some(""), previousNumber := None, currentOperator := None)
             else w.(isOperatorActive := false);
    x.(entry := Some(v))
  }

  /** The state once `handleUsePastResult` has accepted the text v. */
  function TakePastResult(s: State, v: string): (r: State)
    ensures r.entry == Some(v) && !r.hasError && !r.currentNumberIsResult
    ensures !r.isOperatorActive && r.pastResults == s.pastResults
    ensures s.hasError ==> r.previousNumber.None? && r.currentOperator.None?
    ensures s.isOperatorActive && s.currentOperator == Some(Equals) ==>
              r.previousNumber.None? && r.currentOperator.None? && r.previousDisplay == Some("")
    ensures !s.hasError && !(s.isOperatorActive && s.currentOperator == Some(Equals)) ==>
              r.previousNumber == s.previousNumber && r.currentOperator == s.currentOperator
    ensures !(s.isOperatorActive && s.currentOperator == Some(Equals)) ==>
              r.previousDisplay == if s.hasError then None
                                   else if NumberTruthy(s.previousNumber) then Some(FormatNumber(s.previousNumber.value))
                                   else s.previousDisplay
  {
    Accept(LeaveError(s), s.isOperatorActive, s.currentOperator, v)
  }

  /** `handleUsePastResult(value, noLimit)`: whether the text was taken, and the new state. */
  function OnUsePastResult(s: State, value: string, noLimit: bool): (r: (bool, State))
    ensures r.0 <==> !PastRejected(value, noLimit)
    ensures !r.0 ==> r.1 == s
    ensures r.0 ==> r.1.entry == Some(RemoveCommas(value)) && !r.1.hasError && !r.1.currentNumberIsResult
    ensures r.0 ==> !r.1.isOperatorActive && r.1.pastResults == s.pastResults
    ensures r.0 && s.hasError ==> r.1.previousNumber.None? && r.1.currentOperator.None?
    ensures r.0 && s.isOperatorActive && s.currentOperator == Some(Equals) ==>
              r.1.previousNumber.None? && r.1.currentOperator.None? && r.1.previousDisplay == Some("")
    ensures r.0 && !s.hasError && !(s.isOperatorActive && s.currentOperator == Some(Equals)) ==>
              r.1.previousNumber == s.previousNumber && r.1.currentOperator == s.currentOperator
    ensures r.0 && !(s.isOperatorActive && s.currentOperator == Some(Equals)) ==>
              r.1.previousDisplay == if s.hasError then None
                                     else if NumberTruthy(s.previousNumber) then Some(FormatNumber(s.previousNumber.value))
                                     else s.previousDisplay
  {
    if PastRejected(value, noLimit) then (false, s) else (true, TakePastResult(s, RemoveCommas(value)))
  }

  lemma UsePastResultKeepsConsistent(s: State, value: string, noLimit: bool)
    requires Consistent(s)
    ensures Consistent(OnUsePastResult(s, value, noLimit).1)
  {
    var v := RemoveCommas(value);
    if !PastRejected(value, noLimit) {
      ParsedIsWellFormed(v);
    }
  }

  // ---------------------------------------------------------------------------
  // Runs of events

  datatype Event =
    | Digit(key: Key)
    | Operator(op: Op)
    | Backspace
    | ToggleSign
    | Clear
    | UsePastResult(text: string, noLimit: bool)

  function Step(s: State, e: Event, pow: InexactPow): State
  {
    match e
    case Digit(k) => OnDigit(s, k)
    case Operator(op) => OnOperator(s, op, pow)
    case Backspace => OnBackspace(s)
    case ToggleSign => OnNegate(s)
    case Clear => OnReset(s)
    case UsePastResult(text, noLimit) => OnUsePastResult(s, text, noLimit).1
  }

  function Run(s: State, events: seq<Event>, pow: InexactPow): State
    decreases |events|
  {
    if events == [] then s else Run(Step(s, events[0], pow), events[1..], pow)
  }

  lemma StepKeepsConsistent(s: State, e: Event, pow: InexactPow)
    requires Consistent(s)
    ensures Consistent(Step(s, e, pow))
  {
    match e
    case Digit(k) => DigitKeepsConsistent(s, k);
    case Operator(op) => OperatorKeepsConsistent(s, op, pow);
    case Backspace => BackspaceKeepsConsistent(s);
    case ToggleSign => NegateKeepsConsistent(s);
    case Clear => ResetKeepsConsistent(s);
    case UsePastResult(text, noLimit) => UsePastResultKeepsConsistent(s, text, noLimit);
  }

  /** Every state reachable from a consistent one is consistent: at most twenty
      past results, at most one point in the entry, and an error shown while the
      error flag is set. */
  lemma {:induction false} RunKeepsConsistent(s: State, events: seq<Event>, pow: InexactPow)
    requires Consistent(s)
    ensures Consistent(Run(s, events, pow))
    decreases |events|
  {
    if events != [] {
      StepKeepsConsistent(s, events[0], pow);
      RunKeepsConsistent(Step(s, events[0], pow), events[1..], pow);
    }
  }

  /** Once in error, only Clear or a past result gets out: every other event changes nothing. */
  lemma {:induction false} ErrorIsSticky(s: State, events: seq<Event>, pow: InexactPow)
    requires s.hasError
    requires forall i :: 0 <= i < |events| ==> !events[i].Clear? && !events[i].UsePastResult?
    ensures Run(s, events, pow) == s
    decreases |events|
  {
    if events != [] {
      assert Step(s, events[0], pow) == s;
      ErrorIsSticky(s, events[1..], pow);
    }
  }

  /** The past results change only by a successful commit, which adds the new
      previous number at the front. */
  lemma StepHistory(s: State, e: Event, pow: InexactPow)
    ensures var r := Step(s, e, pow);
            r.pastResults == s.pastResults
            || (r.previousNumber.Some? && r.pastResults == History.Pushed(s.pastResults, r.previousNumber.value)
                && r.currentNumberIsResult && r.entry.None?)
  {
  }

  /** Typing alone never makes an entry longer than 13 counted characters. */
  lemma {:induction false} TypingStaysShort(s: State, keys: seq<Key>, pow: InexactPow)
    requires s.entry.Some? ==> CountedLength(s.entry.value) <= TooBigLength
    ensures var r := Run(s, seq(|keys|, i requires 0 <= i < |keys| => Digit(keys[i])), pow);
            r.entry.Some? ==> CountedLength(r.entry.value) <= TooBigLength
    decreases |keys|
  {
    var events := seq(|keys|, i requires 0 <= i < |keys| => Digit(keys[i]));
    if keys != [] {
      var next := OnDigit(s, keys[0]);
      assert Step(s, events[0], pow) == next;
      assert events[1..] == seq(|keys[1..]|, i requires 0 <= i < |keys[1..]| => Digit(keys[1..][i]));
      TypingStaysShort(next, keys[1..], pow);
    }
  }

  // ---------------------------------------------------------------------------
  // The main display line

  /** `formatCurrentNumberDisplayed(currentNumberString)` */
  function MainLine(s: State): Option<string>
  {
    FormatCurrentNumberDisplayed(s.entry, s.previousNumber)
  }

  /** After a successful commit the main line shows the result. */
  lemma CommitShowsResult(s: State, op: Op, pow: InexactPow)
    requires !OperatorIgnored(s) && Commits(s) && Pending(s, pow).Ok?
    ensures MainLine(OnOperator(s, op, pow)) == Some(FormatNumber(Pending(s, pow).result))
  {
  }

  /** In error the main line shows the error text as it is. */
  lemma ErrorShownAsIs(s: State)
    requires Consistent(s) && s.hasError
    ensures MainLine(s) == s.entry
  {
    LetterFirstNotNumber(s.entry.value);
  }
}
