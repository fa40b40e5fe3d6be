/** The calculator component: its state fields, updated in place by one
    method per event handler. Each method is proved to produce the state the
    matching transition of `Machine` describes. */
module Calculator {
  import opened Numbers
  import opened Entry
  import opened Format
  import opened Arithmetic
  import History
  import opened Machine

  class Calculator {
    var currentNumberString: Option<string>
    var previousNumber: Option<Decimal>
    var previousDisplay: Option<string>
    var currentOperator: Option<Op>
    var isOperatorActive: bool
    var currentNumberIsResult: bool
    var hasError: bool
    var pastResults: seq<Decimal>

    /** The fields as a state record. */
    function Snapshot(): State
      reads this
    {
      State(currentNumberString, previousNumber, previousDisplay, currentOperator,
            isOperatorActive, currentNumberIsResult, hasError, pastResults)
    }

    predicate Valid()
      reads this
    {
      Consistent(Snapshot())
    }

    /** The initial `useState` values; the past results start empty. */
    constructor()
      ensures Snapshot() == Initial && Valid()
    {
      currentNumberString := Some("0");
      previousNumber := None;
      previousDisplay := Some("");
      currentOperator := None;
      isOperatorActive := false;
      currentNumberIsResult := false;
      hasError := false;
      pastResults := [];
    }

    /** `formatCurrentNumberDisplayed(currentNumberString)`: the main display line. */
    function CurrentNumberDisplayed(): (r: Option<string>)
      reads this
      ensures r.None? <==> currentNumberString.None? && previousNumber.None?
    {
      FormatCurrentNumberDisplayed(currentNumberString, previousNumber)
    }

    method HandleNumberClicks(number: Key)
      modifies this
      ensures Snapshot() == OnDigit(old(Snapshot()), number)
      ensures old(Valid()) ==> Valid()
    {
      if Valid() {
        DigitKeepsConsistent(Snapshot(), number);
      }
      ghost var before := Snapshot();
      var current := currentNumberString;
      var previous := previousNumber;
      var operator := currentOperator;
      var active := isOperatorActive;
      if hasError {
        return;
      }
      if NumberTooBig(current) && !active {
        return;
      }
      if TextTruthy(current) && '.' in current.value && number == '.' {
        return;
      }
      assert !DigitIgnored(before, number);
      if NumberTruthy(previous) {
        previousDisplay := Some(FormatNumber(previous.value));
      }
      currentNumberIsResult := false;
      if active {
        isOperatorActive := false;
        currentNumberString := Some([number]);
        if operator == Some(Equals) {
          previousDisplay := Some("");
          previousNumber := None;
          currentOperator := None;
        }
      } else {
        var typed;
        if number == '.' {
          typed := EntryText(current) + ".";
        } else if current == Some("0") || !TextTruthy(current) {
          typed := [number];
        } else if current == Some("-0") {
          typed := "-" + [number];
        } else {
          typed := current.value + [number];
        }
        assert typed == Typed(current, number);
        currentNumberString := Some(typed);
      }
    }

    method HandleOperators(operator: Op, pow: InexactPow)
      modifies this
      ensures Snapshot() == OnOperator(old(Snapshot()), operator, pow)
      ensures old(Valid()) ==> Valid()
    {
      if Valid() {
        OperatorKeepsConsistent(Snapshot(), operator, pow);
      }
      ghost var before := Snapshot();
      var current := currentNumberString;
      if hasError {
        return;
      }
      if current.Some? && IsIncomplete(current.value) {
        return;
      }
      if previousNumber.Some? && current.Some? && currentOperator.Some? {
        var result := Evaluate(currentOperator.value, previousNumber.value, Parse(current.value), pow);
        Calculate(operator, result);
        return;
      }
      // no calculation: the entry, if any, becomes the previous number
      OperatorSettles(before, operator, pow);
      isOperatorActive := true;
      currentOperator := Some(operator);
      if TextTruthy(current) {
        previousNumber := Parse(current.value);
        currentNumberString := None;
      }
    }

    /** The calculation branch of `handleOperators`: the pending operation is
        evaluated, the expression line is set, and the result is committed or
        the error is shown. */
    method Calculate(operator: Op, result: Evaluation)
      requires Commits(Snapshot())
      modifies this
      ensures Snapshot() == Settle(old(Snapshot()), operator, result)
    {
      var current := currentNumberString.value;
      var previous := previousNumber.value;
      var pending := currentOperator.value;
      isOperatorActive := true;
      previousDisplay := Some(Expression(previous, pending, current));
      match result {
        case NotFiniteResult =>
          hasError := true;
          currentNumberString := Some(ErrorText);
        case TooLong =>
          hasError := true;
          currentNumberString := Some(TooLongText);
        case Ok(r) =>
          currentNumberString := None;
          currentNumberIsResult := true;
          pastResults := History.AddToPastResults(pastResults, r);
          previousNumber := Some(r);
          currentOperator := Some(operator);
      }
    }

    method RemoveLastEntry()
      modifies this
      ensures Snapshot() == OnBackspace(old(Snapshot()))
      ensures old(Valid()) ==> Valid()
    {
      if Valid() {
        BackspaceKeepsConsistent(Snapshot());
      }
      if currentNumberIsResult || isOperatorActive || hasError {
        return;
      }
      if currentNumberString.None? {
        return;
      }
      var current := currentNumberString.value;
      var currentLength := |current|;
      if currentLength <= 1 {
        currentNumberString := Some("0");
        return;
      }
      currentNumberString := Some(current[..currentLength - 1]);
    }

    method HandleNegativeToggle()
      modifies this
      ensures Snapshot() == OnNegate(old(Snapshot()))
      ensures old(Valid()) ==> Valid()
    {
      if Valid() {
        NegateKeepsConsistent(Snapshot());
      }
      var previous := previousNumber;
      if hasError {
        return;
      }
      if currentNumberIsResult || isOperatorActive {
        currentNumberIsResult := false;
        previousDisplay := Some("");
        var base := if previous.Some? then previous.value else Zero;
        if currentOperator == Some(Equals) {
          isOperatorActive := false;
          currentOperator := None;
          currentNumberString := Some(NegatedText(previous));
          previousNumber := None;
          return;
        }
        previousNumber := Some(Negate(base));
        return;
      }
      if currentNumberString.None? {
        return;
      }
      var current := currentNumberString.value;
      if |current| > 0 && current[0] == '-' {
        currentNumberString := Some(current[1..]);
      } else {
        currentNumberString := Some("-" + current);
      }
    }

    method Reset()
      modifies this
      ensures Snapshot() == OnReset(old(Snapshot()))
      ensures old(Valid()) ==> Valid()
    {
      currentNumberString := Some("0");
      currentNumberIsResult := false;
      previousNumber := None;
      currentOperator := None;
      previousDisplay := None;
      hasError := false;
    }

    method HandleUsePastResult(pastResult: string, noLimit: bool) returns (accepted: bool)
      modifies this
      ensures (accepted, Snapshot()) == OnUsePastResult(old(Snapshot()), pastResult, noLimit)
      ensures old(Valid()) ==> Valid()
    {
      if Valid() {
        UsePastResultKeepsConsistent(Snapshot(), pastResult, noLimit);
      }
      var resultToUse := RemoveCommas(pastResult);
      if Parse(resultToUse).None? {
        return false;
      }
      if |resultToUse| > MaxPastedLength && !noLimit {
        return false;
      }
      UseAccepted(resultToUse);
      return true;
    }

    /** The setters `handleUsePastResult` runs once it has accepted the text. */
    method UseAccepted(resultToUse: string)
      modifies this
      ensures Snapshot() == TakePastResult(old(Snapshot()), resultToUse)
    {
      ghost var before := Snapshot();
      var previous := previousNumber;
      var operator := currentOperator;
      var active := isOperatorActive;
      if hasError {
        Reset();
      } else if NumberTruthy(previous) {
        previousDisplay := Some(FormatNumber(previous.value));
      }
      assert Snapshot() == LeaveError(before);
      currentNumberIsResult := false;
      if active {
        isOperatorActive := false;
        if operator == Some(Equals) {
          previousDisplay := Some("");
          previousNumber := None;
          currentOperator := None;
        }
      }
      currentNumberString := Some(resultToUse);
    }

    /** A tap on the i-th past result: its text, with no length limit. */
    method UsePastResultAt(i: nat) returns (accepted: bool)
      requires i < |pastResults|
      modifies this
      ensures (accepted, Snapshot()) == OnUsePastResult(old(Snapshot()), ToString(old(pastResults)[i]), true)
      ensures accepted
    {
      var text := ToString(pastResults[i]);
      ParseToString(pastResults[i]);
      RemoveCommasNoComma(text) by {
        ToStringShape(pastResults[i]);
      }
      accepted := HandleUsePastResult(text, true);
    }
  }
}
