# calculator-native: the calculator engine in Dafny

This project models the engine of the `Calculator` React Native component in
`Calculator.js`. The component has three parts:

- **State machine.** Six event handlers update one state record:
  - `handleNumberClicks`
  - `handleOperators`
  - `removeLastEntry`
  - `handleNegativeToggle`
  - `reset`
  - `handleUsePastResult`
- **Display formatter.** `addCommasToNumber`, `formatForDisplay` and `formatCurrentNumberDisplayed` produce the two display lines.
- **History.** `addToPastResults` keeps at most twenty past results, newest first.

Modules:

- `Numbers`: numbers as exact decimals `mant / 10^scale`, and the two conversions the component uses.
  - `Parse` stands for `Number(text)`. None stands for NaN, and the empty text reads as 0.
  - `ToString` stands for `number.toString()`.
  - Reading a number's text back gives the number.
- `Entry`: the texts the keypad can build, and `numberTooBig`.
- `Format`: thousands grouping and `formatForDisplay`. The grouping is given twice:
  - as written, which groups a leading '-' as if it were a digit;
  - corrected, which the display uses (see Findings).
- `Arithmetic`: the `switch` of `handleOperators`.
  - Each result is computed exactly, as a real number.
  - It is refused as not finite, or as too long (beyond ±999999999999999).
  - Otherwise it is rounded to 12 fraction digits, half away from zero, as `toFixed(12)` does.
- `History`: `addToPastResults`, with a lemma that the list always holds the newest twenty results.
- `Machine`: the state record and one transition function per handler.
  - Every handler reads the state as it was when the event arrived.
  - `Consistent` is the invariant every reachable state satisfies. It is kept by every transition and by any run of events.
- `Calculator`: the component as a class. Its fields are the state, and each handler is an imperative method. Each method is proved to produce exactly the state the matching `Machine` transition gives.

## Model

| member | source | states |
|---|---|---|
| Numbers.Parse | Calculator.js:103 | `Number(text)`: the empty text reads as 0; a text read as a number has a digit, and the number has no more fraction digits than the text |
| Numbers.ToString | Calculator.js:331 | `${n}`: a non-empty text that starts with '-' exactly when the number is negative |
| Numbers.ParseToString | Calculator.js:102-103 | `Number(n.toString())` is n: a past result's text reads back as the same number |
| Entry.NumberTooBig | Calculator.js:353-360 | an entry that is too big has at least 13 characters, and one with 15 or more always is, as at most a '.' and a '-' go uncounted |
| Entry.WellFormedParses | Calculator.js:218-226 | every keypad text except "-", "." and "-." is a number, so the entry an operator reads is never NaN |
| Entry.ParsedIsWellFormed | Calculator.js:102-104 | every text accepted as a number has digits, at most one point and at most a leading '-' |
| Format.RemoveCommas | Calculator.js:102 | `replace(/,/g, "")`: no comma is left and nothing is added |
| Format.GroupRoundTrip | Calculator.js:205-208 | deleting the commas from a grouping gives back the characters grouped |
| Format.GroupLastThree | Calculator.js:205-208 | the grouping ends in ',' and the last three characters: every group after the first has three |
| Format.AddCommasToNumber | Calculator.js:201-212 | the descending loop over `nonDecimals` and the join produce the grouping of the integer part followed by the decimal part |
| Format.AddCommasRoundTrip | Calculator.js:201-212 | as written, deleting the commas gives the input back when it has at most one point and does not end in one |
| Format.SignGroupedAsDigit | Calculator.js:201-212 | as written, "-123" becomes "-,123" and "-123456" becomes "-,123,456" |
| Format.SignedGroupRoundTrip | Calculator.js:201-212 | corrected grouping of the integer part, sign included: deleting the commas gives it back |
| Format.SignedAgreesUnsigned | Calculator.js:201-212 | on a text without a leading '-' the corrected grouping is the grouping as written |
| Format.AddCommasSignedRoundTrip | Calculator.js:201-212 | corrected grouping: deleting the commas gives the input back |
| Format.AddCommasSignedKeepsFraction | Calculator.js:202-203 | the point and everything after it are copied unchanged |
| Format.AddCommasSignedNegates | Calculator.js:201-212 | corrected grouping: a negative integer is shown as '-' before the grouping of its digits |
| Format.FormatText | Calculator.js:48-49 | a text that is not a number is returned unchanged |
| Format.IncompleteShownAsIs | Calculator.js:48-49 | "-", "." and "-." are not numbers and are shown as typed |
| Format.LetterFirstNotNumber | Calculator.js:48-49 | a text starting with a capital letter, such as "ERROR, CLEAR", is not a number |
| Format.ZeroBranchAgrees | Calculator.js:60-64 | the trailing-zeros branch gives the same text as the general branch |
| Format.FormatTextGroups | Calculator.js:59-64 | for a number not ending in '.', the display is the grouping of its text |
| Format.FormatKeepsTrailingDot | Calculator.js:53-55 | a number typed with a trailing '.' is shown with the '.', and the display reads as the same number |
| Format.FormatKeepsFraction | Calculator.js:59-63 | trailing zeros and every other fraction digit are shown as typed |
| Format.FormatOnlyInsertsCommas | Calculator.js:48-65 | for a number not ending in '.', deleting the commas from the display gives the text back |
| Format.FormatTextIdempotent | Calculator.js:48-65 | formatting a display a second time changes nothing |
| Format.FormatNumberReadsBack | Calculator.js:48-65 | a number is shown as its grouped text, which reads back as the number |
| Format.NegativeZeroPointShown | Calculator.js:53-55 | "-0." is shown as "0.": the text before the trailing point is shown as the number it reads as, so the sign of a negative zero is lost while typing |
| Format.FormatForDisplay | Calculator.js:48-51 | null comes back as null, and nothing else does |
| Format.FormatCurrentNumberDisplayed | Calculator.js:68-76 | a null entry shows the previous number, any other entry shows itself formatted, and the result is null only when both are null |
| Arithmetic.NegateValue | Calculator.js:335 | `previousNumber * -1` is the negated value |
| Arithmetic.Exact | Calculator.js:229-263 | the exact result is missing (Infinity or NaN) exactly for division by zero, zero to a negative power, a negative base to a fractional power, or an operand that is NaN |
| Arithmetic.RoundHalfAway | Calculator.js:289 | the nearest integer, within one half |
| Arithmetic.Round12 | Calculator.js:285-290 | the result has at most 12 fraction digits and lies within half a unit of the 12th digit of the exact value |
| Arithmetic.Round12Exact | Calculator.js:285-290 | a value with at most 12 fraction digits is not changed by the rounding |
| Arithmetic.Evaluate | Calculator.js:275-291 | not finite exactly when the exact result is missing; too long exactly when the exact result is beyond ±999999999999999; otherwise the exact result rounded to 12 fraction digits, which is within half a unit of the 12th digit of it |
| Arithmetic.EvaluateRounds | Calculator.js:275-291 | a finite in-range exact result is accepted, rounded to 12 fraction digits |
| Arithmetic.Round12InRange | Calculator.js:280-290 | rounding an in-range value never takes it out of range |
| Arithmetic.EvaluateInRange | Calculator.js:280-291 | every accepted result is within ±999999999999999 |
| Arithmetic.EqualsGivesLeft | Calculator.js:256-259 | `=` gives the previous number back whatever the entry is |
| Arithmetic.Sum | Calculator.js:237-240 | the decimal sum has the value of the real sum and no more fraction digits than its operands |
| Arithmetic.AdditionExact | Calculator.js:237-240 | adding numbers with at most 12 fraction digits is exact, with no rounding |
| Arithmetic.DivideByZero | Calculator.js:249-252 | dividing by zero is a non-finite fault |
| History.Pushed | Calculator.js:79-84 | the new result comes first, the old list follows, at most twenty entries are kept, and the oldest is dropped when full |
| History.AddToPastResults | Calculator.js:79-84 | copying, `pop` when full, then `unshift` give the pushed list |
| History.Take | Calculator.js:79-84 | the first n entries of a list |
| History.Reverse | Calculator.js:79-84 | the list in reverse order |
| History.PushAllKeepsNewest | Calculator.js:79-84 | after any run of results the list holds the newest twenty of them, newest first |
| Machine.InitialConsistent | Calculator.js:20-27 | the initial state satisfies the invariant |
| Machine.OnDigit | Calculator.js:155-184 | ignored in error, with a full entry still being typed, or on a second point; otherwise no operator is active and there is no result; with an operator active the entry becomes the key, and after `=` the previous number and the operator are cleared; with no operator active the entry becomes `Typed` of it; the previous number and the operator are kept unless `=` was active; a changed entry has at most 13 counted characters; the history is untouched. The expression line is stated by `Machine.DigitDisplay` |
| Machine.DigitDisplay | Calculator.js:166 | a press that is not ignored, unless it follows an active `=`, copies a non-zero previous number's display to the expression line and otherwise leaves the line as it was |
| Machine.DigitTyped | Calculator.js:175-184 | with no operator active: the point is appended; a digit replaces "0" or an empty entry, turns "-0" into '-' and the digit, and is appended otherwise; the previous number and the operator are kept |
| Machine.TypedExtends | Calculator.js:175-184 | the typed key ends the entry; what precedes it is the old entry, or for a digit over "0", "-0" or null a prefix of it |
| Machine.TypedLength | Calculator.js:353-360 | a key typed into an entry that is not too big leaves at most 13 counted characters |
| Machine.DigitKeepsConsistent | Calculator.js:160-184 | a digit or point press keeps the entry well formed and with at most one point |
| Machine.TypingStaysShort | Calculator.js:159 | no run of key presses makes the entry longer than 13 counted characters |
| Machine.OnOperator | Calculator.js:215-303 | ignored in error or on "-", "." or "-."; otherwise an operator is active. A failed commit shows "ERROR, CLEAR" or "TOO LONG, CLEAR", sets the error, and leaves the history and the operator as they were. A successful commit clears the entry, marks a result, makes the result the previous number and pushes it to the history. With nothing to commit, a non-empty entry becomes the previous number and the pressed operator is kept. The whole new state of each path is given by `Machine.OperatorCommits`, `Machine.OperatorFails` and `Machine.OperatorSettles` |
| Machine.OperatorCommits | Calculator.js:264-297 | a successful commit, field by field: an operator is active, the expression line shows the calculation, the entry is cleared, a result is marked, the result becomes the previous number and joins the history, and the pressed operator is pending |
| Machine.OperatorFails | Calculator.js:264-284 | a failed commit, field by field: an operator is active, the failed expression stays on the expression line above the error text, the error is set, and the previous number, the operator, the result flag and the history are kept |
| Machine.OperatorSettles | Calculator.js:297-301 | with nothing to commit, field by field: an operator is active, the pressed operator is pending and a non-empty entry becomes the previous number, leaving the entry null; nothing else changes |
| Machine.Expression | Calculator.js:264-273 | the expression line starts with the previous number's display; it is only that for `=`, and otherwise continues with the operator symbol and the entry's display, separated by spaces |
| Machine.OperatorKeepsConsistent | Calculator.js:215-303 | an operator press keeps the invariant |
| Machine.EntryReadsAsNumber | Calculator.js:218-226 | past the guard, the entry of a consistent state reads as a number |
| Machine.CommitShowsResult | Calculator.js:293-296 | after a successful commit the main line shows the result |
| Machine.ErrorShownAsIs | Calculator.js:275-284 | in error the main line shows the error text unchanged |
| Machine.OnBackspace | Calculator.js:315-320 | ignored after a result, with an operator active or in error; otherwise the entry loses its last character, or becomes "0" when it has one character or none, and nothing else changes |
| Machine.BackspaceKeepsConsistent | Calculator.js:315-320 | backspace keeps the invariant |
| Machine.OnNegate | Calculator.js:322-341 | ignored in error; a typed entry gains or loses a leading '-'; after an operator other than `=` the previous number is negated. The whole new state is given by `Machine.NegateSettles` and `Machine.NegateAfterEquals` |
| Machine.NegateSettles | Calculator.js:325-340 | a typed entry gains or loses its '-' and nothing else changes; after a result or with an operator other than `=` active, the previous number is negated, the result flag is cleared, the expression line is emptied, and nothing else changes |
| Machine.NegateAfterEquals | Calculator.js:325-333 | the sign toggle after `=`: the entry reads as the negated previous number (zero when null), the previous number, the operator and the operator flag are cleared, and the expression line is empty |
| Machine.NegateTwice | Calculator.js:338-340 | toggling the sign of a typed entry twice gives the entry back |
| Machine.NegateKeepsConsistent | Calculator.js:322-341 | the sign toggle keeps the invariant |
| Machine.OnReset | Calculator.js:343-350 | the entry becomes "0"; the previous number, the operator and the expression line become null; the error and the result flag are cleared; the operator flag and the history are not touched |
| Machine.ResetKeepsConsistent | Calculator.js:343-350 | reset keeps the invariant |
| Machine.LeaveError | Calculator.js:113-115 | after an error, exactly `reset`; otherwise only the expression line changes, to the previous number's display when that number is non-zero; the history and the operator flag are kept |
| Machine.Accept | Calculator.js:116-125 | the entry becomes the text, there is no result any more, and the operator flag is cleared when it was set; after `=` was active the previous number and the operator are cleared and the expression line is empty, otherwise all three are kept |
| Machine.TakePastResult | Calculator.js:113-125 | an accepted text becomes the entry, with no error, no result and no active operator; after an error, or when `=` was active, the previous number and the operator are cleared; otherwise they are kept. Unless `=` was active, the expression line is null after an error, the previous number's display when that number is non-zero, and unchanged otherwise |
| Machine.OnUsePastResult | Calculator.js:100-127 | a text is taken exactly when, without its commas, it is a number and, unless the limit is lifted, at most 14 characters; a refused text changes nothing; a taken text becomes the entry with no error, no result and no active operator, and the previous number and the operator are cleared after an error or an active `=` and kept otherwise; unless `=` was active, the expression line is null after an error, the previous number's display when that number is non-zero, and unchanged otherwise |
| Machine.UsePastResultKeepsConsistent | Calculator.js:100-127 | using a past result keeps the invariant |
| Machine.StepKeepsConsistent | Calculator.js:155-350 | every event keeps the invariant |
| Machine.RunKeepsConsistent | Calculator.js:155-350 | any run of events from a consistent state ends in a consistent state: at most twenty past results, a well-formed entry, and an error text while in error |
| Machine.ErrorIsSticky | Calculator.js:157 | in error, digits, operators, backspace and the sign toggle change nothing, whatever their number and order |
| Machine.StepHistory | Calculator.js:293-296 | the history changes only by a successful commit, which puts the new previous number in front |
| Calculator.Calculator.constructor | Calculator.js:20-27 | the fields start at the initial state, which is consistent |
| Calculator.Calculator.CurrentNumberDisplayed | Calculator.js:68-76 | the main line is null only when both the entry and the previous number are null |
| Calculator.Calculator.HandleNumberClicks | Calculator.js:155-184 | the fields end as `Machine.OnDigit` gives, and the invariant is kept |
| Calculator.Calculator.HandleOperators | Calculator.js:215-303 | the fields end as `Machine.OnOperator` gives, and the invariant is kept |
| Calculator.Calculator.Calculate | Calculator.js:229-296 | the calculation branch: the fields end as `Machine.Settle` gives for the outcome of the pending operation |
| Calculator.Calculator.RemoveLastEntry | Calculator.js:315-320 | the fields end as `Machine.OnBackspace` gives, and the invariant is kept |
| Calculator.Calculator.HandleNegativeToggle | Calculator.js:322-341 | the fields end as `Machine.OnNegate` gives, and the invariant is kept |
| Calculator.Calculator.Reset | Calculator.js:343-350 | the fields end as `Machine.OnReset` gives, and the invariant is kept |
| Calculator.Calculator.HandleUsePastResult | Calculator.js:100-127 | the answer and the fields are those of `Machine.OnUsePastResult`, and the invariant is kept |
| Calculator.Calculator.UseAccepted | Calculator.js:113-125 | the fields end as `Machine.TakePastResult` gives |
| Calculator.Calculator.UsePastResultAt | Calculator.js:522 | a tap on a past result is always accepted, and the entry becomes the result's text |

## Left out

- The user interface is not modelled: rendering, fonts, modals, the button table, `toggleMoreOptions`, `togglePasteModal` and `setMoreButtonStatus`.
- `AsyncStorage` loading, saving and clearing, and `handleClearPastResults`, are not modelled. They are asynchronous storage with no logic, so the history is an in-memory list only.
- Alerts are not modelled. A refused past result is modelled only by the `false` answer and the unchanged state.
- `handlePastedNumber` is not modelled; it only forwards the pasted text to `handleUsePastResult`. A tap on the history is modelled by `Calculator.Calculator.UsePastResultAt`.
- Numbers are exact decimals, not IEEE doubles. Effects of binary floating point are not modelled: `0.1 + 0.2` is exactly 0.3 here, where the source rounds it back with `toFixed(12)`.
- Very large and very small results are not modelled as the source computes them. A result that overflows a double (for example `10 ^ 400`) is "TOO LONG, CLEAR" here, where the source shows "ERROR, CLEAR". Underflow to zero is not modelled.
- `Arithmetic.Round12`: the source rounds only a result whose text has 12 or more fraction digits or an exponent. The model always rounds, which changes nothing for a result with at most 12 fraction digits (`Arithmetic.Round12Exact`).
- `Numbers.ToString` always writes positional notation. The exponent form of `toString` for very small numbers, and the `"e"` branch of `formatForDisplay` (Calculator.js:56-58), are not modelled.
- `Numbers.Parse` accepts only an optional '-', digits and at most one '.'. The rest of the `Number` syntax (spaces, '+', exponents, hexadecimal, `Infinity`) is read as NaN. A pasted text that uses it is refused here.
- `Math.pow` with a positive base and a fractional exponent is the parameter `pow` of type `Arithmetic.InexactPow`, supplied by the caller.
- A NaN previous number is modelled as null. It never arises from a consistent state (`Machine.EntryReadsAsNumber`).
- `removeLastEntry` and `handleNegativeToggle` with a null entry throw a TypeError in the source. Here they change nothing, which is what a handler that throws before any setter runs leaves behind.
- The `default` branch of the operator `switch` (Calculator.js:260-262) is unreachable: `Arithmetic.Op` lists exactly the six operator keys.
- `toLocaleString` on line 54 is applied to a string, where it returns the string unchanged. It is not modelled.
- The display uses the corrected grouping `Format.AddCommasSigned`, not the grouping as written (see Findings).

## Findings

| source | as written | input that shows it | evidently intended | confidence | as-written member | corrected member |
|---|---|---|---|---|---|---|
| Calculator.js:201-212 | `addCommasToNumber` groups every character before the point, so a leading '-' counts as a digit | "-123" is shown as "-,123" and "-123456" as "-,123,456" | the sign stays in front and only the digits are grouped: "-123", "-123,456" | high, from the loop bounds; not executed | Format.SignGroupedAsDigit | Format.AddCommasSignedNegates |
