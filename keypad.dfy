/**
 * The keypad state machine of the `Calculator` window (main.py) as pure
 * transitions on a value holding the window's fields. The methods of
 * `CalculatorWindow.Calculator` are proved to perform exactly these
 * transitions on the object's own fields.
 */
module Keypad {
  import opened Wrappers
  import opened Text
  import opened Evaluator

  /** The length at which a key press is refused; the source compares with `==`. */
  const MaxLength := 10

  /** A digit key 0-9 or the decimal-point key. */
  datatype Key = Digit(d: DigitValue) | Dot

  /** A message box: its window title and its text. */
  datatype Dialog = Dialog(title: string, text: string)

  const LengthDialog := Dialog("Error!", "Sorry, no more than 10 digits are allowed")
  const MissingOperatorDialog := Dialog("Operation not valid!", "You must insert an operator to continue")
  const UnavailableDialog := Dialog("Error!", "OpenAPI is not available")

  function ReplyDialog(reply: string): Dialog {
    Dialog("Operation not valid!", reply)
  }

  /**
   * The fields the keypad logic reads and writes. `step` is 0 (first operand),
   * 1 (second operand) or 3 (after equals without an operator); `pending` is
   * `next_input_is_decimal`; `display` is what the LCD shows (`display(0)` is "0").
   */
  datatype State = State(aNumber: string, bNumber: string, operator: string,
                         step: int, pending: bool, display: string)

  /** What one event leaves behind: the next state and the dialog it showed, if any. */
  datatype Effect = Effect(next: State, dialog: Option<Dialog>)

  function Shown(e: Effect): seq<Dialog> {
    if e.dialog.Some? then [e.dialog.value] else []
  }

  /** The state `clear_screen` leaves, whatever it started from. */
  const Cleared := State("", "", "", 0, false, "0")

  /** The operand `set_current_value` writes: `bNumber` in step 1, else `aNumber`. */
  function Selected(st: State): (r: string)
    ensures st.step == 1 ==> r == st.bNumber
    ensures st.step != 1 ==> r == st.aNumber
  {
    if st.step == 1 then st.bNumber else st.aNumber
  }

  /** `get_current_value`: the operand of step 0 or 1; in any other step the
      state is cleared first and the (now empty) first operand is read. */
  function CurrentValue(st: State): (r: (State, string))
    ensures r.1 == Selected(r.0)
    ensures st.step == 0 || st.step == 1 ==> r.0 == st
    ensures st.step != 0 && st.step != 1 ==> r == (Cleared, "")
  {
    if st.step == 0 then (st, st.aNumber)
    else if st.step == 1 then (st, st.bNumber)
    else (Cleared, Cleared.aNumber)
  }

  /** `set_current_value`: store the value in the selected operand and show it. */
  function SetCurrentValue(st: State, value: string): (r: State)
    ensures Selected(r) == value && r.display == value
    ensures r.step == st.step && r.operator == st.operator && r.pending == st.pending
    ensures st.step == 1 ==> r.aNumber == st.aNumber
    ensures st.step != 1 ==> r.bNumber == st.bNumber
  {
    if st.step == 1 then st.(bNumber := value, display := value)
    else st.(aNumber := value, display := value)
  }

  /** The value after a digit press: the digit comes last; without a pending point
      it follows the value read; with one, it follows the point, which follows the
      value read written as in a request (an empty value as "0"). */
  function Typed(value: string, pending: bool, d: DigitValue): (r: string)
    ensures |r| > 0 && r[|r| - 1] == DigitChar(d)
    ensures !pending ==> r[..|r| - 1] == value
    ensures pending ==> |r| >= 3 && r[|r| - 2] == '.' && r[..|r| - 2] == OperandText(value)
  {
    if !pending then value + [DigitChar(d)]
    else if value == "" then "0." + [DigitChar(d)]
    else value + "." + [DigitChar(d)]
  }

  /** `keyboard_event_handler` for one key. */
  function Press(st: State, key: Key): (e: Effect)
    // In step 3 the state is reset before the key is handled.
    ensures st.step != 0 && st.step != 1 ==>
      e.dialog.None? && e.next.step == 0 && e.next.operator == "" && e.next.bNumber == ""
    // The length check, both ways: exactly 10 characters refuse the key and change nothing.
    ensures e.dialog.Some? <==> (st.step == 0 || st.step == 1) && |Selected(st)| == MaxLength
    ensures e.dialog.Some? ==> e == Effect(st, Some(LengthDialog))
    // The operator and the operand not selected are never touched.
    ensures st.step == 0 || st.step == 1 ==>
      e.next.step == st.step && e.next.operator == st.operator &&
      (st.step == 1 ==> e.next.aNumber == st.aNumber) &&
      (st.step == 0 ==> e.next.bNumber == st.bNumber)
    // The point key changes neither operand; it only raises the flag, unless
    // the value already holds a digit followed by a point.
    ensures (st.step == 0 || st.step == 1) && key.Dot? && |Selected(st)| != MaxLength ==>
      e.next == if HasDigitThenDot(Selected(st)) then st else st.(pending := true)
    // A digit key consumes the flag and extends the selected operand.
    ensures (st.step == 0 || st.step == 1) && key.Digit? && |Selected(st)| != MaxLength ==>
      !e.next.pending &&
      Selected(e.next) == Typed(Selected(st), st.pending, key.d) &&
      e.next.display == Selected(e.next)
  {
    var (s, value) := CurrentValue(st);
    if |value| == MaxLength then
      Effect(s, Some(LengthDialog))
    else
      match key
      case Dot =>
        if HasDigitThenDot(value) then Effect(s, None) else Effect(s.(pending := true), None)
      case Digit(d) =>
        if s.pending then
          Effect(SetCurrentValue(s.(pending := false), Typed(value, true, d)), None)
        else
          Effect(SetCurrentValue(s, Typed(value, false, d)), None)
  }

  /** A key pressed after equals without an operator acts on a cleared state. */
  lemma PressAfterEqualsResets(st: State, key: Key)
    requires st.step != 0 && st.step != 1
    ensures Press(st, key) == Press(Cleared, key)
  {
  }

  /** `set_operator`. */
  function SetOperator(st: State, op: string): (r: State)
    ensures r.operator == op && r.step == 1
    ensures r.(operator := st.operator, step := st.step) == st
  {
    st.(operator := op, step := 1)
  }

  /** Pressing an operator again only replaces the operator. */
  lemma OperatorOverwrites(st: State, op1: string, op2: string)
    ensures SetOperator(SetOperator(st, op1), op2) == SetOperator(st, op2)
  {
  }

  /** A second point press right after a first one does exactly what the first did. */
  lemma DotIsIdempotent(st: State)
    ensures Press(Press(st, Dot).next, Dot) == Press(st, Dot)
  {
  }

  /** How `send_operation` ends once a reply has arrived: always in a full reset,
      then a dialog or the formatted result on the display. */
  function Conclude(reply: Reply, scientific: string -> Option<string>): (e: Effect)
    ensures e.next.(display := "0") == Cleared
    ensures e.dialog.None? <==> Classify(reply, scientific).Success?
    ensures Classify(reply, scientific).Success? ==> e.next.display == Classify(reply, scientific).value
    ensures Classify(reply, scientific).DomainError? ==> e == Effect(Cleared, Some(ReplyDialog(reply.text)))
    ensures reply.Unreadable? ==> e == Effect(Cleared, Some(UnavailableDialog))
  {
    match Classify(reply, scientific)
    case DomainError(message) => Effect(Cleared, Some(ReplyDialog(message)))
    case Unavailable => Effect(Cleared, Some(UnavailableDialog))
    case Success(value) => Effect(Cleared.(display := value), None)
  }

  /** `send_operation` with the completion service as the oracle `respond`. */
  function SendOperation(st: State, op: string, respond: string -> Reply,
                         scientific: string -> Option<string>): (e: Effect)
    ensures e.next.(display := "0") == Cleared
    ensures op == "" ==> e == Effect(Cleared, Some(MissingOperatorDialog))
    ensures op != "" ==>
      e == Conclude(respond(Request(OperandText(st.aNumber), op, OperandText(st.bNumber))), scientific)
  {
    if op == "" then
      Effect(Cleared, Some(MissingOperatorDialog))
    else
      Conclude(respond(Request(OperandText(st.aNumber), op, OperandText(st.bNumber))), scientific)
  }

  /** What the display shows after equals without an operator: never empty, and
      the first operand when it is the only one entered. */
  function EqualsDisplay(st: State): (r: string)
    ensures r == "0" || r == st.aNumber
    ensures r != ""
    ensures st.bNumber == "" && st.aNumber != "" ==> r == st.aNumber
    ensures st.aNumber == "" ==> r == "0"
    ensures st.bNumber != "" ==> r == "0"
  {
    if st.bNumber != "" then "0"
    else if st.aNumber != "" then st.aNumber
    else "0"
  }

  /** `handle_equal_key_event`. */
  function HandleEqual(st: State, respond: string -> Reply,
                       scientific: string -> Option<string>): (e: Effect)
    // Without an operator: step 3, no dialog, operands and flag kept.
    ensures st.operator == "" ==>
      e.dialog.None? && e.next.step == 3 && e.next.operator == "" &&
      e.next.aNumber == st.aNumber && e.next.bNumber == st.bNumber && e.next.pending == st.pending
    ensures st.operator == "" ==> e.next.display == EqualsDisplay(st)
    // With one: the reply to the request for the current expression decides the
    // outcome, which always ends in a full reset.
    ensures st.operator != "" ==> e.next.(display := "0") == Cleared
    ensures st.operator != "" ==>
      e == Conclude(respond(Request(OperandText(st.aNumber), st.operator, OperandText(st.bNumber))), scientific)
  {
    if st.operator == "" then
      Effect(st.(step := 3, display := EqualsDisplay(st)), None)
    else
      SendOperation(st, st.operator, respond, scientific)
  }

  /** Equals without an operator does not depend on the service: no request is made. */
  lemma EqualsWithoutOperatorMakesNoRequest(st: State, respond1: string -> Reply, respond2: string -> Reply,
                                            scientific: string -> Option<string>)
    requires st.operator == ""
    ensures HandleEqual(st, respond1, scientific) == HandleEqual(st, respond2, scientific)
    ensures HandleEqual(st, respond1, scientific).dialog.None?
  {
  }

  // ---------------------------------------------------------------------------
  // The invariant of the keypad state.

  /**
   * A value built from keypad input: digits only, or one point with at least
   * one digit on each side of it.
   */
  ghost predicate IsOperand(s: string) {
    AllDigits(s) || exists k :: PointAt(s, k)
  }

  /** `s` is `p + "." + q` with `p` and `q` non-empty digit strings, `|p| == k`. */
  predicate PointAt(s: string, k: int) {
    0 < k < |s| - 1 && s[k] == '.' && AllDigits(s[..k]) && AllDigits(s[k + 1..])
  }

  /**
   * What every reachable state satisfies: the step is 0, 1 or 3; an operator
   * is set exactly in step 1; the second operand is empty outside step 1;
   * both operands are keypad values; and a pending point belongs to an
   * operand that has no point yet.
   */
  ghost predicate Inv(st: State) {
    (st.step == 0 || st.step == 1 || st.step == 3) &&
    (st.operator != "" <==> st.step == 1) &&
    (st.step != 1 ==> st.bNumber == "") &&
    IsOperand(st.aNumber) && IsOperand(st.bNumber) &&
    (st.pending ==> AllDigits(Selected(st)))
  }

  lemma ClearedInv()
    ensures Inv(Cleared)
  {
  }

  /** A keypad value holds at most one point. */
  lemma {:induction false} OperandHasAtMostOnePoint(s: string)
    requires IsOperand(s)
    ensures multiset(s)['.'] <= 1
  {
    if AllDigits(s) {
      assert '.' !in s;
    } else {
      var k :| PointAt(s, k);
      assert s == s[..k] + [s[k]] + s[k + 1..];
      assert '.' !in s[..k] && '.' !in s[k + 1..];
      assert multiset(s) == multiset(s[..k]) + multiset{'.'} + multiset(s[k + 1..]);
    }
  }

  /** On keypad values the `\d+\.` search is exactly "holds a point". */
  lemma DigitThenDotOnOperand(s: string)
    requires IsOperand(s)
    ensures HasDigitThenDot(s) <==> !AllDigits(s)
  {
    HasDigitThenDotSpec(s);
    if !AllDigits(s) {
      var k :| PointAt(s, k);
      assert s[..k][k - 1] == s[k - 1];
      assert DigitDotAt(s, k);
    }
  }

  /** Typing a digit into a keypad value gives a keypad value. */
  lemma {:induction false} TypedIsOperand(value: string, pending: bool, d: DigitValue)
    requires IsOperand(value)
    requires pending ==> AllDigits(value)
    ensures IsOperand(Typed(value, pending, d))
  {
    var c := DigitChar(d);
    var t := Typed(value, pending, d);
    if !pending {
      if AllDigits(value) {
        assert AllDigits(t);
      } else {
        var k :| PointAt(value, k);
        assert t[..k] == value[..k];
        assert t[k + 1..] == value[k + 1..] + [c];
        assert PointAt(t, k);
      }
    } else if value == "" {
      assert t[..1] == "0" && t[2..] == [c];
      assert PointAt(t, 1);
    } else {
      assert t[..|value|] == value && t[|value| + 1..] == [c];
      assert PointAt(t, |value|);
    }
  }

  lemma PressKeepsInv(st: State, key: Key)
    requires Inv(st)
    ensures Inv(Press(st, key).next)
  {
    var (s, value) := CurrentValue(st);
    ClearedInv();
    assert Inv(s) && value == Selected(s);
    if |value| != MaxLength {
      match key
      case Dot =>
        DigitThenDotOnOperand(value);
      case Digit(d) =>
        TypedIsOperand(value, s.pending, d);
    }
  }

  lemma SetOperatorKeepsInv(st: State, op: string)
    requires Inv(st) && op in OperatorSymbols
    ensures Inv(SetOperator(st, op))
  {
  }

  lemma HandleEqualKeepsInv(st: State, respond: string -> Reply, scientific: string -> Option<string>)
    requires Inv(st)
    ensures Inv(HandleEqual(st, respond, scientific).next)
  {
    ClearedInv();
  }

  /** The second-operand branch of equals is dead: without an operator the
      second operand is empty, so equals shows the first operand (or 0). */
  lemma EqualsWithoutOperatorShowsFirstOperand(st: State, respond: string -> Reply,
                                                scientific: string -> Option<string>)
    requires Inv(st) && st.operator == ""
    ensures st.bNumber == ""
    ensures HandleEqual(st, respond, scientific).next.display ==
            (if st.aNumber == "" then "0" else st.aNumber)
  {
  }
}
