/**
 * The `Calculator` window of main.py as an object whose methods update its
 * fields in place. Each method is proved to perform the transition of the
 * same name in module Keypad. The constructor, ClearScreen, KeyboardEventHandler,
 * SetOperator and SendOperation establish or keep the keypad invariant, and
 * HandleEqualKeyEvent keeps it from a valid state; GetCurrentValue and
 * SetCurrentValue are helpers that make no such promise.
 */
module CalculatorWindow {
  import opened Wrappers
  import opened Evaluator
  import opened Keypad

  class Calculator {
    var nextInputIsDecimal: bool
    var aNumber: string
    var bNumber: string
    var operator: string
    var currentStep: int
    /** What `calculatorDisplay` shows. */
    var display: string
    /** Every message box shown so far, oldest first. */
    var dialogs: seq<Dialog>

    /** The fields as a Keypad state. */
    function Snapshot(): State
      reads this
    {
      State(aNumber, bNumber, operator, currentStep, nextInputIsDecimal, display)
    }

    ghost predicate Valid()
      reads this
    {
      Inv(Snapshot())
    }

    /** The display is taken to show 0 when the window opens. */
    constructor ()
      ensures Valid()
      ensures Snapshot() == Cleared && dialogs == []
    {
      nextInputIsDecimal := false;
      aNumber := "";
      bNumber := "";
      operator := "";
      currentStep := 0;
      display := "0";
      dialogs := [];
      ClearedInv();
    }

    method ClearScreen()
      modifies this
      ensures Valid()
      ensures Snapshot() == Cleared && dialogs == old(dialogs)
    {
      display := "0";
      aNumber, bNumber, operator := "", "", "";
      currentStep := 0;
      nextInputIsDecimal := false;
      ClearedInv();
    }

    method GetCurrentValue() returns (value: string)
      modifies this
      ensures (Snapshot(), value) == CurrentValue(old(Snapshot()))
      ensures dialogs == old(dialogs)
    {
      if currentStep == 0 {
        return aNumber;
      }
      if currentStep == 1 {
        return bNumber;
      }
      ClearScreen();
      return aNumber;
    }

    method SetCurrentValue(value: string)
      modifies this
      ensures Snapshot() == Keypad.SetCurrentValue(old(Snapshot()), value)
      ensures dialogs == old(dialogs)
    {
      if currentStep == 1 {
        bNumber := value;
      } else {
        aNumber := value;
      }
      display := value;
    }

    method KeyboardEventHandler(key: Key)
      requires Valid()
      modifies this
      ensures Valid()
      ensures Snapshot() == Press(old(Snapshot()), key).next
      ensures dialogs == old(dialogs) + Shown(Press(old(Snapshot()), key))
    {
      ghost var before := Snapshot();
      PressKeepsInv(before, key);
      var displayValue := GetCurrentValue();
      if |displayValue| == MaxLength {
        dialogs := dialogs + [LengthDialog];
        return;
      }
      match key {
        case Dot =>
          if Text.HasDigitThenDot(displayValue) {
            return;
          }
          nextInputIsDecimal := true;
        case Digit(d) =>
          if nextInputIsDecimal {
            nextInputIsDecimal := false;
            if displayValue == "" {
              SetCurrentValue("0." + [Text.DigitChar(d)]);
              return;
            }
            SetCurrentValue(displayValue + "." + [Text.DigitChar(d)]);
            return;
          }
          SetCurrentValue(displayValue + [Text.DigitChar(d)]);
      }
    }

    method SetOperator(op: string)
      requires Valid() && op in OperatorSymbols
      modifies this
      ensures Valid()
      ensures Snapshot() == Keypad.SetOperator(old(Snapshot()), op)
      ensures dialogs == old(dialogs)
    {
      SetOperatorKeepsInv(Snapshot(), op);
      operator := op;
      currentStep := 1;
    }

    /** `respond` stands for the completion service; `scientific` for the float formatting. */
    method SendOperation(op: string, respond: string -> Reply, scientific: string -> Option<string>)
      modifies this
      ensures Valid()
      ensures Snapshot() == Keypad.SendOperation(old(Snapshot()), op, respond, scientific).next
      ensures dialogs == old(dialogs) + Shown(Keypad.SendOperation(old(Snapshot()), op, respond, scientific))
    {
      if aNumber == "" {
        aNumber := "0";
      }
      if bNumber == "" {
        bNumber := "0";
      }
      if op == "" {
        dialogs := dialogs + [MissingOperatorDialog];
        ClearScreen();
        return;
      }
      var reply := respond(Request(aNumber, op, bNumber));
      match reply {
        case Content(text) =>
          if Text.Contains(text, ErrorMarker) {
            dialogs := dialogs + [ReplyDialog(text)];
            ClearScreen();
            return;
          }
          ClearScreen();
          display := PrepareResponse(text, scientific);
        case Unreadable =>
          ClearScreen();
          dialogs := dialogs + [UnavailableDialog];
          ClearScreen();
      }
    }

    /** Stated for every state, so that the second-operand branch, dead in every
        valid state (Keypad.EqualsWithoutOperatorShowsFirstOperand), is kept as written. */
    method HandleEqualKeyEvent(respond: string -> Reply, scientific: string -> Option<string>)
      modifies this
      ensures old(Valid()) ==> Valid()
      ensures Snapshot() == HandleEqual(old(Snapshot()), respond, scientific).next
      ensures dialogs == old(dialogs) + Shown(HandleEqual(old(Snapshot()), respond, scientific))
    {
      if Valid() {
        HandleEqualKeepsInv(Snapshot(), respond, scientific);
      }
      if operator == "" {
        currentStep := 3;
        if bNumber != "" {
          display := "0";
        } else if aNumber != "" {
          display := aNumber;
        } else {
          display := "0";
        }
        return;
      }
      SendOperation(operator, respond, scientific);
    }
  }
}
