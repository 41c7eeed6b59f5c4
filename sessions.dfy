/**
 * Sequences of button presses, as `register_click_actions` (main.py) wires
 * them, and the properties of whole sessions that start from a cleared window.
 */
module Sessions {
  import opened Wrappers
  import opened Text
  import opened Evaluator
  import opened Keypad

  datatype Operator = Add | Sub | Mul | Div

  /** The text each operator button hands to `set_operator`. */
  function Symbol(o: Operator): (s: string)
    ensures s in OperatorSymbols
  {
    match o
    case Add => "+"
    case Sub => "-"
    case Mul => "*"
    case Div => "/"
  }

  /** One button press: a digit or the point, an operator, clear, or equals. */
  datatype Event = KeyEvent(key: Key) | OperatorEvent(op: Operator) | ClearEvent | EqualEvent

  /** The next state and the dialog after one button press. */
  function Apply(st: State, ev: Event, respond: string -> Reply,
                 scientific: string -> Option<string>): (e: Effect)
    ensures ev.ClearEvent? ==> e == Effect(Cleared, None)
    ensures ev.OperatorEvent? ==> e.dialog.None? && e.next.step == 1 && e.next.operator == Symbol(ev.op)
    ensures e.dialog.Some? ==> ev.KeyEvent? || ev.EqualEvent?
  {
    match ev
    case KeyEvent(key) => Press(st, key)
    case OperatorEvent(op) => Effect(SetOperator(st, Symbol(op)), None)
    case ClearEvent => Effect(Cleared, None)
    case EqualEvent => HandleEqual(st, respond, scientific)
  }

  /** Where a sequence of presses ends, and the dialogs it showed in order. */
  datatype Session = Session(state: State, dialogs: seq<Dialog>)

  function Run(st: State, evs: seq<Event>, respond: string -> Reply,
               scientific: string -> Option<string>): (r: Session)
    ensures |r.dialogs| <= |evs|
    ensures evs == [] ==> r == Session(st, [])
    decreases |evs|
  {
    if evs == [] then Session(st, [])
    else
      var e := Apply(st, evs[0], respond, scientific);
      var rest := Run(e.next, evs[1..], respond, scientific);
      Session(rest.state, Shown(e) + rest.dialogs)
  }

  lemma ApplyKeepsInv(st: State, ev: Event, respond: string -> Reply,
                      scientific: string -> Option<string>)
    requires Inv(st)
    ensures Inv(Apply(st, ev, respond, scientific).next)
  {
    match ev
    case KeyEvent(key) => PressKeepsInv(st, key);
    case OperatorEvent(op) => SetOperatorKeepsInv(st, Symbol(op));
    case ClearEvent => ClearedInv();
    case EqualEvent => HandleEqualKeepsInv(st, respond, scientific);
  }

  lemma {:induction false} RunKeepsInv(st: State, evs: seq<Event>, respond: string -> Reply,
                                       scientific: string -> Option<string>)
    requires Inv(st)
    ensures Inv(Run(st, evs, respond, scientific).state)
    decreases |evs|
  {
    if evs != [] {
      ApplyKeepsInv(st, evs[0], respond, scientific);
      RunKeepsInv(Apply(st, evs[0], respond, scientific).next, evs[1..], respond, scientific);
    }
  }

  /** Whatever is pressed, and whatever the service replies, neither operand
      ever holds more than one decimal point. */
  lemma OperandsHaveAtMostOnePoint(evs: seq<Event>, respond: string -> Reply,
                                   scientific: string -> Option<string>)
    ensures var st := Run(Cleared, evs, respond, scientific).state;
            multiset(st.aNumber)['.'] <= 1 && multiset(st.bNumber)['.'] <= 1
  {
    ClearedInv();
    RunKeepsInv(Cleared, evs, respond, scientific);
    var st := Run(Cleared, evs, respond, scientific).state;
    OperandHasAtMostOnePoint(st.aNumber);
    OperandHasAtMostOnePoint(st.bNumber);
  }

  /** In every reachable state, equals without an operator finds the second
      operand empty, so its first branch is never taken. */
  lemma SecondOperandBranchUnreachable(evs: seq<Event>, respond: string -> Reply,
                                       scientific: string -> Option<string>)
    ensures var st := Run(Cleared, evs, respond, scientific).state;
            st.operator == "" ==> st.bNumber == "" && EqualsDisplay(st) == OperandText(st.aNumber)
  {
    ClearedInv();
    RunKeepsInv(Cleared, evs, respond, scientific);
  }

  /** The key presses of a digit sequence. */
  function DigitKeys(ds: seq<DigitValue>): (evs: seq<Event>)
    ensures |evs| == |ds|
  {
    seq(|ds|, i requires 0 <= i < |ds| => KeyEvent(Digit(ds[i])))
  }

  /** The text a digit sequence spells. */
  function DigitString(ds: seq<DigitValue>): (s: string)
    ensures |s| == |ds|
    ensures AllDigits(s)
  {
    seq(|ds|, i requires 0 <= i < |ds| => DigitChar(ds[i]))
  }

  /**
   * Digits typed into the first operand with no point pending and while it
   * stays under ten characters are appended in order; nothing else changes
   * apart from the display, and no dialog is shown.
   */
  lemma {:induction false} TypingDigits(st: State, ds: seq<DigitValue>, respond: string -> Reply,
                                        scientific: string -> Option<string>)
    requires st.step == 0 && !st.pending && |st.aNumber| + |ds| <= MaxLength
    ensures var r := Run(st, DigitKeys(ds), respond, scientific);
            r.dialogs == [] &&
            r.state.(display := st.display) == st.(aNumber := st.aNumber + DigitString(ds)) &&
            r.state.display == if ds == [] then st.display else r.state.aNumber
    decreases |ds|
  {
    if ds != [] {
      var e := Apply(st, KeyEvent(Digit(ds[0])), respond, scientific);
      assert e.next == st.(aNumber := st.aNumber + [DigitChar(ds[0])], display := e.next.display);
      assert DigitKeys(ds)[0] == KeyEvent(Digit(ds[0]));
      assert DigitKeys(ds)[1..] == DigitKeys(ds[1..]);
      assert DigitString(ds) == [DigitChar(ds[0])] + DigitString(ds[1..]);
      TypingDigits(e.next, ds[1..], respond, scientific);
    }
  }

  /** From a cleared window, up to ten digits spell the first operand. */
  lemma TypedDigitsSpellFirstOperand(ds: seq<DigitValue>, respond: string -> Reply,
                                     scientific: string -> Option<string>)
    requires |ds| <= MaxLength
    ensures Run(Cleared, DigitKeys(ds), respond, scientific).state.aNumber == DigitString(ds)
    ensures Run(Cleared, DigitKeys(ds), respond, scientific).dialogs == []
  {
    TypingDigits(Cleared, ds, respond, scientific);
  }

  /** After ten digits an eleventh is refused: nothing changes and the
      length dialog is shown. */
  lemma EleventhDigitRejected(ds: seq<DigitValue>, d: DigitValue, respond: string -> Reply,
                              scientific: string -> Option<string>)
    requires |ds| == MaxLength
    ensures var st := Run(Cleared, DigitKeys(ds), respond, scientific).state;
            Press(st, Digit(d)) == Effect(st, Some(LengthDialog))
  {
    TypingDigits(Cleared, ds, respond, scientific);
  }

  /**
   * The cap compares with `==`, so it is no bound: after nine digits the point
   * and one more digit give an eleven-character operand, and the next digit
   * is accepted again.
   */
  lemma LengthCapIsNotABound(ds: seq<DigitValue>, d1: DigitValue, d2: DigitValue,
                             respond: string -> Reply, scientific: string -> Option<string>)
    requires |ds| == 9
    ensures var nine := Run(Cleared, DigitKeys(ds), respond, scientific).state;
            var st := Run(nine, [KeyEvent(Dot), KeyEvent(Digit(d1))], respond, scientific).state;
            st.aNumber == DigitString(ds) + "." + [DigitChar(d1)] &&
            |st.aNumber| == 11 &&
            Press(st, Digit(d2)).dialog == None &&
            |Press(st, Digit(d2)).next.aNumber| == 12
  {
    TypingDigits(Cleared, ds, respond, scientific);
    var nine := Run(Cleared, DigitKeys(ds), respond, scientific).state;
    assert nine == State(DigitString(ds), "", "", 0, false, nine.display);
    HasDigitThenDotSpec(nine.aNumber);
    assert !HasDigitThenDot(nine.aNumber);
    var pointed := Press(nine, Dot).next;
    assert pointed == nine.(pending := true);
    assert |nine.aNumber| == 9;
    assert Typed(nine.aNumber, true, d1) == nine.aNumber + "." + [DigitChar(d1)];
    var eleven := Press(pointed, Digit(d1)).next;
    assert eleven.aNumber == DigitString(ds) + "." + [DigitChar(d1)];
    assert Run(nine, [KeyEvent(Dot), KeyEvent(Digit(d1))], respond, scientific).state == eleven by {
      assert [KeyEvent(Dot), KeyEvent(Digit(d1))][1..] == [KeyEvent(Digit(d1))];
      assert Run(pointed, [KeyEvent(Digit(d1))], respond, scientific).state == eleven;
    }
    assert eleven.step == 0 && !eleven.pending && |eleven.aNumber| == 11;
    assert Typed(eleven.aNumber, false, d2) == eleven.aNumber + [DigitChar(d2)];
  }

  /** Pressing equals after typing 7 shows 7, shows no dialog and never asks the service. */
  lemma SevenEqualsShowsSeven(respond: string -> Reply, scientific: string -> Option<string>)
    ensures Run(Cleared, [KeyEvent(Digit(7)), EqualEvent], respond, scientific) ==
            Session(State("7", "", "", 3, false, "7"), [])
  {
    assert DigitChar(7) == '7';
  }

  /** `5 + =` asks the service to solve "5+0". */
  lemma FivePlusEqualsSendsFivePlusZero(respond: string -> Reply, scientific: string -> Option<string>)
    ensures var st := Run(Cleared, [KeyEvent(Digit(5)), OperatorEvent(Add)], respond, scientific).state;
            HandleEqual(st, respond, scientific) == Conclude(respond(Prompt + "5+0"), scientific)
  {
    assert DigitChar(5) == '5';
    var typed := Press(Cleared, Digit(5)).next;
    assert typed == State("5", "", "", 0, false, "5");
    assert Run(Cleared, [KeyEvent(Digit(5)), OperatorEvent(Add)], respond, scientific).state ==
           State("5", "", "+", 1, false, "5") by {
      assert [KeyEvent(Digit(5)), OperatorEvent(Add)][1..] == [OperatorEvent(Add)];
    }
    assert Request("5", "+", "0") == Prompt + "5+0";
  }
}
