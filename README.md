# Calculator keypad state machine

This project models the `Calculator` window in `main.py` of a desktop calculator. The calculator does no
arithmetic of its own: its equals key sends the expression to a remote text-completion service. The model
covers the keypad state machine:

- two operand strings (`a_number`, `b_number`);
- an operator;
- a step: 0 while the first operand is typed, 1 for the second operand, 3 after equals with no operator;
- a pending-decimal-point flag (`next_input_is_decimal`);
- the LCD display;
- the message boxes the window shows.

It also models the parts of `send_operation` and `prepare_response` that stay off the network: how the
request text is built, how the reply is classified, and the reset that follows every evaluation.

Modules:

- `Wrappers` (wrappers.dfy): `Option`.
- `Text` (text.dfy): character predicates. The two `re.search` calls become explicit scans: `HasDigitThenDot`
  for `\d+\.` and `Contains` for the literal `[ERROR] -`. Each is proved equal to its "there is an index
  where..." definition.
- `Evaluator` (evaluator.dfy): the prompt, the request text, the reply classification and `prepare_response`.
  The completion service is the oracle `respond: string -> Reply`. The float formatting
  `"{:.2e}".format(float(v))...` is the parameter `scientific: string -> Option<string>`; it returns `None`
  where `float(v)` raises.
- `Keypad` (keypad.dfy): the window's fields as a `State` value and each handler as a pure transition
  returning an `Effect` (the next state and at most one dialog). Also the invariant `Inv` of reachable states
  and the proofs that every transition keeps it.
- `CalculatorWindow` (calculator.dfy): `class Calculator`, with the source's fields and its methods written
  imperatively. Each method is proved to perform the matching `Keypad` transition on the object's fields and
  to append the dialog it shows to `dialogs`. The constructor, `ClearScreen`, `KeyboardEventHandler`,
  `SetOperator` and `SendOperation` establish or keep `Valid()`, and `HandleEqualKeyEvent` keeps it from a
  valid state. `GetCurrentValue` and `SetCurrentValue` are helpers with no such promise: storing an arbitrary
  value can break the invariant, and only the callers' values keep it.
- `Sessions` (sessions.dfy): the buttons wired up by `register_click_actions`, taken as an input alphabet.
  Runs of presses from a cleared window, and the properties of whole sessions.

Behaviour of the code that is easy to misread:

- `current_step` takes the values 0, 1 and 3. The comment in `__init__` says 2 for result mode, but equals
  assigns 3. Any step other than 0 and 1 makes the next key press reset the state (`get_current_value`).
- The length cap is `10 == len(value)`, so it is not a bound. After nine characters, the point and a digit
  make eleven, and further keys are accepted again. `Sessions.LengthCapIsNotABound` proves this. The check
  runs before the point branch, so the point key is also refused at exactly ten characters.
- The pending-point flag is cleared only by `clear_screen` or by the digit that consumes it. The operator
  key and equals without an operator leave it set. The no-double-point invariant still holds, because a pending point always
  belongs to an operand that has no point yet (`Keypad.Inv`).
- The error check looks for `[ERROR] -` with no trailing space, so any reply containing that text is a
  domain error (`Evaluator.MarkerAnywhereIsDomainError`).
- `send_operation` writes the integer `0` into an empty operand. Only the request text sees this, as `"0"`:
  every modelled path then clears the state.
- `display(0)` is modelled as a display showing `"0"`. The window is taken to show `"0"` when it opens.

## Model

| member | source | states |
|---|---|---|
| `Text.DigitChar` | main.py:177-182 | the character formatted for a digit key is a digit whose value is the key's |
| `Text.HasDigitThenDot` | main.py:169 | the scan for a digit followed by a point is false on strings of digits alone, and when true the string has a point after its first character |
| `Text.Contains` | main.py:59 | the scan for a literal pattern needs the pattern to fit in the string, and finds it when the string starts with it |
| `Text.HasDigitThenDotSpec` | main.py:169 | the scan replacing `re.search(r"\d+\.", v)` is true exactly when some point in `v` has a digit right before it |
| `Text.ContainsSpec` | main.py:59 | the scan replacing the search for the marker is true exactly when the pattern occurs at some index |
| `Evaluator.OperandText` | main.py:33-36 | an empty operand is sent as `0`, any other operand as itself; the text is never empty |
| `Evaluator.Request` | main.py:51-53 | the request is the fixed prompt followed by `<a><op><b>`, and nothing else |
| `Evaluator.RequestDeterminesExpression` | main.py:51-53 | when the operands are keypad strings and the operator is one of `+ - * /`, equal requests have equal operands and operators |
| `Evaluator.PrepareResponse` | main.py:77-83 | a value of at most 10 characters is returned unchanged; a longer one is scientifically formatted, or returned unchanged when the float conversion fails |
| `Evaluator.Classify` | main.py:57-69 | a reply is a domain error exactly when its content contains `[ERROR] -`, and its message is the reply; an unreadable reply is unavailable; otherwise the result is the prepared reply |
| `Evaluator.MarkerAnywhereIsDomainError` | main.py:51-59 | a reply containing `[ERROR] - ` (the form the prompt asks for), or `[ERROR] -` followed by anything, is a domain error |
| `Keypad.CurrentValue` | main.py:142-149 | steps 0 and 1 read `a_number` and `b_number` and change nothing; any other step resets the state and reads the empty first operand |
| `Keypad.SetCurrentValue` | main.py:135-140 | the value goes to `b_number` in step 1 and to `a_number` otherwise, and is displayed; the other operand, the operator, the step and the flag are kept |
| `Keypad.Selected` | main.py:136-139 | the operand a value is stored into: `b_number` in step 1, `a_number` in every other step |
| `Keypad.Typed` | main.py:174-182 | after a digit press the digit comes last; without a pending point it follows the value read; with one, it follows a point that follows the value read, an empty value written as `0` |
| `Keypad.Press` | main.py:159-182 | a press is refused with the length dialog and no change exactly when the value read has length 10; the operator and the other operand are never touched; the point key changes no operand, and only raises the flag when there is no digit-then-point yet; a digit clears the flag and appends the digit, or `.d`, or makes `0.d` from an empty value |
| `Keypad.PressAfterEqualsResets` | main.py:142-149 | a key pressed in step 3 acts exactly as on a cleared state |
| `Keypad.SetOperator` | main.py:119-121 | the operator is set and the step becomes 1; no other field changes |
| `Keypad.OperatorOverwrites` | main.py:119-121 | pressing a second operator just replaces the first |
| `Keypad.DotIsIdempotent` | main.py:161-173 | a second point press right after a first has exactly the effect of the first |
| `Keypad.Conclude` | main.py:57-75 | once a reply is in, the state is always fully reset; a dialog shows exactly when the reply is not a success; a success displays the prepared reply; a domain error shows the reply; an unreadable reply shows "OpenAPI is not available" |
| `Keypad.SendOperation` | main.py:32-75 | the state always ends fully reset; an empty operator shows the missing-operator dialog and asks nothing; otherwise the reply to the request built from the operands (empty ones sent as `0`) decides the outcome |
| `Keypad.HandleEqual` | main.py:123-133 | with no operator: step 3, no dialog, operands and flag kept, and the display shows `EqualsDisplay`; with an operator, the outcome is `Conclude` of the service's reply to the request for the current operands (empty ones sent as `0`) and operator, and the state ends fully reset |
| `Keypad.EqualsDisplay` | main.py:126-131 | the display after equals without an operator is never empty: 0 or the first operand, the first operand when it is the only one entered, and 0 when the first operand is empty or a second operand is present |
| `Keypad.EqualsWithoutOperatorMakesNoRequest` | main.py:123-132 | with no operator, equals does not depend on the service's replies and shows no dialog |
| `Keypad.EqualsWithoutOperatorShowsFirstOperand` | main.py:124-131 | in a valid state with no operator the second operand is empty, so the `b_number` branch is dead and equals displays `a_number`, or 0 when it is empty |
| `Keypad.ClearedInv` | main.py:152-156 | the cleared state satisfies the invariant |
| `Keypad.OperandHasAtMostOnePoint` | main.py:168-181 | a keypad value (digits, or digits-point-digits) holds at most one point |
| `Keypad.DigitThenDotOnOperand` | main.py:169 | on keypad values the `\d+\.` search is true exactly when the value holds a point |
| `Keypad.TypedIsOperand` | main.py:174-182 | a digit press on a keypad value gives a keypad value, provided a pending point belongs to a value with no point |
| `Keypad.PressKeepsInv` | main.py:159-182 | a key press keeps the invariant |
| `Keypad.SetOperatorKeepsInv` | main.py:119-121 | an operator press with one of the four symbols keeps the invariant |
| `Keypad.HandleEqualKeepsInv` | main.py:123-133 | equals keeps the invariant, whatever the service replies |
| `CalculatorWindow.Calculator.constructor` | main.py:16-26 | a new window has empty operands and operator, step 0, no pending point, shows no dialog, and is valid |
| `CalculatorWindow.Calculator.ClearScreen` | main.py:152-156 | the fields become those of the cleared state: empty strings, step 0, flag off, display 0; no dialog |
| `CalculatorWindow.Calculator.GetCurrentValue` | main.py:142-149 | returns the value `Keypad.CurrentValue` reads and leaves the fields in the state it gives |
| `CalculatorWindow.Calculator.SetCurrentValue` | main.py:135-140 | updates the fields as `Keypad.SetCurrentValue` does |
| `CalculatorWindow.Calculator.KeyboardEventHandler` | main.py:159-182 | updates the fields as `Keypad.Press` does, appends its dialog, and keeps the object valid |
| `CalculatorWindow.Calculator.SetOperator` | main.py:119-121 | updates the fields as `Keypad.SetOperator` does and keeps the object valid |
| `CalculatorWindow.Calculator.SendOperation` | main.py:32-75 | updates the fields as `Keypad.SendOperation` does, appends its dialog, and leaves the object valid from any state |
| `CalculatorWindow.Calculator.HandleEqualKeyEvent` | main.py:123-133 | updates the fields as `Keypad.HandleEqual` does, appends its dialog, and keeps the object valid |
| `Sessions.Symbol` | main.py:113-116 | each operator button passes one of the four operator symbols |
| `Sessions.Apply` | main.py:100-117 | clear leaves the cleared state; an operator button sets its symbol and step 1 with no dialog; only digit, point and equals buttons can show a dialog |
| `Sessions.Run` | main.py:100-117 | a run of presses shows at most one dialog per press, and an empty run changes nothing |
| `Sessions.ApplyKeepsInv` | main.py:100-117 | every button of the keypad keeps the invariant |
| `Sessions.RunKeepsInv` | main.py:100-117 | any sequence of presses keeps the invariant, whatever the service replies |
| `Sessions.OperandsHaveAtMostOnePoint` | main.py:168-181 | from a cleared window, after any presses, neither operand holds more than one point |
| `Sessions.SecondOperandBranchUnreachable` | main.py:124-131 | in every reachable state with no operator, the second operand is empty and equals shows the first operand, or 0 |
| `Sessions.TypingDigits` | main.py:159-182 | digits typed into the first operand with no point pending, while it stays within ten characters, are appended in order with no dialog and no other change, and the display then shows the operand |
| `Sessions.TypedDigitsSpellFirstOperand` | main.py:159-182 | from a cleared window, up to ten digit presses spell the first operand |
| `Sessions.EleventhDigitRejected` | main.py:160-166 | after ten digits an eleventh is refused with the length dialog and changes nothing |
| `Sessions.LengthCapIsNotABound` | main.py:161 | nine digits, the point and a digit give an 11-character operand, and the next digit is accepted and makes it 12 |
| `Sessions.SevenEqualsShowsSeven` | main.py:123-132 | `7 =` shows 7, sets step 3 and shows no dialog |
| `Sessions.FivePlusEqualsSendsFivePlusZero` | main.py:33-36 | `5 + =` makes the outcome the service's reply to the prompt followed by `5+0` |

## Left out

- The PyQt user interface: `loadUi`, window sizing and the `__main__` block. The signal wiring in
  `register_click_actions` is used only as the input alphabet in `Sessions`.
- Message boxes are modelled as `(title, text)` records appended to `dialogs`. Their blocking `exec()` is
  not modelled.
- Sound: `init_player` and `play_sound` have no effect on the state.
- The network and the environment: `load_dotenv`, `getenv`, the API key and the model name. The reply is
  the oracle `respond`.
- `Sessions.Run`: `respond` is a fixed function of the request text, so within one run the same request
  always gets the same reply, which a real completion service does not promise. Every invariant lemma holds
  for any `respond`, so none of them depends on this.
- `openai.ChatCompletion.create` is called outside the `try`, so an error it raises escapes
  `send_operation` with any empty operand already set to the integer 0 and no reset. That path is not modelled;
  the model claims a reset only for replies that arrive.
- `Evaluator.PrepareResponse`: the formatting with `"{:.2e}"`, `upper()` and `replace("E+", "E")` is the
  parameter `scientific`, because Python's float parsing and formatting are not modelled.
- `Text.HasDigitThenDot`: `\d` is modelled as an ASCII digit. The calculator's operands hold only ASCII
  digits and points, and on those this is the same check.
- `CalculatorWindow.Calculator.SetOperator` and `Keypad.SetOperatorKeepsInv` require one of `+ - * /`, the
  only arguments the callers of `set_operator` pass. An empty operator would break the invariant that says
  an operator is set exactly in step 1.
