/**
 * The part of `send_operation` and `prepare_response` (main.py) that does not
 * touch the network: the request text sent to the completion service, the
 * classification of its reply and the length rule of the response formatter.
 */
module Evaluator {
  import opened Wrappers
  import opened Text

  /** The instruction that precedes the expression in every request. */
  const Prompt := "Do not explain it. In case of error, just say '[ERROR] - ' and a very short reason. Solve this:"

  /** What the reply is searched for; the pattern has no trailing space. */
  const ErrorMarker := "[ERROR] -"

  /** The four operator keys. */
  const OperatorSymbols: set<string> := {"+", "-", "*", "/"}

  /** The text of an operand in the request: an empty operand is sent as 0. */
  function OperandText(s: string): (t: string)
    ensures s == "" ==> t == "0"
    ensures t != ""
    ensures s != "" ==> t == s
  {
    if s == "" then "0" else s
  }

  /** The request text: the prompt, then the expression written out, and nothing else. */
  function Request(a: string, op: string, b: string): (r: string)
    ensures |r| == |Prompt| + |a| + |op| + |b|
    ensures r[..|Prompt|] == Prompt
    ensures r[|Prompt|..] == a + op + b
  {
    assert Prompt + a + op + b == Prompt + (a + op + b);
    Prompt + a + op + b
  }

  /**
   * For operands made of keypad characters and one of the four operator
   * symbols, the request text determines the expression: two requests are
   * equal only when their operands and operators are.
   */
  lemma RequestDeterminesExpression(a1: string, op1: string, b1: string, a2: string, op2: string, b2: string)
    requires KeypadChars(a1) && KeypadChars(a2) && KeypadChars(b1) && KeypadChars(b2)
    requires op1 in OperatorSymbols && op2 in OperatorSymbols
    requires Request(a1, op1, b1) == Request(a2, op2, b2)
    ensures a1 == a2 && op1 == op2 && b1 == b2
  {
    assert Request(a1, op1, b1)[|Prompt|..] == Request(a2, op2, b2)[|Prompt|..];
    var e1, e2 := a1 + op1 + b1, a2 + op2 + b2;
    assert e1 == e2;
    assert |op1| == 1 && |op2| == 1;
    assert !IsDigit(op1[0]) && op1[0] != '.';
    assert !IsDigit(op2[0]) && op2[0] != '.';
    KeypadRunBeforeOperator(a1, op1[0], b1);
    KeypadRunBeforeOperator(a2, op2[0], b2);
    assert op1 == [op1[0]] && op2 == [op2[0]];
    assert |a1| == KeypadRun(e1) == KeypadRun(e2) == |a2|;
    assert a1 == e1[..|a1|] == e2[..|a2|] == a2;
    assert op1[0] == e1[|a1|] == e2[|a2|] == op2[0];
    assert b1 == e1[|a1| + 1..] == e2[|a2| + 1..] == b2;
  }

  /** The length of the longest prefix of `s` made of keypad characters. */
  function KeypadRun(s: string): (n: nat)
    ensures n <= |s|
  {
    if s == [] || !(IsDigit(s[0]) || s[0] == '.') then 0 else 1 + KeypadRun(s[1..])
  }

  lemma {:induction false} KeypadRunBeforeOperator(a: string, c: char, rest: string)
    requires KeypadChars(a) && !IsDigit(c) && c != '.'
    ensures KeypadRun(a + [c] + rest) == |a|
  {
    if a != [] {
      assert (a + [c] + rest)[1..] == a[1..] + [c] + rest;
      KeypadRunBeforeOperator(a[1..], c, rest);
    }
  }

  /** What the completion service hands back: a message text, or a reply
      whose content cannot be read (the lookup raising inside the `try`). */
  datatype Reply = Content(text: string) | Unreadable

  /** The three outcomes of one evaluation. */
  datatype Evaluation = Success(value: string) | DomainError(message: string) | Unavailable

  /**
   * The response formatter. `scientific` stands for
   * `"{:.2e}".format(float(v)).upper().replace("E+", "E")`, and is None
   * where `float(v)` raises; that exception is swallowed.
   */
  function PrepareResponse(value: string, scientific: string -> Option<string>): (r: string)
    ensures |value| <= 10 ==> r == value
    ensures r == value || (10 < |value| && scientific(value) == Some(r))
    ensures 10 < |value| && scientific(value).Some? ==> r == scientific(value).value
  {
    if 10 < |value| then
      match scientific(value)
      case Some(formatted) => formatted
      case None => value
    else
      value
  }

  /** How `send_operation` classifies a reply. */
  function Classify(reply: Reply, scientific: string -> Option<string>): (e: Evaluation)
    ensures e.DomainError? <==> reply.Content? && exists i :: OccursAt(reply.text, ErrorMarker, i)
    ensures e.DomainError? ==> e.message == reply.text
    ensures e.Unavailable? <==> reply.Unreadable?
    ensures e.Success? ==> e.value == PrepareResponse(reply.text, scientific)
  {
    ContainsSpec(if reply.Content? then reply.text else "", ErrorMarker);
    match reply
    case Unreadable => Unavailable
    case Content(text) =>
      if Contains(text, ErrorMarker) then DomainError(text) else Success(PrepareResponse(text, scientific))
  }

  /** The marker the prompt asks for ("[ERROR] - ", with a space) is always caught,
      and so is the marker followed directly by any other text. */
  lemma MarkerAnywhereIsDomainError(pre: string, post: string, scientific: string -> Option<string>)
    ensures Classify(Content(pre + "[ERROR] - " + post), scientific) == DomainError(pre + "[ERROR] - " + post)
    ensures Classify(Content(pre + ErrorMarker + post), scientific) == DomainError(pre + ErrorMarker + post)
  {
    assert pre + "[ERROR] - " + post == pre + ErrorMarker + (" " + post);
    ContainsInfix(pre, ErrorMarker, " " + post);
    ContainsInfix(pre, ErrorMarker, post);
    ContainsSpec(pre + ErrorMarker + (" " + post), ErrorMarker);
    ContainsSpec(pre + ErrorMarker + post, ErrorMarker);
  }
}
