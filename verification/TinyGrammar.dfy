/**
 Tiny's precedence-climbing parser as functions from a position to a parse. The mutual recursion
 terminates on the tokens left and the rank of the rule.
 */
module TinyGrammar {
  import opened Wrappers
  import opened Decimal
  import opened TinyLexer
  import E = TinyExpression

  datatype ParseError =
    | ParseError(expected: string, found: Kind, start: nat, end: nat)
    | DuplicateParameter(name: string, start: nat, end: nat)

  /** What was parsed and the position after it. */
  datatype Parse<T> = Parse(value: T, next: nat)

  type Parsed<T> = Result<Parse<T>, ParseError>

  function Current(ts: seq<Token>, i: nat): (t: Token)
    ensures i >= |ts| ==> t.kind == Eof && t.lexeme == "" && t.start == t.end
    ensures i >= |ts| ==> if ts == [] then t.start == 0 else t.start == ts[|ts| - 1].end
  {
    if i < |ts| then ts[i]
    else
      var end := if ts == [] then 0 else ts[|ts| - 1].end;
      Token(Eof, "", end, end)
  }

  function Unexpected<T>(ts: seq<Token>, i: nat, expected: string): Parsed<T> {
    var token := Current(ts, i);
    Err(ParseError(expected, token.kind, token.start, token.end))
  }

  function OperatorOf(kind: Kind): Option<E.BinaryOperator> {
    match kind
    case Plus => Some(E.Plus)
    case Minus => Some(E.Minus)
    case Star => Some(E.Star)
    case Slash => Some(E.Slash)
    case Percent => Some(E.Percent)
    case Less => Some(E.Less)
    case Greater => Some(E.Greater)
    case _ => None
  }

  function Precedence(op: E.BinaryOperator): (p: nat)
    ensures 5 <= p <= 20
  {
    match op
    case Less => 5
    case Greater => 5
    case Plus => 10
    case Minus => 10
    case Star => 20
    case Slash => 20
    case Percent => 20
  }

  function NumberOf(lexeme: string): nat {
    if AllDigits(lexeme) then ValueOf(lexeme) else 0
  }

  /** A parse consumes at least one token and never runs past the end. */
  ghost predicate Consumes<T>(ts: seq<Token>, i: nat, r: Parsed<T>) {
    r.Ok? ==> i < r.value.next <= |ts|
  }

  function ParsePrimary(ts: seq<Token>, i: nat): (r: Parsed<E.Expression>)
    requires i <= |ts|
    ensures Consumes(ts, i, r)
    decreases |ts| - i, 1
  {
    var token := Current(ts, i);
    if token.kind == Integer then
      Ok(Parse(E.Integer(NumberOf(token.lexeme), E.Span(token.start, token.end)), i + 1))
    else if token.kind == Identifier then
      if Current(ts, i + 1).kind != LeftParen then
        Ok(Parse(E.Name(token.lexeme, E.Span(token.start, token.end)), i + 1))
      else
        var arguments :- ParseArguments(ts, i + 2);
        var close := Current(ts, arguments.next);
        if close.kind != RightParen then Unexpected(ts, arguments.next, "')'")
        else Ok(Parse(E.Call(token.lexeme, arguments.value, E.Span(token.start, close.end)), arguments.next + 1))
    else if token.kind == LeftParen then
      var inner :- ParseInternal(ts, i + 1);
      if Current(ts, inner.next).kind != RightParen then Unexpected(ts, inner.next, "')'")
      else Ok(Parse(inner.value, inner.next + 1))
    else Unexpected(ts, i, "an integer, identifier, or parenthesized expression")
  }

  /** The arguments of a call, up to but not including its closing parenthesis. */
  function ParseArguments(ts: seq<Token>, i: nat): (r: Parsed<seq<E.Expression>>)
    requires i <= |ts|
    ensures r.Ok? ==> i <= r.value.next <= |ts|
    decreases |ts| - i, 6
  {
    if Current(ts, i).kind == RightParen then Ok(Parse([], i)) else ParseArgumentList(ts, i)
  }

  function ParseArgumentList(ts: seq<Token>, i: nat): (r: Parsed<seq<E.Expression>>)
    requires i <= |ts|
    ensures Consumes(ts, i, r)
    decreases |ts| - i, 5
  {
    var first :- ParseInternal(ts, i);
    if Current(ts, first.next).kind != Comma then Ok(Parse([first.value], first.next))
    else
      var rest :- ParseArgumentList(ts, first.next + 1);
      Ok(Parse([first.value] + rest.value, rest.next))
  }

  function ParseIf(ts: seq<Token>, i: nat): (r: Parsed<E.Expression>)
    requires i <= |ts|
    ensures Consumes(ts, i, r)
    decreases |ts| - i, 3
  {
    if Current(ts, i).kind != KwIf then Unexpected(ts, i, "'if'")
    else
      var condition :- ParseInternal(ts, i + 1);
      if Current(ts, condition.next).kind != KwThen then Unexpected(ts, condition.next, "'then'")
      else
        var onTrue :- ParseInternal(ts, condition.next + 1);
        if Current(ts, onTrue.next).kind != KwElse then Unexpected(ts, onTrue.next, "'else'")
        else
          var onFalse :- ParseInternal(ts, onTrue.next + 1);
          var span := E.Span(Current(ts, i).start, onFalse.value.span.end);
          Ok(Parse(E.If(condition.value, onTrue.value, onFalse.value, span), onFalse.next))
  }

  function ParseUnary(ts: seq<Token>, i: nat): (r: Parsed<E.Expression>)
    requires i <= |ts|
    ensures Consumes(ts, i, r)
    decreases |ts| - i, 2
  {
    if Current(ts, i).kind != Minus then ParsePrimary(ts, i)
    else
      var operand :- ParseUnary(ts, i + 1);
      Ok(Parse(E.Unary(operand.value, E.Span(Current(ts, i).start, operand.value.span.end)), operand.next))
  }

  function ParseBinary(ts: seq<Token>, i: nat, minimum: nat): (r: Parsed<E.Expression>)
    requires i <= |ts|
    ensures Consumes(ts, i, r)
    decreases |ts| - i, 3
  {
    var left :- ParseUnary(ts, i);
    ParseOperators(ts, left.value, left.next, minimum)
  }

  /** Extends a left operand with every operator of at least the minimum precedence. */
  function ParseOperators(ts: seq<Token>, left: E.Expression, i: nat, minimum: nat): (r: Parsed<E.Expression>)
    requires i <= |ts|
    ensures r.Ok? ==> i <= r.value.next <= |ts|
    decreases |ts| - i, 0
  {
    var operator := OperatorOf(Current(ts, i).kind);
    if operator.None? || Precedence(operator.value) < minimum then Ok(Parse(left, i))
    else
      var right :- ParseBinary(ts, i + 1, Precedence(operator.value) + 1);
      var whole := E.Binary(operator.value, left, right.value, E.Span(left.span.start, right.value.span.end));
      ParseOperators(ts, whole, right.next, minimum)
  }

  function ParseInternal(ts: seq<Token>, i: nat): (r: Parsed<E.Expression>)
    requires i <= |ts|
    ensures Consumes(ts, i, r)
    decreases |ts| - i, 4
  {
    if Current(ts, i).kind == KwIf then ParseIf(ts, i) else ParseBinary(ts, i, 0)
  }

  function ParseExpression(ts: seq<Token>): Result<E.Expression, ParseError> {
    var expression :- ParseInternal(ts, 0);
    if Current(ts, expression.next).kind != Eof then
      var token := Current(ts, expression.next);
      Err(ParseError("end of input", token.kind, token.start, token.end))
    else Ok(expression.value)
  }
}
