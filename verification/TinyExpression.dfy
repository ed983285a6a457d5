/** Tiny expressions with their source spans, and the span-free rendering of a tree. */
module TinyExpression {
  import opened Decimal

  datatype Span = Span(start: nat, end: nat)

  const NO_SPAN := Span(0, 0)

  datatype BinaryOperator = Plus | Minus | Star | Slash | Percent | Less | Greater

  datatype Expression =
    | Integer(value: nat, span: Span)
    | Name(name: string, span: Span)
    | Unary(operand: Expression, span: Span)
    | Binary(operator: BinaryOperator, left: Expression, right: Expression, span: Span)
    | Call(callee: string, arguments: seq<Expression>, span: Span)
    | If(condition: Expression, onTrue: Expression, onFalse: Expression, span: Span)

  function Symbol(op: BinaryOperator): char {
    match op
    case Plus => '+'
    case Minus => '-'
    case Star => '*'
    case Slash => '/'
    case Percent => '%'
    case Less => '<'
    case Greater => '>'
  }

  /** The tree with every span forgotten. */
  function WithoutSpans(e: Expression): Expression {
    match e
    case Integer(v, _) => Integer(v, NO_SPAN)
    case Name(n, _) => Name(n, NO_SPAN)
    case Unary(o, _) => Unary(WithoutSpans(o), NO_SPAN)
    case Binary(op, l, r, _) => Binary(op, WithoutSpans(l), WithoutSpans(r), NO_SPAN)
    case Call(c, arguments, _) => Call(c, AllWithoutSpans(arguments), NO_SPAN)
    case If(c, t, f, _) => If(WithoutSpans(c), WithoutSpans(t), WithoutSpans(f), NO_SPAN)
  }

  function AllWithoutSpans(es: seq<Expression>): seq<Expression> {
    if es == [] then [] else [WithoutSpans(es[0])] + AllWithoutSpans(es[1..])
  }

  function Render(e: Expression): string {
    match e
    case Integer(v, _) => Digits(v)
    case Name(n, _) => n
    case Unary(o, _) => "(- " + Render(o) + ")"
    case Binary(op, l, r, _) => "(" + [Symbol(op)] + " " + Render(l) + " " + Render(r) + ")"
    case Call(c, arguments, _) => "(call " + c + RenderArguments(arguments) + ")"
    case If(c, t, f, _) => "(if " + Render(c) + " " + Render(t) + " " + Render(f) + ")"
  }

  function RenderArguments(es: seq<Expression>): string {
    if es == [] then "" else " " + Render(es[0]) + RenderArguments(es[1..])
  }

  /** Rendering sees nothing of the spans. */
  lemma {:induction false} RenderWithoutSpans(e: Expression)
    ensures Render(WithoutSpans(e)) == Render(e)
  {
    match e
    case Integer(_, _) =>
    case Name(_, _) =>
    case Unary(o, _) => RenderWithoutSpans(o);
    case Binary(_, l, r, _) => RenderWithoutSpans(l); RenderWithoutSpans(r);
    case Call(_, arguments, _) => RenderArgumentsWithoutSpans(arguments);
    case If(c, t, f, _) => RenderWithoutSpans(c); RenderWithoutSpans(t); RenderWithoutSpans(f);
  }

  lemma {:induction false} RenderArgumentsWithoutSpans(es: seq<Expression>)
    ensures RenderArguments(AllWithoutSpans(es)) == RenderArguments(es)
  {
    if es != [] {
      RenderWithoutSpans(es[0]);
      RenderArgumentsWithoutSpans(es[1..]);
    }
  }
}
