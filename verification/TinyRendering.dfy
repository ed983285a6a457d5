/** The rendering of an expression tells it apart from every other one: only spans are forgotten. */
module TinyRendering {
  import opened Decimal
  import opened TinyRoundTrip
  import opened TinyExpression

  /** What may follow a rendered expression inside another one. */
  ghost predicate Ends(x: string) {
    x == "" || x[0] == ' ' || x[0] == ')'
  }

  /** Nothing that could be mistaken for what follows. */
  ghost predicate IsSolid(a: string) {
    a != "" && forall i :: 0 <= i < |a| ==> a[i] != ' ' && a[i] != ')' && a[i] != '('
  }

  lemma Cancel(p: string, a: string, b: string)
    requires p + a == p + b
    ensures a == b
  {
    assert a == (p + a)[|p|..] && b == (p + b)[|p|..];
  }

  lemma SolidAgree(a: string, b: string, x: string, y: string)
    requires IsSolid(a) && IsSolid(b) && Ends(x) && Ends(y) && a + x == b + y
    ensures a == b && x == y
  {
    assert forall i :: 0 <= i < |a| ==> (a + x)[i] == a[i];
    assert forall i :: 0 <= i < |b| ==> (b + y)[i] == b[i];
    assert x != "" ==> (a + x)[|a|] == x[0];
    assert y != "" ==> (b + y)[|b|] == y[0];
    assert a == (a + x)[..|a|] && b == (b + y)[..|b|];
    Cancel(a, x, y);
  }

  /** Everything but an integer and a name is rendered in parentheses. */
  predicate IsLeaf(e: Expression) {
    e.Integer? || e.Name?
  }

  lemma LeafIsSolid(e: Expression)
    requires IsLeaf(e) && Writable(e)
    ensures IsSolid(Render(e))
    ensures IsNumeral(Render(e)[0]) <==> e.Integer?
  {
  }

  lemma LeavesDiffer(e: Expression, d: Expression, x: string, y: string)
    requires IsLeaf(e) && IsLeaf(d) && Writable(e) && Writable(d) && Ends(x) && Ends(y)
    requires Render(e) + x == Render(d) + y
    ensures WithoutSpans(e) == WithoutSpans(d) && x == y
  {
    LeafIsSolid(e);
    LeafIsSolid(d);
    SolidAgree(Render(e), Render(d), x, y);
    if e.Integer? {
      ValueOfDigits(e.value);
      ValueOfDigits(d.value);
    }
  }

  /** What a rendering starts with. */
  function Head(e: Expression): string {
    match e
    case Unary(_, _) => "(- "
    case Binary(op, _, _, _) => "(" + [Symbol(op)] + " "
    case Call(_, _, _) => "(call "
    case If(_, _, _, _) => "(if "
    case _ => ""
  }

  function Tail(e: Expression): string {
    match e
    case Unary(o, _) => Render(o) + ")"
    case Binary(_, l, r, _) => Render(l) + (" " + (Render(r) + ")"))
    case Call(c, arguments, _) => c + (RenderArguments(arguments) + ")")
    case If(c, t, f, _) => Render(c) + (" " + (Render(t) + (" " + (Render(f) + ")"))))
    case _ => Render(e)
  }

  lemma TwoParts(head: string, a: string, b: string)
    ensures head + a + " " + b + ")" == head + (a + (" " + (b + ")")))
  {
  }

  lemma ThreeParts(head: string, a: string, b: string, c: string)
    ensures head + a + " " + b + " " + c + ")" == head + (a + (" " + (b + (" " + (c + ")")))))
  {
  }

  lemma OnePart(head: string, a: string, b: string)
    ensures head + a + b + ")" == head + (a + (b + ")"))
  {
  }

  lemma RenderUnary(e: Expression)
    requires e.Unary?
    ensures Render(e) == Head(e) + Tail(e)
  {
    var a := Render(e.operand);
    assert Render(e) == "(- " + a + ")";
    hide Render;
    assert "(- " + a + ")" == "(- " + (a + ")");
  }

  lemma RenderBinary(e: Expression)
    requires e.Binary?
    ensures Render(e) == Head(e) + Tail(e)
  {
    var a, b := Render(e.left), Render(e.right);
    assert Render(e) == "(" + [Symbol(e.operator)] + " " + a + " " + b + ")";
    hide Render;
    TwoParts("(" + [Symbol(e.operator)] + " ", a, b);
  }

  lemma RenderCall(e: Expression)
    requires e.Call?
    ensures Render(e) == Head(e) + Tail(e)
  {
    var a := RenderArguments(e.arguments);
    assert Render(e) == "(call " + e.callee + a + ")";
    hide Render, RenderArguments;
    OnePart("(call ", e.callee, a);
  }

  lemma RenderIf(e: Expression)
    requires e.If?
    ensures Render(e) == Head(e) + Tail(e)
  {
    var a, b, c := Render(e.condition), Render(e.onTrue), Render(e.onFalse);
    assert Render(e) == "(if " + a + " " + b + " " + c + ")";
    hide Render;
    ThreeParts("(if ", a, b, c);
  }

  lemma RenderIs(e: Expression)
    ensures Render(e) == Head(e) + Tail(e)
  {
    if IsLeaf(e) { assert Head(e) + Tail(e) == Render(e); }
    hide Render, Head, Tail;
    if e.Unary? { RenderUnary(e); }
    if e.Binary? { RenderBinary(e); }
    if e.Call? { RenderCall(e); }
    if e.If? { RenderIf(e); }
  }

  /** Of two trees in parentheses with one rendering, the heads are the same. */
  lemma HeadsAgree(e: Expression, d: Expression, x: string, y: string)
    requires !IsLeaf(e) && !IsLeaf(d) && Head(e) + x == Head(d) + y
    ensures Head(e) == Head(d) && x == y
    ensures e.Call? <==> d.Call?
    ensures e.If? <==> d.If?
    ensures e.Binary? && d.Binary? ==> e.operator == d.operator
  {
    assert (Head(e) + x)[0] == Head(e)[0] && (Head(e) + x)[1] == Head(e)[1] && (Head(e) + x)[2] == Head(e)[2];
    assert (Head(d) + y)[0] == Head(d)[0] && (Head(d) + y)[1] == Head(d)[1] && (Head(d) + y)[2] == Head(d)[2];
    assert Head(e) == Head(d);
    Cancel(Head(e), x, y);
  }

  lemma StartsWith(e: Expression, x: string)
    requires Writable(e)
    ensures Render(e) != "" && (Render(e) + x)[0] == Render(e)[0] && (Render(e)[0] == '(' <==> !IsLeaf(e))
  {
    if IsLeaf(e) { LeafIsSolid(e); } else { RenderIs(e); }
  }

  lemma TailFollows(e: Expression, x: string)
    ensures Render(e) + x == Head(e) + (Tail(e) + x)
  {
    RenderIs(e);
    hide Render, Head, Tail;
    assert Head(e) + Tail(e) + x == Head(e) + (Tail(e) + x);
  }

  lemma {:induction false} TellsApart(e: Expression, d: Expression, x: string, y: string)
    requires Writable(e) && Writable(d) && Ends(x) && Ends(y) && Render(e) + x == Render(d) + y
    ensures WithoutSpans(e) == WithoutSpans(d) && x == y
    decreases e, 2
  {
    hide Render, Head, Tail;
    StartsWith(e, x);
    StartsWith(d, y);
    if IsLeaf(e) {
      LeavesDiffer(e, d, x, y);
    } else {
      TailFollows(e, x);
      TailFollows(d, y);
      HeadsAgree(e, d, Tail(e) + x, Tail(d) + y);
      TailsAgree(e, d, x, y);
    }
  }

  lemma {:induction false} TailsAgree(e: Expression, d: Expression, x: string, y: string)
    requires Writable(e) && Writable(d) && Ends(x) && Ends(y) && !IsLeaf(e) && !IsLeaf(d)
    requires Tail(e) + x == Tail(d) + y && Head(e) == Head(d) && (e.Call? <==> d.Call?) && (e.If? <==> d.If?)
    requires e.Binary? && d.Binary? ==> e.operator == d.operator
    ensures WithoutSpans(e) == WithoutSpans(d) && x == y
    decreases e, 1
  {
    match e
    case Unary(_, _) => UnaryAgrees(e, d, x, y);
    case Binary(_, _, _, _) => BinaryAgrees(e, d, x, y);
    case Call(_, _, _) => CallAgrees(e, d, x, y);
    case If(_, _, _, _) => IfAgrees(e, d, x, y);
  }

  /** What follows the first operand of a minus. */
  function AfterFirst(e: Expression, x: string): string
    requires e.Unary? || e.Binary?
  {
    if e.Unary? then ")" + x else " " + (Render(e.right) + (")" + x))
  }

  function FirstOperand(e: Expression): Expression
    requires e.Unary? || e.Binary?
  {
    if e.Unary? then e.operand else e.left
  }

  lemma FirstIs(e: Expression, x: string)
    requires e.Unary? || e.Binary?
    ensures Tail(e) + x == Render(FirstOperand(e)) + AfterFirst(e, x) && Ends(AfterFirst(e, x))
    ensures AfterFirst(e, x) != "" && (AfterFirst(e, x)[0] == ')' <==> e.Unary?)
  {
    hide Render;
    if e.Unary? { assert Tail(e) + x == Render(e.operand) + (")" + x); }
    else { assert Tail(e) + x == Render(e.left) + (" " + (Render(e.right) + (")" + x))); }
  }

  lemma {:induction false} FirstsAgree(e: Expression, d: Expression, x: string, y: string)
    requires (e.Unary? || e.Binary?) && (d.Unary? || d.Binary?) && Writable(e) && Writable(d)
    requires Tail(e) + x == Tail(d) + y
    ensures (e.Unary? <==> d.Unary?) && WithoutSpans(FirstOperand(e)) == WithoutSpans(FirstOperand(d))
    ensures AfterFirst(e, x) == AfterFirst(d, y)
    decreases FirstOperand(e), 3
  {
    hide Render, Tail;
    FirstIs(e, x);
    FirstIs(d, y);
    TellsApart(FirstOperand(e), FirstOperand(d), AfterFirst(e, x), AfterFirst(d, y));
  }

  lemma {:induction false} UnaryAgrees(e: Expression, d: Expression, x: string, y: string)
    requires e.Unary? && (d.Unary? || d.Binary?) && Writable(e) && Writable(d) && Tail(e) + x == Tail(d) + y
    ensures WithoutSpans(e) == WithoutSpans(d) && x == y
    decreases e, 0
  {
    hide Render, Tail;
    FirstsAgree(e, d, x, y);
    Cancel(")", x, y);
  }

  lemma {:induction false} BinaryAgrees(e: Expression, d: Expression, x: string, y: string)
    requires e.Binary? && (d.Unary? || (d.Binary? && d.operator == e.operator)) && Writable(e) && Writable(d) && Tail(e) + x == Tail(d) + y
    requires Ends(x) && Ends(y)
    ensures WithoutSpans(e) == WithoutSpans(d) && x == y
    decreases e, 0
  {
    hide Render, Tail;
    FirstsAgree(e, d, x, y);
    Cancel(" ", Render(e.right) + (")" + x), Render(d.right) + (")" + y));
    TellsApart(e.right, d.right, ")" + x, ")" + y);
    Cancel(")", x, y);
  }

  lemma CallTail(e: Expression, x: string)
    requires e.Call? && Writable(e)
    ensures Tail(e) + x == e.callee + (RenderArguments(e.arguments) + (")" + x)) && IsSolid(e.callee)
  {
    hide RenderArguments;
    var arguments := RenderArguments(e.arguments);
    assert e.callee + (arguments + ")") + x == e.callee + (arguments + (")" + x));
  }

  lemma {:induction false} CallAgrees(e: Expression, d: Expression, x: string, y: string)
    requires e.Call? && d.Call? && Writable(e) && Writable(d) && Tail(e) + x == Tail(d) + y
    ensures WithoutSpans(e) == WithoutSpans(d) && x == y
    decreases e, 0
  {
    hide Render, RenderArguments, Tail, IsSolid;
    var after, after' := RenderArguments(e.arguments) + (")" + x), RenderArguments(d.arguments) + (")" + y);
    CallTail(e, x);
    CallTail(d, y);
    ArgumentsEnd(e.arguments, x);
    ArgumentsEnd(d.arguments, y);
    SolidAgree(e.callee, d.callee, after, after');
    AllTellApart(e.arguments, d.arguments, x, y);
  }

  lemma IfParts(a: string, b: string, c: string, x: string)
    ensures a + (" " + (b + (" " + (c + ")")))) + x == a + (" " + (b + (" " + (c + (")" + x)))))
  {
  }

  lemma {:induction false} IfAgrees(e: Expression, d: Expression, x: string, y: string)
    requires e.If? && d.If? && Writable(e) && Writable(d) && Ends(x) && Ends(y) && Tail(e) + x == Tail(d) + y
    ensures WithoutSpans(e) == WithoutSpans(d) && x == y
    decreases e, 0
  {
    hide Render;
    var x3, y3 := Render(e.onFalse) + (")" + x), Render(d.onFalse) + (")" + y);
    var x2, y2 := Render(e.onTrue) + (" " + x3), Render(d.onTrue) + (" " + y3);
    IfParts(Render(e.condition), Render(e.onTrue), Render(e.onFalse), x);
    IfParts(Render(d.condition), Render(d.onTrue), Render(d.onFalse), y);
    TellsApart(e.condition, d.condition, " " + x2, " " + y2);
    Cancel(" ", x2, y2);
    TellsApart(e.onTrue, d.onTrue, " " + x3, " " + y3);
    Cancel(" ", x3, y3);
    TellsApart(e.onFalse, d.onFalse, ")" + x, ")" + y);
    Cancel(")", x, y);
  }

  lemma ArgumentsEnd(es: seq<Expression>, x: string)
    ensures var rest := RenderArguments(es) + (")" + x); Ends(rest) && rest != "" && (rest[0] == ')' <==> es == [])
  {
    if es != [] { assert (RenderArguments(es) + (")" + x))[0] == RenderArguments(es)[0] == ' '; }
  }

  lemma {:induction false} AllTellApart(es: seq<Expression>, ds: seq<Expression>, x: string, y: string)
    requires AllWritable(es) && AllWritable(ds)
    requires RenderArguments(es) + (")" + x) == RenderArguments(ds) + (")" + y)
    ensures AllWithoutSpans(es) == AllWithoutSpans(ds) && x == y
    decreases es, 2
  {
    ArgumentsEnd(es, x);
    ArgumentsEnd(ds, y);
    hide Render;
    if es == [] {
      assert RenderArguments(es) + (")" + x) == ")" + x && RenderArguments(ds) + (")" + y) == ")" + y;
      Cancel(")", x, y);
    } else {
      var rest, rest' := RenderArguments(es[1..]) + (")" + x), RenderArguments(ds[1..]) + (")" + y);
      ArgumentsEnd(es[1..], x);
      ArgumentsEnd(ds[1..], y);
      assert RenderArguments(es) + (")" + x) == " " + (Render(es[0]) + rest);
      assert RenderArguments(ds) + (")" + y) == " " + (Render(ds[0]) + rest');
      Cancel(" ", Render(es[0]) + rest, Render(ds[0]) + rest');
      TellsApart(es[0], ds[0], rest, rest');
      AllTellApart(es[1..], ds[1..], x, y);
    }
  }

  /** Two trees over identifiers are rendered alike exactly when they are the same up to spans. */
  lemma RendersExactly(e: Expression, d: Expression)
    requires Writable(e) && Writable(d)
    ensures Render(e) == Render(d) <==> WithoutSpans(e) == WithoutSpans(d)
  {
    RenderWithoutSpans(e);
    RenderWithoutSpans(d);
    if Render(e) == Render(d) {
      assert Render(e) + "" == Render(d) + "";
      TellsApart(e, d, "", "");
    }
  }
}
