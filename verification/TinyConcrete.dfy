/**
 What the expression grammar accepts. A concrete tree is an expression together with every parenthesis of its text;
 the parser accepts exactly the token lists that spell a well formed one, and returns what that tree means.
 */
module TinyConcrete {
  import opened Wrappers
  import opened Decimal
  import opened TinyLexer
  import opened TinyGrammar
  import E = TinyExpression

  /** A token without its place in the source. */
  datatype Word = Word(kind: Kind, lexeme: string)

  const OPEN := Word(LeftParen, "(")
  const CLOSE := Word(RightParen, ")")
  const COMMA := Word(Comma, ",")
  const MINUS := Word(Minus, "-")
  const IF := Word(KwIf, "if")
  const THEN := Word(KwThen, "then")
  const ELSE := Word(KwElse, "else")

  /** The operand level of a prefix operator: above every binary precedence. */
  const UNARY_LEVEL: nat := 21

  function OperatorKind(op: E.BinaryOperator): (kind: Kind)
    ensures OperatorOf(kind) == Some(op)
  {
    match op
    case Plus => Plus
    case Minus => Minus
    case Star => Star
    case Slash => Slash
    case Percent => Percent
    case Less => Less
    case Greater => Greater
  }

  function OperatorWord(op: E.BinaryOperator): Word {
    Word(OperatorKind(op), [E.Symbol(op)])
  }

  // ---------------------------------------------------------------------------
  // Concrete trees
  // ---------------------------------------------------------------------------

  datatype Concrete =
    | Numeral(value: nat)
    | Variable(name: string)
    | Negated(operand: Concrete)
    | Infix(operator: E.BinaryOperator, left: Concrete, right: Concrete)
    | Applied(callee: string, arguments: seq<Concrete>)
    | Conditional(condition: Concrete, onTrue: Concrete, onFalse: Concrete)
    | Grouped(inner: Concrete)

  function Spelling(c: Concrete): seq<Word> {
    match c
    case Numeral(v) => [Word(Integer, Digits(v))]
    case Variable(name) => [Word(Identifier, name)]
    case Negated(o) => [MINUS] + Spelling(o)
    case Infix(op, l, r) => Spelling(l) + ([OperatorWord(op)] + Spelling(r))
    case Applied(f, arguments) => [Word(Identifier, f)] + ([OPEN] + (SpellArguments(arguments) + [CLOSE]))
    case Conditional(x, t, f) => [IF] + (Spelling(x) + ([THEN] + (Spelling(t) + ([ELSE] + Spelling(f)))))
    case Grouped(inner) => [OPEN] + (Spelling(inner) + [CLOSE])
  }

  function SpellArguments(cs: seq<Concrete>): seq<Word> {
    if cs == [] then []
    else if |cs| == 1 then Spelling(cs[0])
    else Spelling(cs[0]) + ([COMMA] + SpellArguments(cs[1..]))
  }

  /** The expression, with no parenthesis and no span. */
  function Meant(c: Concrete): E.Expression {
    match c
    case Numeral(v) => E.Integer(v, E.NO_SPAN)
    case Variable(name) => E.Name(name, E.NO_SPAN)
    case Negated(o) => E.Unary(Meant(o), E.NO_SPAN)
    case Infix(op, l, r) => E.Binary(op, Meant(l), Meant(r), E.NO_SPAN)
    case Applied(f, arguments) => E.Call(f, AllMeant(arguments), E.NO_SPAN)
    case Conditional(x, t, f) => E.If(Meant(x), Meant(t), Meant(f), E.NO_SPAN)
    case Grouped(inner) => Meant(inner)
  }

  function AllMeant(cs: seq<Concrete>): (es: seq<E.Expression>)
    ensures |es| == |cs|
  {
    if cs == [] then [] else [Meant(cs[0])] + AllMeant(cs[1..])
  }

  /** Operators bind to the left by their precedence, and a conditional is no operand without parentheses. */
  predicate Formed(c: Concrete, level: nat)
    decreases c
  {
    match c
    case Negated(o) => Formed(o, UNARY_LEVEL)
    case Infix(op, l, r) => level <= Precedence(op) && Formed(l, Precedence(op)) && Formed(r, Precedence(op) + 1)
    case Applied(_, arguments) => forall i :: 0 <= i < |arguments| ==> Formed(arguments[i], 0)
    case Conditional(x, t, f) => level == 0 && Formed(x, 0) && Formed(t, 0) && Formed(f, 0)
    case Grouped(inner) => Formed(inner, 0)
    case _ => true
  }

  // ---------------------------------------------------------------------------
  // The same trees, layer by layer
  // ---------------------------------------------------------------------------

  /** A primary, or one behind any number of minus signs. */
  ghost predicate IsUnary(c: Concrete)
    decreases c, 0
  {
    match c
    case Numeral(_) => true
    case Variable(_) => true
    case Negated(o) => IsUnary(o)
    case Applied(_, arguments) => forall i :: 0 <= i < |arguments| ==> IsExpression(arguments[i])
    case Grouped(inner) => IsExpression(inner)
    case _ => false
  }

  /** Unaries joined to the left by `*`, `/` and `%`. */
  ghost predicate IsProduct(c: Concrete)
    decreases c, 1
  {
    if c.Infix? then c.operator in {E.Star, E.Slash, E.Percent} && IsProduct(c.left) && IsUnary(c.right) else IsUnary(c)
  }

  /** Products joined to the left by `+` and `-`. */
  ghost predicate IsSum(c: Concrete)
    decreases c, 2
  {
    if c.Infix? && c.operator in {E.Plus, E.Minus} then IsSum(c.left) && IsProduct(c.right) else IsProduct(c)
  }

  /** Sums joined to the left by `<` and `>`. */
  ghost predicate IsComparison(c: Concrete)
    decreases c, 3
  {
    if c.Infix? && c.operator in {E.Less, E.Greater} then IsComparison(c.left) && IsSum(c.right) else IsSum(c)
  }

  /** A conditional of expressions, or a comparison. */
  ghost predicate IsExpression(c: Concrete)
    decreases c, 4
  {
    match c
    case Conditional(x, t, f) => IsExpression(x) && IsExpression(t) && IsExpression(f)
    case _ => IsComparison(c)
  }

  /** How the layers of a tree that is no conditional follow from each other. */
  lemma LayersUnfold(c: Concrete)
    ensures !c.Infix? ==> IsComparison(c) == IsSum(c) == IsProduct(c) == IsUnary(c)
    ensures !c.Conditional? ==> IsExpression(c) == IsComparison(c)
    ensures c.Infix? && c.operator in {E.Plus, E.Minus} ==> IsComparison(c) == IsSum(c) && !IsProduct(c)
    ensures c.Infix? && c.operator in {E.Star, E.Slash, E.Percent} ==> IsComparison(c) == IsSum(c) == IsProduct(c)
    ensures c.Infix? && c.operator in {E.Less, E.Greater} ==> IsSum(c) == IsProduct(c) == false
    ensures c.Infix? || c.Conditional? ==> !IsUnary(c)
  {
  }

  /** The layers are the levels of the precedence table. */
  lemma {:induction false} LayersAreLevels(c: Concrete)
    ensures Formed(c, 0) <==> IsExpression(c)
    ensures forall level: nat :: 0 < level <= 5 ==> (Formed(c, level) <==> IsComparison(c))
    ensures forall level: nat :: 5 < level <= 10 ==> (Formed(c, level) <==> IsSum(c))
    ensures forall level: nat :: 10 < level <= 20 ==> (Formed(c, level) <==> IsProduct(c))
    ensures forall level: nat :: 20 < level ==> (Formed(c, level) <==> IsUnary(c))
  {
    LayersUnfold(c);
    match c
    case Numeral(_) =>
    case Variable(_) =>
    case Negated(o) => LayersAreLevels(o);
    case Infix(_, l, r) =>
      LayersAreLevels(l);
      LayersAreLevels(r);
    case Applied(_, arguments) => forall i | 0 <= i < |arguments| { LayersAreLevels(arguments[i]); }
    case Conditional(x, t, f) =>
      LayersAreLevels(x);
      LayersAreLevels(t);
      LayersAreLevels(f);
    case Grouped(inner) => LayersAreLevels(inner);
  }

  lemma FormedBelow(c: Concrete, high: nat, low: nat)
    requires Formed(c, high) && low <= high
    ensures Formed(c, low)
  {
  }

  // ---------------------------------------------------------------------------
  // Tokens that spell words
  // ---------------------------------------------------------------------------

  /** The token is the word: identifiers are told apart by their text, numerals by the number they write. */
  predicate IsWordFor(t: Token, w: Word) {
    SameWord(Word(t.kind, t.lexeme), w)
  }

  predicate SameWord(v: Word, w: Word) {
    && v.kind == w.kind
    && (w.kind == Identifier ==> v.lexeme == w.lexeme)
    && (w.kind == Integer ==> NumberOf(v.lexeme) == NumberOf(w.lexeme))
  }

  lemma NumberOfDigits(n: nat)
    ensures NumberOf(Digits(n)) == n
  {
    ValueOfDigits(n);
  }

  /** The tokens from a position on begin with the given words. */
  ghost predicate Shows(ts: seq<Token>, i: nat, ws: seq<Word>) {
    i + |ws| <= |ts| && forall k :: 0 <= k < |ws| ==> IsWordFor(ts[i + k], ws[k])
  }

  lemma ShowsBoth(ts: seq<Token>, i: nat, xs: seq<Word>, ys: seq<Word>)
    ensures Shows(ts, i, xs + ys) <==> Shows(ts, i, xs) && Shows(ts, i + |xs|, ys)
  {
    if Shows(ts, i, xs + ys) {
      assert forall k :: 0 <= k < |xs| ==> (xs + ys)[k] == xs[k];
      assert forall k :: 0 <= k < |ys| ==> (xs + ys)[|xs| + k] == ys[k] && ts[i + |xs| + k] == ts[i + (|xs| + k)];
    }
    if Shows(ts, i, xs) && Shows(ts, i + |xs|, ys) {
      forall k | 0 <= k < |xs + ys| ensures IsWordFor(ts[i + k], (xs + ys)[k]) {
        if k >= |xs| { assert ts[i + k] == ts[i + |xs| + (k - |xs|)]; }
      }
    }
  }

  lemma ShowsOne(ts: seq<Token>, i: nat, w: Word)
    requires w.kind != Eof
    ensures Shows(ts, i, [w]) <==> IsWordFor(Current(ts, i), w)
  {
    if i < |ts| { assert ts[i + 0] == ts[i] && [w][0] == w; }
    if Shows(ts, i, [w]) { assert IsWordFor(ts[i + 0], [w][0]); }
  }

  /** A word, then some words, then the rest. */
  lemma ShowsWord(ts: seq<Token>, i: nat, w: Word, first: seq<Word>, rest: seq<Word>)
    requires w.kind != Eof
    ensures Shows(ts, i, [w] + (first + rest))
            <==> IsWordFor(Current(ts, i), w) && Shows(ts, i + 1, first) && Shows(ts, i + 1 + |first|, rest)
  {
    hide Shows;
    ShowsBoth(ts, i, [w], first + rest);
    ShowsBoth(ts, i + 1, first, rest);
    ShowsOne(ts, i, w);
  }

  /** Two words, then the rest. */
  lemma ShowsTwo(ts: seq<Token>, i: nat, v: Word, w: Word, rest: seq<Word>)
    requires v.kind != Eof && w.kind != Eof
    ensures Shows(ts, i, [v] + ([w] + rest)) <==> IsWordFor(Current(ts, i), v) && IsWordFor(Current(ts, i + 1), w) && Shows(ts, i + 2, rest)
  {
    hide Shows;
    ShowsBoth(ts, i, [v], [w] + rest);
    ShowsBoth(ts, i + 1, [w], rest);
    ShowsOne(ts, i, v);
    ShowsOne(ts, i + 1, w);
  }

  // ---------------------------------------------------------------------------
  // The parser accepts only spelled trees
  // ---------------------------------------------------------------------------

  /**
   The expression a tree spelled from a position on is: every part spans from its first token to its last, and
   parentheses are in no span.
   */
  ghost function Placed(ts: seq<Token>, i: nat, c: Concrete): E.Expression
    decreases c
  {
    match c
    case Numeral(v) => E.Integer(v, E.Span(Current(ts, i).start, Current(ts, i).end))
    case Variable(name) => E.Name(name, E.Span(Current(ts, i).start, Current(ts, i).end))
    case Negated(o) =>
      var operand := Placed(ts, i + 1, o);
      E.Unary(operand, E.Span(Current(ts, i).start, operand.span.end))
    case Infix(op, l, r) =>
      var left, right := Placed(ts, i, l), Placed(ts, i + |Spelling(l)| + 1, r);
      E.Binary(op, left, right, E.Span(left.span.start, right.span.end))
    case Applied(f, arguments) =>
      E.Call(f, AllPlaced(ts, i + 2, arguments), E.Span(Current(ts, i).start, Current(ts, i + 2 + |SpellArguments(arguments)|).end))
    case Conditional(x, t, f) =>
      var j, k := i + 1 + |Spelling(x)|, i + 2 + |Spelling(x)| + |Spelling(t)|;
      var onFalse := Placed(ts, k + 1, f);
      E.If(Placed(ts, i + 1, x), Placed(ts, j + 1, t), onFalse, E.Span(Current(ts, i).start, onFalse.span.end))
    case Grouped(inner) => Placed(ts, i + 1, inner)
  }

  ghost function AllPlaced(ts: seq<Token>, i: nat, cs: seq<Concrete>): (es: seq<E.Expression>)
    decreases cs
  {
    if cs == [] then [] else [Placed(ts, i, cs[0])] + AllPlaced(ts, i + |Spelling(cs[0])| + 1, cs[1..])
  }

  /** A parse from one position to another that spells the tree, with the tree's meaning and its places. */
  ghost predicate Spelled(ts: seq<Token>, i: nat, r: Parse<E.Expression>, c: Concrete, level: nat) {
    && Formed(c, level) && Meant(c) == E.WithoutSpans(r.value) && Placed(ts, i, c) == r.value
    && Shows(ts, i, Spelling(c)) && r.next == i + |Spelling(c)|
  }

  /** The same for a list of arguments. */
  ghost predicate AllSpelled(ts: seq<Token>, i: nat, r: Parse<seq<E.Expression>>, cs: seq<Concrete>) {
    && (forall k :: 0 <= k < |cs| ==> Formed(cs[k], 0)) && AllMeant(cs) == E.AllWithoutSpans(r.value)
    && AllPlaced(ts, i, cs) == r.value && Shows(ts, i, SpellArguments(cs)) && r.next == i + |SpellArguments(cs)|
  }

  /** The token is no operator of the minimum, so an operand of it can end here. */
  predicate StopsAt(kind: Kind, minimum: nat) {
    OperatorOf(kind).Some? ==> Precedence(OperatorOf(kind).value) < minimum
  }

  lemma {:induction false} InternalSpelled(ts: seq<Token>, i: nat) returns (c: Concrete)
    requires i <= |ts| && ParseInternal(ts, i).Ok?
    ensures Spelled(ts, i, ParseInternal(ts, i).value, c, 0)
    decreases |ts| - i, 4
  {
    hide Spelled, ParseIf, ParseBinary;
    if Current(ts, i).kind == KwIf { c := IfSpelled(ts, i); } else { c := BinarySpelled(ts, i, 0); }
  }

  lemma {:induction false} IfSpelled(ts: seq<Token>, i: nat) returns (c: Concrete)
    requires i <= |ts| && ParseIf(ts, i).Ok?
    ensures Spelled(ts, i, ParseIf(ts, i).value, c, 0)
    decreases |ts| - i, 3
  {
    hide ParseInternal, Spelling, Meant, Formed, Shows;
    var x := ParseInternal(ts, i + 1).value;
    var t := ParseInternal(ts, x.next + 1).value;
    var f := ParseInternal(ts, t.next + 1).value;
    var a := InternalSpelled(ts, i + 1);
    var b := InternalSpelled(ts, x.next + 1);
    var d := InternalSpelled(ts, t.next + 1);
    c := Conditional(a, b, d);
    FormedConditional(a, b, d);
    ConditionalSpelled(ts, i, a, b, d);
  }

  lemma ConditionalSpelled(ts: seq<Token>, i: nat, a: Concrete, b: Concrete, d: Concrete)
    ensures var c, x, t, f := Conditional(a, b, d), Spelling(a), Spelling(b), Spelling(d);
            var j, k := i + 1 + |x|, i + 2 + |x| + |t|;
            && |Spelling(c)| == 3 + |x| + |t| + |f|
            && (Shows(ts, i, Spelling(c)) <==>
                  && Current(ts, i).kind == KwIf && Shows(ts, i + 1, x)
                  && Current(ts, j).kind == KwThen && Shows(ts, j + 1, t)
                  && Current(ts, k).kind == KwElse && Shows(ts, k + 1, f))
  {
    hide Shows;
    ShowsConditional(ts, i, Spelling(a), Spelling(b), Spelling(d));
    assert Spelling(Conditional(a, b, d)) == [IF] + (Spelling(a) + ([THEN] + (Spelling(b) + ([ELSE] + Spelling(d)))));
  }

  lemma ShowsConditional(ts: seq<Token>, i: nat, x: seq<Word>, t: seq<Word>, f: seq<Word>)
    ensures var ws := [IF] + (x + ([THEN] + (t + ([ELSE] + f))));
            Shows(ts, i, ws) <==>
              && Current(ts, i).kind == KwIf && Shows(ts, i + 1, x)
              && Current(ts, i + 1 + |x|).kind == KwThen && Shows(ts, i + 2 + |x|, t)
              && Current(ts, i + 2 + |x| + |t|).kind == KwElse && Shows(ts, i + 3 + |x| + |t|, f)
  {
    hide Shows;
    var tail := [ELSE] + f;
    ShowsWord(ts, i, IF, x, [THEN] + (t + tail));
    ShowsWord(ts, i + 1 + |x|, THEN, t, tail);
    ShowsBoth(ts, i + 2 + |x| + |t|, [ELSE], f);
    ShowsOne(ts, i + 2 + |x| + |t|, ELSE);
  }

  lemma FormedConditional(a: Concrete, b: Concrete, d: Concrete)
    requires Formed(a, 0) && Formed(b, 0) && Formed(d, 0)
    ensures Formed(Conditional(a, b, d), 0) && Meant(Conditional(a, b, d)) == E.If(Meant(a), Meant(b), Meant(d), E.NO_SPAN)
  {
  }

  lemma {:induction false} PrimarySpelled(ts: seq<Token>, i: nat) returns (c: Concrete)
    requires i <= |ts| && ParsePrimary(ts, i).Ok?
    ensures Spelled(ts, i, ParsePrimary(ts, i).value, c, UNARY_LEVEL)
    decreases |ts| - i, 1
  {
    hide ParseInternal, ParseArguments, Spelled, AllSpelled, NumberOf;
    var token := Current(ts, i);
    if token.kind == Integer {
      c := Numeral(NumberOf(token.lexeme));
      LeafIsSpelled(ts, i, c);
    } else if token.kind == Identifier {
      if Current(ts, i + 1).kind != LeftParen {
        c := Variable(token.lexeme);
        LeafIsSpelled(ts, i, c);
      } else {
        var cs := ArgumentsSpelled(ts, i + 2);
        c := Applied(token.lexeme, cs);
        CallIsSpelled(ts, i, cs, ParseArguments(ts, i + 2).value);
      }
    } else {
      var inner := InternalSpelled(ts, i + 1);
      c := Grouped(inner);
      GroupIsSpelled(ts, i, inner, ParseInternal(ts, i + 1).value);
    }
  }

  lemma LeafIsSpelled(ts: seq<Token>, i: nat, c: Concrete)
    requires c.Numeral? || c.Variable?
    requires if c.Numeral? then Current(ts, i).kind == Integer && NumberOf(Current(ts, i).lexeme) == c.value
             else Current(ts, i).kind == Identifier && Current(ts, i).lexeme == c.name
    ensures Spelled(ts, i, Parse(Placed(ts, i, c), i + 1), c, UNARY_LEVEL)
  {
    LeafSpelled(ts, i, c);
  }

  lemma CallIsSpelled(ts: seq<Token>, i: nat, cs: seq<Concrete>, r: Parse<seq<E.Expression>>)
    requires Current(ts, i).kind == Identifier && Current(ts, i + 1).kind == LeftParen
    requires AllSpelled(ts, i + 2, r, cs) && Current(ts, r.next).kind == RightParen
    ensures var span := E.Span(Current(ts, i).start, Current(ts, r.next).end);
            Spelled(ts, i, Parse(E.Call(Current(ts, i).lexeme, r.value, span), r.next + 1), Applied(Current(ts, i).lexeme, cs), UNARY_LEVEL)
  {
    hide Shows, AllMeant, SpellArguments, AllPlaced;
    AppliedSpelled(ts, i, Current(ts, i).lexeme, cs);
  }

  lemma GroupIsSpelled(ts: seq<Token>, i: nat, inner: Concrete, r: Parse<E.Expression>)
    requires Current(ts, i).kind == LeftParen && Spelled(ts, i + 1, r, inner, 0) && Current(ts, r.next).kind == RightParen
    ensures Spelled(ts, i, Parse(r.value, r.next + 1), Grouped(inner), UNARY_LEVEL)
  {
    hide Shows;
    GroupedSpelled(ts, i, inner);
  }

  lemma LeafSpelled(ts: seq<Token>, i: nat, c: Concrete)
    requires c.Numeral? || c.Variable?
    ensures |Spelling(c)| == 1
    ensures Shows(ts, i, Spelling(c)) <==>
              if c.Numeral? then Current(ts, i).kind == Integer && NumberOf(Current(ts, i).lexeme) == c.value
              else Current(ts, i).kind == Identifier && Current(ts, i).lexeme == c.name
  {
    if c.Numeral? { NumberOfDigits(c.value); }
    ShowsOne(ts, i, Spelling(c)[0]);
  }

  lemma GroupedSpelled(ts: seq<Token>, i: nat, inner: Concrete)
    ensures var c, j := Grouped(inner), i + 1 + |Spelling(inner)|;
            && |Spelling(c)| == j + 1 - i
            && (Shows(ts, i, Spelling(c)) <==>
                  Current(ts, i).kind == LeftParen && Shows(ts, i + 1, Spelling(inner)) && Current(ts, j).kind == RightParen)
  {
    assert Spelling(Grouped(inner)) == [OPEN] + (Spelling(inner) + [CLOSE]);
    hide Shows, Spelling;
    ShowsWord(ts, i, OPEN, Spelling(inner), [CLOSE]);
    ShowsOne(ts, i + 1 + |Spelling(inner)|, CLOSE);
  }

  lemma AppliedSpelled(ts: seq<Token>, i: nat, f: string, cs: seq<Concrete>)
    ensures var c, ws := Applied(f, cs), SpellArguments(cs);
            && |Spelling(c)| == 3 + |ws|
            && (Shows(ts, i, Spelling(c)) <==>
                  && Current(ts, i).kind == Identifier && Current(ts, i).lexeme == f && Current(ts, i + 1).kind == LeftParen
                  && Shows(ts, i + 2, ws) && Current(ts, i + 2 + |ws|).kind == RightParen)
  {
    hide Shows, SpellArguments;
    ShowsApplied(ts, i, f, SpellArguments(cs));
    assert Spelling(Applied(f, cs)) == [Word(Identifier, f)] + ([OPEN] + (SpellArguments(cs) + [CLOSE]));
  }

  lemma ShowsApplied(ts: seq<Token>, i: nat, f: string, ws: seq<Word>)
    ensures Shows(ts, i, [Word(Identifier, f)] + ([OPEN] + (ws + [CLOSE]))) <==>
              && Current(ts, i).kind == Identifier && Current(ts, i).lexeme == f && Current(ts, i + 1).kind == LeftParen
              && Shows(ts, i + 2, ws) && Current(ts, i + 2 + |ws|).kind == RightParen
  {
    hide Shows;
    ShowsBoth(ts, i, [Word(Identifier, f)], [OPEN] + (ws + [CLOSE]));
    ShowsOne(ts, i, Word(Identifier, f));
    ShowsWord(ts, i + 1, OPEN, ws, [CLOSE]);
    ShowsOne(ts, i + 2 + |ws|, CLOSE);
  }

  lemma {:induction false} ArgumentsSpelled(ts: seq<Token>, i: nat) returns (cs: seq<Concrete>)
    requires i <= |ts| && ParseArguments(ts, i).Ok?
    ensures AllSpelled(ts, i, ParseArguments(ts, i).value, cs)
    decreases |ts| - i, 6
  {
    hide ParseArgumentList;
    if Current(ts, i).kind == RightParen { cs := []; } else { cs := ArgumentListSpelled(ts, i); }
  }

  lemma {:induction false} ArgumentListSpelled(ts: seq<Token>, i: nat) returns (cs: seq<Concrete>)
    requires i <= |ts| && ParseArgumentList(ts, i).Ok?
    ensures AllSpelled(ts, i, ParseArgumentList(ts, i).value, cs) && cs != []
    decreases |ts| - i, 5
  {
    hide ParseInternal, Spelled, AllSpelled;
    var first := ParseInternal(ts, i).value;
    var c := InternalSpelled(ts, i);
    if Current(ts, first.next).kind != Comma {
      cs := [c];
      LastIsSpelled(ts, i, first, c);
    } else {
      var rest := ParseArgumentList(ts, first.next + 1).value;
      var others := ArgumentListSpelled(ts, first.next + 1);
      cs := [c] + others;
      MoreAreSpelled(ts, i, first, c, rest, others);
    }
  }

  lemma LastIsSpelled(ts: seq<Token>, i: nat, first: Parse<E.Expression>, c: Concrete)
    requires Spelled(ts, i, first, c, 0)
    ensures AllSpelled(ts, i, Parse([first.value], first.next), [c])
  {
    hide Shows, Spelling, Meant, Formed;
    assert [first.value][1..] == [] && [c][1..] == [];
    assert E.AllWithoutSpans([first.value]) == [E.WithoutSpans(first.value)];
    assert AllMeant([c]) == [Meant(c)] + AllMeant([c][1..]) && AllMeant([c][1..]) == [];
    assert AllPlaced(ts, i, [c]) == [Placed(ts, i, c)];
  }

  lemma MoreAreSpelled(ts: seq<Token>, i: nat, first: Parse<E.Expression>, c: Concrete, rest: Parse<seq<E.Expression>>, others: seq<Concrete>)
    requires Spelled(ts, i, first, c, 0) && Current(ts, first.next).kind == Comma
    requires AllSpelled(ts, first.next + 1, rest, others) && others != []
    ensures AllSpelled(ts, i, Parse([first.value] + rest.value, rest.next), [c] + others)
  {
    hide Shows, Spelling, SpellArguments, Meant, Formed, Placed;
    var cs := [c] + others;
    assert cs[1..] == others && ([first.value] + rest.value)[1..] == rest.value;
    CommaSpelled(ts, i, cs);
  }

  lemma CommaSpelled(ts: seq<Token>, i: nat, cs: seq<Concrete>)
    requires |cs| > 1
    ensures var first, rest := Spelling(cs[0]), SpellArguments(cs[1..]);
            && |SpellArguments(cs)| == |first| + 1 + |rest|
            && (Shows(ts, i, SpellArguments(cs)) <==>
                  Shows(ts, i, first) && Current(ts, i + |first|).kind == Comma && Shows(ts, i + |first| + 1, rest))
  {
    hide Shows, Spelling, SpellArguments;
    var first, rest := Spelling(cs[0]), SpellArguments(cs[1..]);
    ArgumentsUnfold(cs);
    ShowsBetween(ts, i, first, COMMA, rest);
  }

  lemma ArgumentsUnfold(cs: seq<Concrete>)
    requires |cs| > 1
    ensures SpellArguments(cs) == Spelling(cs[0]) + ([COMMA] + SpellArguments(cs[1..]))
  {
    hide Spelling;
  }

  /** Some words, then a word, then the rest. */
  lemma ShowsBetween(ts: seq<Token>, i: nat, first: seq<Word>, w: Word, rest: seq<Word>)
    requires w.kind != Eof
    ensures Shows(ts, i, first + ([w] + rest)) <==>
              Shows(ts, i, first) && IsWordFor(Current(ts, i + |first|), w) && Shows(ts, i + |first| + 1, rest)
  {
    hide Shows;
    ShowsBoth(ts, i, first, [w] + rest);
    ShowsBoth(ts, i + |first|, [w], rest);
    ShowsOne(ts, i + |first|, w);
  }

  lemma {:induction false} UnarySpelled(ts: seq<Token>, i: nat) returns (c: Concrete)
    requires i <= |ts| && ParseUnary(ts, i).Ok?
    ensures Spelled(ts, i, ParseUnary(ts, i).value, c, UNARY_LEVEL)
    decreases |ts| - i, 2
  {
    hide ParsePrimary, Shows;
    if Current(ts, i).kind != Kind.Minus {
      c := PrimarySpelled(ts, i);
    } else {
      var operand := UnarySpelled(ts, i + 1);
      c := Negated(operand);
      NegatedSpelled(ts, i, operand);
    }
  }

  lemma NegatedSpelled(ts: seq<Token>, i: nat, operand: Concrete)
    ensures |Spelling(Negated(operand))| == 1 + |Spelling(operand)|
    ensures Shows(ts, i, Spelling(Negated(operand))) <==> Current(ts, i).kind == Kind.Minus && Shows(ts, i + 1, Spelling(operand))
  {
    hide Shows;
    ShowsBoth(ts, i, [MINUS], Spelling(operand));
    ShowsOne(ts, i, MINUS);
  }

  lemma {:induction false} BinarySpelled(ts: seq<Token>, i: nat, minimum: nat) returns (c: Concrete)
    requires i <= |ts| && ParseBinary(ts, i, minimum).Ok? && minimum <= UNARY_LEVEL
    ensures Spelled(ts, i, ParseBinary(ts, i, minimum).value, c, minimum)
    ensures StopsAt(Current(ts, ParseBinary(ts, i, minimum).value.next).kind, minimum)
    decreases |ts| - i, 3
  {
    hide ParseUnary, Shows, Spelling, Meant, Formed;
    var left := ParseUnary(ts, i).value;
    var lc := UnarySpelled(ts, i);
    forall low | 0 <= low <= UNARY_LEVEL ensures Formed(lc, low) { FormedBelow(lc, UNARY_LEVEL, low); }
    c := OperatorsSpelled(ts, i, left.value, lc, left.next, minimum);
  }

  /** The loop extends a spelled left operand by operators that bind no tighter than those in it. */
  lemma {:induction false} OperatorsSpelled(ts: seq<Token>, start: nat, left: E.Expression, lc: Concrete, i: nat, minimum: nat) returns (c: Concrete)
    requires start <= i <= |ts| && ParseOperators(ts, left, i, minimum).Ok? && minimum <= UNARY_LEVEL
    requires Spelled(ts, start, Parse(left, i), lc, minimum)
    requires var op := OperatorOf(Current(ts, i).kind); op.Some? ==> Formed(lc, Precedence(op.value))
    ensures Spelled(ts, start, ParseOperators(ts, left, i, minimum).value, c, minimum)
    ensures StopsAt(Current(ts, ParseOperators(ts, left, i, minimum).value.next).kind, minimum)
    decreases |ts| - i, 0
  {
    hide ParseBinary, Shows, Spelling, Meant;
    var operator := OperatorOf(Current(ts, i).kind);
    if operator.None? || Precedence(operator.value) < minimum {
      c := lc;
    } else {
      var op, p := operator.value, Precedence(operator.value);
      var right := ParseBinary(ts, i + 1, p + 1).value;
      var rc := BinarySpelled(ts, i + 1, p + 1);
      var whole := E.Binary(op, left, right.value, E.Span(left.span.start, right.value.span.end));
      InfixSpelled(ts, start, op, lc, rc);
      InfixMeant(op, lc, rc, left, right.value);
      c := OperatorsSpelled(ts, start, whole, Infix(op, lc, rc), right.next, minimum);
    }
  }

  lemma InfixMeant(op: E.BinaryOperator, lc: Concrete, rc: Concrete, left: E.Expression, right: E.Expression)
    requires Meant(lc) == E.WithoutSpans(left) && Meant(rc) == E.WithoutSpans(right)
    ensures forall span :: Meant(Infix(op, lc, rc)) == E.WithoutSpans(E.Binary(op, left, right, span))
  {
  }

  lemma InfixSpelled(ts: seq<Token>, i: nat, op: E.BinaryOperator, l: Concrete, r: Concrete)
    ensures var c, j := Infix(op, l, r), i + |Spelling(l)|;
            && |Spelling(c)| == |Spelling(l)| + 1 + |Spelling(r)|
            && (Shows(ts, i, Spelling(c)) <==>
                  Shows(ts, i, Spelling(l)) && OperatorOf(Current(ts, j).kind) == Some(op) && Shows(ts, j + 1, Spelling(r)))
  {
    hide Shows;
    ShowsBetween(ts, i, Spelling(l), OperatorWord(op), Spelling(r));
    assert Spelling(Infix(op, l, r)) == Spelling(l) + ([OperatorWord(op)] + Spelling(r));
  }

  // ---------------------------------------------------------------------------
  // The parser accepts every spelled tree
  // ---------------------------------------------------------------------------

  /** A token that may follow an operand of a level without being absorbed into it. */
  predicate Follows(kind: Kind, level: nat) {
    kind != LeftParen && (OperatorOf(kind).Some? ==> Precedence(OperatorOf(kind).value) <= level)
  }

  /** A token that ends an expression. */
  predicate Ends(kind: Kind) {
    kind != LeftParen && OperatorOf(kind).None?
  }

  /** A parse that means the tree, ending here. */
  ghost predicate Reads(r: Parsed<E.Expression>, c: Concrete, next: nat) {
    r.Ok? && r.value.next == next && E.WithoutSpans(r.value.value) == Meant(c)
  }

  ghost predicate ReadsAll(r: Parsed<seq<E.Expression>>, cs: seq<Concrete>, next: nat) {
    r.Ok? && r.value.next == next && E.AllWithoutSpans(r.value.value) == AllMeant(cs)
  }

  /** Only a conditional starts with `if`, and nothing starts with a closer. */
  lemma {:induction false} FirstWord(c: Concrete, level: nat)
    requires Formed(c, level)
    ensures Spelling(c) != []
    ensures !c.Conditional? ==> Spelling(c)[0].kind != KwIf
    ensures Spelling(c)[0].kind != RightParen
    ensures !c.Negated? && !c.Infix? ==> Spelling(c)[0].kind != Kind.Minus
    decreases c
  {
    if c.Infix? { FirstWord(c.left, Precedence(c.operator)); }
  }

  lemma FirstShown(ts: seq<Token>, i: nat, c: Concrete)
    requires Spelling(c) != [] && Shows(ts, i, Spelling(c))
    ensures i < |ts| && Current(ts, i).kind == Spelling(c)[0].kind
  {
    assert IsWordFor(ts[i + 0], Spelling(c)[0]);
  }

  /** A well formed tree spelled where any expression may stand is parsed whole. */
  lemma {:induction false} ReadsSpelled(ts: seq<Token>, i: nat, c: Concrete)
    requires Formed(c, 0) && Shows(ts, i, Spelling(c)) && Ends(Current(ts, i + |Spelling(c)|).kind)
    ensures Reads(ParseInternal(ts, i), c, i + |Spelling(c)|)
    decreases c, 2
  {
    FirstWord(c, 0);
    FirstShown(ts, i, c);
    hide Shows, Spelling, ParseIf, ParseUnary;
    if c.Conditional? {
      ReadsConditional(ts, i, c);
    } else {
      var e: E.Expression;
      if c.Infix? {
        e := ReadsInfix(ts, i, c, 0);
      } else {
        ReadsTight(ts, i, c);
        e := ParseUnary(ts, i).value.value;
      }
      OperatorsStop(ts, e, i + |Spelling(c)|, 0);
    }
  }

  /** The operator loop stops before a token that is no operator of its minimum. */
  lemma OperatorsStop(ts: seq<Token>, left: E.Expression, i: nat, minimum: nat)
    requires i <= |ts| && StopsAt(Current(ts, i).kind, minimum)
    ensures ParseOperators(ts, left, i, minimum) == Ok(Parse(left, i))
  {
  }

  /** The operator loop takes an operator of its minimum together with the operand after it. */
  lemma OperatorsStep(ts: seq<Token>, left: E.Expression, i: nat, minimum: nat, op: E.BinaryOperator, right: E.Expression, next: nat)
    requires i < next <= |ts| && OperatorOf(Current(ts, i).kind) == Some(op) && Precedence(op) >= minimum
    requires ParseBinary(ts, i + 1, Precedence(op) + 1) == Ok(Parse(right, next))
    ensures ParseOperators(ts, left, i, minimum)
         == ParseOperators(ts, E.Binary(op, left, right, E.Span(left.span.start, right.span.end)), next, minimum)
  {
  }

  /** The conditional rule reads a conditional whose parts are read. */
  lemma IfReads(ts: seq<Token>, i: nat, c: Concrete, j: nat, k: nat, next: nat)
    requires c.Conditional? && i < j < k < |ts|
    requires Current(ts, i).kind == KwIf && Current(ts, j).kind == KwThen && Current(ts, k).kind == KwElse
    requires Reads(ParseInternal(ts, i + 1), c.condition, j) && Reads(ParseInternal(ts, j + 1), c.onTrue, k)
    requires Reads(ParseInternal(ts, k + 1), c.onFalse, next)
    ensures Reads(ParseIf(ts, i), c, next)
  {
    hide ParseInternal;
  }

  lemma ShownWithin(ts: seq<Token>, i: nat, ws: seq<Word>)
    requires Shows(ts, i, ws)
    ensures i + |ws| <= |ts|
  {
  }

  lemma {:induction false} ReadsConditional(ts: seq<Token>, i: nat, c: Concrete)
    requires c.Conditional? && Formed(c, 0) && Shows(ts, i, Spelling(c)) && Ends(Current(ts, i + |Spelling(c)|).kind)
    ensures Reads(ParseIf(ts, i), c, i + |Spelling(c)|)
    decreases c, 0
  {
    hide ParseIf, ParseInternal, Reads, Shows, Spelling;
    ConditionalSpelled(ts, i, c.condition, c.onTrue, c.onFalse);
    ShownWithin(ts, i, Spelling(c));
    var x, t := |Spelling(c.condition)|, |Spelling(c.onTrue)|;
    ReadsSpelled(ts, i + 1, c.condition);
    ReadsSpelled(ts, i + 2 + x, c.onTrue);
    ReadsSpelled(ts, i + 3 + x + t, c.onFalse);
    IfReads(ts, i, c, i + 1 + x, i + 2 + x + t, i + |Spelling(c)|);
  }

  /** The unary rule reads what stands in parentheses, behind a minus, or as a primary. */
  lemma ParenthesesRead(ts: seq<Token>, i: nat, inner: Concrete, next: nat)
    requires i < next < |ts| && Current(ts, i).kind == LeftParen && Current(ts, next).kind == RightParen
    requires Reads(ParseInternal(ts, i + 1), inner, next)
    ensures Reads(ParseUnary(ts, i), Grouped(inner), next + 1)
  {
    hide ParseInternal;
  }

  lemma UnaryReads(ts: seq<Token>, i: nat, operand: Concrete, next: nat)
    requires i < |ts| && Current(ts, i).kind == Kind.Minus && Reads(ParseUnary(ts, i + 1), operand, next)
    ensures Reads(ParseUnary(ts, i), Negated(operand), next)
  {
    hide ParsePrimary;
  }

  /** An operand that is no bare infix or conditional is read by the unary rule, whatever follows it. */
  lemma {:induction false} ReadsTight(ts: seq<Token>, i: nat, c: Concrete)
    requires !c.Infix? && !c.Conditional? && Formed(c, 0) && Shows(ts, i, Spelling(c))
    requires Current(ts, i + |Spelling(c)|).kind != LeftParen
    ensures Reads(ParseUnary(ts, i), c, i + |Spelling(c)|)
    decreases c, 1
  {
    hide ParseUnary, ParsePrimary, ParseInternal, Reads, Shows;
    match c
    case Numeral(_) => ReadsLeaf(ts, i, c);
    case Variable(_) => ReadsLeaf(ts, i, c);
    case Negated(o) =>
      NegatedSpelled(ts, i, o);
      ShownWithin(ts, i, Spelling(c));
      NegatedOperand(o);
      ReadsTight(ts, i + 1, o);
      UnaryReads(ts, i, o, i + |Spelling(c)|);
    case Applied(_, _) =>
      ReadsApplied(ts, i, c);
    case Grouped(inner) =>
      GroupedSpelled(ts, i, inner);
      ShownWithin(ts, i, Spelling(c));
      ReadsSpelled(ts, i + 1, inner);
      ParenthesesRead(ts, i, inner, i + 1 + |Spelling(inner)|);
  }

  lemma NegatedOperand(o: Concrete)
    requires Formed(o, UNARY_LEVEL)
    ensures !o.Infix? && !o.Conditional? && Formed(o, 0)
  {
    FormedBelow(o, UNARY_LEVEL, 0);
  }

  lemma ReadsLeaf(ts: seq<Token>, i: nat, c: Concrete)
    requires c.Numeral? || c.Variable?
    requires Shows(ts, i, Spelling(c)) && Current(ts, i + |Spelling(c)|).kind != LeftParen
    ensures Reads(ParseUnary(ts, i), c, i + |Spelling(c)|)
  {
    ShowsOne(ts, i, Spelling(c)[0]);
    assert Spelling(c) == [Spelling(c)[0]];
    if c.Numeral? { NumberOfDigits(c.value); }
  }

  lemma CallReads(ts: seq<Token>, i: nat, c: Concrete, next: nat)
    requires c.Applied? && i + 2 <= next < |ts|
    requires Current(ts, i).kind == Identifier && Current(ts, i).lexeme == c.callee && Current(ts, i + 1).kind == LeftParen
    requires ReadsAll(ParseArguments(ts, i + 2), c.arguments, next) && Current(ts, next).kind == RightParen
    ensures Reads(ParseUnary(ts, i), c, next + 1)
  {
    hide ParseArguments;
  }

  lemma {:induction false} ReadsApplied(ts: seq<Token>, i: nat, c: Concrete)
    requires c.Applied? && Formed(c, 0) && Shows(ts, i, Spelling(c))
    ensures Reads(ParseUnary(ts, i), c, i + |Spelling(c)|)
    decreases c, 0
  {
    hide ParseUnary, ParseArgumentList, Reads, Shows;
    var ws := SpellArguments(c.arguments);
    AppliedSpelled(ts, i, c.callee, c.arguments);
    ShownWithin(ts, i, Spelling(c));
    if c.arguments != [] {
      FirstArgumentWord(ts, i + 2, c.arguments);
      ReadsArguments(ts, i + 2, c.arguments);
    }
    CallReads(ts, i, c, i + 2 + |ws|);
  }

  lemma FirstArgumentWord(ts: seq<Token>, i: nat, cs: seq<Concrete>)
    requires cs != [] && Formed(cs[0], 0) && Shows(ts, i, SpellArguments(cs))
    ensures i < |ts| && Current(ts, i).kind != RightParen
  {
    FirstWord(cs[0], 0);
    assert IsWordFor(ts[i + 0], SpellArguments(cs)[0]);
  }

  lemma {:induction false} ReadsArguments(ts: seq<Token>, i: nat, cs: seq<Concrete>)
    requires cs != [] && (forall k :: 0 <= k < |cs| ==> Formed(cs[k], 0)) && Shows(ts, i, SpellArguments(cs))
    requires Current(ts, i + |SpellArguments(cs)|).kind == RightParen
    ensures ReadsAll(ParseArgumentList(ts, i), cs, i + |SpellArguments(cs)|)
    decreases cs, 2
  {
    hide ParseArgumentList, ParseInternal, Reads, Shows, Spelling;
    ShownWithin(ts, i, SpellArguments(cs));
    if |cs| == 1 {
      ReadsSpelled(ts, i, cs[0]);
      LastArgumentReads(ts, i, cs, i + |SpellArguments(cs)|);
    } else {
      var j := i + |Spelling(cs[0])|;
      CommaSpelled(ts, i, cs);
      ReadsSpelled(ts, i, cs[0]);
      ReadsArguments(ts, j + 1, cs[1..]);
      ArgumentReads(ts, i, cs, j, i + |SpellArguments(cs)|);
    }
  }

  lemma LastArgumentReads(ts: seq<Token>, i: nat, cs: seq<Concrete>, next: nat)
    requires i <= |ts| && |cs| == 1 && Reads(ParseInternal(ts, i), cs[0], next) && Current(ts, next).kind != Comma
    ensures ReadsAll(ParseArgumentList(ts, i), cs, next)
  {
    hide ParseInternal;
    var first := ParseInternal(ts, i).value.value;
    assert [first][1..] == [] && cs[1..] == [];
    assert AllMeant(cs) == [Meant(cs[0])] && E.AllWithoutSpans([first]) == [E.WithoutSpans(first)];
  }

  lemma ArgumentReads(ts: seq<Token>, i: nat, cs: seq<Concrete>, j: nat, next: nat)
    requires i <= j < |ts| && cs != [] && Reads(ParseInternal(ts, i), cs[0], j) && Current(ts, j).kind == Comma
    requires ReadsAll(ParseArgumentList(ts, j + 1), cs[1..], next)
    ensures ReadsAll(ParseArgumentList(ts, i), cs, next)
  {
    hide ParseInternal;
    var first, rest := ParseInternal(ts, i).value.value, ParseArgumentList(ts, j + 1).value.value;
    assert ([first] + rest)[1..] == rest;
  }

  lemma OperandsCombine(ts: seq<Token>, i: nat, at: nat, next: nat, op: E.BinaryOperator,
                        left: E.Expression, right: E.Expression, minimum: nat)
    requires i <= |ts| && at < next <= |ts| && OperatorOf(Current(ts, at).kind) == Some(op) && minimum <= Precedence(op)
    requires ParseBinary(ts, i, minimum) == ParseOperators(ts, left, at, minimum)
    requires ParseBinary(ts, at + 1, Precedence(op) + 1) == ParseOperators(ts, right, next, Precedence(op) + 1)
    requires Follows(Current(ts, next).kind, Precedence(op))
    ensures ParseBinary(ts, i, minimum)
         == ParseOperators(ts, E.Binary(op, left, right, E.Span(left.span.start, right.span.end)), next, minimum)
  {
    OperatorsStop(ts, right, next, Precedence(op) + 1);
    OperatorsStep(ts, left, at, minimum, op, right, next);
  }

  /** A bare infix leaves the operator loop holding exactly it as the left operand. */
  lemma {:induction false} ReadsInfix(ts: seq<Token>, i: nat, c: Concrete, minimum: nat) returns (e: E.Expression)
    requires c.Infix? && Formed(c, minimum) && Shows(ts, i, Spelling(c))
    requires Follows(Current(ts, i + |Spelling(c)|).kind, Precedence(c.operator))
    ensures E.WithoutSpans(e) == Meant(c) && i + |Spelling(c)| <= |ts|
    ensures ParseBinary(ts, i, minimum) == ParseOperators(ts, e, i + |Spelling(c)|, minimum)
    decreases c, 0
  {
    hide ParseBinary, ParseOperators, ParseUnary, Shows, Spelling;
    var p := Precedence(c.operator);
    InfixSpelled(ts, i, c.operator, c.left, c.right);
    ShownWithin(ts, i, Spelling(c));
    var at := i + |Spelling(c.left)|;
    var left := ReadsOperand(ts, i, c.left, p, minimum);
    var right := ReadsOperand(ts, at + 1, c.right, p + 1, p + 1);
    OperandsCombine(ts, i, at, i + |Spelling(c)|, c.operator, left, right, minimum);
    e := E.Binary(c.operator, left, right, E.Span(left.span.start, right.span.end));
  }

  lemma {:induction false} ReadsOperand(ts: seq<Token>, i: nat, c: Concrete, level: nat, minimum: nat) returns (e: E.Expression)
    requires Formed(c, level) && 0 < level && minimum <= level && Shows(ts, i, Spelling(c))
    requires Follows(Current(ts, i + |Spelling(c)|).kind, level)
    ensures E.WithoutSpans(e) == Meant(c) && i + |Spelling(c)| <= |ts|
    ensures ParseBinary(ts, i, minimum) == ParseOperators(ts, e, i + |Spelling(c)|, minimum)
    decreases c, 2
  {
    hide Shows, Spelling, ParseOperators, ParseUnary;
    ShownWithin(ts, i, Spelling(c));
    if c.Infix? {
      FormedBelow(c, level, minimum);
      e := ReadsInfix(ts, i, c, minimum);
    } else {
      FormedBelow(c, level, 0);
      ReadsTight(ts, i, c);
      e := ParseUnary(ts, i).value.value;
    }
  }

  // ---------------------------------------------------------------------------
  // The grammar, exactly
  // ---------------------------------------------------------------------------

  /** The whole token list is the spelling of a tree of the grammar, and the end of input. */
  ghost predicate IsTextOf(ts: seq<Token>, c: Concrete) {
    IsExpression(c) && Shows(ts, 0, Spelling(c)) && Current(ts, |Spelling(c)|).kind == Eof
  }

  /** The parser accepts exactly the spellings of the grammar's trees, and returns what they mean. */
  lemma AcceptsExactly(ts: seq<Token>)
    ensures ParseExpression(ts).Ok? <==> exists c :: IsTextOf(ts, c)
    ensures forall c :: IsTextOf(ts, c) ==> ParseExpression(ts).Ok? && E.WithoutSpans(ParseExpression(ts).value) == Meant(c)
  {
    forall c | IsTextOf(ts, c)
      ensures ParseExpression(ts).Ok? && E.WithoutSpans(ParseExpression(ts).value) == Meant(c)
    {
      LayersAreLevels(c);
      ReadsSpelled(ts, 0, c);
    }
    if ParseExpression(ts).Ok? { var c := ParsedIsPlaced(ts); }
  }

  /** And every span in what it returns is that of the tokens it was parsed from. */
  lemma ParsedIsPlaced(ts: seq<Token>) returns (c: Concrete)
    requires ParseExpression(ts).Ok?
    ensures IsTextOf(ts, c) && ParseExpression(ts).value == Placed(ts, 0, c)
  {
    hide Shows, Spelling, Placed, IsExpression;
    c := InternalSpelled(ts, 0);
    LayersAreLevels(c);
  }
}
