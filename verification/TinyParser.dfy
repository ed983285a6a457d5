/** Tiny's parser in place: one state with a moving index, advanced by the rules' own loops. */
module TinyParser {
  import opened Wrappers
  import opened TinyLexer
  import opened G = TinyGrammar
  import R = TinyRoundTrip
  import P = TinyProgramText
  import TinyProgram
  import E = TinyExpression

  class State {
    const tokens: seq<Token>
    var index: nat

    constructor (tokens: seq<Token>)
      ensures this.tokens == tokens && index == 0
    {
      this.tokens := tokens;
      index := 0;
    }

    /** The outcome and the new index are those of a functional parse. */
    ghost predicate Did<T>(r: Result<T, ParseError>, spec: Parsed<T>)
      reads this
    {
      match spec
      case Ok(parse) => r == Ok(parse.value) && index == parse.next
      case Err(error) => r == Err(error)
    }

    method Advance() returns (token: Token)
      modifies this
      ensures token == Current(tokens, old(index)) && index == old(index) + 1
    {
      token := Current(tokens, index);
      index := index + 1;
    }

    method Expect(kind: Kind, description: string) returns (r: Result<Token, ParseError>)
      modifies this
      ensures var token := Current(tokens, old(index));
              if token.kind == kind then r == Ok(token) && index == old(index) + 1
              else r == Err(ParseError(description, token.kind, token.start, token.end)) && index == old(index)
    {
      var token := Current(tokens, index);
      if token.kind != kind { return Err(ParseError(description, token.kind, token.start, token.end)); }
      token := Advance();
      return Ok(token);
    }

    method Primary() returns (r: Result<E.Expression, ParseError>)
      requires index <= |tokens|
      modifies this
      ensures Did(r, ParsePrimary(tokens, old(index)))
      decreases |tokens| - index, 1
    {
      var token := Current(tokens, index);
      if token.kind == Integer {
        token := Advance();
        return Ok(E.Integer(NumberOf(token.lexeme), E.Span(token.start, token.end)));
      }
      if token.kind == Identifier {
        token := Advance();
        if Current(tokens, index).kind != LeftParen { return Ok(E.Name(token.lexeme, E.Span(token.start, token.end))); }
        var _ := Advance();
        var arguments: seq<E.Expression> := [];
        if Current(tokens, index).kind != RightParen {
          arguments :- ArgumentList();
        }
        var close :- Expect(RightParen, "')'");
        return Ok(E.Call(token.lexeme, arguments, E.Span(token.start, close.end)));
      }
      if token.kind == LeftParen {
        token := Advance();
        var expression :- Internal();
        var _ :- Expect(RightParen, "')'");
        return Ok(expression);
      }
      return Err(ParseError("an integer, identifier, or parenthesized expression", token.kind, token.start, token.end));
    }

    method ArgumentList() returns (r: Result<seq<E.Expression>, ParseError>)
      requires index <= |tokens|
      modifies this
      ensures Did(r, ParseArgumentList(tokens, old(index)))
      decreases |tokens| - index, 5
    {
      var arguments: seq<E.Expression> := [];
      ghost var whole := ParseArgumentList(tokens, index);
      PrefixedByNone(whole);
      while true
        invariant old(index) <= index <= |tokens|
        invariant Prefixed(arguments, ParseArgumentList(tokens, index)) == whole
        decreases |tokens| - index
      {
        ghost var start := index;
        var argument :- Internal();
        ghost var before := arguments;
        arguments := arguments + [argument];
        if Current(tokens, index).kind != Comma { return Ok(arguments); }
        var _ := Advance();
        PrefixedByOneMore(before, argument, ParseArgumentList(tokens, index));
      }
    }

    method IfExpression() returns (r: Result<E.Expression, ParseError>)
      requires index <= |tokens|
      modifies this
      ensures Did(r, ParseIf(tokens, old(index)))
      decreases |tokens| - index, 3
    {
      var ifToken :- Expect(KwIf, "'if'");
      var condition :- Internal();
      var _ :- Expect(KwThen, "'then'");
      var onTrue :- Internal();
      var _ :- Expect(KwElse, "'else'");
      var onFalse :- Internal();
      return Ok(E.If(condition, onTrue, onFalse, E.Span(ifToken.start, onFalse.span.end)));
    }

    method Unary() returns (r: Result<E.Expression, ParseError>)
      requires index <= |tokens|
      modifies this
      ensures Did(r, ParseUnary(tokens, old(index)))
      decreases |tokens| - index, 2
    {
      var token := Current(tokens, index);
      if token.kind != Minus {
        r := Primary();
        return;
      }
      token := Advance();
      var operand :- Unary();
      return Ok(E.Unary(operand, E.Span(token.start, operand.span.end)));
    }

    method Binary(minimum: nat) returns (r: Result<E.Expression, ParseError>)
      requires index <= |tokens|
      modifies this
      ensures Did(r, ParseBinary(tokens, old(index), minimum))
      decreases |tokens| - index, 3
    {
      var left :- Unary();
      while true
        invariant old(index) < index <= |tokens|
        invariant ParseOperators(tokens, left, index, minimum) == ParseBinary(tokens, old(index), minimum)
        decreases |tokens| - index
      {
        var operator := OperatorOf(Current(tokens, index).kind);
        if operator.None? || Precedence(operator.value) < minimum { return Ok(left); }
        var _ := Advance();
        var right :- Binary(Precedence(operator.value) + 1);
        left := E.Binary(operator.value, left, right, E.Span(left.span.start, right.span.end));
      }
    }

    method Internal() returns (r: Result<E.Expression, ParseError>)
      requires index <= |tokens|
      modifies this
      ensures Did(r, ParseInternal(tokens, old(index)))
      decreases |tokens| - index, 4
    {
      if Current(tokens, index).kind == KwIf { r := IfExpression(); } else { r := Binary(0); }
    }

    method ParameterNames() returns (r: Result<seq<string>, ParseError>)
      requires index <= |tokens|
      modifies this
      ensures Did(r, P.ParseParameters(tokens, old(index), {}))
    {
      var names: seq<string>, seen: set<string> := [], {};
      ghost var whole := P.ParseParameters(tokens, index, {});
      PrefixedByNone(whole);
      while true
        invariant old(index) <= index <= |tokens|
        invariant Prefixed(names, P.ParseParameters(tokens, index, seen)) == whole
        decreases |tokens| - index
      {
        var token :- Expect(Identifier, "a parameter name");
        if token.lexeme in seen { return Err(DuplicateParameter(token.lexeme, token.start, token.end)); }
        seen := seen + {token.lexeme};
        ghost var before := names;
        names := names + [token.lexeme];
        if Current(tokens, index).kind != Comma { return Ok(names); }
        var _ := Advance();
        PrefixedByOneMore(before, token.lexeme, P.ParseParameters(tokens, index, seen));
      }
    }

    method Definition() returns (r: Result<TinyProgram.FunctionDefinition, ParseError>)
      requires index <= |tokens|
      modifies this
      ensures Did(r, P.ParseFunction(tokens, old(index)))
    {
      hide ParseInternal, P.ParseParameters;
      var _ :- Expect(KwFn, "'fn'");
      var nameToken :- Expect(Identifier, "a function name");
      var _ :- Expect(LeftParen, "'('");
      var parameters: seq<string> := [];
      if Current(tokens, index).kind != RightParen {
        parameters :- ParameterNames();
      }
      var _ :- Expect(RightParen, "')'");
      var _ :- Expect(Equal, "'='");
      var body :- Internal();
      return Ok(TinyProgram.FunctionDefinition(nameToken.lexeme, parameters, body));
    }
  }

  /** Items already parsed, followed by the rest of the list. */
  ghost function Prefixed<T>(items: seq<T>, rest: Parsed<seq<T>>): Parsed<seq<T>> {
    if rest.Err? then rest else Ok(Parse(items + rest.value.value, rest.value.next))
  }

  lemma PrefixedByNone<T>(rest: Parsed<seq<T>>)
    ensures Prefixed([], rest) == rest
  {
    if rest.Ok? { assert [] + rest.value.value == rest.value.value; }
  }

  lemma PrefixedByOneMore<T>(items: seq<T>, item: T, rest: Parsed<seq<T>>)
    ensures Prefixed(items, Prefixed([item], rest)) == Prefixed(items + [item], rest)
  {
    if rest.Ok? { assert items + ([item] + rest.value.value) == items + [item] + rest.value.value; }
  }

  method ParseTokens(tokens: seq<Token>) returns (r: Result<E.Expression, ParseError>)
    ensures r == ParseExpression(tokens)
  {
    var state := new State(tokens);
    var expression :- state.Internal();
    var _ :- state.Expect(Eof, "end of input");
    return Ok(expression);
  }

  datatype TinyError = Lexical(lexical: LexError) | Syntactic(syntactic: ParseError)

  /** What a text is by the lexer and the grammar, whatever its layout and parentheses. */
  function ExpressionOf(source: string): Result<E.Expression, TinyError> {
    var lexed := Lex(source, 0);
    if lexed.Err? then Err(Lexical(lexed.error))
    else
      var parsed := ParseExpression(lexed.value);
      if parsed.Err? then Err(Syntactic(parsed.error)) else Ok(parsed.value)
  }

  function ProgramOf(source: string): Result<TinyProgram.Program, TinyError> {
    var lexed := Lex(source, 0);
    if lexed.Err? then Err(Lexical(lexed.error))
    else
      var parsed := P.ParseProgram(lexed.value);
      if parsed.Err? then Err(Syntactic(parsed.error)) else Ok(parsed.value)
  }

  /** Reads one expression from source text as the grammar does; any layout of a written tree reads back as that tree. */
  method ReadExpression(source: string) returns (r: Result<E.Expression, TinyError>)
    ensures r == ExpressionOf(source)
    ensures forall e, lead, gaps ::
              R.Writes(source, e, lead, gaps) ==>
                r.Ok? && E.WithoutSpans(r.value) == E.WithoutSpans(e) && E.Render(r.value) == E.Render(e)
  {
    forall e, lead, gaps | R.Writes(source, e, lead, gaps)
      ensures var lexed := Lex(source, 0);
              && lexed.Ok?
              && var parsed := ParseExpression(lexed.value);
                 parsed.Ok? && E.WithoutSpans(parsed.value) == E.WithoutSpans(e) && E.Render(parsed.value) == E.Render(e)
    {
      R.RoundTrip(source, e, lead, gaps);
    }
    var tokens := Tokenize(source);
    if tokens.Err? { return Err(Lexical(tokens.error)); }
    var parsed := ParseTokens(tokens.value);
    if parsed.Err? { return Err(Syntactic(parsed.error)); }
    return Ok(parsed.value);
  }

  /** Parses definitions until the next token begins none, and then expects the end of input. */
  method ParseWhole(tokens: seq<Token>) returns (r: Result<TinyProgram.Program, ParseError>)
    ensures r == P.ParseProgram(tokens)
  {
    var state := new State(tokens);
    var functions: seq<TinyProgram.FunctionDefinition> := [];
    ghost var whole := P.ParseFunctions(tokens, 0);
    PrefixedByNone(whole);
    while Current(tokens, state.index).kind == KwFn
      invariant state.tokens == tokens && state.index <= |tokens|
      invariant Prefixed(functions, P.ParseFunctions(tokens, state.index)) == whole
      decreases |tokens| - state.index
    {
      var definition :- state.Definition();
      PrefixedByOneMore(functions, definition, P.ParseFunctions(tokens, state.index));
      functions := functions + [definition];
    }
    assert functions + [] == functions;
    var _ :- state.Expect(Eof, "a function definition beginning with 'fn' or end of input");
    return Ok(TinyProgram.Program(functions));
  }

  /** Reads a program from source text as the grammar does; any layout of a written program reads back as that program. */
  method ReadProgram(source: string) returns (r: Result<TinyProgram.Program, TinyError>)
    ensures r == ProgramOf(source)
    ensures forall p, lead, gaps ::
              P.WritesProgram(source, p, lead, gaps) ==> r.Ok? && P.SameFunctions(r.value.functions, p.functions)
  {
    forall p, lead, gaps | P.WritesProgram(source, p, lead, gaps)
      ensures var lexed := Lex(source, 0);
              && lexed.Ok?
              && var parsed := P.ParseProgram(lexed.value);
                 parsed.Ok? && P.SameFunctions(parsed.value.functions, p.functions)
    {
      P.ProgramRoundTrip(source, p, lead, gaps);
    }
    var tokens := Tokenize(source);
    if tokens.Err? { return Err(Lexical(tokens.error)); }
    var parsed := ParseWhole(tokens.value);
    if parsed.Err? { return Err(Syntactic(parsed.error)); }
    return Ok(parsed.value);
  }
}
