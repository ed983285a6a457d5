/** What a refused text is told: the token the parser stopped at, or the second of two equal parameters. */
module TinyRefusals {
  import opened TinyLexer
  import opened TinyGrammar
  import opened TinyProgramText
  import E = TinyExpression

  /** The error names a token from the position on, by its kind and place. */
  ghost predicate NamesToken(ts: seq<Token>, i: nat, e: ParseError) {
    e.ParseError? && exists k :: i <= k <= |ts| && IsAt(ts, k, e)
  }

  ghost predicate IsAt(ts: seq<Token>, k: nat, e: ParseError) {
    e.ParseError? && e.found == Current(ts, k).kind && e.start == Current(ts, k).start && e.end == Current(ts, k).end
  }

  ghost predicate Refuses<T>(ts: seq<Token>, i: nat, r: Parsed<T>) {
    r.Err? ==> NamesToken(ts, i, r.error)
  }

  lemma StopsAt(ts: seq<Token>, i: nat, k: nat, e: ParseError)
    requires i <= k <= |ts| && IsAt(ts, k, e)
    ensures NamesToken(ts, i, e)
  {
  }

  /** Every refusal by the rules of expressions names the token they stopped at. */
  lemma {:induction false} InternalRefuses(ts: seq<Token>, i: nat)
    requires i <= |ts|
    ensures Refuses(ts, i, ParseInternal(ts, i))
    decreases |ts| - i, 4
  {
    hide NamesToken, ParseIf, ParseBinary;
    if Current(ts, i).kind == KwIf { IfRefuses(ts, i); } else { BinaryRefuses(ts, i, 0); }
  }

  lemma {:induction false} IfRefuses(ts: seq<Token>, i: nat)
    requires i <= |ts|
    ensures Refuses(ts, i, ParseIf(ts, i))
    decreases |ts| - i, 3
  {
    hide NamesToken, ParseInternal;
    var r := ParseIf(ts, i);
    if Current(ts, i).kind != KwIf {
      StopsAt(ts, i, i, r.error);
    } else {
      InternalFrom(ts, i, i + 1);
      var condition := ParseInternal(ts, i + 1);
      if condition.Ok? {
        var j := condition.value.next;
        if Current(ts, j).kind != KwThen {
          StopsAt(ts, i, j, r.error);
        } else {
          InternalFrom(ts, i, j + 1);
          var onTrue := ParseInternal(ts, j + 1);
          if onTrue.Ok? {
            var k := onTrue.value.next;
            if Current(ts, k).kind != KwElse { StopsAt(ts, i, k, r.error); } else { InternalFrom(ts, i, k + 1); }
          }
        }
      }
    }
  }

  lemma {:induction false} InternalFrom(ts: seq<Token>, i: nat, j: nat)
    requires i < j <= |ts|
    ensures Refuses(ts, i, ParseInternal(ts, j))
    decreases |ts| - i, 0
  {
    InternalRefuses(ts, j);
  }

  lemma {:induction false} PrimaryRefuses(ts: seq<Token>, i: nat)
    requires i <= |ts|
    ensures Refuses(ts, i, ParsePrimary(ts, i))
    decreases |ts| - i, 1
  {
    hide NamesToken, ParseInternal, ParseArguments;
    var token, r := Current(ts, i), ParsePrimary(ts, i);
    if token.kind == Identifier && Current(ts, i + 1).kind == LeftParen {
      ArgumentsRefuse(ts, i + 2);
      var arguments := ParseArguments(ts, i + 2);
      if arguments.Err? { hide ParsePrimary; Earlier(ts, i, i + 2, arguments.error); }
      else if r.Err? { StopsAt(ts, i, arguments.value.next, r.error); }
    } else if token.kind == LeftParen {
      InternalFrom(ts, i, i + 1);
      var inner := ParseInternal(ts, i + 1);
      if inner.Ok? && r.Err? { StopsAt(ts, i, inner.value.next, r.error); }
    } else if r.Err? {
      StopsAt(ts, i, i, r.error);
    }
  }

  lemma Earlier(ts: seq<Token>, i: nat, j: nat, e: ParseError)
    requires i <= j && NamesToken(ts, j, e)
    ensures NamesToken(ts, i, e)
  {
  }

  lemma {:induction false} ArgumentsRefuse(ts: seq<Token>, i: nat)
    requires i <= |ts|
    ensures Refuses(ts, i, ParseArguments(ts, i))
    decreases |ts| - i, 6
  {
    hide NamesToken, ParseArgumentList;
    if Current(ts, i).kind != RightParen { ArgumentListRefuses(ts, i); }
  }

  lemma {:induction false} ArgumentListRefuses(ts: seq<Token>, i: nat)
    requires i <= |ts|
    ensures Refuses(ts, i, ParseArgumentList(ts, i))
    decreases |ts| - i, 5
  {
    hide NamesToken, ParseInternal;
    InternalRefuses(ts, i);
    var first := ParseInternal(ts, i);
    if first.Ok? && Current(ts, first.value.next).kind == Comma {
      var j := first.value.next + 1;
      ArgumentListRefuses(ts, j);
      if ParseArgumentList(ts, j).Err? { Earlier(ts, i, j, ParseArgumentList(ts, j).error); }
    }
  }

  lemma {:induction false} UnaryRefuses(ts: seq<Token>, i: nat)
    requires i <= |ts|
    ensures Refuses(ts, i, ParseUnary(ts, i))
    decreases |ts| - i, 2
  {
    hide NamesToken, ParsePrimary;
    if Current(ts, i).kind != Kind.Minus {
      PrimaryRefuses(ts, i);
    } else {
      UnaryRefuses(ts, i + 1);
      if ParseUnary(ts, i + 1).Err? { Earlier(ts, i, i + 1, ParseUnary(ts, i + 1).error); }
    }
  }

  lemma {:induction false} BinaryRefuses(ts: seq<Token>, i: nat, minimum: nat)
    requires i <= |ts|
    ensures Refuses(ts, i, ParseBinary(ts, i, minimum))
    decreases |ts| - i, 3
  {
    hide NamesToken, ParseUnary;
    UnaryRefuses(ts, i);
    var left := ParseUnary(ts, i);
    if left.Ok? {
      OperatorsRefuse(ts, left.value.value, left.value.next, minimum);
      var r := ParseOperators(ts, left.value.value, left.value.next, minimum);
      if r.Err? { Earlier(ts, i, left.value.next, r.error); }
    }
  }

  lemma {:induction false} OperatorsRefuse(ts: seq<Token>, left: E.Expression, i: nat, minimum: nat)
    requires i <= |ts|
    ensures Refuses(ts, i, ParseOperators(ts, left, i, minimum))
    decreases |ts| - i, 0
  {
    hide NamesToken, ParseBinary;
    var operator := OperatorOf(Current(ts, i).kind);
    if operator.Some? && Precedence(operator.value) >= minimum {
      var p := Precedence(operator.value) + 1;
      BinaryRefuses(ts, i + 1, p);
      var right := ParseBinary(ts, i + 1, p);
      if right.Err? { Earlier(ts, i, i + 1, right.error); }
      else {
        var whole := E.Binary(operator.value, left, right.value.value, E.Span(left.span.start, right.value.value.span.end));
        var j := right.value.next;
        OperatorsRefuse(ts, whole, j, minimum);
        if ParseOperators(ts, whole, j, minimum).Err? { Earlier(ts, i, j, ParseOperators(ts, whole, j, minimum).error); }
      }
    }
  }

  // ---------------------------------------------------------------------------
  // Programs
  // ---------------------------------------------------------------------------

  /** The error names a parameter, its place, and it is one that was seen before. */
  ghost predicate NamesDuplicate(ts: seq<Token>, i: nat, seen: set<string>, e: ParseError) {
    e.DuplicateParameter? && exists k :: i <= k < |ts| && RepeatsAt(ts, i, k, seen, e)
  }

  ghost predicate RepeatsAt(ts: seq<Token>, i: nat, k: nat, seen: set<string>, e: ParseError)
    requires k < |ts|
  {
    && e.DuplicateParameter? && ts[k].kind == Identifier && e.name == ts[k].lexeme && e.start == ts[k].start && e.end == ts[k].end
    && (e.name in seen || exists j :: i <= j < k && ts[j].kind == Identifier && ts[j].lexeme == e.name)
  }

  ghost predicate RefusesProgram<T>(ts: seq<Token>, i: nat, r: Parsed<T>) {
    r.Err? ==> NamesToken(ts, i, r.error) || NamesDuplicate(ts, i, {}, r.error)
  }

  lemma {:induction false} ParametersRefuse(ts: seq<Token>, i: nat, seen: set<string>)
    requires i <= |ts|
    ensures var r := ParseParameters(ts, i, seen); r.Err? ==> NamesToken(ts, i, r.error) || NamesDuplicate(ts, i, seen, r.error)
    decreases |ts| - i
  {
    var token, r := Current(ts, i), ParseParameters(ts, i, seen);
    if token.kind != Identifier {
      StopsAt(ts, i, i, r.error);
    } else if token.lexeme in seen {
      assert RepeatsAt(ts, i, i, seen, r.error);
    } else if Current(ts, i + 1).kind == Comma {
      ParametersRefuse(ts, i + 2, seen + {token.lexeme});
      if r.Err? && NamesDuplicate(ts, i + 2, seen + {token.lexeme}, r.error) {
        var k :| i + 2 <= k < |ts| && RepeatsAt(ts, i + 2, k, seen + {token.lexeme}, r.error);
        assert ts[i] == token;
        assert RepeatsAt(ts, i, k, seen, r.error);
      }
    }
  }

  lemma DefinitionRefuses(ts: seq<Token>, i: nat)
    requires i <= |ts|
    ensures RefusesProgram(ts, i, ParseFunction(ts, i))
  {
    hide NamesToken, NamesDuplicate, ParseInternal, ParseParameters;
    var r := ParseFunction(ts, i);
    if Current(ts, i).kind != KwFn {
      StopsAt(ts, i, i, r.error);
    } else if Current(ts, i + 1).kind != Identifier {
      StopsAt(ts, i, i + 1, r.error);
    } else if Current(ts, i + 2).kind != LeftParen {
      StopsAt(ts, i, i + 2, r.error);
    } else {
      if Current(ts, i + 3).kind != RightParen { ParametersRefuse(ts, i + 3, {}); }
      var parameters := ParseParameterList(ts, i + 3);
      if parameters.Err? {
        LaterRefusal(ts, i, i + 3, parameters.error);
      } else {
        var j := parameters.value.next;
        if Current(ts, j).kind != RightParen {
          StopsAt(ts, i, j, r.error);
        } else if Current(ts, j + 1).kind != Equal {
          StopsAt(ts, i, j + 1, r.error);
        } else {
          InternalFrom(ts, i, j + 2);
        }
      }
    }
  }

  lemma LaterRefusal(ts: seq<Token>, i: nat, j: nat, e: ParseError)
    requires i <= j && (NamesToken(ts, j, e) || NamesDuplicate(ts, j, {}, e))
    ensures NamesToken(ts, i, e) || NamesDuplicate(ts, i, {}, e)
  {
    if NamesDuplicate(ts, j, {}, e) {
      var k :| j <= k < |ts| && RepeatsAt(ts, j, k, {}, e);
      assert RepeatsAt(ts, i, k, {}, e);
    }
  }

  lemma {:induction false} FunctionsRefuse(ts: seq<Token>, i: nat)
    requires i <= |ts|
    ensures RefusesProgram(ts, i, ParseFunctions(ts, i))
    decreases |ts| - i
  {
    hide NamesToken, NamesDuplicate, ParseFunction;
    if Current(ts, i).kind == KwFn {
      DefinitionRefuses(ts, i);
      var first := ParseFunction(ts, i);
      if first.Ok? {
        var j := first.value.next;
        FunctionsRefuse(ts, j);
        if ParseFunctions(ts, j).Err? { LaterRefusal(ts, i, j, ParseFunctions(ts, j).error); }
      }
    }
  }

  /** A refused program is told the token the parser stopped at, or the second of two equal parameters. */
  lemma ProgramRefuses(ts: seq<Token>)
    ensures var r := ParseProgram(ts); r.Err? ==> NamesToken(ts, 0, r.error) || NamesDuplicate(ts, 0, {}, r.error)
  {
    hide ParseFunctions;
    FunctionsRefuse(ts, 0);
    var functions, r := ParseFunctions(ts, 0), ParseProgram(ts);
    if functions.Ok? && r.Err? { StopsAt(ts, 0, functions.value.next, r.error); }
  }

  /** Likewise a refused expression. */
  lemma ExpressionRefuses(ts: seq<Token>)
    ensures var r := ParseExpression(ts); r.Err? ==> NamesToken(ts, 0, r.error)
  {
    hide ParseInternal;
    InternalRefuses(ts, 0);
    var expression, r := ParseInternal(ts, 0), ParseExpression(ts);
    if expression.Ok? && r.Err? { StopsAt(ts, 0, expression.value.next, r.error); }
  }
}
