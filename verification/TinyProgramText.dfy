/** Whole Tiny programs as text: function definitions parsed one after another, and their round trip. */
module TinyProgramText {
  import opened Wrappers
  import opened TinyLexer
  import opened TinyGrammar
  import opened TinyConcrete
  import opened TinyRoundTrip
  import opened TinyProgram
  import E = TinyExpression

  // ---------------------------------------------------------------------------
  // Parsing
  // ---------------------------------------------------------------------------

  /** A parameter list from its first name on, refusing a name it has seen. */
  function ParseParameters(ts: seq<Token>, i: nat, seen: set<string>): (r: Parsed<seq<string>>)
    requires i <= |ts|
    ensures Consumes(ts, i, r)
    decreases |ts| - i
  {
    var token := Current(ts, i);
    if token.kind != Identifier then Unexpected(ts, i, "a parameter name")
    else if token.lexeme in seen then Err(DuplicateParameter(token.lexeme, token.start, token.end))
    else if Current(ts, i + 1).kind != Comma then Ok(Parse([token.lexeme], i + 1))
    else
      var rest :- ParseParameters(ts, i + 2, seen + {token.lexeme});
      Ok(Parse([token.lexeme] + rest.value, rest.next))
  }

  function ParseParameterList(ts: seq<Token>, i: nat): (r: Parsed<seq<string>>)
    requires i <= |ts|
    ensures r.Ok? ==> i <= r.value.next <= |ts|
  {
    if Current(ts, i).kind == RightParen then Ok(Parse([], i)) else ParseParameters(ts, i, {})
  }

  function ParseFunction(ts: seq<Token>, i: nat): (r: Parsed<FunctionDefinition>)
    requires i <= |ts|
    ensures Consumes(ts, i, r)
  {
    if Current(ts, i).kind != KwFn then Unexpected(ts, i, "'fn'")
    else if Current(ts, i + 1).kind != Identifier then Unexpected(ts, i + 1, "a function name")
    else if Current(ts, i + 2).kind != LeftParen then Unexpected(ts, i + 2, "'('")
    else
      var parameters :- ParseParameterList(ts, i + 3);
      var j := parameters.next;
      if Current(ts, j).kind != RightParen then Unexpected(ts, j, "')'")
      else if Current(ts, j + 1).kind != Equal then Unexpected(ts, j + 1, "'='")
      else
        var body :- ParseInternal(ts, j + 2);
        Ok(Parse(FunctionDefinition(Current(ts, i + 1).lexeme, parameters.value, body.value), body.next))
  }

  /** Function definitions for as long as the next token begins one. */
  function ParseFunctions(ts: seq<Token>, i: nat): (r: Parsed<seq<FunctionDefinition>>)
    requires i <= |ts|
    ensures r.Ok? ==> i <= r.value.next <= |ts|
    decreases |ts| - i
  {
    if Current(ts, i).kind != KwFn then Ok(Parse([], i))
    else
      var first :- ParseFunction(ts, i);
      var rest :- ParseFunctions(ts, first.next);
      Ok(Parse([first.value] + rest.value, rest.next))
  }

  function ParseProgram(ts: seq<Token>): Result<Program, ParseError> {
    var functions :- ParseFunctions(ts, 0);
    if Current(ts, functions.next).kind != Eof then
      var token := Current(ts, functions.next);
      Err(ParseError("a function definition beginning with 'fn' or end of input", token.kind, token.start, token.end))
    else Ok(Program(functions.value))
  }

  // ---------------------------------------------------------------------------
  // Concrete programs
  // ---------------------------------------------------------------------------

  const FN := Word(KwFn, "fn")
  const EQUAL := Word(Equal, "=")

  /** A definition with the parentheses of its body. */
  datatype Definition = Definition(name: string, parameters: seq<string>, body: Concrete)

  predicate DistinctNames(names: seq<string>) {
    forall i, j :: 0 <= i < j < |names| ==> names[i] != names[j]
  }

  ghost predicate IsDefinition(d: Definition) {
    DistinctNames(d.parameters) && IsExpression(d.body)
  }

  function SpellParameters(names: seq<string>): seq<Word> {
    if names == [] then []
    else if |names| == 1 then [Word(Identifier, names[0])]
    else [Word(Identifier, names[0])] + ([COMMA] + SpellParameters(names[1..]))
  }

  function SpellDefinition(d: Definition): seq<Word> {
    [FN] + ([Word(Identifier, d.name)] + ([OPEN] + (SpellParameters(d.parameters) + ([CLOSE] + ([EQUAL] + Spelling(d.body))))))
  }

  function SpellDefinitions(ds: seq<Definition>): seq<Word> {
    if ds == [] then [] else SpellDefinition(ds[0]) + SpellDefinitions(ds[1..])
  }

  /** The function means the definition, up to the spans in its body. */
  predicate MeansDefinition(f: FunctionDefinition, d: Definition) {
    f.name == d.name && f.parameters == d.parameters && E.WithoutSpans(f.body) == Meant(d.body)
  }

  predicate MeansDefinitions(fs: seq<FunctionDefinition>, ds: seq<Definition>) {
    |fs| == |ds| && forall i :: 0 <= i < |fs| ==> MeansDefinition(fs[i], ds[i])
  }

  // ---------------------------------------------------------------------------
  // Writing
  // ---------------------------------------------------------------------------

  predicate WritableFunction(f: FunctionDefinition) {
    && IsIdentifier(f.name) && Writable(f.body) && DistinctNames(f.parameters)
    && forall i :: 0 <= i < |f.parameters| ==> IsIdentifier(f.parameters[i])
  }

  /** The definition with parentheses only where they are needed. */
  function MinimalDefinition(f: FunctionDefinition): Definition {
    Definition(f.name, f.parameters, Minimal(f.body, 0))
  }

  function MinimalDefinitions(fs: seq<FunctionDefinition>): (ds: seq<Definition>)
    ensures |ds| == |fs|
    ensures forall i :: 0 <= i < |fs| ==> ds[i] == MinimalDefinition(fs[i])
  {
    if fs == [] then [] else [MinimalDefinition(fs[0])] + MinimalDefinitions(fs[1..])
  }

  function WriteFunctions(fs: seq<FunctionDefinition>): seq<Word> {
    SpellDefinitions(MinimalDefinitions(fs))
  }

  /** The same definition up to the spans in its body. */
  predicate SameFunction(f: FunctionDefinition, g: FunctionDefinition) {
    f.name == g.name && f.parameters == g.parameters && E.WithoutSpans(f.body) == E.WithoutSpans(g.body)
  }

  predicate SameFunctions(fs: seq<FunctionDefinition>, gs: seq<FunctionDefinition>) {
    |fs| == |gs| && forall i :: 0 <= i < |fs| ==> SameFunction(fs[i], gs[i])
  }

  // ---------------------------------------------------------------------------
  // Reading what is spelled
  // ---------------------------------------------------------------------------

  lemma ShowsParameters(ts: seq<Token>, i: nat, names: seq<string>)
    requires names != []
    ensures Shows(ts, i, SpellParameters(names)) <==>
              && Current(ts, i).kind == Identifier && Current(ts, i).lexeme == names[0]
              && (|names| > 1 ==> Current(ts, i + 1).kind == Comma && Shows(ts, i + 2, SpellParameters(names[1..])))
  {
    hide Shows;
    var first := Word(Identifier, names[0]);
    if |names| > 1 {
      var rest := SpellParameters(names[1..]);
      assert SpellParameters(names) == [first] + ([COMMA] + rest);
      hide SpellParameters;
      ShowsTwo(ts, i, first, COMMA, rest);
    } else {
      ShowsOne(ts, i, first);
    }
  }

  lemma {:induction false} ReadsParameters(ts: seq<Token>, i: nat, names: seq<string>, seen: set<string>)
    requires names != [] && Shows(ts, i, SpellParameters(names)) && DistinctNames(names)
    requires forall k :: 0 <= k < |names| ==> names[k] !in seen
    requires Current(ts, i + |SpellParameters(names)|).kind == RightParen
    ensures ParseParameters(ts, i, seen) == Ok(Parse(names, i + |SpellParameters(names)|))
    decreases |names|
  {
    ShownWithin(ts, i, SpellParameters(names));
    hide Shows;
    ShowsParameters(ts, i, names);
    if |names| == 1 {
      assert names == [names[0]];
    } else {
      forall k | 0 <= k < |names[1..]| ensures names[1..][k] !in seen + {names[0]} {
        assert names[1..][k] == names[k + 1] != names[0];
      }
      ReadsParameters(ts, i + 2, names[1..], seen + {names[0]});
      assert names == [names[0]] + names[1..];
    }
  }

  lemma ReadsParameterList(ts: seq<Token>, i: nat, names: seq<string>)
    requires i <= |ts| && Shows(ts, i, SpellParameters(names)) && DistinctNames(names)
    requires Current(ts, i + |SpellParameters(names)|).kind == RightParen
    ensures ParseParameterList(ts, i) == Ok(Parse(names, i + |SpellParameters(names)|))
  {
    if names != [] {
      ReadsParameters(ts, i, names, {});
      ShowsParameters(ts, i, names);
    }
  }

  /** Where the parts of a spelled definition stand. */
  lemma ShowsDefinition(ts: seq<Token>, i: nat, d: Definition)
    ensures var ps, body := SpellParameters(d.parameters), Spelling(d.body);
            var j := i + 3 + |ps|;
            && |SpellDefinition(d)| == 5 + |ps| + |body|
            && (Shows(ts, i, SpellDefinition(d)) <==>
                  && Current(ts, i).kind == KwFn && Current(ts, i + 1).kind == Identifier && Current(ts, i + 1).lexeme == d.name
                  && Current(ts, i + 2).kind == LeftParen && Shows(ts, i + 3, ps)
                  && Current(ts, j).kind == RightParen && Current(ts, j + 1).kind == Equal && Shows(ts, j + 2, body))
  {
    var ps, body := SpellParameters(d.parameters), Spelling(d.body);
    ShowsHeader(ts, i, d.name, ps, body);
  }

  lemma ShowsHeader(ts: seq<Token>, i: nat, name: string, ps: seq<Word>, body: seq<Word>)
    ensures var j := i + 3 + |ps|;
            Shows(ts, i, [FN] + ([Word(Identifier, name)] + ([OPEN] + (ps + ([CLOSE] + ([EQUAL] + body)))))) <==>
              && Current(ts, i).kind == KwFn && Current(ts, i + 1).kind == Identifier && Current(ts, i + 1).lexeme == name
              && Current(ts, i + 2).kind == LeftParen && Shows(ts, i + 3, ps)
              && Current(ts, j).kind == RightParen && Current(ts, j + 1).kind == Equal && Shows(ts, j + 2, body)
  {
    hide Shows;
    var tail := [CLOSE] + ([EQUAL] + body);
    var j := i + 3 + |ps|;
    ShowsTwo(ts, i, FN, Word(Identifier, name), [OPEN] + (ps + tail));
    ShowsWord(ts, i + 2, OPEN, ps, tail);
    ShowsTwo(ts, j, CLOSE, EQUAL, body);
  }

  /** The definition rule reads a definition whose parameters and body are read. */
  lemma DefinitionReads(ts: seq<Token>, i: nat, d: Definition, j: nat, next: nat)
    requires i + 3 <= j && j + 2 <= |ts|
    requires Current(ts, i).kind == KwFn && Current(ts, i + 1).kind == Identifier && Current(ts, i + 1).lexeme == d.name
    requires Current(ts, i + 2).kind == LeftParen && Current(ts, j).kind == RightParen && Current(ts, j + 1).kind == Equal
    requires ParseParameterList(ts, i + 3) == Ok(Parse(d.parameters, j))
    requires Reads(ParseInternal(ts, j + 2), d.body, next)
    ensures var r := ParseFunction(ts, i); r.Ok? && r.value.next == next && MeansDefinition(r.value.value, d)
  {
    hide ParseParameterList, ParseInternal, Meant;
  }

  lemma ReadsDefinition(ts: seq<Token>, i: nat, d: Definition)
    requires IsDefinition(d) && Shows(ts, i, SpellDefinition(d))
    requires Ends(Current(ts, i + |SpellDefinition(d)|).kind)
    ensures var r := ParseFunction(ts, i);
            r.Ok? && r.value.next == i + |SpellDefinition(d)| && MeansDefinition(r.value.value, d)
  {
    hide Shows, Spelling, SpellDefinition, SpellParameters, ParseInternal, ParseParameterList, ParseFunction, IsExpression, Meant, Reads, Ends, MeansDefinition;
    ShowsDefinition(ts, i, d);
    ShownWithin(ts, i, SpellDefinition(d));
    LayersAreLevels(d.body);
    var j := i + 3 + |SpellParameters(d.parameters)|;
    ReadsParameterList(ts, i + 3, d.parameters);
    ReadsSpelled(ts, j + 2, d.body);
    DefinitionReads(ts, i, d, j, i + |SpellDefinition(d)|);
  }

  lemma {:induction false} ReadsDefinitions(ts: seq<Token>, i: nat, ds: seq<Definition>)
    requires forall k :: 0 <= k < |ds| ==> IsDefinition(ds[k])
    requires Shows(ts, i, SpellDefinitions(ds)) && Current(ts, i + |SpellDefinitions(ds)|).kind == Eof
    ensures var r := ParseFunctions(ts, i);
            r.Ok? && r.value.next == i + |SpellDefinitions(ds)| && MeansDefinitions(r.value.value, ds)
    decreases |ds|
  {
    hide Shows, Ends, MeansDefinition, MeansDefinitions, SpellDefinition, ParseFunction, IsDefinition;
    ShownWithin(ts, i, SpellDefinitions(ds));
    if ds == [] {
      hide ParseFunctions;
      ReadsNoDefinition(ts, i);
    } else {
      var rest := SpellDefinitions(ds[1..]);
      assert SpellDefinitions(ds) == SpellDefinition(ds[0]) + rest;
      hide SpellDefinitions, ParseFunctions;
      var j := i + |SpellDefinition(ds[0])|;
      ShowsBoth(ts, i, SpellDefinition(ds[0]), rest);
      NextIsDefinitionOrEnd(ts, j, ds[1..]);
      ReadsDefinition(ts, i, ds[0]);
      ReadsDefinitions(ts, j, ds[1..]);
      MeansFirst(ParseFunction(ts, i).value.value, ParseFunctions(ts, j).value.value, ds);
      ShowsDefinition(ts, i, ds[0]);
      ParseFunctionsStep(ts, i);
    }
  }

  lemma ReadsNoDefinition(ts: seq<Token>, i: nat)
    requires i <= |ts| && Current(ts, i).kind != KwFn
    ensures ParseFunctions(ts, i) == Ok(Parse([], i)) && MeansDefinitions([], [])
  {
  }

  lemma ParseFunctionsStep(ts: seq<Token>, i: nat)
    requires i <= |ts| && Current(ts, i).kind == KwFn && ParseFunction(ts, i).Ok?
    requires ParseFunctions(ts, ParseFunction(ts, i).value.next).Ok?
    ensures var first := ParseFunction(ts, i).value;
            var rest := ParseFunctions(ts, first.next).value;
            ParseFunctions(ts, i) == Ok(Parse([first.value] + rest.value, rest.next))
  {
  }

  lemma MeansFirst(f: FunctionDefinition, rest: seq<FunctionDefinition>, ds: seq<Definition>)
    requires ds != [] && MeansDefinition(f, ds[0]) && MeansDefinitions(rest, ds[1..])
    ensures MeansDefinitions([f] + rest, ds)
  {
  }

  /** After a definition comes another one or the end, and either ends its body. */
  lemma NextIsDefinitionOrEnd(ts: seq<Token>, j: nat, ds: seq<Definition>)
    requires Shows(ts, j, SpellDefinitions(ds)) && Current(ts, j + |SpellDefinitions(ds)|).kind == Eof
    ensures Ends(Current(ts, j).kind)
  {
    if ds != [] {
      hide Shows;
      ShowsBoth(ts, j, SpellDefinition(ds[0]), SpellDefinitions(ds[1..]));
      ShowsDefinition(ts, j, ds[0]);
    }
  }

  lemma MinimalMeansFunctions(fs: seq<FunctionDefinition>, gs: seq<FunctionDefinition>)
    requires forall k :: 0 <= k < |fs| ==> WritableFunction(fs[k])
    ensures forall k :: 0 <= k < |fs| ==> IsDefinition(MinimalDefinitions(fs)[k])
    ensures MeansDefinitions(gs, MinimalDefinitions(fs)) ==> SameFunctions(gs, fs)
  {
    hide Minimal, IsExpression, Meant;
    forall k | 0 <= k < |fs|
      ensures IsDefinition(MinimalDefinitions(fs)[k])
      ensures k < |gs| && MeansDefinition(gs[k], MinimalDefinitions(fs)[k]) ==> SameFunction(gs[k], fs[k])
    {
      MinimalMeans(fs[k].body, 0);
      LayersAreLevels(Minimal(fs[k].body, 0));
    }
  }

  lemma {:induction false} WritesParameterWords(names: seq<string>)
    requires forall i :: 0 <= i < |names| ==> IsIdentifier(names[i])
    ensures AllWords(SpellParameters(names))
    decreases |names|
  {
    if names != [] {
      OneWord(Word(Identifier, names[0]));
      if |names| > 1 {
        WritesParameterWords(names[1..]);
        WordsAppend([COMMA], SpellParameters(names[1..]));
        WordsAppend([Word(Identifier, names[0])], [COMMA] + SpellParameters(names[1..]));
      }
    }
  }

  lemma HeaderWords(name: string, ps: seq<Word>, body: seq<Word>)
    requires IsIdentifier(name) && AllWords(ps) && AllWords(body)
    ensures AllWords([FN] + ([Word(Identifier, name)] + ([OPEN] + (ps + ([CLOSE] + ([EQUAL] + body))))))
  {
    assert IsWord(FN) && IsWord(Word(Identifier, name)) && IsWord(OPEN) && IsWord(CLOSE) && IsWord(EQUAL);
    hide IsWord, IsIdentifier;
    WordsAppend([EQUAL], body);
    WordsAppend([CLOSE], [EQUAL] + body);
    WordsAppend(ps, [CLOSE] + ([EQUAL] + body));
    WordsAppend([OPEN], ps + ([CLOSE] + ([EQUAL] + body)));
    WordsAppend([Word(Identifier, name)], [OPEN] + (ps + ([CLOSE] + ([EQUAL] + body))));
    WordsAppend([FN], [Word(Identifier, name)] + ([OPEN] + (ps + ([CLOSE] + ([EQUAL] + body)))));
  }

  lemma WritesFunctionWords(f: FunctionDefinition)
    requires WritableFunction(f)
    ensures AllWords(SpellDefinition(MinimalDefinition(f)))
  {
    WritesParameterWords(f.parameters);
    WritesWords(f.body, 0);
    HeaderWords(f.name, SpellParameters(f.parameters), Spelling(Minimal(f.body, 0)));
  }

  lemma {:induction false} WritesFunctionsWords(fs: seq<FunctionDefinition>)
    requires forall k :: 0 <= k < |fs| ==> WritableFunction(fs[k])
    ensures AllWords(WriteFunctions(fs))
    decreases |fs|
  {
    if fs != [] {
      hide SpellDefinition, AllWords, WritableFunction;
      WritesFunctionWords(fs[0]);
      WritesFunctionsWords(fs[1..]);
      assert MinimalDefinitions(fs)[1..] == MinimalDefinitions(fs[1..]);
      WordsAppend(SpellDefinition(MinimalDefinition(fs[0])), WriteFunctions(fs[1..]));
    } else {
      assert WriteFunctions(fs) == [];
    }
  }

  /** The source is some layout of the written program. */
  ghost predicate WritesProgram(source: string, p: Program, lead: string, gaps: seq<string>) {
    && (forall k :: 0 <= k < |p.functions| ==> WritableFunction(p.functions[k]))
    && Lays(source, lead, WriteFunctions(p.functions), gaps)
  }

  /** Any layout of a written program lexes and parses back to it, up to the spans in its bodies. */
  lemma ProgramRoundTrip(source: string, p: Program, lead: string, gaps: seq<string>)
    requires WritesProgram(source, p, lead, gaps)
    ensures var lexed := Lex(source, 0);
            && lexed.Ok?
            && var parsed := ParseProgram(lexed.value);
               parsed.Ok? && SameFunctions(parsed.value.functions, p.functions)
  {
    hide Lex, Lays, ParseFunctions, WritableFunction, Shows, Spells, MeansDefinitions, SameFunctions, IsDefinition;
    var ds := MinimalDefinitions(p.functions);
    LexLaid(source, lead, SpellDefinitions(ds), gaps);
    var ts := Lex(source, 0).value;
    SpellsShows(ts, 0, SpellDefinitions(ds));
    MinimalMeansFunctions(p.functions, []);
    ReadsDefinitions(ts, 0, ds);
    MinimalMeansFunctions(p.functions, ParseFunctions(ts, 0).value.value);
  }

  /** Every writable program has such a text: one space after each word. */
  lemma EveryProgramHasText(p: Program) returns (source: string, gaps: seq<string>)
    requires forall k :: 0 <= k < |p.functions| ==> WritableFunction(p.functions[k])
    ensures WritesProgram(source, p, "", gaps)
  {
    var ws := WriteFunctions(p.functions);
    WritesFunctionsWords(p.functions);
    gaps := seq(|ws|, k => " ");
    source := "" + Layout(ws, gaps);
  }
}
