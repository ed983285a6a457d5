/** Whole programs: the parser accepts exactly the texts of definitions with distinct parameters. */
module TinyProgramReading {
  import opened Wrappers
  import opened TinyLexer
  import opened TinyGrammar
  import opened TinyConcrete
  import opened TinyRoundTrip
  import opened TinyReading
  import opened TinyProgramText
  import E = TinyExpression
  import P = TinyParser

  // ---------------------------------------------------------------------------
  // What is parsed is spelled
  // ---------------------------------------------------------------------------

  lemma {:induction false} ParametersSpelled(ts: seq<Token>, i: nat, seen: set<string>)
    requires i <= |ts| && ParseParameters(ts, i, seen).Ok?
    ensures var r := ParseParameters(ts, i, seen).value;
            && r.value != [] && DistinctNames(r.value) && (forall k :: 0 <= k < |r.value| ==> r.value[k] !in seen)
            && Shows(ts, i, SpellParameters(r.value)) && r.next == i + |SpellParameters(r.value)|
    decreases |ts| - i
  {
    hide Shows, SpellParameters;
    var name := Current(ts, i).lexeme;
    if Current(ts, i + 1).kind != Comma {
      OneParameter(ts, i, name);
    } else {
      var rest := ParseParameters(ts, i + 2, seen + {name}).value;
      ParametersSpelled(ts, i + 2, seen + {name});
      OneMoreParameter(ts, i, name, rest.value);
      assert ParseParameters(ts, i, seen).value == Parse([name] + rest.value, rest.next);
      DistinctMore(name, rest.value);
    }
  }

  lemma OneParameter(ts: seq<Token>, i: nat, name: string)
    requires Current(ts, i).kind == Identifier && Current(ts, i).lexeme == name
    ensures Shows(ts, i, SpellParameters([name])) && |SpellParameters([name])| == 1
  {
    hide Shows;
    ShowsParameters(ts, i, [name]);
  }

  lemma OneMoreParameter(ts: seq<Token>, i: nat, name: string, rest: seq<string>)
    requires Current(ts, i).kind == Identifier && Current(ts, i).lexeme == name && Current(ts, i + 1).kind == Comma
    requires rest != [] && Shows(ts, i + 2, SpellParameters(rest))
    ensures Shows(ts, i, SpellParameters([name] + rest)) && |SpellParameters([name] + rest)| == 2 + |SpellParameters(rest)|
  {
    hide Shows;
    assert ([name] + rest)[1..] == rest;
    ShowsParameters(ts, i, [name] + rest);
  }

  lemma DistinctMore(name: string, rest: seq<string>)
    requires DistinctNames(rest) && forall k :: 0 <= k < |rest| ==> rest[k] != name
    ensures DistinctNames([name] + rest)
  {
  }

  lemma ParameterListSpelled(ts: seq<Token>, i: nat)
    requires i <= |ts| && ParseParameterList(ts, i).Ok?
    ensures var r := ParseParameterList(ts, i).value;
            DistinctNames(r.value) && Shows(ts, i, SpellParameters(r.value)) && r.next == i + |SpellParameters(r.value)|
  {
    if Current(ts, i).kind != RightParen { ParametersSpelled(ts, i, {}); }
  }

  lemma DefinitionSpelled(ts: seq<Token>, i: nat) returns (d: Definition)
    requires i <= |ts| && ParseFunction(ts, i).Ok?
    ensures var r := ParseFunction(ts, i).value;
            IsDefinition(d) && MeansDefinition(r.value, d) && Shows(ts, i, SpellDefinition(d)) && r.next == i + |SpellDefinition(d)|
  {
    hide Shows, Spelling, SpellDefinition, SpellParameters, ParseInternal, ParseParameterList, IsExpression, Meant;
    var parameters := ParseParameterList(ts, i + 3).value;
    ParameterListSpelled(ts, i + 3);
    var c := InternalSpelled(ts, parameters.next + 2);
    LayersAreLevels(c);
    d := Definition(Current(ts, i + 1).lexeme, parameters.value, c);
    ShowsDefinition(ts, i, d);
  }

  lemma {:induction false} DefinitionsSpelled(ts: seq<Token>, i: nat) returns (ds: seq<Definition>)
    requires i <= |ts| && ParseFunctions(ts, i).Ok?
    ensures var r := ParseFunctions(ts, i).value;
            && (forall k :: 0 <= k < |ds| ==> IsDefinition(ds[k])) && MeansDefinitions(r.value, ds)
            && Shows(ts, i, SpellDefinitions(ds)) && r.next == i + |SpellDefinitions(ds)|
    decreases |ts| - i
  {
    if Current(ts, i).kind != KwFn {
      ds := [];
    } else {
      hide Shows, SpellDefinition, SpellDefinitions, ParseFunction, IsDefinition, MeansDefinition, MeansDefinitions;
      var first := ParseFunction(ts, i).value;
      var d := DefinitionSpelled(ts, i);
      var rest := DefinitionsSpelled(ts, first.next);
      ds := [d] + rest;
      OneMoreDefinition(ts, i, d, rest);
      assert ds[1..] == rest;
      MeansFirst(first.value, ParseFunctions(ts, first.next).value.value, ds);
    }
  }

  lemma OneMoreDefinition(ts: seq<Token>, i: nat, d: Definition, rest: seq<Definition>)
    ensures |SpellDefinitions([d] + rest)| == |SpellDefinition(d)| + |SpellDefinitions(rest)|
    ensures Shows(ts, i, SpellDefinitions([d] + rest))
       <==> Shows(ts, i, SpellDefinition(d)) && Shows(ts, i + |SpellDefinition(d)|, SpellDefinitions(rest))
  {
    hide Shows, SpellDefinition;
    assert ([d] + rest)[1..] == rest;
    ShowsBoth(ts, i, SpellDefinition(d), SpellDefinitions(rest));
  }

  // ---------------------------------------------------------------------------
  // The grammar of programs, exactly
  // ---------------------------------------------------------------------------

  ghost predicate AreDefinitions(ds: seq<Definition>) {
    forall k :: 0 <= k < |ds| ==> IsDefinition(ds[k])
  }

  /** The whole token list spells the definitions, and then the end of input. */
  ghost predicate IsProgramText(ts: seq<Token>, ds: seq<Definition>) {
    AreDefinitions(ds) && Shows(ts, 0, SpellDefinitions(ds)) && Current(ts, |SpellDefinitions(ds)|).kind == Eof
  }

  /** The parser accepts exactly the spellings of definitions with distinct parameters, and returns what they mean. */
  lemma ParsesExactly(ts: seq<Token>)
    ensures ParseProgram(ts).Ok? <==> exists ds :: IsProgramText(ts, ds)
    ensures forall ds :: IsProgramText(ts, ds) ==> ParseProgram(ts).Ok? && MeansDefinitions(ParseProgram(ts).value.functions, ds)
  {
    hide Shows, SpellDefinitions, IsDefinition, MeansDefinition, ParseFunctions;
    forall ds | IsProgramText(ts, ds) ensures ParseProgram(ts).Ok? && MeansDefinitions(ParseProgram(ts).value.functions, ds) {
      ReadsDefinitions(ts, 0, ds);
    }
    if ParseProgram(ts).Ok? {
      var ds := DefinitionsSpelled(ts, 0);
      assert IsProgramText(ts, ds);
    }
  }

  // ---------------------------------------------------------------------------
  // Programs as text
  // ---------------------------------------------------------------------------

  /** The source is a layout of the definitions, its numerals written in any way. */
  ghost predicate ProgramTextOf(source: string, lead: string, ws: seq<Word>, gaps: seq<string>, ds: seq<Definition>) {
    Lays(source, lead, ws, gaps) && AreDefinitions(ds) && SameWords(ws, SpellDefinitions(ds))
  }

  lemma {:induction false} ParametersHaveNoEnd(names: seq<string>)
    ensures Count(SpellParameters(names), Eof) == 0
    decreases |names|
  {
    if |names| > 1 {
      ParametersHaveNoEnd(names[1..]);
      CountBoth([COMMA], SpellParameters(names[1..]), Eof);
      CountBoth([Word(Identifier, names[0])], [COMMA] + SpellParameters(names[1..]), Eof);
    }
  }

  lemma HeaderHasNoEnd(name: string, ps: seq<Word>, body: seq<Word>)
    requires Count(ps, Eof) == 0 && Count(body, Eof) == 0
    ensures Count([FN] + ([Word(Identifier, name)] + ([OPEN] + (ps + ([CLOSE] + ([EQUAL] + body))))), Eof) == 0
  {
    var tail := [CLOSE] + ([EQUAL] + body);
    CountBoth([EQUAL], body, Eof);
    CountBoth([CLOSE], [EQUAL] + body, Eof);
    CountBoth(ps, tail, Eof);
    CountBoth([OPEN], ps + tail, Eof);
    CountBoth([Word(Identifier, name)], [OPEN] + (ps + tail), Eof);
    CountBoth([FN], [Word(Identifier, name)] + ([OPEN] + (ps + tail)), Eof);
  }

  lemma {:induction false} DefinitionsHaveNoEnd(ds: seq<Definition>)
    ensures Count(SpellDefinitions(ds), Eof) == 0
    decreases |ds|
  {
    if ds != [] {
      var d := ds[0];
      ParametersHaveNoEnd(d.parameters);
      SpellingTallies(d.body);
      HeaderHasNoEnd(d.name, SpellParameters(d.parameters), Spelling(d.body));
      DefinitionsHaveNoEnd(ds[1..]);
      CountBoth(SpellDefinition(d), SpellDefinitions(ds[1..]), Eof);
    }
  }

  lemma TokensOfProgram(ts: seq<Token>, ws: seq<Word>, ds: seq<Definition>)
    requires SpellsAll(Ok(ts), ws) && (forall k :: 0 <= k < |ws| ==> ws[k].kind != Eof)
    ensures IsProgramText(ts, ds) <==> AreDefinitions(ds) && SameWords(ws, SpellDefinitions(ds))
  {
    hide Shows, SpellsAll, SameWords, AreDefinitions, SpellDefinitions;
    DefinitionsHaveNoEnd(ds);
    TokensOfWords(ts, ws, SpellDefinitions(ds));
  }

  lemma ProgramTextReads(source: string, lead: string, ws: seq<Word>, gaps: seq<string>, ds: seq<Definition>)
    requires ProgramTextOf(source, lead, ws, gaps, ds)
    ensures P.ProgramOf(source).Ok? && MeansDefinitions(P.ProgramOf(source).value.functions, ds)
  {
    hide Lex, ParseProgram, IsProgramText, Lays, SpellsAll, SameWords, AreDefinitions, SpellDefinitions, MeansDefinitions;
    LexLaid(source, lead, ws, gaps);
    LaidHasNoEnd(source, lead, ws, gaps);
    SpellsOk(Lex(source, 0), ws);
    var ts := Lex(source, 0).value;
    TokensOfProgram(ts, ws, ds);
    ParsesExactly(ts);
  }

  /** A text is read as a program exactly when it is a layout of definitions with distinct parameters, which it then means. */
  lemma ReadsProgramExactly(source: string)
    ensures P.ProgramOf(source).Ok? <==> exists lead, ws, gaps, ds :: ProgramTextOf(source, lead, ws, gaps, ds)
    ensures forall lead, ws, gaps, ds :: ProgramTextOf(source, lead, ws, gaps, ds) ==>
              P.ProgramOf(source).Ok? && MeansDefinitions(P.ProgramOf(source).value.functions, ds)
  {
    hide Lex, ParseProgram, IsProgramText, Lays, SpellsAll, SameWords, AreDefinitions, SpellDefinitions, MeansDefinitions;
    forall lead, ws, gaps, ds | ProgramTextOf(source, lead, ws, gaps, ds)
      ensures P.ProgramOf(source).Ok? && MeansDefinitions(P.ProgramOf(source).value.functions, ds)
    {
      ProgramTextReads(source, lead, ws, gaps, ds);
    }
    if P.ProgramOf(source).Ok? {
      var lead, ws, gaps := LexedIsLaid(source, 0);
      assert source[0..] == source;
      LaidHasNoEnd(source, lead, ws, gaps);
      var ts := Lex(source, 0).value;
      ParsesExactly(ts);
      var ds :| IsProgramText(ts, ds);
      TokensOfProgram(ts, ws, ds);
      assert ProgramTextOf(source, lead, ws, gaps, ds);
    }
  }
}
