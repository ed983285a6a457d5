/**
 The converse of the round trip. The lexer accepts exactly the layouts of words, the parser reads exactly the texts of
 well formed concrete trees, and no other text of an expression has so few parentheses as its written form.
 */
module TinyReading {
  import opened Wrappers
  import opened Decimal
  import opened TinyLexer
  import opened TinyGrammar
  import opened TinyConcrete
  import opened TinyRoundTrip
  import E = TinyExpression
  import P = TinyParser

  // ---------------------------------------------------------------------------
  // The lexer accepts exactly the layouts of words
  // ---------------------------------------------------------------------------

  lemma {:induction false} DigitsEndIsMaximal(source: string, offset: nat)
    requires offset <= |source|
    ensures var end := DigitsEnd(source, offset);
            && (forall i :: offset <= i < end ==> IsDigit(source[i]))
            && (end < |source| ==> !IsDigit(source[end]))
    decreases |source| - offset
  {
    if offset < |source| && IsDigit(source[offset]) { DigitsEndIsMaximal(source, offset + 1); }
  }

  lemma {:induction false} IdentifierEndIsMaximal(source: string, offset: nat)
    requires offset <= |source|
    ensures var end := IdentifierEnd(source, offset);
            && (forall i :: offset <= i < end ==> IsIdentifierPart(source[i]))
            && (end < |source| ==> !IsIdentifierPart(source[end]))
    decreases |source| - offset
  {
    if offset < |source| && IsIdentifierPart(source[offset]) { IdentifierEndIsMaximal(source, offset + 1); }
  }

  lemma DigitsAreAWord(source: string, from: nat, end: nat)
    requires from < |source| && IsDigit(source[from]) && end == DigitsEnd(source, from + 1)
    ensures IsWord(Word(Integer, source[from..end])) && (end < |source| ==> !Continues(Word(Integer, source[from..end]), source[end]))
  {
    DigitsEndIsMaximal(source, from + 1);
  }

  lemma IdentifierIsAWord(source: string, from: nat, end: nat)
    requires from < |source| && IsIdentifierStart(source[from]) && end == IdentifierEnd(source, from + 1)
    ensures var w := Word(ClassifyIdentifier(source[from..end]), source[from..end]);
            IsWord(w) && (end < |source| ==> !Continues(w, source[end]))
  {
    hide IdentifierEnd;
    IdentifierEndIsMaximal(source, from + 1);
    var lexeme := source[from..end];
    assert forall i :: 0 <= i < |lexeme| ==> lexeme[i] == source[from + i];
  }

  lemma PunctuationIsAWord(c: char)
    requires Punctuation(c).Some?
    ensures var w := Word(Punctuation(c).value, [c]); IsWord(w) && forall d :: !Continues(w, d)
  {
  }

  /** The token the lexer takes at an offset is a word, and what stands after it does not continue it. */
  lemma LexHead(source: string, from: nat) returns (w: Word, end: nat)
    requires from < |source| && !IsWhitespace(source[from]) && Lex(source, from).Ok?
    ensures IsWord(w) && from < end <= |source| && source[from..end] == w.lexeme
    ensures end < |source| ==> !Continues(w, source[end])
    ensures Lex(source, from) == Joined([Token(w.kind, w.lexeme, from, end)], Lex(source, end))
  {
    LexUnfolds(source, from);
    hide Lex, IsWord, Continues, ClassifyIdentifier, Punctuation, IsWhitespace, IsDigit, IsIdentifierStart;
    var c := source[from];
    if IsDigit(c) {
      end := DigitsEnd(source, from + 1);
      w := Word(Integer, source[from..end]);
      DigitsAreAWord(source, from, end);
    } else if IsIdentifierStart(c) {
      end := IdentifierEnd(source, from + 1);
      w := Word(ClassifyIdentifier(source[from..end]), source[from..end]);
      IdentifierIsAWord(source, from, end);
    } else {
      end := from + 1;
      w := Word(Punctuation(c).value, [c]);
      PunctuationIsAWord(c);
      assert source[from..end] == [c];
    }
  }

  lemma LaysAfterBlank(source: string, c: char, lead: string, ws: seq<Word>, gaps: seq<string>)
    requires IsWhitespace(c) && Lays(source, lead, ws, gaps)
    ensures Lays([c] + source, [c] + lead, ws, gaps)
  {
    assert [c] + (lead + Layout(ws, gaps)) == [c] + lead + Layout(ws, gaps);
  }

  lemma LaysAfterWord(w: Word, source: string, lead: string, ws: seq<Word>, gaps: seq<string>)
    requires IsWord(w) && Lays(source, lead, ws, gaps) && (source != "" ==> !Continues(w, source[0]))
    ensures Lays(w.lexeme + source, "", [w] + ws, [lead] + gaps)
  {
    hide Layout, IsWord, Continues;
    var ws', gaps' := [w] + ws, [lead] + gaps;
    LayoutAfterWord(w, lead, ws, gaps);
    forall i | 0 <= i < |ws'| - 1 && Touch(ws'[i], ws'[i + 1]) ensures gaps'[i] != "" {
      if i == 0 {
        LayoutStart(ws, gaps);
      } else {
        assert Touch(ws[i - 1], ws[i]);
      }
    }
  }

  lemma LayoutAfterWord(w: Word, gap: string, ws: seq<Word>, gaps: seq<string>)
    requires |ws| == |gaps|
    ensures Layout([w] + ws, [gap] + gaps) == w.lexeme + (gap + Layout(ws, gaps))
  {
    assert ([w] + ws)[1..] == ws && ([gap] + gaps)[1..] == gaps;
    assert w.lexeme + gap + Layout(ws, gaps) == w.lexeme + (gap + Layout(ws, gaps));
  }

  /** Whatever lexes is a layout of the words it lexes to. */
  lemma {:induction false} LexedIsLaid(source: string, from: nat) returns (lead: string, ws: seq<Word>, gaps: seq<string>)
    requires from <= |source| && Lex(source, from).Ok?
    ensures SpellsAll(Lex(source, from), ws) && Lays(source[from..], lead, ws, gaps)
    decreases |source| - from
  {
    hide Lex, IsWhitespace, IsWord, Continues;
    if from == |source| {
      lead, ws, gaps := "", [], [];
      LexEnds(source);
    } else if IsWhitespace(source[from]) {
      LexUnfolds(source, from);
      lead, ws, gaps := LexedIsLaid(source, from + 1);
      LaysAfterBlank(source[from + 1..], source[from], lead, ws, gaps);
      lead := [source[from]] + lead;
      assert source[from..] == [source[from]] + source[from + 1..];
    } else {
      var w, end := LexHead(source, from);
      var lead', ws', gaps' := LexedIsLaid(source, end);
      LaysAfterWord(w, source[end..], lead', ws', gaps');
      lead, ws, gaps := "", [w] + ws', [lead'] + gaps';
      assert source[from..] == w.lexeme + source[end..];
      assert ws[1..] == ws';
      SpellsOneMore(Token(w.kind, w.lexeme, from, end), Lex(source, end), ws);
    }
  }

  /** The tokens stand in the source in order, with only blanks between them, and the end of input at its end. */
  ghost predicate StandsFrom(source: string, from: nat, ts: seq<Token>)
    decreases |ts|
  {
    && ts != [] && from <= ts[0].start <= ts[0].end <= |source|
    && IsBlank(source[from..ts[0].start]) && source[ts[0].start..ts[0].end] == ts[0].lexeme
    && if |ts| == 1 then ts[0].kind == Eof && ts[0].start == |source|
       else ts[0].start < ts[0].end && StandsFrom(source, ts[0].end, ts[1..])
  }

  predicate IsLegal(c: char) {
    IsLetter(c) || IsNumeral(c) || c in {' ', '\n', '\r', '\t'} || c in {'(', ')', ',', '=', '+', '-', '*', '/', '%', '<', '>'}
  }

  lemma {:induction false} LexStands(source: string, from: nat)
    requires from <= |source| && Lex(source, from).Ok?
    ensures StandsFrom(source, from, Lex(source, from).value)
    decreases |source| - from
  {
    hide Lex, IsWord, Continues;
    if from == |source| {
      LexEnds(source);
    } else if IsWhitespace(source[from]) {
      LexUnfolds(source, from);
      LexStands(source, from + 1);
      var t := Lex(source, from + 1).value[0];
      assert source[from..t.start] == [source[from]] + source[from + 1..t.start];
    } else {
      var w, end := LexHead(source, from);
      LexStands(source, end);
      var t, rest := Token(w.kind, w.lexeme, from, end), Lex(source, end).value;
      assert ([t] + rest)[1..] == rest && source[from..from] == "";
    }
  }

  /** The lexer refuses a text exactly when some character is not Tiny's, and names the first one with its place. */
  lemma {:induction false} LexFailsExactly(source: string, from: nat)
    requires from <= |source|
    ensures match Lex(source, from)
            case Ok(_) => forall i :: from <= i < |source| ==> IsLegal(source[i])
            case Err(LexError(c, at)) =>
              from <= at < |source| && source[at] == c && !IsLegal(c) && forall i :: from <= i < at ==> IsLegal(source[i])
    decreases |source| - from
  {
    hide Lex;
    if from == |source| {
      LexEnds(source);
    } else {
      LexUnfolds(source, from);
      if IsWhitespace(source[from]) || (!IsDigit(source[from]) && !IsIdentifierStart(source[from])) {
        LexFailsExactly(source, from + 1);
      } else {
        var end := if IsDigit(source[from]) then DigitsEnd(source, from + 1) else IdentifierEnd(source, from + 1);
        DigitsEndIsMaximal(source, from + 1);
        IdentifierEndIsMaximal(source, from + 1);
        LexFailsExactly(source, end);
      }
    }
  }

  lemma SpellsOnlyOnce(r: Result<seq<Token>, LexError>, xs: seq<Word>, ys: seq<Word>)
    requires SpellsAll(r, xs) && SpellsAll(r, ys)
    ensures xs == ys
  {
    forall k | 0 <= k < |xs| ensures xs[k] == ys[k] {
      assert Word(r.value[0 + k].kind, r.value[0 + k].lexeme) == xs[k];
    }
  }

  /** A text lexes to given words exactly when it is one of their layouts. */
  lemma LexesExactly(source: string, ws: seq<Word>)
    ensures SpellsAll(Lex(source, 0), ws) <==> exists lead, gaps :: Lays(source, lead, ws, gaps)
  {
    hide Lex, Lays, SpellsAll;
    forall lead, gaps | Lays(source, lead, ws, gaps) ensures SpellsAll(Lex(source, 0), ws) {
      LexLaid(source, lead, ws, gaps);
    }
    if SpellsAll(Lex(source, 0), ws) {
      SpellsOk(Lex(source, 0), ws);
      var lead, ws', gaps := LexedIsLaid(source, 0);
      SpellsOnlyOnce(Lex(source, 0), ws, ws');
      assert source[0..] == source;
    }
  }

  lemma SpellsOk(r: Result<seq<Token>, LexError>, ws: seq<Word>)
    requires SpellsAll(r, ws)
    ensures r.Ok?
  {
  }

  // ---------------------------------------------------------------------------
  // The reader accepts exactly the texts of concrete trees
  // ---------------------------------------------------------------------------

  predicate SameWords(vs: seq<Word>, ws: seq<Word>) {
    |vs| == |ws| && forall k :: 0 <= k < |vs| ==> SameWord(vs[k], ws[k])
  }

  /** The source is a layout of a well formed tree, its numerals written in any way. */
  ghost predicate TextOf(source: string, lead: string, ws: seq<Word>, gaps: seq<string>, c: Concrete) {
    Lays(source, lead, ws, gaps) && IsExpression(c) && SameWords(ws, Spelling(c))
  }

  /** How many words of a kind there are. */
  function Count(ws: seq<Word>, kind: Kind): nat {
    if ws == [] then 0 else (if ws[0].kind == kind then 1 else 0) + Count(ws[1..], kind)
  }

  lemma {:induction false} CountBoth(xs: seq<Word>, ys: seq<Word>, kind: Kind)
    ensures Count(xs + ys, kind) == Count(xs, kind) + Count(ys, kind)
    decreases |xs|
  {
    if xs == [] {
      assert xs + ys == ys;
    } else {
      assert (xs + ys)[1..] == xs[1..] + ys;
      CountBoth(xs[1..], ys, kind);
    }
  }

  lemma {:induction false} CountsAgree(vs: seq<Word>, ws: seq<Word>, kind: Kind)
    requires SameWords(vs, ws)
    ensures Count(vs, kind) == Count(ws, kind)
    decreases |vs|
  {
    if vs != [] { CountsAgree(vs[1..], ws[1..], kind); }
  }

  lemma {:induction false} CountOccurs(ws: seq<Word>, k: nat)
    requires k < |ws|
    ensures Count(ws, ws[k].kind) > 0
  {
    if k > 0 { CountOccurs(ws[1..], k - 1); }
  }

  /** The parentheses opened in the tree's text, those of calls included. */
  function Pairs(c: Concrete): nat {
    match c
    case Numeral(_) => 0
    case Variable(_) => 0
    case Negated(o) => Pairs(o)
    case Infix(_, l, r) => Pairs(l) + Pairs(r)
    case Applied(_, arguments) => 1 + AllPairs(arguments)
    case Conditional(x, t, f) => Pairs(x) + Pairs(t) + Pairs(f)
    case Grouped(inner) => 1 + Pairs(inner)
  }

  function AllPairs(cs: seq<Concrete>): nat {
    if cs == [] then 0 else Pairs(cs[0]) + AllPairs(cs[1..])
  }

  /** The words open so many parentheses, and the end of input is not among them. */
  predicate Tallies(ws: seq<Word>, pairs: nat) {
    Count(ws, LeftParen) == pairs && Count(ws, Eof) == 0
  }

  lemma TalliesBoth(xs: seq<Word>, m: nat, ys: seq<Word>, n: nat)
    requires Tallies(xs, m) && Tallies(ys, n)
    ensures Tallies(xs + ys, m + n)
  {
    CountBoth(xs, ys, LeftParen);
    CountBoth(xs, ys, Eof);
  }

  lemma TalliesAfter(w: Word, ws: seq<Word>, n: nat)
    requires w.kind != Eof && Tallies(ws, n)
    ensures Tallies([w] + ws, if w.kind == LeftParen then 1 + n else n)
  {
    assert ([w] + ws)[1..] == ws;
  }

  lemma TalliesBetween(w: Word, xs: seq<Word>, m: nat, ys: seq<Word>, n: nat)
    requires w.kind != Eof && Tallies(xs, m) && Tallies(ys, n)
    ensures Tallies([w] + (xs + ys), if w.kind == LeftParen then 1 + m + n else m + n)
  {
    TalliesBoth(xs, m, ys, n);
    TalliesAfter(w, xs + ys, m + n);
  }

  lemma TalliesOne(w: Word)
    requires w.kind != Eof
    ensures Tallies([w], if w.kind == LeftParen then 1 else 0)
  {
    TalliesAfter(w, [], 0);
    assert [w] + [] == [w];
  }

  lemma {:induction false} SpellingTallies(c: Concrete)
    ensures Tallies(Spelling(c), Pairs(c))
    decreases c, 1
  {
    hide Tallies;
    match c
    case Numeral(v) => TalliesOne(Word(Integer, Digits(v)));
    case Variable(name) => TalliesOne(Word(Identifier, name));
    case Negated(o) =>
      SpellingTallies(o);
      TalliesAfter(MINUS, Spelling(o), Pairs(o));
    case Infix(op, l, r) =>
      SpellingTallies(l);
      SpellingTallies(r);
      OperatorIsNoParenthesis(op);
      TalliesAfter(OperatorWord(op), Spelling(r), Pairs(r));
      TalliesBoth(Spelling(l), Pairs(l), [OperatorWord(op)] + Spelling(r), Pairs(r));
    case Applied(f, cs) =>
      var ws, n := SpellArguments(cs), AllPairs(cs);
      ArgumentsTally(cs);
      TalliesOne(CLOSE);
      TalliesBetween(OPEN, ws, n, [CLOSE], 0);
      TalliesAfter(Word(Identifier, f), [OPEN] + (ws + [CLOSE]), 1 + n);
    case Conditional(x, t, f) =>
      SpellingTallies(x);
      SpellingTallies(t);
      SpellingTallies(f);
      ConditionalTallies(Spelling(x), Pairs(x), Spelling(t), Pairs(t), Spelling(f), Pairs(f));
    case Grouped(inner) =>
      SpellingTallies(inner);
      TalliesOne(CLOSE);
      TalliesBetween(OPEN, Spelling(inner), Pairs(inner), [CLOSE], 0);
  }

  lemma OperatorIsNoParenthesis(op: E.BinaryOperator)
    ensures OperatorWord(op).kind != LeftParen && OperatorWord(op).kind != Eof
  {
  }

  lemma ConditionalTallies(x: seq<Word>, l: nat, t: seq<Word>, m: nat, f: seq<Word>, n: nat)
    requires Tallies(x, l) && Tallies(t, m) && Tallies(f, n)
    ensures Tallies([IF] + (x + ([THEN] + (t + ([ELSE] + f)))), l + m + n)
  {
    hide Tallies;
    TalliesAfter(ELSE, f, n);
    TalliesBetween(THEN, t, m, [ELSE] + f, n);
    TalliesBetween(IF, x, l, [THEN] + (t + ([ELSE] + f)), m + n);
  }

  lemma {:induction false} ArgumentsTally(cs: seq<Concrete>)
    ensures Tallies(SpellArguments(cs), AllPairs(cs))
    decreases cs, 2
  {
    if |cs| == 1 {
      SpellingTallies(cs[0]);
      assert AllPairs(cs[1..]) == 0;
    } else if cs != [] {
      hide Tallies;
      SpellingTallies(cs[0]);
      ArgumentsTally(cs[1..]);
      TalliesAfter(COMMA, SpellArguments(cs[1..]), AllPairs(cs[1..]));
      TalliesBoth(Spelling(cs[0]), Pairs(cs[0]), [COMMA] + SpellArguments(cs[1..]), AllPairs(cs[1..]));
    }
  }

  lemma LaidHasNoEnd(source: string, lead: string, ws: seq<Word>, gaps: seq<string>)
    requires Lays(source, lead, ws, gaps)
    ensures forall k :: 0 <= k < |ws| ==> ws[k].kind != Eof
  {
  }

  /** The tokens of some words, then the end, are the words that are spelled exactly when the words are the same. */
  lemma TokensOfWords(ts: seq<Token>, ws: seq<Word>, words: seq<Word>)
    requires SpellsAll(Ok(ts), ws) && (forall k :: 0 <= k < |ws| ==> ws[k].kind != Eof) && Count(words, Eof) == 0
    ensures Shows(ts, 0, words) && Current(ts, |words|).kind == Eof <==> SameWords(ws, words)
  {
    hide SameWord, NumberOf;
    assert forall k :: 0 <= k < |ws| ==> Word(ts[0 + k].kind, ts[0 + k].lexeme) == ws[k];
    if Shows(ts, 0, words) && Current(ts, |words|).kind == Eof {
      if |words| > |ws| {
        assert IsWordFor(ts[0 + |ws|], words[|ws|]);
        SameKind(Word(ts[|ws|].kind, ts[|ws|].lexeme), words[|ws|]);
        CountOccurs(words, |ws|);
        assert false;
      }
      assert |words| < |ws| ==> Current(ts, |words|).kind == ws[|words|].kind;
      forall k | 0 <= k < |ws| && k < |words| ensures SameWord(ws[k], words[k]) {
        assert IsWordFor(ts[0 + k], words[k]);
      }
    }
    if SameWords(ws, words) {
      forall k | 0 <= k < |words| ensures IsWordFor(ts[0 + k], words[k]) {
        assert SameWord(ws[k], words[k]);
      }
    }
  }

  /** The tokens of some words are a tree's text exactly when the words are the tree's. */
  lemma TokensOfText(ts: seq<Token>, ws: seq<Word>, c: Concrete)
    requires SpellsAll(Ok(ts), ws) && (forall k :: 0 <= k < |ws| ==> ws[k].kind != Eof)
    ensures IsTextOf(ts, c) <==> IsExpression(c) && SameWords(ws, Spelling(c))
  {
    hide Shows, SpellsAll, SameWords, IsExpression, Spelling;
    SpellingTallies(c);
    TokensOfWords(ts, ws, Spelling(c));
  }

  lemma SameKind(v: Word, w: Word)
    requires SameWord(v, w)
    ensures v.kind == w.kind
  {
  }

  /** Reading succeeds exactly on the texts of well formed concrete trees, and returns what the tree means. */
  lemma ReadsExactly(source: string)
    ensures P.ExpressionOf(source).Ok? <==> exists lead, ws, gaps, c :: TextOf(source, lead, ws, gaps, c)
    ensures forall lead, ws, gaps, c :: TextOf(source, lead, ws, gaps, c) ==>
              P.ExpressionOf(source).Ok? && E.WithoutSpans(P.ExpressionOf(source).value) == Meant(c)
  {
    hide Lex, ParseExpression, IsTextOf, Lays, SpellsAll, SameWords, IsExpression, Spelling, Meant;
    forall lead, ws, gaps, c | TextOf(source, lead, ws, gaps, c)
      ensures P.ExpressionOf(source).Ok? && E.WithoutSpans(P.ExpressionOf(source).value) == Meant(c)
    {
      TextReads(source, lead, ws, gaps, c);
    }
    if P.ExpressionOf(source).Ok? {
      var lead, ws, gaps, c := ReadIsText(source);
    }
  }

  lemma TextReads(source: string, lead: string, ws: seq<Word>, gaps: seq<string>, c: Concrete)
    requires TextOf(source, lead, ws, gaps, c)
    ensures P.ExpressionOf(source).Ok? && E.WithoutSpans(P.ExpressionOf(source).value) == Meant(c)
  {
    hide Lex, ParseExpression, IsTextOf, Lays, SpellsAll, SameWords, IsExpression, Spelling, Meant;
    LexLaid(source, lead, ws, gaps);
    LaidHasNoEnd(source, lead, ws, gaps);
    SpellsOk(Lex(source, 0), ws);
    var ts := Lex(source, 0).value;
    TokensOfText(ts, ws, c);
    AcceptsExactly(ts);
  }

  lemma ReadIsText(source: string) returns (lead: string, ws: seq<Word>, gaps: seq<string>, c: Concrete)
    requires P.ExpressionOf(source).Ok?
    ensures TextOf(source, lead, ws, gaps, c)
    ensures E.WithoutSpans(P.ExpressionOf(source).value) == Meant(c)
  {
    hide Lex, ParseExpression, IsTextOf, Lays, SpellsAll, SameWords, IsExpression, Spelling, Meant;
    lead, ws, gaps := LexedIsLaid(source, 0);
    assert source[0..] == source;
    LaidHasNoEnd(source, lead, ws, gaps);
    var ts := Lex(source, 0).value;
    AcceptsExactly(ts);
    c :| IsTextOf(ts, c);
    TokensOfText(ts, ws, c);
  }

  // ---------------------------------------------------------------------------
  // No other text has so few parentheses
  // ---------------------------------------------------------------------------

  /** The written tree has the fewest parentheses of all trees with its meaning, and only it has so few. */
  lemma {:induction false} FewestPairs(c: Concrete, e: E.Expression, level: nat)
    requires Formed(c, level) && Meant(c) == E.WithoutSpans(e)
    ensures Pairs(Minimal(e, level)) <= Pairs(c)
    ensures Pairs(Minimal(e, level)) == Pairs(c) ==> c == Minimal(e, level)
    decreases c, 1
  {
    match c
    case Numeral(_) =>
    case Variable(_) =>
    case Negated(o) => FewestPairs(o, e.operand, UNARY_LEVEL);
    case Infix(op, l, r) =>
      FewestPairs(l, e.left, Precedence(op));
      FewestPairs(r, e.right, Precedence(op) + 1);
    case Applied(_, cs) => FewestInAll(cs, e.arguments);
    case Conditional(x, t, f) =>
      FewestPairs(x, e.condition, 0);
      FewestPairs(t, e.onTrue, 0);
      FewestPairs(f, e.onFalse, 0);
    case Grouped(inner) => FewestPairs(inner, e, 0);
  }

  lemma {:induction false} FewestInAll(cs: seq<Concrete>, es: seq<E.Expression>)
    requires (forall k :: 0 <= k < |cs| ==> Formed(cs[k], 0)) && AllMeant(cs) == E.AllWithoutSpans(es)
    ensures AllPairs(AllMinimal(es)) <= AllPairs(cs)
    ensures AllPairs(AllMinimal(es)) == AllPairs(cs) ==> cs == AllMinimal(es)
    decreases cs, 2
  {
    if cs != [] && es != [] {
      assert AllMeant(cs)[0] == Meant(cs[0]) && AllMeant(cs)[1..] == AllMeant(cs[1..]);
      assert E.AllWithoutSpans(es)[0] == E.WithoutSpans(es[0]) && E.AllWithoutSpans(es)[1..] == E.AllWithoutSpans(es[1..]);
      FewestPairs(cs[0], es[0], 0);
      FewestInAll(cs[1..], es[1..]);
      assert AllMinimal(es)[1..] == AllMinimal(es[1..]);
      assert cs == [cs[0]] + cs[1..];
    }
  }

  /** Reading the source gives the expression, up to spans. */
  ghost predicate ReadsAs(source: string, e: E.Expression) {
    P.ExpressionOf(source).Ok? && E.WithoutSpans(P.ExpressionOf(source).value) == E.WithoutSpans(e)
  }

  /** Words of a text that reads as the expression open at least the parentheses of its written form; those that open no more are it. */
  lemma WritingIsTheOnlyMinimalText(source: string, lead: string, ws: seq<Word>, gaps: seq<string>, e: E.Expression)
    requires Lays(source, lead, ws, gaps)
    ensures ReadsAs(source, e) ==> Count(Write(e, 0), LeftParen) <= Count(ws, LeftParen)
    ensures ReadsAs(source, e) && Count(ws, LeftParen) <= Count(Write(e, 0), LeftParen) <==> SameWords(ws, Write(e, 0))
  {
    hide Lays, SameWords, Spelling, Formed, Meant, Pairs, Minimal, Count, P.ExpressionOf;
    MinimalMeans(e, 0);
    var least := Minimal(e, 0);
    SpellingTallies(least);
    LayersAreLevels(least);
    if SameWords(ws, Write(e, 0)) {
      TextReads(source, lead, ws, gaps, least);
      CountsAgree(ws, Write(e, 0), LeftParen);
    }
    if ReadsAs(source, e) {
      var c := TextIsRead(source, lead, ws, gaps);
      LayersAreLevels(c);
      FewestPairs(c, e, 0);
      SpellingTallies(c);
      CountsAgree(ws, Spelling(c), LeftParen);
    }
  }

  /** Whatever is read is the text of some tree, whichever layout the source is seen as. */
  lemma TextIsRead(source: string, lead: string, ws: seq<Word>, gaps: seq<string>) returns (c: Concrete)
    requires P.ExpressionOf(source).Ok? && Lays(source, lead, ws, gaps)
    ensures TextOf(source, lead, ws, gaps, c) && E.WithoutSpans(P.ExpressionOf(source).value) == Meant(c)
  {
    hide Lex, ParseExpression, IsTextOf, Lays, SpellsAll, SameWords, IsExpression, Spelling, Meant;
    LexLaid(source, lead, ws, gaps);
    var lead', ws', gaps', c' := ReadIsText(source);
    LexLaid(source, lead', ws', gaps');
    SpellsOnlyOnce(Lex(source, 0), ws, ws');
    c := c';
  }

  /** Leaving any pair of parentheses out of a written expression changes the expression, or makes it unreadable. */
  lemma EveryPairIsNeeded(source: string, lead: string, gaps: seq<string>, e: E.Expression, j: nat, k: nat)
    requires j < k < |Write(e, 0)| && Write(e, 0)[j].kind == LeftParen && Write(e, 0)[k].kind == RightParen
    requires var ws := Write(e, 0); Lays(source, lead, ws[..j] + ws[j + 1..k] + ws[k + 1..], gaps)
    ensures !ReadsAs(source, e)
  {
    hide Lays, Write, ReadsAs, Count;
    var ws := Write(e, 0);
    var fewer := ws[..j] + ws[j + 1..k] + ws[k + 1..];
    CountWithout(ws, j, k);
    WritingIsTheOnlyMinimalText(source, lead, fewer, gaps, e);
  }

  lemma CountWithout(ws: seq<Word>, j: nat, k: nat)
    requires j < k < |ws| && ws[j].kind == LeftParen && ws[k].kind == RightParen
    ensures Count(ws[..j] + ws[j + 1..k] + ws[k + 1..], LeftParen) == Count(ws, LeftParen) - 1
  {
    hide Count;
    var a, b, c := ws[..j], ws[j + 1..k], ws[k + 1..];
    assert ws == a + ([ws[j]] + (b + ([ws[k]] + c))) && a + b + c == a + (b + c);
    CountOne(ws[j]);
    CountOne(ws[k]);
    CountBoth([ws[k]], c, LeftParen);
    CountBoth(b, [ws[k]] + c, LeftParen);
    CountBoth([ws[j]], b + ([ws[k]] + c), LeftParen);
    CountBoth(a, [ws[j]] + (b + ([ws[k]] + c)), LeftParen);
    CountBoth(b, c, LeftParen);
    CountBoth(a, b + c, LeftParen);
  }

  lemma CountOne(w: Word)
    ensures Count([w], LeftParen) == if w.kind == LeftParen then 1 else 0
  {
    assert [w][1..] == [];
  }
}
