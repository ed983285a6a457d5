/**
 The text round trip: an expression written in infix, with only the parentheses the precedence
 table asks for and any whitespace between its words, lexes and parses back to the same tree.
 */
module TinyRoundTrip {
  import opened Wrappers
  import opened Decimal
  import opened TinyLexer
  import opened TinyGrammar
  import opened TinyConcrete
  import E = TinyExpression

  // ---------------------------------------------------------------------------
  // Writing an expression
  // ---------------------------------------------------------------------------

  predicate IsLetter(c: char) {
    'a' <= c <= 'z' || 'A' <= c <= 'Z' || c == '_'
  }

  predicate IsNumeral(c: char) {
    '0' <= c <= '9'
  }

  /** A letter, then letters and numerals. */
  predicate IsName(name: string) {
    name != [] && IsLetter(name[0]) && forall i :: 0 <= i < |name| ==> IsLetter(name[i]) || IsNumeral(name[i])
  }

  /** A name that is no keyword. */
  predicate IsIdentifier(name: string) {
    IsName(name) && name !in {"fn", "if", "then", "else"}
  }

  /** Every name in the tree is an identifier. */
  predicate Writable(e: E.Expression) {
    match e
    case Integer(_, _) => true
    case Name(n, _) => IsIdentifier(n)
    case Unary(o, _) => Writable(o)
    case Binary(_, l, r, _) => Writable(l) && Writable(r)
    case Call(c, arguments, _) => IsIdentifier(c) && AllWritable(arguments)
    case If(c, t, f, _) => Writable(c) && Writable(t) && Writable(f)
  }

  predicate AllWritable(es: seq<E.Expression>) {
    es != [] ==> Writable(es[0]) && AllWritable(es[1..])
  }

  /** Whether a tree must be parenthesised where operands of at least `level` are expected. */
  predicate NeedsParentheses(e: E.Expression, level: nat) {
    (e.If? && level > 0) || (e.Binary? && Precedence(e.operator) < level)
  }

  /** The tree with parentheses only where they are needed. */
  function Minimal(e: E.Expression, level: nat): Concrete
    decreases e, 1
  {
    if NeedsParentheses(e, level) then Grouped(MinimalBare(e)) else MinimalBare(e)
  }

  function MinimalBare(e: E.Expression): Concrete
    decreases e, 0
  {
    match e
    case Integer(v, _) => Numeral(v)
    case Name(n, _) => Variable(n)
    case Unary(o, _) => Negated(Minimal(o, UNARY_LEVEL))
    case Binary(op, l, r, _) => Infix(op, Minimal(l, Precedence(op)), Minimal(r, Precedence(op) + 1))
    case Call(c, arguments, _) => Applied(c, AllMinimal(arguments))
    case If(c, t, f, _) => Conditional(Minimal(c, 0), Minimal(t, 0), Minimal(f, 0))
  }

  function AllMinimal(es: seq<E.Expression>): (cs: seq<Concrete>)
    ensures |cs| == |es|
    decreases es, 2
  {
    if es == [] then [] else [Minimal(es[0], 0)] + AllMinimal(es[1..])
  }

  /** The words of the tree, with only the parentheses the precedence table asks for. */
  function Write(e: E.Expression, level: nat): seq<Word> {
    Spelling(Minimal(e, level))
  }

  /** The written tree is well formed and means the expression. */
  lemma {:induction false} MinimalMeans(e: E.Expression, level: nat)
    ensures Formed(Minimal(e, level), level) && Meant(Minimal(e, level)) == E.WithoutSpans(e)
    decreases e, 1
  {
    MinimalBareMeans(e);
    if !NeedsParentheses(e, level) && level > 0 {
      assert !e.If?;
    }
  }

  lemma {:induction false} MinimalBareMeans(e: E.Expression)
    ensures Formed(MinimalBare(e), if e.Binary? then Precedence(e.operator) else 0)
    ensures !e.If? && !e.Binary? ==> forall level: nat :: Formed(MinimalBare(e), level)
    ensures Meant(MinimalBare(e)) == E.WithoutSpans(e)
    decreases e, 0
  {
    match e
    case Integer(_, _) =>
    case Name(_, _) =>
    case Unary(o, _) => MinimalMeans(o, UNARY_LEVEL);
    case Binary(op, l, r, _) =>
      MinimalMeans(l, Precedence(op));
      MinimalMeans(r, Precedence(op) + 1);
    case Call(_, arguments, _) => AllMinimalMeans(arguments);
    case If(c, t, f, _) =>
      MinimalMeans(c, 0);
      MinimalMeans(t, 0);
      MinimalMeans(f, 0);
  }

  lemma {:induction false} AllMinimalMeans(es: seq<E.Expression>)
    ensures forall k :: 0 <= k < |es| ==> Formed(AllMinimal(es)[k], 0)
    ensures AllMeant(AllMinimal(es)) == E.AllWithoutSpans(es)
    decreases es, 2
  {
    if es != [] {
      MinimalMeans(es[0], 0);
      AllMinimalMeans(es[1..]);
      assert AllMinimal(es)[1..] == AllMinimal(es[1..]);
      assert forall k :: 0 < k < |es| ==> AllMinimal(es)[k] == AllMinimal(es[1..])[k - 1];
    }
  }

  // ---------------------------------------------------------------------------
  // Parsing what was written
  // ---------------------------------------------------------------------------

  /** The tokens from a position on begin with exactly the given words. */
  ghost predicate Spells(ts: seq<Token>, i: nat, ws: seq<Word>) {
    i + |ws| <= |ts| && forall k :: 0 <= k < |ws| ==> Word(ts[i + k].kind, ts[i + k].lexeme) == ws[k]
  }

  lemma SpellsShows(ts: seq<Token>, i: nat, ws: seq<Word>)
    requires Spells(ts, i, ws)
    ensures Shows(ts, i, ws)
  {
    forall k | 0 <= k < |ws| ensures IsWordFor(ts[i + k], ws[k]) {
      assert Word(ts[i + k].kind, ts[i + k].lexeme) == ws[k];
    }
  }

  /** An expression written where any expression may stand is parsed whole. */
  lemma ReadsWhole(ts: seq<Token>, i: nat, e: E.Expression)
    requires Spells(ts, i, Write(e, 0)) && Ends(Current(ts, i + |Write(e, 0)|).kind)
    ensures var r := ParseInternal(ts, i);
            r.Ok? && r.value.next == i + |Write(e, 0)| && E.WithoutSpans(r.value.value) == E.WithoutSpans(e)
  {
    hide ParseInternal, Minimal, Shows, Spells, Meant;
    MinimalMeans(e, 0);
    SpellsShows(ts, i, Write(e, 0));
    ReadsSpelled(ts, i, Minimal(e, 0));
  }

  // ---------------------------------------------------------------------------
  // Lexing what was written
  // ---------------------------------------------------------------------------

  predicate IsBlank(gap: string) {
    forall i :: 0 <= i < |gap| ==> gap[i] in {' ', '\n', '\r', '\t'}
  }

  /** The words of the language. */
  predicate IsWord(w: Word) {
    match w.kind
    case Integer => w.lexeme != [] && forall i :: 0 <= i < |w.lexeme| ==> IsNumeral(w.lexeme[i])
    case Identifier => IsIdentifier(w.lexeme)
    case KwFn => w.lexeme == "fn"
    case KwIf => w.lexeme == "if"
    case KwThen => w.lexeme == "then"
    case KwElse => w.lexeme == "else"
    case LeftParen => w.lexeme == "("
    case RightParen => w.lexeme == ")"
    case Comma => w.lexeme == ","
    case Equal => w.lexeme == "="
    case Plus => w.lexeme == "+"
    case Minus => w.lexeme == "-"
    case Star => w.lexeme == "*"
    case Slash => w.lexeme == "/"
    case Percent => w.lexeme == "%"
    case Less => w.lexeme == "<"
    case Greater => w.lexeme == ">"
    case Eof => false
  }

  predicate AllWords(ws: seq<Word>) {
    forall i :: 0 <= i < |ws| ==> IsWord(ws[i])
  }

  /** Words with blank text after each one. */
  function Layout(ws: seq<Word>, gaps: seq<string>): string
    requires |ws| == |gaps|
  {
    if ws == [] then "" else ws[0].lexeme + gaps[0] + Layout(ws[1..], gaps[1..])
  }

  /** The character would be lexed into the word before it. */
  predicate Continues(w: Word, c: char)
    requires w.lexeme != ""
  {
    if w.kind == Integer then IsNumeral(c)
    else w.kind in {Identifier, KwFn, KwIf, KwThen, KwElse} && (IsLetter(c) || IsNumeral(c))
  }

  predicate Touch(w: Word, next: Word)
    requires IsWord(w) && IsWord(next)
  {
    Continues(w, next.lexeme[0])
  }

  /** Gaps are blank, and a word never touches one that would continue it. */
  predicate Separates(ws: seq<Word>, gaps: seq<string>)
    requires AllWords(ws)
  {
    && |ws| == |gaps|
    && (forall i :: 0 <= i < |gaps| ==> IsBlank(gaps[i]))
    && (forall i :: 0 <= i < |ws| - 1 && Touch(ws[i], ws[i + 1]) ==> gaps[i] != "")
  }

  lemma {:induction false} DigitsRun(source: string, from: nat, end: nat)
    requires from <= end <= |source|
    requires forall i :: from <= i < end ==> IsDigit(source[i])
    requires end < |source| ==> !IsDigit(source[end])
    ensures DigitsEnd(source, from) == end
    decreases end - from
  {
    if from < end { DigitsRun(source, from + 1, end); }
  }

  lemma {:induction false} IdentifierRun(source: string, from: nat, end: nat)
    requires from <= end <= |source|
    requires forall i :: from <= i < end ==> IsIdentifierPart(source[i])
    requires end < |source| ==> !IsIdentifierPart(source[end])
    ensures IdentifierEnd(source, from) == end
    decreases end - from
  {
    if from < end { IdentifierRun(source, from + 1, end); }
  }

  lemma {:induction false} LexSkipsBlank(source: string, from: nat, end: nat)
    requires from <= end <= |source|
    requires forall i :: from <= i < end ==> IsWhitespace(source[i])
    ensures Lex(source, from) == Lex(source, end)
    decreases end - from
  {
    if from < end { LexSkipsBlank(source, from + 1, end); }
  }

  /** One word at a position, not continued by what follows it, is lexed as one token. */
  lemma LexOneWord(source: string, from: nat, w: Word)
    requires IsWord(w) && from + |w.lexeme| <= |source| && source[from..from + |w.lexeme|] == w.lexeme
    requires from + |w.lexeme| < |source| ==> !Continues(w, source[from + |w.lexeme|])
    ensures var end := from + |w.lexeme|;
            Lex(source, from) == Joined([Token(w.kind, w.lexeme, from, end)], Lex(source, end))
  {
    var end := from + |w.lexeme|;
    assert forall i :: from <= i < end ==> source[i] == w.lexeme[i - from];
    if w.kind == Integer {
      DigitsRun(source, from + 1, end);
    } else if w.kind in {KwFn, KwIf, KwThen, KwElse, Identifier} {
      IdentifierRun(source, from + 1, end);
    } else {
      assert w.lexeme == [source[from]];
    }
  }

  /** The tokens spell exactly these words and then the end of input. */
  ghost predicate SpellsAll(r: Result<seq<Token>, LexError>, ws: seq<Word>) {
    && r.Ok? && |r.value| == |ws| + 1
    && Spells(r.value, 0, ws) && r.value[|ws|].kind == Eof
  }

  lemma LayoutStart(ws: seq<Word>, gaps: seq<string>)
    requires AllWords(ws) && |ws| == |gaps| && ws != []
    ensures Layout(ws, gaps) != "" && Layout(ws, gaps)[0] == ws[0].lexeme[0]
  {
  }

  lemma BlankIsNoPart(c: char)
    requires IsWhitespace(c)
    ensures !IsIdentifierPart(c)
  {
  }

  /** What stands right after the first word does not continue it. */
  lemma FirstWordEnds(ws: seq<Word>, gaps: seq<string>)
    requires AllWords(ws) && Separates(ws, gaps) && ws != []
    ensures var rest := gaps[0] + Layout(ws[1..], gaps[1..]); rest != "" ==> !Continues(ws[0], rest[0])
  {
    if gaps[0] != "" {
      BlankIsNoPart(gaps[0][0]);
    } else if |ws| > 1 {
      assert ws[1..][0] == ws[1];
      LayoutStart(ws[1..], gaps[1..]);
    }
  }

  lemma SeparatesRest(ws: seq<Word>, gaps: seq<string>)
    requires AllWords(ws) && Separates(ws, gaps) && ws != []
    ensures AllWords(ws[1..]) && Separates(ws[1..], gaps[1..])
  {
    assert forall i :: 0 <= i < |ws[1..]| ==> ws[1..][i] == ws[i + 1] && gaps[1..][i] == gaps[i + 1];
  }

  lemma SpellsOneMore(t: Token, rest: Result<seq<Token>, LexError>, ws: seq<Word>)
    requires ws != [] && Word(t.kind, t.lexeme) == ws[0] && SpellsAll(rest, ws[1..])
    ensures SpellsAll(Joined([t], rest), ws)
  {
    var ts := [t] + rest.value;
    forall k | 0 <= k < |ws| ensures Word(ts[0 + k].kind, ts[0 + k].lexeme) == ws[k] {
      if k > 0 { assert ts[k] == rest.value[0 + (k - 1)] && ws[k] == ws[1..][k - 1]; }
    }
  }

  lemma TailSplits(source: string, from: nat, front: string, rest: string)
    requires from <= |source| && source[from..] == front + rest
    ensures var end := from + |front|;
            && end <= |source| && source[from..end] == front && source[end..] == rest
            && (rest != "" ==> source[end] == rest[0])
  {
    var end := from + |front|;
    assert forall i :: 0 <= i < |front + rest| ==> source[from + i] == (front + rest)[i];
  }

  /** Where a word and the gap after it stand in the text. */
  lemma WordAndGapStand(source: string, from: nat, lexeme: string, gap: string, rest: string)
    requires IsBlank(gap) && from <= |source| && source[from..] == lexeme + gap + rest
    ensures var end, next := from + |lexeme|, from + |lexeme| + |gap|;
            && next <= |source| && source[from..end] == lexeme && source[next..] == rest
            && (end < |source| ==> gap + rest != "" && source[end] == (gap + rest)[0])
            && (forall i :: end <= i < next ==> IsWhitespace(source[i]))
  {
    var end, next := from + |lexeme|, from + |lexeme| + |gap|;
    assert lexeme + gap + rest == lexeme + (gap + rest);
    TailSplits(source, from, lexeme, gap + rest);
    TailSplits(source, end, gap, rest);
    forall i | end <= i < next ensures IsWhitespace(source[i]) {
      assert source[i] == source[end..next][i - end] == gap[i - end];
    }
  }

  lemma LexWordAndGap(source: string, from: nat, w: Word, gap: string, rest: string)
    requires IsWord(w) && IsBlank(gap) && from <= |source| && source[from..] == w.lexeme + gap + rest
    requires w.lexeme != "" && (gap + rest != "" ==> !Continues(w, (gap + rest)[0]))
    ensures var end := from + |w.lexeme|;
            && end + |gap| <= |source| && source[end + |gap|..] == rest
            && Lex(source, from) == Joined([Token(w.kind, w.lexeme, from, end)], Lex(source, end + |gap|))
  {
    hide *;
    WordAndGapStand(source, from, w.lexeme, gap, rest);
    LexOneWord(source, from, w);
    LexSkipsBlank(source, from + |w.lexeme|, from + |w.lexeme| + |gap|);
  }

  lemma FirstWordApart(ws: seq<Word>, gaps: seq<string>)
    requires AllWords(ws) && Separates(ws, gaps) && ws != []
    ensures |gaps| == |ws| && IsWord(ws[0]) && IsBlank(gaps[0]) && ws[0].lexeme != ""
    ensures Layout(ws, gaps) == ws[0].lexeme + gaps[0] + Layout(ws[1..], gaps[1..])
    ensures var rest := gaps[0] + Layout(ws[1..], gaps[1..]);
            rest != "" ==> !Continues(ws[0], rest[0])
  {
    FirstWordEnds(ws, gaps);
  }

  lemma LexFirstWord(source: string, from: nat, ws: seq<Word>, gaps: seq<string>) returns (next: nat)
    requires AllWords(ws) && Separates(ws, gaps) && ws != [] && from <= |source|
    requires source[from..] == Layout(ws, gaps)
    ensures next <= |source| && source[next..] == Layout(ws[1..], gaps[1..])
    ensures Lex(source, from)
         == Joined([Token(ws[0].kind, ws[0].lexeme, from, from + |ws[0].lexeme|)], Lex(source, next))
  {
    hide *;
    FirstWordApart(ws, gaps);
    next := from + |ws[0].lexeme| + |gaps[0]|;
    LexWordAndGap(source, from, ws[0], gaps[0], Layout(ws[1..], gaps[1..]));
  }

  /** A layout of words lexes to exactly those words. */
  lemma {:induction false} LexLayout(source: string, from: nat, ws: seq<Word>, gaps: seq<string>)
    requires AllWords(ws) && Separates(ws, gaps) && from <= |source|
    requires source[from..] == Layout(ws, gaps)
    ensures SpellsAll(Lex(source, from), ws)
    decreases |ws|
  {
    if ws == [] {
      assert from == |source|;
    } else {
      var next := LexFirstWord(source, from, ws, gaps);
      SeparatesRest(ws, gaps);
      LexLayout(source, next, ws[1..], gaps[1..]);
      SpellsOneMore(Token(ws[0].kind, ws[0].lexeme, from, from + |ws[0].lexeme|), Lex(source, next), ws);
    }
  }

  // ---------------------------------------------------------------------------
  // The round trip
  // ---------------------------------------------------------------------------

  lemma WordsAppend(xs: seq<Word>, ys: seq<Word>)
    requires AllWords(xs) && AllWords(ys)
    ensures AllWords(xs + ys)
  {
  }

  lemma OneWord(w: Word)
    requires IsWord(w)
    ensures AllWords([w])
  {
  }

  lemma {:induction false} WritesWords(e: E.Expression, level: nat)
    requires Writable(e)
    ensures AllWords(Write(e, level))
    decreases e, 1
  {
    WritesBareWords(e);
    if NeedsParentheses(e, level) {
      WordsAppend(Spelling(MinimalBare(e)), [CLOSE]);
      WordsAppend([OPEN], Spelling(MinimalBare(e)) + [CLOSE]);
    }
  }

  lemma {:induction false} WritesBareWords(e: E.Expression)
    requires Writable(e)
    ensures AllWords(Spelling(MinimalBare(e)))
    decreases e, 0
  {
    match e
    case Integer(_, _) =>
    case Name(_, _) =>
    case Unary(o, _) =>
      WritesWords(o, UNARY_LEVEL);
      WordsAppend([MINUS], Write(o, UNARY_LEVEL));
    case Binary(op, l, r, _) =>
      var left, right := Write(l, Precedence(op)), Write(r, Precedence(op) + 1);
      WritesWords(l, Precedence(op));
      WritesWords(r, Precedence(op) + 1);
      OneWord(OperatorWord(op));
      WordsAppend([OperatorWord(op)], right);
      WordsAppend(left, [OperatorWord(op)] + right);
    case Call(c, arguments, _) =>
      var ws := SpellArguments(AllMinimal(arguments));
      WritesArgumentWords(arguments);
      OneWord(Word(Identifier, c));
      WordsAppend(ws, [CLOSE]);
      WordsAppend([OPEN], ws + [CLOSE]);
      WordsAppend([Word(Identifier, c)], [OPEN] + (ws + [CLOSE]));
    case If(c, t, f, _) =>
      WritesWords(c, 0);
      WritesWords(t, 0);
      WritesWords(f, 0);
      ThreePartWords(Write(c, 0), Write(t, 0), Write(f, 0));
  }

  lemma ThreePartWords(c: seq<Word>, t: seq<Word>, f: seq<Word>)
    requires AllWords(c) && AllWords(t) && AllWords(f)
    ensures AllWords([IF] + (c + ([THEN] + (t + ([ELSE] + f)))))
  {
    WordsAppend([ELSE], f);
    WordsAppend(t, [ELSE] + f);
    WordsAppend([THEN], t + ([ELSE] + f));
    WordsAppend(c, [THEN] + (t + ([ELSE] + f)));
    WordsAppend([IF], c + ([THEN] + (t + ([ELSE] + f))));
  }

  lemma {:induction false} WritesArgumentWords(es: seq<E.Expression>)
    requires AllWritable(es)
    ensures AllWords(SpellArguments(AllMinimal(es)))
    decreases es, 2
  {
    if es != [] {
      var rest := SpellArguments(AllMinimal(es[1..]));
      assert AllMinimal(es)[1..] == AllMinimal(es[1..]);
      WritesWords(es[0], 0);
      WritesArgumentWords(es[1..]);
      WordsAppend([COMMA], rest);
      WordsAppend(Write(es[0], 0), [COMMA] + rest);
    }
  }

  /** The source is these words, with blanks before, between and after them. */
  ghost predicate Lays(source: string, lead: string, ws: seq<Word>, gaps: seq<string>) {
    IsBlank(lead) && AllWords(ws) && Separates(ws, gaps) && source == lead + Layout(ws, gaps)
  }

  /** A text lexes to the words it lays out. */
  lemma LexLaid(source: string, lead: string, ws: seq<Word>, gaps: seq<string>)
    requires Lays(source, lead, ws, gaps)
    ensures SpellsAll(Lex(source, 0), ws)
  {
    hide Lex, AllWords, Layout, SpellsAll;
    assert forall i :: 0 <= i < |lead| ==> source[i] == lead[i];
    LexSkipsBlank(source, 0, |lead|);
    assert source[|lead|..] == Layout(ws, gaps);
    LexLayout(source, |lead|, ws, gaps);
  }

  /** The source is some layout of the written tree. */
  ghost predicate Writes(source: string, e: E.Expression, lead: string, gaps: seq<string>) {
    Writable(e) && Lays(source, lead, Write(e, 0), gaps)
  }

  /** Writing, lexing and parsing returns the same tree up to spans, hence with the same rendering. */
  lemma RoundTrip(source: string, e: E.Expression, lead: string, gaps: seq<string>)
    requires Writes(source, e, lead, gaps)
    ensures var lexed := Lex(source, 0);
            && lexed.Ok?
            && var parsed := ParseExpression(lexed.value);
               parsed.Ok? && E.WithoutSpans(parsed.value) == E.WithoutSpans(e) && E.Render(parsed.value) == E.Render(e)
  {
    hide Lex, Write, ParseInternal, Spells, Lays;
    LexLaid(source, lead, Write(e, 0), gaps);
    var ts := Lex(source, 0).value;
    ReadsWhole(ts, 0, e);
    var parsed := ParseExpression(ts).value;
    E.RenderWithoutSpans(parsed);
    E.RenderWithoutSpans(e);
  }

  /** Every writable tree has such a text: one space after each word. */
  lemma EveryTreeHasText(e: E.Expression) returns (source: string, gaps: seq<string>)
    requires Writable(e)
    ensures Writes(source, e, "", gaps)
  {
    hide Write, Layout;
    WritesWords(e, 0);
    gaps := seq(|Write(e, 0)|, k => " ");
    source := "" + Layout(Write(e, 0), gaps);
  }
}
