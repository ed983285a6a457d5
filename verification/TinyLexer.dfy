/** Tiny's lexer: maximal runs of digits and identifier characters, one-character punctuation. */
module TinyLexer {
  import opened Wrappers
  import opened Decimal

  datatype Kind =
    | KwFn | KwIf | KwThen | KwElse
    | Identifier | Integer
    | LeftParen | RightParen | Comma | Equal
    | Plus | Minus | Star | Slash | Percent | Less | Greater
    | Eof

  datatype Token = Token(kind: Kind, lexeme: string, start: nat, end: nat)

  datatype LexError = LexError(found: char, start: nat)

  predicate IsWhitespace(c: char) {
    c == ' ' || c == '\n' || c == '\r' || c == '\t'
  }

  predicate IsIdentifierStart(c: char) {
    'a' <= c <= 'z' || 'A' <= c <= 'Z' || c == '_'
  }

  predicate IsIdentifierPart(c: char) {
    IsIdentifierStart(c) || IsDigit(c)
  }

  function ClassifyIdentifier(lexeme: string): Kind {
    if lexeme == "fn" then KwFn
    else if lexeme == "if" then KwIf
    else if lexeme == "then" then KwThen
    else if lexeme == "else" then KwElse
    else Identifier
  }

  function Punctuation(c: char): Option<Kind> {
    if c == '(' then Some(LeftParen)
    else if c == ')' then Some(RightParen)
    else if c == ',' then Some(Comma)
    else if c == '=' then Some(Equal)
    else if c == '+' then Some(Plus)
    else if c == '-' then Some(Minus)
    else if c == '*' then Some(Star)
    else if c == '/' then Some(Slash)
    else if c == '%' then Some(Percent)
    else if c == '<' then Some(Less)
    else if c == '>' then Some(Greater)
    else None
  }

  /** Where the run of digits from an offset ends. */
  function DigitsEnd(source: string, offset: nat): (end: nat)
    requires offset <= |source|
    ensures offset <= end <= |source|
    decreases |source| - offset
  {
    if offset < |source| && IsDigit(source[offset]) then DigitsEnd(source, offset + 1) else offset
  }

  /** Where the run of identifier characters from an offset ends. */
  function IdentifierEnd(source: string, offset: nat): (end: nat)
    requires offset <= |source|
    ensures offset <= end <= |source|
    decreases |source| - offset
  {
    if offset < |source| && IsIdentifierPart(source[offset]) then IdentifierEnd(source, offset + 1) else offset
  }

  /** Tokens already found, followed by the rest of a lex. */
  function Joined(tokens: seq<Token>, rest: Result<seq<Token>, LexError>): Result<seq<Token>, LexError> {
    if rest.Err? then rest else Ok(tokens + rest.value)
  }

  /** The tokens from an offset on. */
  function Lex(source: string, offset: nat): Result<seq<Token>, LexError>
    requires offset <= |source|
    decreases |source| - offset
  {
    if offset == |source| then Ok([Token(Eof, "", |source|, |source|)])
    else
      var c := source[offset];
      if IsWhitespace(c) then Lex(source, offset + 1)
      else if IsDigit(c) then
        var end := DigitsEnd(source, offset + 1);
        Joined([Token(Integer, source[offset..end], offset, end)], Lex(source, end))
      else if IsIdentifierStart(c) then
        var end := IdentifierEnd(source, offset + 1);
        Joined([Token(ClassifyIdentifier(source[offset..end]), source[offset..end], offset, end)], Lex(source, end))
      else if Punctuation(c).Some? then
        Joined([Token(Punctuation(c).value, [c], offset, offset + 1)], Lex(source, offset + 1))
      else Err(LexError(c, offset))
  }

  lemma JoinedJoined(tokens: seq<Token>, t: Token, rest: Result<seq<Token>, LexError>)
    ensures Joined(tokens, Joined([t], rest)) == Joined(tokens + [t], rest)
  {
    if rest.Ok? { assert tokens + ([t] + rest.value) == tokens + [t] + rest.value; }
  }

  lemma LexUnfolds(source: string, offset: nat)
    requires offset < |source|
    ensures var c := source[offset];
            Lex(source, offset)
            == if IsWhitespace(c) then Lex(source, offset + 1)
               else if IsDigit(c) then
                 var end := DigitsEnd(source, offset + 1);
                 Joined([Token(Integer, source[offset..end], offset, end)], Lex(source, end))
               else if IsIdentifierStart(c) then
                 var end := IdentifierEnd(source, offset + 1);
                 Joined([Token(ClassifyIdentifier(source[offset..end]), source[offset..end], offset, end)], Lex(source, end))
               else if Punctuation(c).Some? then
                 Joined([Token(Punctuation(c).value, [c], offset, offset + 1)], Lex(source, offset + 1))
               else Err(LexError(c, offset))
  {
  }

  lemma LexEnds(source: string)
    ensures Lex(source, |source|) == Ok([Token(Eof, "", |source|, |source|)])
  {
  }

  method Tokenize(source: string) returns (r: Result<seq<Token>, LexError>)
    ensures r == Lex(source, 0)
  {
    hide Lex, ClassifyIdentifier, Punctuation;
    LexEnds(source);
    var tokens: seq<Token> := [];
    var offset := 0;
    ghost var whole := Lex(source, 0);
    if whole.Ok? { assert [] + whole.value == whole.value; }
    while offset < |source|
      invariant 0 <= offset <= |source|
      invariant Joined(tokens, Lex(source, offset)) == whole
    {
      LexUnfolds(source, offset);
      var c := source[offset];
      if IsWhitespace(c) {
        offset := offset + 1;
        continue;
      }
      var start := offset;
      ghost var before := tokens;
      if IsDigit(c) {
        offset := offset + 1;
        while offset < |source| && IsDigit(source[offset])
          invariant start < offset <= |source| && DigitsEnd(source, offset) == DigitsEnd(source, start + 1)
        {
          offset := offset + 1;
        }
        tokens := tokens + [Token(Integer, source[start..offset], start, offset)];
      } else if IsIdentifierStart(c) {
        offset := offset + 1;
        while offset < |source| && IsIdentifierPart(source[offset])
          invariant start < offset <= |source| && IdentifierEnd(source, offset) == IdentifierEnd(source, start + 1)
        {
          offset := offset + 1;
        }
        var lexeme := source[start..offset];
        tokens := tokens + [Token(ClassifyIdentifier(lexeme), lexeme, start, offset)];
      } else if Punctuation(c).Some? {
        offset := offset + 1;
        tokens := tokens + [Token(Punctuation(c).value, [c], start, offset)];
      } else {
        return Err(LexError(c, start));
      }
      JoinedJoined(before, tokens[|before|], Lex(source, offset));
    }
    return Ok(tokens + [Token(Eof, "", |source|, |source|)]);
  }
}
