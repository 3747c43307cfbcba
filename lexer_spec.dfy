/** The lexer of src/lib.rs as pure functions of the input and a position:
    each sub-lexer returns the token it produces and the position where the
    cursor stands afterwards. The imperative methods of module Lexer are
    proved to compute exactly these.

    The source reads the current character without a bounds check in
    several loops (src/lib.rs:151, 164, 182, 204-229, 241, 258-269) and
    would panic at the end of the input. Here every such read is guarded,
    and the end of the input behaves like a character that matches nothing:
    a loop stops there, an unterminated string or character literal becomes
    its "missing terminating" Invalid token, and an unterminated comment
    runs to the end. */
module LexSpec {
  import opened Chars
  import opened Tokens

  /** A token together with the position just past the characters it
      consumed. */
  datatype Lexed = Lexed(token: Token, next: nat)

  // ---------------------------------------------------------------------
  // Comments (src/lib.rs:147-178)

  /** A comment opener stands at i: `/` followed by `/` or `*`. */
  predicate CommentOpensAt(chars: seq<char>, i: nat) {
    i + 1 < |chars| && chars[i] == '/' && (chars[i + 1] == '/' || chars[i + 1] == '*')
  }

  /** Where the cursor stands after the one comment that opens at pos and
      the whitespace after it. A line comment runs up to its newline (which
      is then skipped as whitespace); a block comment runs through the first
      closer found from its opening star on (so slash, star, slash is
      already a closed comment); an unterminated block comment swallows the
      rest of the input. */
  function CommentEnd(chars: seq<char>, pos: nat): (p: nat)
    requires CommentOpensAt(chars, pos)
    ensures pos + 2 <= p <= |chars|
    ensures p < |chars| ==> !IsAsciiWhitespace(chars[p])
  {
    if chars[pos + 1] == '/' then
      var e := SpanEnd(chars, pos, NotNewline);
      assert e != pos && e != pos + 1;
      SpanEnd(chars, e, Whitespace)
    else
      match BlockClose(chars, pos + 1)
      case None => |chars|
      case Some(j) => SpanEnd(chars, j + 2, Whitespace)
  }

  /** skip_comments: while a comment opens at the position, skip it and
      the whitespace after it. */
  function SkipCommentsFrom(chars: seq<char>, pos: nat): (r: nat)
    ensures pos <= r
    ensures pos <= |chars| ==> r <= |chars|
    ensures r < |chars| ==> !CommentOpensAt(chars, r)
    ensures r > pos && r < |chars| ==> !IsAsciiWhitespace(chars[r])
    decreases |chars| - pos
  {
    if !CommentOpensAt(chars, pos) then pos
    else
      var p := CommentEnd(chars, pos);
      if p < |chars| then SkipCommentsFrom(chars, p) else p
  }

  // ---------------------------------------------------------------------
  // Identifiers and keywords (src/lib.rs:180-200)

  /** lex_identifier_or_keyword: the maximal run of identifier characters
      at pos, as the keyword it spells or as an identifier. */
  function IdentifierAt(chars: seq<char>, pos: nat): (r: Lexed)
    requires pos < |chars|
    ensures pos <= r.next <= |chars|
    ensures IsIdentChar(chars[pos]) ==> r.next > pos
    ensures r.token.Keyword? || r.token.Id?
  {
    var e := SpanEnd(chars, pos, IdentChar);
    Lexed(KeywordOrId(chars[pos..e]), e)
  }

  // ---------------------------------------------------------------------
  // Numbers (src/lib.rs:202-235)

  /** lex_number: a digit run; if an alphanumeric follows it, the whole
      alphanumeric run is one invalid identifier; otherwise an optional `.`
      and a second digit run, then an optional `f` that is consumed but not
      kept in the literal. */
  function NumberAt(chars: seq<char>, pos: nat): (r: Lexed)
    requires pos < |chars|
    ensures pos <= r.next <= |chars|
    ensures r.token.Number? || r.token.Invalid?
    ensures IsAsciiDigit(chars[pos]) || chars[pos] == '.' ==> r.next > pos
  {
    var d := SpanEnd(chars, pos, Digit);
    if d < |chars| && IsAlnum(chars[d]) then
      var e := SpanEnd(chars, d, Alnum);
      Lexed(Invalid(InvalidIdentifierMessage(chars[pos..e])), e)
    else if d < |chars| && chars[d] == '.' then
      var f := SpanEnd(chars, d + 1, Digit);
      Lexed(Number(chars[pos..f]), if f < |chars| && chars[f] == 'f' then f + 1 else f)
    else
      Lexed(Number(chars[pos..d]), d)
  }

  // ---------------------------------------------------------------------
  // String literals (src/lib.rs:237-254)

  /** lex_string: everything after the opening quote up to the next `"`,
      verbatim (no escapes), with a NUL appended; without a closing quote,
      the "missing terminating" diagnostic and the cursor at the end. */
  function StringAt(chars: seq<char>, pos: nat): (r: Lexed)
    requires pos < |chars|
    ensures pos < r.next <= |chars|
    ensures r.token.StringLit? || r.token == Invalid(MissingQuoteMessage)
  {
    var q := SpanEnd(chars, pos + 1, NotQuote);
    if q < |chars| then Lexed(StringLit(chars[pos + 1..q] + ['\0']), q + 1)
    else Lexed(Invalid(MissingQuoteMessage), q)
  }

  // ---------------------------------------------------------------------
  // Character literals (src/lib.rs:256-275)

  /** lex_char: the value is the character after the opening quote, or NUL
      when that character is itself a quote; the character after the value
      must not be alphanumeric and must be the closing quote. The cursor is
      advanced past the value even when the input ends there (it then
      stands one past the end, with the end flag set). */
  function CharAt(chars: seq<char>, pos: nat): (r: Lexed)
    requires pos < |chars|
    ensures pos < r.next <= |chars| + 1
    ensures r.token.CharLit? || r.token == Invalid(CharTooLongMessage)
            || r.token == Invalid(MissingApostropheMessage)
  {
    var v := if pos + 1 < |chars| && chars[pos + 1] != '\'' then chars[pos + 1] else '\0';
    var p := pos + 2;
    if p < |chars| && IsAlnum(chars[p]) then Lexed(Invalid(CharTooLongMessage), p)
    else if !(p < |chars| && chars[p] == '\'') then Lexed(Invalid(MissingApostropheMessage), p)
    else Lexed(CharLit(v), p + 1)
  }

  // ---------------------------------------------------------------------
  // Operators (src/lib.rs:277-331)

  /** The decision table of lex_operator on the current character and the
      lookahead: the two-character form when the lookahead completes one,
      else the one-character form, else an invalid symbol; the second
      component is how many characters are consumed. The source returns
      Eof without advancing when there is no lookahead (src/lib.rs:278-281),
      which makes tokenize_str loop forever on an input ending in an
      operator; here a missing lookahead is a lookahead that completes
      nothing. */
  function OperatorTable(c: char, next: Option<char>): (r: (Token, nat))
    ensures r.1 == 1 || (r.1 == 2 && next.Some?)
    ensures r.0.Operator? <==> IsOperatorStart(c)
    ensures !r.0.Operator? ==> r == (Invalid(InvalidSymbolMessage(c)), 1)
  {
    match c
    case '+' =>
      if next == Some('=') then (Operator(PlusEqual), 2)
      else if next == Some('+') then (Operator(Increment), 2)
      else (Operator(Plus), 1)
    case '-' =>
      if next == Some('=') then (Operator(MinusEqual), 2)
      else if next == Some('-') then (Operator(Decrement), 2)
      else (Operator(Minus), 1)
    case '>' =>
      if next == Some('=') then (Operator(GreaterThanOrEqual), 2) else (Operator(GreaterThan), 1)
    case '<' =>
      if next == Some('=') then (Operator(LessThanOrEqual), 2) else (Operator(LessThan), 1)
    case '&' =>
      if next == Some('&') then (Operator(And), 2) else (Operator(BitwiseAnd), 1)
    case '|' =>
      if next == Some('|') then (Operator(Or), 2) else (Operator(BitwiseOr), 1)
    case '=' =>
      if next == Some('=') then (Operator(Equals), 2) else (Operator(Assign), 1)
    case '!' =>
      if next == Some('=') then (Operator(NotEqual), 2) else (Operator(ExclamationPoint), 1)
    case '*' =>
      if next == Some('=') then (Operator(AsteriskEqual), 2) else (Operator(Asterisk), 1)
    case '/' =>
      if next == Some('=') then (Operator(DivideEqual), 2) else (Operator(Divide), 1)
    case _ => (Invalid(InvalidSymbolMessage(c)), 1)
  }

  /** The lookahead lex_operator consults (`next_char`). */
  function Lookahead(chars: seq<char>, pos: nat): (r: Option<char>)
    ensures r.Some? <==> pos + 1 < |chars|
    ensures r.Some? ==> r.value == chars[pos + 1]
  {
    if pos + 1 < |chars| then Some(chars[pos + 1]) else None
  }

  /** lex_operator at pos. */
  function OperatorAt(chars: seq<char>, pos: nat): (r: Lexed)
    requires pos < |chars|
    ensures pos < r.next <= |chars|
    ensures r.token.Operator? || r.token.Invalid?
  {
    var (t, n) := OperatorTable(chars[pos], Lookahead(chars, pos));
    Lexed(t, pos + n)
  }

  // ---------------------------------------------------------------------
  // The dispatch of tokenize_str (src/lib.rs:105-139)

  /** The seven punctuation marks, each a token of its own. */
  function Punctuation(c: char): (r: Option<Token>)
    ensures r.Some? <==> c in "(){}[];"
    ensures r.Some? ==> r.value in [OpenParen, CloseParen, OpenBrace, CloseBrace,
                                    OpenBracket, CloseBracket, SemiColon]
  {
    match c
    case '(' => Some(OpenParen)
    case ')' => Some(CloseParen)
    case '{' => Some(OpenBrace)
    case '}' => Some(CloseBrace)
    case '[' => Some(OpenBracket)
    case ']' => Some(CloseBracket)
    case ';' => Some(SemiColon)
    case _ => None
  }

  /** The token that starts at pos (which holds neither whitespace nor a
      comment opener when tokenize_str gets there), chosen by its first
      character. Every branch consumes at least one character and none
      yields Eof. */
  function TokenAt(chars: seq<char>, pos: nat): (r: Lexed)
    requires pos < |chars|
    ensures pos < r.next <= |chars| + 1
    ensures !r.token.Eof?
  {
    var c := chars[pos];
    if IsIdentStart(c) then IdentifierAt(chars, pos)
    else if IsAsciiDigit(c) || c == '.' then NumberAt(chars, pos)
    else if c == '"' then StringAt(chars, pos)
    else if c == '\'' then CharAt(chars, pos)
    else if Punctuation(c).Some? then Lexed(Punctuation(c).value, pos + 1)
    else OperatorAt(chars, pos)
  }

  // ---------------------------------------------------------------------
  // tokenize_str (src/lib.rs:88-145)

  /** The tokens produced from pos on: skip whitespace, stop with Eof at
      the end; skip comments, stop with Eof at the end; otherwise lex one
      token and go on after it. */
  function TokenizeFrom(chars: seq<char>, pos: nat): (ts: seq<Token>)
    ensures |ts| >= 1
    ensures ts[|ts| - 1] == Eof
    decreases |chars| - pos
  {
    var p := SpanEnd(chars, pos, Whitespace);
    if p >= |chars| then [Eof]
    else
      var q := SkipCommentsFrom(chars, p);
      if q >= |chars| then [Eof]
      else
        var r := TokenAt(chars, q);
        [r.token] + TokenizeFrom(chars, r.next)
  }

  /** Tokenizing from pos yields exactly ts. */
  predicate Yields(chars: seq<char>, pos: nat, ts: seq<Token>) {
    TokenizeFrom(chars, pos) == ts
  }

  /** tokenize_str on a whole text. */
  function Tokenize(text: string): (ts: seq<Token>)
    ensures |ts| >= 1
    ensures ts[|ts| - 1] == Eof
  {
    TokenizeFrom(text, 0)
  }
}
