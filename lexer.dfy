/** The imperative lexer of src/lib.rs: the sub-lexers advance a shared
    CharacterStream and build their text one character at a time, and
    tokenize_str loops and pushes onto a growing token sequence. Each method
    is proved to leave the cursor where, and to return the token that, the
    corresponding function of module LexSpec prescribes. */
module Lexer {
  import opened Chars
  import opened Tokens
  import opened LexSpec
  import opened CharStream

  /** One line comment (src/lib.rs:150-155): up to the newline, which
      skip_whitespace then eats. */
  method SkipLineComment(cs: CharacterStream)
    requires cs.Valid() && CommentOpensAt(cs.chars, cs.pos) && cs.chars[cs.pos + 1] == '/'
    modifies cs
    ensures cs.Valid()
    ensures cs.pos == CommentEnd(cs.chars, old(cs.pos))
  {
    while cs.CheckBounds() && cs.Current() != '\n'
      invariant cs.Valid() && old(cs.pos) <= cs.pos <= |cs.chars|
      invariant SpanEnd(cs.chars, cs.pos, NotNewline) == SpanEnd(cs.chars, old(cs.pos), NotNewline)
      decreases |cs.chars| - cs.pos
    {
      cs.AdvanceBy(1);
    }
    cs.SkipWhitespace();
  }

  /** One block comment (src/lib.rs:161-170): the search for the closer
      starts at the `*` of the opener. */
  method SkipBlockComment(cs: CharacterStream)
    requires cs.Valid() && CommentOpensAt(cs.chars, cs.pos) && cs.chars[cs.pos + 1] == '*'
    modifies cs
    ensures cs.Valid()
    ensures cs.pos == CommentEnd(cs.chars, old(cs.pos))
  {
    while true
      invariant cs.Valid() && old(cs.pos) <= cs.pos < |cs.chars|
      invariant BlockClose(cs.chars, cs.pos + 1) == BlockClose(cs.chars, old(cs.pos) + 1)
      decreases |cs.chars| - cs.pos
    {
      cs.AdvanceBy(1);
      if !cs.CheckBounds() {
        // unterminated: the source would read past the end here
        break;
      }
      if cs.Current() == '*' && cs.NextChar() == Some('/') {
        cs.AdvanceBy(2);
        cs.SkipWhitespace();
        break;
      }
    }
  }

  /** skip_comments (src/lib.rs:147-178). The source recurses after each
      comment while characters remain; here that recursion is a loop. Every
      read is guarded: a line comment without a newline and an unterminated
      block comment both stop at the end of the input. */
  method SkipComments(cs: CharacterStream)
    requires cs.Valid()
    modifies cs
    ensures cs.Valid()
    ensures cs.pos == SkipCommentsFrom(cs.chars, old(cs.pos))
  {
    while cs.CheckBounds() && cs.Current() == '/'
          && (cs.NextChar() == Some('/') || cs.NextChar() == Some('*'))
      invariant cs.Valid() && old(cs.pos) <= cs.pos
      invariant SkipCommentsFrom(cs.chars, cs.pos) == SkipCommentsFrom(cs.chars, old(cs.pos))
      decreases |cs.chars| - cs.pos
    {
      if cs.NextChar() == Some('/') {
        SkipLineComment(cs);
      } else {
        SkipBlockComment(cs);
      }
    }
  }

  /** lex_identifier_or_keyword (src/lib.rs:180-200). */
  method LexIdentifierOrKeyword(cs: CharacterStream) returns (t: Token)
    requires cs.Valid() && !cs.IsEof()
    modifies cs
    ensures cs.Valid()
    ensures Lexed(t, cs.pos) == IdentifierAt(cs.chars, old(cs.pos))
  {
    var id: string := [];
    while cs.CheckBounds() && (IsAlnum(cs.Current()) || cs.Current() == '_')
      invariant cs.Valid() && old(cs.pos) <= cs.pos <= |cs.chars|
      invariant id == cs.chars[old(cs.pos)..cs.pos]
      invariant SpanEnd(cs.chars, cs.pos, IdentChar) == SpanEnd(cs.chars, old(cs.pos), IdentChar)
      decreases |cs.chars| - cs.pos
    {
      id := id + [cs.Current()];
      cs.AdvanceBy(1);
    }
    t := KeywordOrId(id);
  }

  /** Appends the maximal run of digits at the cursor to `num`. */
  method ScanDigits(cs: CharacterStream, num: string) returns (num': string)
    requires cs.Valid() && cs.pos <= |cs.chars|
    modifies cs
    ensures cs.Valid()
    ensures cs.pos == SpanEnd(cs.chars, old(cs.pos), Digit)
    ensures num' == num + cs.chars[old(cs.pos)..cs.pos]
  {
    num' := num;
    while cs.CheckBounds() && IsAsciiDigit(cs.Current())
      invariant cs.Valid() && old(cs.pos) <= cs.pos <= |cs.chars|
      invariant num' == num + cs.chars[old(cs.pos)..cs.pos]
      invariant SpanEnd(cs.chars, cs.pos, Digit) == SpanEnd(cs.chars, old(cs.pos), Digit)
      decreases |cs.chars| - cs.pos
    {
      num' := num' + [cs.Current()];
      cs.AdvanceBy(1);
    }
  }

  /** Appends the maximal alphanumeric run at the cursor to `run`: the
      rest of an identifier that starts with digits. */
  method ScanAlnum(cs: CharacterStream, run: string) returns (run': string)
    requires cs.Valid() && cs.pos <= |cs.chars|
    modifies cs
    ensures cs.Valid()
    ensures cs.pos == SpanEnd(cs.chars, old(cs.pos), Alnum)
    ensures run' == run + cs.chars[old(cs.pos)..cs.pos]
  {
    run' := run;
    while cs.CheckBounds() && IsAlnum(cs.Current())
      invariant cs.Valid() && old(cs.pos) <= cs.pos <= |cs.chars|
      invariant run' == run + cs.chars[old(cs.pos)..cs.pos]
      invariant SpanEnd(cs.chars, cs.pos, Alnum) == SpanEnd(cs.chars, old(cs.pos), Alnum)
      decreases |cs.chars| - cs.pos
    {
      run' := run' + [cs.Current()];
      cs.AdvanceBy(1);
    }
  }

  /** lex_number (src/lib.rs:202-235). */
  method LexNumber(cs: CharacterStream) returns (t: Token)
    requires cs.Valid() && !cs.IsEof()
    modifies cs
    ensures cs.Valid()
    ensures Lexed(t, cs.pos) == NumberAt(cs.chars, old(cs.pos))
  {
    ghost var chars, start := cs.chars, cs.pos;
    var num := ScanDigits(cs, []);
    ghost var d := cs.pos;
    if cs.CheckBounds() && IsAlnum(cs.Current()) {
      var invalidId := ScanAlnum(cs, num);
      SliceJoin(chars, start, d, cs.pos);
      assert NumberAt(chars, start)
          == Lexed(Invalid(InvalidIdentifierMessage(invalidId)), cs.pos);
      return Invalid(InvalidIdentifierMessage(invalidId));
    }
    if cs.CheckBounds() && cs.Current() == '.' {
      t := LexFraction(cs, start, num);
      return;
    }
    assert num == chars[start..d];
    assert NumberAt(chars, start) == Lexed(Number(num), d);
    return Number(num);
  }

  /** The rest of lex_number once the digit run at start ends at a `.`:
      the `.`, the digits after it, and an optional `f`. */
  method LexFraction(cs: CharacterStream, ghost start: nat, num: string) returns (t: Token)
    requires cs.Valid() && start <= cs.pos < |cs.chars| && cs.chars[cs.pos] == '.'
    requires cs.pos == SpanEnd(cs.chars, start, Digit)
    requires num == cs.chars[start..cs.pos]
    modifies cs
    ensures cs.Valid()
    ensures Lexed(t, cs.pos) == NumberAt(cs.chars, start)
  {
    ghost var chars, d := cs.chars, cs.pos;
    var run := num + [cs.Current()];
    cs.AdvanceBy(1);
    SliceJoin(chars, start, d, d + 1);
    assert run == chars[start..d + 1];
    run := ScanDigits(cs, run);
    ghost var f := cs.pos;
    SliceJoin(chars, start, d + 1, f);
    NumberAtFraction(chars, start, d, f);
    if cs.CheckBounds() && cs.Current() == 'f' {
      cs.AdvanceBy(1);
    }
    t := Number(run);
    assert t == NumberAt(chars, start).token;
  }

  /** NumberAt when the digit run at start ends at a `.`. */
  lemma NumberAtFraction(chars: seq<char>, start: nat, d: nat, f: nat)
    requires start <= d < |chars| && chars[d] == '.' && d == SpanEnd(chars, start, Digit)
    requires f == SpanEnd(chars, d + 1, Digit)
    ensures f <= |chars|
    ensures NumberAt(chars, start).token == Number(chars[start..f])
    ensures NumberAt(chars, start).next == if f < |chars| && chars[f] == 'f' then f + 1 else f
  {
  }

  /** lex_string (src/lib.rs:237-254). With the read guarded, the loop
      stops at the end of the input and the "missing terminating" branch,
      unreachable in the source, becomes the outcome of an unterminated
      string. */
  method LexString(cs: CharacterStream) returns (t: Token)
    requires cs.Valid() && !cs.IsEof()
    modifies cs
    ensures cs.Valid()
    ensures Lexed(t, cs.pos) == StringAt(cs.chars, old(cs.pos))
  {
    var s: string := [];
    cs.AdvanceBy(1);
    while cs.CheckBounds() && cs.Current() != '"'
      invariant cs.Valid() && old(cs.pos) + 1 <= cs.pos <= |cs.chars|
      invariant s == cs.chars[old(cs.pos) + 1..cs.pos]
      invariant SpanEnd(cs.chars, cs.pos, NotQuote) == SpanEnd(cs.chars, old(cs.pos) + 1, NotQuote)
      decreases |cs.chars| - cs.pos
    {
      s := s + [cs.Current()];
      cs.AdvanceBy(1);
    }
    if !(cs.CheckBounds() && cs.Current() == '"') {
      return Invalid(MissingQuoteMessage);
    }
    cs.AdvanceBy(1);
    s := s + ['\0'];
    return StringLit(s);
  }

  /** lex_char (src/lib.rs:256-275). A read at the end of the input counts
      as a character that is neither a quote nor alphanumeric. */
  method LexChar(cs: CharacterStream) returns (t: Token)
    requires cs.Valid() && !cs.IsEof()
    modifies cs
    ensures cs.Valid()
    ensures Lexed(t, cs.pos) == CharAt(cs.chars, old(cs.pos))
  {
    cs.AdvanceBy(1);
    var value := if cs.CheckBounds() && cs.Current() != '\'' then cs.Current() else '\0';
    cs.AdvanceBy(1);
    if cs.CheckBounds() && IsAlnum(cs.Current()) {
      return Invalid(CharTooLongMessage);
    }
    if !(cs.CheckBounds() && cs.Current() == '\'') {
      return Invalid(MissingApostropheMessage);
    }
    cs.AdvanceBy(1);
    return CharLit(value);
  }

  /** lex_operator (src/lib.rs:277-331): classify on the current character
      and the lookahead, then advance by the width of what was recognised. */
  method LexOperator(cs: CharacterStream) returns (t: Token)
    requires cs.Valid() && !cs.IsEof()
    modifies cs
    ensures cs.Valid()
    ensures Lexed(t, cs.pos) == OperatorAt(cs.chars, old(cs.pos))
  {
    var next := cs.NextChar();
    var (token, advanceTotal) := OperatorTable(cs.Current(), next);
    cs.AdvanceBy(advanceTotal);
    t := token;
  }

  /** The dispatch of tokenize_str on the current character
      (src/lib.rs:105-139). */
  method LexToken(cs: CharacterStream) returns (t: Token)
    requires cs.Valid() && !cs.IsEof()
    modifies cs
    ensures cs.Valid()
    ensures Lexed(t, cs.pos) == TokenAt(cs.chars, old(cs.pos))
  {
    var c := cs.Current();
    if IsIdentStart(c) {
      t := LexIdentifierOrKeyword(cs);
    } else if IsAsciiDigit(c) || c == '.' {
      t := LexNumber(cs);
    } else if c == '"' {
      t := LexString(cs);
    } else if c == '\'' {
      t := LexChar(cs);
    } else if c == '(' {
      cs.AdvanceBy(1);
      t := OpenParen;
    } else if c == ')' {
      cs.AdvanceBy(1);
      t := CloseParen;
    } else if c == '{' {
      cs.AdvanceBy(1);
      t := OpenBrace;
    } else if c == '}' {
      cs.AdvanceBy(1);
      t := CloseBrace;
    } else if c == '[' {
      cs.AdvanceBy(1);
      t := OpenBracket;
    } else if c == ']' {
      cs.AdvanceBy(1);
      t := CloseBracket;
    } else if c == ';' {
      cs.AdvanceBy(1);
      t := SemiColon;
    } else {
      t := LexOperator(cs);
    }
  }

  /** The tokens pushed so far, followed by what the rest of the text from
      pos tokenizes to, are the tokens of the whole text. */
  ghost predicate PendingFrom(text: string, tokens: seq<Token>, pos: nat) {
    tokens + TokenizeFrom(text, pos) == Tokenize(text)
  }

  /** One pass of the loop that pushes a token keeps PendingFrom. */
  lemma PendingAfterToken(text: string, tokens: seq<Token>, p: nat, q: nat)
    requires PendingFrom(text, tokens, p)
    requires SpanEnd(text, p, Whitespace) < |text|
    requires q == SkipCommentsFrom(text, SpanEnd(text, p, Whitespace)) && q < |text|
    ensures PendingFrom(text, tokens + [TokenAt(text, q).token], TokenAt(text, q).next)
  {
    var r := TokenAt(text, q);
    assert TokenizeFrom(text, p) == [r.token] + TokenizeFrom(text, r.next);
    assert tokens + TokenizeFrom(text, p) == (tokens + [r.token]) + TokenizeFrom(text, r.next);
  }

  /** tokenize_str (src/lib.rs:88-145): the token sequence of a text,
      ending with the one Eof pushed when the end is reached. */
  method TokenizeStr(text: string) returns (tokens: seq<Token>)
    ensures tokens == Tokenize(text)
  {
    tokens := [];
    var cs := new CharacterStream(text);
    while true
      invariant cs.Valid() && cs.chars == text && cs.pos <= |text| + 1
      invariant PendingFrom(text, tokens, cs.pos)
      decreases |text| + 1 - cs.pos
    {
      ghost var p := cs.pos;
      cs.SkipWhitespace();
      if cs.IsEof() {
        tokens := tokens + [Eof];
        break;
      }
      SkipComments(cs);
      if cs.IsEof() {
        tokens := tokens + [Eof];
        break;
      }
      ghost var q := cs.pos;
      PendingAfterToken(text, tokens, p, q);
      var token := LexToken(cs);
      tokens := tokens + [token];
    }
  }
}
