/** The lexer inverts a printer: every token the lexer can produce in a
    well-formed way is printed as the characters it is lexed from, and
    lexing a printed sequence of such tokens, separated by spaces, gives the
    sequence back followed by the one Eof. */
module RoundTrip {
  import opened Chars
  import opened Tokens
  import opened LexSpec
  import opened LexProperties

  /** The tokens that have a source spelling: not Eof, not a diagnostic; an
      identifier is a non-keyword run of identifier characters with an
      identifier start; a number has the literal shape; a string literal
      carries the NUL that lex_string appends and no quote before it; a
      character literal is not the quote (which lex_char reads as NUL). */
  predicate Printable(t: Token) {
    match t
    case Id(n) =>
      |n| > 0 && IsIdentStart(n[0]) && AllIn(n, 0, |n|, IdentChar)
      && forall k :: n != KeywordText(k)
    case Number(s) => IsNumberText(s)
    case StringLit(c) => |c| > 0 && c[|c| - 1] == '\0' && '"' !in c[..|c| - 1]
    case CharLit(v) => v != '\''
    case Eof => false
    case Invalid(_) => false
    case _ => true
  }

  /** The source spelling of a printable token. */
  function Render(t: Token): (w: string)
    requires Printable(t)
    ensures |w| > 0
  {
    match t
    case OpenParen => "("
    case CloseParen => ")"
    case OpenBrace => "{"
    case CloseBrace => "}"
    case OpenBracket => "["
    case CloseBracket => "]"
    case SemiColon => ";"
    case Keyword(k) => KeywordText(k)
    case Id(n) => n
    case Number(s) => s
    case StringLit(c) => "\"" + c[..|c| - 1] + "\""
    case CharLit(v) => ['\'', v, '\'']
    case Operator(op) => OperatorText(op)
  }

  /** Every token of ts is printable. */
  predicate AllPrintable(ts: seq<Token>)
    decreases |ts|
  {
    ts == [] || (Printable(ts[0]) && AllPrintable(ts[1..]))
  }

  lemma {:induction false} AllPrintableEach(ts: seq<Token>)
    requires forall i :: 0 <= i < |ts| ==> Printable(ts[i])
    ensures AllPrintable(ts)
    decreases |ts|
  {
    if ts != [] {
      assert forall i :: 0 <= i < |ts[1..]| ==> ts[1..][i] == ts[i + 1];
      AllPrintableEach(ts[1..]);
    }
  }

  /** Each token printed and followed by a space. */
  function Unparse(ts: seq<Token>): string
    requires AllPrintable(ts)
    decreases |ts|
  {
    if ts == [] then [] else Render(ts[0]) + " " + Unparse(ts[1..])
  }

  /** The characters at p spell w. */
  predicate Spells(chars: seq<char>, p: nat, w: string) {
    p + |w| <= |chars| && forall i {:trigger w[i]} :: 0 <= i < |w| ==> chars[p + i] == w[i]
  }

  lemma SpellsAt(chars: seq<char>, p: nat, w: string, i: nat)
    requires Spells(chars, p, w) && i < |w|
    ensures chars[p + i] == w[i]
  {
  }

  lemma SpellsSlice(chars: seq<char>, p: nat, w: string)
    requires Spells(chars, p, w)
    ensures chars[p..p + |w|] == w
  {
    forall i | 0 <= i < |w| ensures chars[p..p + |w|][i] == w[i] {
      SpellsAt(chars, p, w, i);
    }
  }

  /** Position i is the end of the input or holds whitespace: what stops
      every sub-lexer and completes no operator. */
  predicate Separated(chars: seq<char>, i: nat) {
    i >= |chars| || IsAsciiWhitespace(chars[i])
  }

  // One lemma per family: lexing the printed form at p, followed by a
  // separator, gives the token back and stops right after the spelling.

  lemma IdentifierRoundTrip(chars: seq<char>, p: nat, w: string)
    requires |w| > 0 && AllIn(w, 0, |w|, IdentChar)
    requires Spells(chars, p, w) && Separated(chars, p + |w|)
    ensures IdentifierAt(chars, p) == Lexed(KeywordOrId(w), p + |w|)
  {
    forall i | p <= i < p + |w| ensures InClass(chars[i], IdentChar) {
      SpellsAt(chars, p, w, i - p);
    }
    SpanEndUnique(chars, p, IdentChar, p + |w|);
    SpellsSlice(chars, p, w);
  }

  lemma NumberRoundTrip(chars: seq<char>, p: nat, w: string)
    requires IsNumberText(w)
    requires Spells(chars, p, w) && Separated(chars, p + |w|)
    ensures IsAsciiDigit(chars[p]) || chars[p] == '.'
    ensures NumberAt(chars, p) == Lexed(Number(w), p + |w|)
  {
    var dw := SpanEnd(w, 0, Digit);
    SpanEndAllIn(w, 0, Digit);
    SpellsAt(chars, p, w, 0);
    forall i | p <= i < p + dw ensures InClass(chars[i], Digit) {
      SpellsAt(chars, p, w, i - p);
    }
    SpanEndUnique(chars, p, Digit, p + dw);
    SpellsSlice(chars, p, w);
    if dw < |w| {
      SpellsAt(chars, p, w, dw);
      forall i | p + dw + 1 <= i < p + |w| ensures InClass(chars[i], Digit) {
        SpellsAt(chars, p, w, i - p);
      }
      SpanEndUnique(chars, p + dw + 1, Digit, p + |w|);
      NumberAtFractionEnd(chars, p, p + dw, p + |w|);
    } else {
      NumberAtWholeEnd(chars, p, p + dw);
    }
  }

  lemma NumberAtFractionEnd(chars: seq<char>, p: nat, d: nat, f: nat)
    requires p <= d < f <= |chars| && chars[d] == '.'
    requires d == SpanEnd(chars, p, Digit) && f == SpanEnd(chars, d + 1, Digit)
    requires Separated(chars, f)
    ensures NumberAt(chars, p) == Lexed(Number(chars[p..f]), f)
  {
  }

  lemma NumberAtWholeEnd(chars: seq<char>, p: nat, d: nat)
    requires p < |chars| && p <= d <= |chars| && d == SpanEnd(chars, p, Digit)
    requires Separated(chars, d)
    ensures NumberAt(chars, p) == Lexed(Number(chars[p..d]), d)
  {
  }

  lemma StringRoundTrip(chars: seq<char>, p: nat, c: string)
    requires Printable(StringLit(c))
    requires Spells(chars, p, Render(StringLit(c)))
    ensures StringAt(chars, p) == Lexed(StringLit(c), p + |Render(StringLit(c))|)
  {
    var w := Render(StringLit(c));
    var b := c[..|c| - 1];
    forall i | p + 1 <= i < p + 1 + |b| ensures InClass(chars[i], NotQuote) {
      SpellsAt(chars, p, w, i - p);
      assert w[i - p] == b[i - p - 1];
    }
    SpellsAt(chars, p, w, |w| - 1);
    SpanEndUnique(chars, p + 1, NotQuote, p + 1 + |b|);
    forall i | 0 <= i < |b| ensures chars[p + 1..p + 1 + |b|][i] == b[i] {
      SpellsAt(chars, p, w, i + 1);
    }
    assert b + ['\0'] == c;
  }

  lemma CharRoundTrip(chars: seq<char>, p: nat, v: char)
    requires v != '\''
    requires Spells(chars, p, ['\'', v, '\''])
    ensures CharAt(chars, p) == Lexed(CharLit(v), p + 3)
  {
    SpellsAt(chars, p, ['\'', v, '\''], 1);
    SpellsAt(chars, p, ['\'', v, '\''], 2);
  }

  /** The table yields each operator from its spelling, given a lookahead
      that completes nothing when the spelling has one character. */
  lemma OperatorTableInverse(op: OperatorType, next: Option<char>)
    requires |OperatorText(op)| == 2 ==> next == Some(OperatorText(op)[1])
    requires |OperatorText(op)| == 1 ==> next.None? || IsAsciiWhitespace(next.value)
    ensures OperatorTable(OperatorText(op)[0], next) == (Operator(op), |OperatorText(op)|)
  {
  }

  lemma OperatorRoundTrip(chars: seq<char>, p: nat, op: OperatorType)
    requires Spells(chars, p, OperatorText(op)) && Separated(chars, p + |OperatorText(op)|)
    ensures OperatorAt(chars, p) == Lexed(Operator(op), p + |OperatorText(op)|)
    ensures !CommentOpensAt(chars, p)
  {
    var w := OperatorText(op);
    SpellsAt(chars, p, w, 0);
    if |w| == 2 {
      SpellsAt(chars, p, w, 1);
    }
    OperatorTableInverse(op, Lookahead(chars, p));
  }

  /** Lexing a printed token at p, followed by a separator: the position
      holds neither whitespace nor a comment opener, and the dispatch gives
      the token back, consuming exactly its spelling. */
  lemma TokenAtRendered(chars: seq<char>, p: nat, t: Token)
    requires Printable(t)
    requires Spells(chars, p, Render(t)) && Separated(chars, p + |Render(t)|)
    ensures p < |chars| && !IsAsciiWhitespace(chars[p]) && !CommentOpensAt(chars, p)
    ensures TokenAt(chars, p) == Lexed(t, p + |Render(t)|)
  {
    var w := Render(t);
    SpellsAt(chars, p, w, 0);
    RenderStart(t);
    match t
    case Keyword(k) =>
      KeywordTextIsIdentifier(k);
      IdentifierRoundTrip(chars, p, w);
      KeywordOfSpelling(w, k);
      DispatchIdentifier(chars, p);
    case Id(n) =>
      IdentifierRoundTrip(chars, p, w);
      DispatchIdentifier(chars, p);
    case Number(s) =>
      NumberRoundTrip(chars, p, w);
      DispatchNumber(chars, p);
    case StringLit(c) =>
      StringRoundTrip(chars, p, c);
      DispatchString(chars, p);
    case CharLit(v) =>
      CharRoundTrip(chars, p, v);
      DispatchChar(chars, p);
    case Operator(op) =>
      OperatorRoundTrip(chars, p, op);
      DispatchOperator(chars, p);
    case _ =>
      PunctuationRoundTrip(chars, p, t);
  }

  /** A printed token starts with neither whitespace nor, unless it is an
      operator, a slash. */
  lemma RenderStart(t: Token)
    requires Printable(t)
    ensures !IsAsciiWhitespace(Render(t)[0])
    ensures Render(t)[0] == '/' ==> t.Operator?
  {
    if t.Keyword? {
      KeywordTextIsIdentifier(t.kind);
    }
  }

  // Which sub-lexer the dispatch picks for a given first character.

  lemma DispatchIdentifier(chars: seq<char>, p: nat)
    requires p < |chars| && IsIdentStart(chars[p])
    ensures TokenAt(chars, p) == IdentifierAt(chars, p)
  {
  }

  lemma DispatchNumber(chars: seq<char>, p: nat)
    requires p < |chars| && (IsAsciiDigit(chars[p]) || chars[p] == '.')
    ensures TokenAt(chars, p) == NumberAt(chars, p)
  {
  }

  lemma DispatchString(chars: seq<char>, p: nat)
    requires p < |chars| && chars[p] == '"'
    ensures TokenAt(chars, p) == StringAt(chars, p)
  {
  }

  lemma DispatchChar(chars: seq<char>, p: nat)
    requires p < |chars| && chars[p] == '\''
    ensures TokenAt(chars, p) == CharAt(chars, p)
  {
  }

  lemma DispatchOperator(chars: seq<char>, p: nat)
    requires p < |chars| && IsOperatorStart(chars[p])
    ensures TokenAt(chars, p) == OperatorAt(chars, p)
  {
  }

  /** A punctuation mark is lexed from its one character. */
  lemma PunctuationRoundTrip(chars: seq<char>, p: nat, t: Token)
    requires t in {OpenParen, CloseParen, OpenBrace, CloseBrace, OpenBracket, CloseBracket, SemiColon}
    requires Spells(chars, p, Render(t))
    ensures |Render(t)| == 1
    ensures TokenAt(chars, p) == Lexed(t, p + 1)
  {
    SpellsAt(chars, p, Render(t), 0);
  }

  /** Whitespace at the position does not change what follows. */
  lemma TokenizeFromSkipsWhitespace(chars: seq<char>, i: nat)
    requires i < |chars| && IsAsciiWhitespace(chars[i])
    ensures TokenizeFrom(chars, i) == TokenizeFrom(chars, i + 1)
  {
    SpanEndFrom(chars, i, i + 1, Whitespace);
  }

  /** At a position holding neither whitespace nor a comment opener, the
      tokenizer lexes one token there and goes on after it. */
  lemma TokenizeFromAtToken(chars: seq<char>, p: nat)
    requires p < |chars| && !IsAsciiWhitespace(chars[p]) && !CommentOpensAt(chars, p)
    ensures TokenizeFrom(chars, p)
            == [TokenAt(chars, p).token] + TokenizeFrom(chars, TokenAt(chars, p).next)
  {
    assert SpanEnd(chars, p, Whitespace) == p;
    assert SkipCommentsFrom(chars, p) == p;
  }

  /** At the end of the input only Eof is left. */
  lemma TokenizeFromAtEnd(chars: seq<char>, p: nat)
    requires p >= |chars|
    ensures TokenizeFrom(chars, p) == [Eof]
  {
    assert SpanEnd(chars, p, Whitespace) == p;
  }

  /** A token lexed at p and followed by a space: the tokenizer yields it
      and goes on after the space. */
  lemma TokenizeFromStep(chars: seq<char>, p: nat, t: Token, e: nat)
    requires p < |chars| && !IsAsciiWhitespace(chars[p]) && !CommentOpensAt(chars, p)
    requires TokenAt(chars, p) == Lexed(t, e)
    requires e < |chars| && chars[e] == ' '
    ensures TokenizeFrom(chars, p) == [t] + TokenizeFrom(chars, e + 1)
  {
    TokenizeFromAtToken(chars, p);
    TokenizeFromSkipsWhitespace(chars, e);
  }

  lemma UnparseCons(ts: seq<Token>)
    requires ts != [] && AllPrintable(ts)
    ensures Printable(ts[0]) && AllPrintable(ts[1..])
    ensures Unparse(ts) == Render(ts[0]) + " " + Unparse(ts[1..])
  {
  }

  /** Where the text from p on is the tokens ts printed, it starts with the
      first one's spelling and a space, and the rest follow. */
  lemma UnparseHead(chars: seq<char>, p: nat, ts: seq<Token>) returns (e: nat)
    requires ts != [] && AllPrintable(ts)
    requires p <= |chars| && chars[p..] == Unparse(ts)
    ensures Printable(ts[0]) && AllPrintable(ts[1..]) && e == p + |Render(ts[0])|
    ensures Spells(chars, p, Render(ts[0])) && e < |chars| && chars[e] == ' '
    ensures chars[e + 1..] == Unparse(ts[1..])
  {
    UnparseCons(ts);
    var w := Render(ts[0]);
    var u := chars[p..];
    e := p + |w|;
    forall i | 0 <= i < |w| ensures chars[p + i] == w[i] {
      assert u[i] == chars[p + i];
    }
    assert chars[e] == u[|w|];
    assert chars[e + 1..] == u[|w| + 1..];
  }

  /** ... so the tokenizer yields the first token and goes on after the
      space that follows it. */
  lemma UnparsedStep(chars: seq<char>, p: nat, ts: seq<Token>) returns (e: nat)
    requires ts != [] && AllPrintable(ts)
    requires p <= |chars| && chars[p..] == Unparse(ts)
    ensures TokenizeFrom(chars, p) == [ts[0]] + TokenizeFrom(chars, e + 1)
    ensures e < |chars| && AllPrintable(ts[1..]) && chars[e + 1..] == Unparse(ts[1..])
  {
    e := UnparseHead(chars, p, ts);
    TokenAtRendered(chars, p, ts[0]);
    TokenizeFromStep(chars, p, ts[0], e);
  }

  lemma ConsEof(ts: seq<Token>)
    requires |ts| > 0
    ensures ts + [Eof] == [ts[0]] + (ts[1..] + [Eof])
  {
  }

  /** Tokenizing from where printed tokens stand, up to the end, gives them
      back, then Eof. */
  lemma {:induction false} TokenizePrinted(chars: seq<char>, p: nat, ts: seq<Token>)
    requires AllPrintable(ts)
    requires p <= |chars| && chars[p..] == Unparse(ts)
    ensures Yields(chars, p, ts + [Eof])
    decreases |ts|
  {
    if ts == [] {
      assert |chars[p..]| == 0;
      TokenizeFromAtEnd(chars, p);
      assert ts + [Eof] == [Eof];
    } else {
      var e := UnparsedStep(chars, p, ts);
      TokenizePrinted(chars, e + 1, ts[1..]);
      ConsEof(ts);
      assert TokenizeFrom(chars, p) == [ts[0]] + (ts[1..] + [Eof]);
    }
  }

  /** Printing printable tokens, each followed by a space, and tokenizing
      the text gives the tokens back, then Eof. */
  lemma TokenizeUnparse(ts: seq<Token>)
    requires AllPrintable(ts)
    ensures Tokenize(Unparse(ts)) == ts + [Eof]
  {
    var text := Unparse(ts);
    assert text[0..] == text;
    TokenizePrinted(text, 0, ts);
  }

  /** The same for a sequence given token by token. */
  lemma TokenizeUnparseEach(ts: seq<Token>)
    requires forall i :: 0 <= i < |ts| ==> Printable(ts[i])
    ensures AllPrintable(ts) && Tokenize(Unparse(ts)) == ts + [Eof]
  {
    AllPrintableEach(ts);
    TokenizeUnparse(ts);
  }

  /** A printable token printed alone tokenizes to itself and Eof. */
  lemma TokenizeRender(t: Token)
    requires Printable(t)
    ensures Tokenize(Render(t)) == [t, Eof]
  {
    var w := Render(t);
    TokenAtRendered(w, 0, t);
    TokenizeFromAtToken(w, 0);
    TokenizeFromAtEnd(w, |w|);
  }

  /** Re-tokenizing the text of an identifier, keyword or number that the
      lexer produced yields that one token again. */
  lemma RelexLexeme(chars: seq<char>, q: nat)
    requires q < |chars|
    ensures var t := TokenAt(chars, q).token;
            (t.Id? ==> Tokenize(t.name) == [t, Eof])
            && (t.Keyword? ==> Tokenize(KeywordText(t.kind)) == [t, Eof])
            && (t.Number? ==> Tokenize(t.literal) == [t, Eof])
  {
    var t := TokenAt(chars, q).token;
    var c := chars[q];
    if IsIdentStart(c) {
      IdentifierAtSpec(chars, q);
      if t.Id? {
        assert Printable(t);
        TokenizeRender(t);
      } else {
        TokenizeRender(t);
      }
    } else if IsAsciiDigit(c) || c == '.' {
      if t.Number? {
        NumberAtLiteral(chars, q);
        TokenizeRender(t);
      }
    }
  }
}
