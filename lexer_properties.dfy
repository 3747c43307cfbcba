/** What the sub-lexers and tokenize_str promise, proved about the functions
    of module LexSpec. */
module LexProperties {
  import opened Chars
  import opened Tokens
  import opened LexSpec

  // ---------------------------------------------------------------------
  // Identifiers and keywords

  /** lex_identifier_or_keyword consumes the maximal run of identifier
      characters at pos; the run becomes the keyword it spells, or else an
      identifier carrying the run verbatim. */
  lemma IdentifierAtSpec(chars: seq<char>, pos: nat)
    requires pos < |chars|
    ensures var r := IdentifierAt(chars, pos);
            AllIn(chars, pos, r.next, IdentChar)
            && (r.next == |chars| || !IsIdentChar(chars[r.next]))
            && (r.token.Keyword? ==> chars[pos..r.next] == KeywordText(r.token.kind))
            && (r.token.Id? ==> r.token.name == chars[pos..r.next]
                                && forall k :: r.token.name != KeywordText(k))
  {
    SpanEndAllIn(chars, pos, IdentChar);
  }

  // ---------------------------------------------------------------------
  // Numbers

  /** The shape of a literal as lex_number keeps it: a digit run, then
      optionally `.` and a second digit run; never empty (a lone `.` is a
      literal too). */
  predicate IsNumberText(s: string) {
    var d := SpanEnd(s, 0, Digit);
    |s| > 0 && (d == |s| || (s[d] == '.' && AllIn(s, d + 1, |s|, Digit)))
  }

  /** lex_number rejects exactly the digit runs that run on into an
      alphanumeric, and then names the whole alphanumeric run (digits
      included) in the diagnostic. */
  lemma NumberAtInvalid(chars: seq<char>, pos: nat)
    requires pos < |chars|
    ensures var d := SpanEnd(chars, pos, Digit);
            NumberAt(chars, pos).token.Invalid? <==> d < |chars| && IsAlnum(chars[d])
    ensures var r := NumberAt(chars, pos);
            r.token.Invalid? ==>
              r.next == SpanEnd(chars, pos, Alnum)
              && r.token.message == InvalidIdentifierMessage(chars[pos..r.next])
  {
    var d := SpanEnd(chars, pos, Digit);
    SpanEndAllIn(chars, pos, Digit);
    DigitsAreAlnum(chars, pos, d);
    SpanEndFrom(chars, pos, d, Alnum);
  }

  /** Otherwise lex_number yields the longest number-shaped text at pos,
      verbatim, and consumes one more character exactly when that text has
      a `.` and is followed by `f` (which the literal does not keep). */
  lemma NumberAtLiteral(chars: seq<char>, pos: nat)
    requires pos < |chars| && (IsAsciiDigit(chars[pos]) || chars[pos] == '.')
    requires NumberAt(chars, pos).token.Number?
    ensures var r := NumberAt(chars, pos);
            LongestNumber(chars, pos, r.token.literal, r.next)
  {
    var d := SpanEnd(chars, pos, Digit);
    SpanEndAllIn(chars, pos, Digit);
    if d < |chars| && chars[d] == '.' {
      var f := SpanEnd(chars, d + 1, Digit);
      SpanEndAllIn(chars, d + 1, Digit);
      var next := if f < |chars| && chars[f] == 'f' then f + 1 else f;
      FractionLiteral(chars, pos, d, f, next);
      assert NumberAt(chars, pos) == Lexed(Number(chars[pos..f]), next);
    } else {
      WholeLiteral(chars, pos, d);
      assert NumberAt(chars, pos) == Lexed(Number(chars[pos..d]), d);
    }
  }

  /** s is the longest number-shaped text at pos, verbatim, and next skips
      one `f` after it exactly when s has a `.`. */
  predicate LongestNumber(chars: seq<char>, pos: nat, s: string, next: nat) {
    var e := pos + |s|;
    e <= |chars| && chars[pos..e] == s && IsNumberText(s)
    && (e == |chars| || !IsNumberText(s + [chars[e]]))
    && next == (if e < |chars| && chars[e] == 'f' && '.' in s then e + 1 else e)
  }

  lemma FractionLiteral(chars: seq<char>, pos: nat, d: nat, f: nat, next: nat)
    requires pos <= d < f <= |chars| && chars[d] == '.'
    requires AllIn(chars, pos, d, Digit) && AllIn(chars, d + 1, f, Digit)
    requires f < |chars| ==> !IsAsciiDigit(chars[f])
    requires next == if f < |chars| && chars[f] == 'f' then f + 1 else f
    ensures LongestNumber(chars, pos, chars[pos..f], next)
  {
    var s := chars[pos..f];
    AllInSlice(chars, pos, f, pos, d, Digit);
    AllInSlice(chars, pos, f, d + 1, f, Digit);
    FractionText(s, d - pos);
    if f < |chars| {
      FractionTextStops(s, d - pos, chars[f]);
    }
  }

  lemma WholeLiteral(chars: seq<char>, pos: nat, d: nat)
    requires pos < d <= |chars| && AllIn(chars, pos, d, Digit)
    requires d < |chars| ==> !IsAsciiDigit(chars[d]) && chars[d] != '.'
    ensures LongestNumber(chars, pos, chars[pos..d], d)
  {
    var s := chars[pos..d];
    AllInSlice(chars, pos, d, pos, d, Digit);
    WholeText(s);
    if d < |chars| {
      WholeTextStops(s, chars[d]);
    }
  }

  /** AllIn carries over to a slice that contains the run. */
  lemma AllInSlice(s: seq<char>, lo: nat, hi: nat, i: nat, j: nat, k: CharClass)
    requires lo <= i <= j <= hi <= |s| && AllIn(s, i, j, k)
    ensures AllIn(s[lo..hi], i - lo, j - lo, k)
  {
  }

  /** Digits, a `.`, digits: number-shaped, with a `.`. */
  lemma FractionText(s: string, k: nat)
    requires k < |s| && AllIn(s, 0, k, Digit) && s[k] == '.' && AllIn(s, k + 1, |s|, Digit)
    ensures IsNumberText(s) && '.' in s
  {
    SpanEndUnique(s, 0, Digit, k);
  }

  /** ... and a character that is not a digit cannot extend it. */
  lemma FractionTextStops(s: string, k: nat, c: char)
    requires k < |s| && AllIn(s, 0, k, Digit) && s[k] == '.' && !IsAsciiDigit(c)
    ensures !IsNumberText(s + [c])
  {
    var s' := s + [c];
    assert AllIn(s', 0, k, Digit);
    SpanEndUnique(s', 0, Digit, k);
    assert !InClass(s'[|s|], Digit);
  }

  /** A non-empty digit run: number-shaped, without a `.`. */
  lemma WholeText(s: string)
    requires |s| > 0 && AllIn(s, 0, |s|, Digit)
    ensures IsNumberText(s) && '.' !in s
  {
    SpanEndUnique(s, 0, Digit, |s|);
    forall i | 0 <= i < |s| ensures s[i] != '.' {
      assert InClass(s[i], Digit);
    }
  }

  /** ... and only a digit or a `.` can extend it. */
  lemma WholeTextStops(s: string, c: char)
    requires AllIn(s, 0, |s|, Digit) && !IsAsciiDigit(c) && c != '.'
    ensures !IsNumberText(s + [c])
  {
    var s' := s + [c];
    assert AllIn(s', 0, |s|, Digit);
    SpanEndUnique(s', 0, Digit, |s|);
  }

  // ---------------------------------------------------------------------
  // Strings

  /** lex_string yields a string literal exactly when a closing quote
      follows the opening one; the literal is everything in between,
      verbatim and quote-free, plus a NUL, and the cursor ends just past
      the closing quote. Without one, the diagnostic leaves the cursor at
      the end of the input. */
  lemma StringAtSpec(chars: seq<char>, pos: nat)
    requires pos < |chars|
    ensures var r := StringAt(chars, pos);
            (r.token.StringLit? <==> exists j :: pos < j < |chars| && chars[j] == '"')
            && (r.token.StringLit? ==>
                  chars[r.next - 1] == '"'
                  && r.token.contents == chars[pos + 1..r.next - 1] + ['\0']
                  && '"' !in chars[pos + 1..r.next - 1])
            && (!r.token.StringLit? ==> r.next == |chars|)
  {
    var q := SpanEnd(chars, pos + 1, NotQuote);
    SpanEndAllIn(chars, pos + 1, NotQuote);
    if q < |chars| {
      assert chars[q] == '"';
    } else {
      forall j | pos < j < |chars| ensures chars[j] != '"' {
        assert InClass(chars[j], NotQuote);
      }
    }
  }

  // ---------------------------------------------------------------------
  // Character literals

  /** lex_char yields a character literal exactly when a quote stands two
      characters on; its value is the character between the quotes, or NUL
      when that character is itself a quote, and three characters are
      consumed. Otherwise an alphanumeric there means the literal is too
      long, and anything else (including the end of the input) means the
      closing quote is missing; both diagnostics leave the cursor on that
      third character. */
  lemma CharAtSpec(chars: seq<char>, pos: nat)
    requires pos < |chars|
    ensures var r := CharAt(chars, pos);
            (r.token.CharLit? <==> pos + 2 < |chars| && chars[pos + 2] == '\'')
            && (r.token.CharLit? ==>
                  r.token.value == (if chars[pos + 1] == '\'' then '\0' else chars[pos + 1])
                  && r.next == pos + 3)
            && (r.token == Invalid(CharTooLongMessage)
                <==> pos + 2 < |chars| && IsAlnum(chars[pos + 2]))
            && (pos + 2 >= |chars| ==> r.token == Invalid(MissingApostropheMessage))
            && (!r.token.CharLit? ==> r.next == pos + 2)
  {
  }

  // ---------------------------------------------------------------------
  // Operators

  /** The decision table recognises an operator exactly when the current
      character can start one; what it recognises is spelled by the
      characters it consumes; anything else is an invalid symbol of width
      one. */
  lemma OperatorTableSpelling(c: char, next: Option<char>)
    ensures var (t, w) := OperatorTable(c, next);
            (t.Operator? <==> IsOperatorStart(c))
            && (w == 1 || w == 2)
            && (w == 2 ==> next.Some? && t.Operator? && OperatorText(t.op) == [c, next.value])
            && (w == 1 && t.Operator? ==> OperatorText(t.op) == [c])
            && (t.Invalid? ==> t.message == InvalidSymbolMessage(c) && w == 1)
  {
  }

  /** The table is greedy: it settles for one character only when no
      two-character operator starts with the current character and the
      lookahead. */
  lemma OperatorTableGreedy(c: char, next: Option<char>, op: OperatorType)
    requires OperatorTable(c, next).1 == 1
    requires next.Some?
    ensures OperatorText(op) != [c, next.value]
  {
    match op
    case PlusEqual => assert OperatorText(op) == ['+', '='];
    case Increment => assert OperatorText(op) == ['+', '+'];
    case MinusEqual => assert OperatorText(op) == ['-', '='];
    case Decrement => assert OperatorText(op) == ['-', '-'];
    case GreaterThanOrEqual => assert OperatorText(op) == ['>', '='];
    case LessThanOrEqual => assert OperatorText(op) == ['<', '='];
    case And => assert OperatorText(op) == ['&', '&'];
    case Or => assert OperatorText(op) == ['|', '|'];
    case Equals => assert OperatorText(op) == ['=', '='];
    case NotEqual => assert OperatorText(op) == ['!', '='];
    case AsteriskEqual => assert OperatorText(op) == ['*', '='];
    case DivideEqual => assert OperatorText(op) == ['/', '='];
    case _ => assert |OperatorText(op)| == 1;
  }

  /** lex_operator at pos: an operator exactly when the current character
      can start one, and then the consumed characters spell it; otherwise
      an invalid symbol consuming one character. The choice is greedy: a
      one-character result means no two-character operator is spelled at
      pos. */
  lemma OperatorAtSpelling(chars: seq<char>, pos: nat)
    requires pos < |chars|
    ensures var r := OperatorAt(chars, pos);
            (r.token.Operator? <==> IsOperatorStart(chars[pos]))
            && (r.token.Operator? ==>
                  r.next == pos + |OperatorText(r.token.op)|
                  && chars[pos..r.next] == OperatorText(r.token.op))
            && (r.token.Invalid? ==>
                  r.token.message == InvalidSymbolMessage(chars[pos]) && r.next == pos + 1)
            && (r.next == pos + 1 ==>
                  forall op :: pos + 2 <= |chars| ==> chars[pos..pos + 2] != OperatorText(op))
  {
    var next := Lookahead(chars, pos);
    OperatorTableSpelling(chars[pos], next);
    var r := OperatorAt(chars, pos);
    if r.next == pos + 2 {
      assert chars[pos..r.next] == [chars[pos], chars[pos + 1]];
    } else {
      assert chars[pos..r.next] == [chars[pos]];
      forall op | pos + 2 <= |chars| ensures chars[pos..pos + 2] != OperatorText(op) {
        OperatorTableGreedy(chars[pos], next, op);
        assert chars[pos..pos + 2] == [chars[pos], chars[pos + 1]];
      }
    }
  }

  // ---------------------------------------------------------------------
  // tokenize_str

  /** ts ends with Eof and holds no Eof before that. */
  predicate EofOnlyLast(ts: seq<Token>) {
    |ts| > 0 && ts[|ts| - 1] == Eof && forall i :: 0 <= i < |ts| - 1 ==> ts[i] != Eof
  }

  lemma EofOnlyLastCons(t: Token, ts: seq<Token>)
    requires t != Eof && EofOnlyLast(ts)
    ensures EofOnlyLast([t] + ts)
  {
    assert forall i :: 1 <= i < |ts| + 1 ==> ([t] + ts)[i] == ts[i - 1];
  }

  /** The token sequence ends with Eof and holds no other Eof: Eof is
      pushed only where the loop stops. */
  lemma {:induction false} TokenizeFromEndsWithEof(chars: seq<char>, pos: nat)
    ensures EofOnlyLast(TokenizeFrom(chars, pos))
    decreases |chars| - pos
  {
    var p := SpanEnd(chars, pos, Whitespace);
    if p < |chars| {
      var q := SkipCommentsFrom(chars, p);
      if q < |chars| {
        var r := TokenAt(chars, q);
        TokenizeFromEndsWithEof(chars, r.next);
        EofOnlyLastCons(r.token, TokenizeFrom(chars, r.next));
      }
    }
  }

  lemma TokenizeEndsWithEof(text: string)
    ensures EofOnlyLast(Tokenize(text))
  {
    TokenizeFromEndsWithEof(text, 0);
  }

  // ---------------------------------------------------------------------
  // Comments

  /** A line comment opened at pos ends at p: its text runs up to the
      first newline (or the end of the input), and from that newline to p
      there is only whitespace. */
  predicate LineCommentEnds(chars: seq<char>, pos: nat, p: nat)
    requires pos <= p <= |chars|
  {
    exists e :: pos + 2 <= e <= p && AllIn(chars, pos, e, NotNewline)
                && (e == |chars| || chars[e] == '\n') && AllIn(chars, e, p, Whitespace)
  }

  /** A block comment opened at pos ends at p: with no closer after its
      star, at the end of the input; otherwise two past the first closer
      found from the star on, then whitespace up to p. */
  predicate BlockCommentEnds(chars: seq<char>, pos: nat, p: nat)
    requires pos <= p <= |chars|
  {
    ((forall j :: pos + 1 <= j < |chars| ==> !ClosesAt(chars, j)) && p == |chars|)
    || exists j :: pos + 1 <= j && j + 2 <= p && ClosesAt(chars, j)
                   && (forall i :: pos + 1 <= i < j ==> !ClosesAt(chars, i))
                   && AllIn(chars, j + 2, p, Whitespace)
  }

  /** skip_comments on one comment: a line comment runs through its
      newline, a block comment through the first closer searched from the
      opener's star (so slash, star, slash is closed already), and in both
      cases the whitespace after it is skipped too. */
  lemma CommentEndSpec(chars: seq<char>, pos: nat)
    requires CommentOpensAt(chars, pos)
    ensures chars[pos + 1] == '/' ==> LineCommentEnds(chars, pos, CommentEnd(chars, pos))
    ensures chars[pos + 1] == '*' ==> BlockCommentEnds(chars, pos, CommentEnd(chars, pos))
  {
    var p := CommentEnd(chars, pos);
    if chars[pos + 1] == '/' {
      var e := SpanEnd(chars, pos, NotNewline);
      SpanEndAllIn(chars, pos, NotNewline);
      SpanEndAllIn(chars, e, Whitespace);
      assert pos + 2 <= e <= p && AllIn(chars, pos, e, NotNewline);
    } else {
      match BlockClose(chars, pos + 1)
      case None =>
      case Some(j) =>
        SpanEndAllIn(chars, j + 2, Whitespace);
        assert j + 2 <= p && AllIn(chars, j + 2, p, Whitespace);
    }
  }

  /** From pos on, the text holds only whitespace and comments: after the
      whitespace either the text ends or a comment opens, and the same holds
      after that comment. */
  predicate OnlyComments(chars: seq<char>, pos: nat)
    decreases |chars| - pos
  {
    var p := SpanEnd(chars, pos, Whitespace);
    p >= |chars| || (CommentOpensAt(chars, p) && OnlyComments(chars, CommentEnd(chars, p)))
  }

  /** skip_comments, started on such a text where no whitespace is left to
      skip, runs to the end. */
  lemma {:induction false} SkipOnlyComments(chars: seq<char>, p: nat)
    requires p <= |chars| && OnlyComments(chars, p)
    requires p < |chars| ==> !IsAsciiWhitespace(chars[p])
    ensures SkipCommentsFrom(chars, p) == |chars|
    decreases |chars| - p
  {
    assert SpanEnd(chars, p, Whitespace) == p;
    if p < |chars| {
      var e := CommentEnd(chars, p);
      if e < |chars| {
        SkipOnlyComments(chars, e);
      }
    }
  }

  /** A text of whitespace and comments only tokenizes to Eof alone:
      skip_comments emits no token. */
  lemma CommentsOnlyYieldEof(text: string)
    requires OnlyComments(text, 0)
    ensures Tokenize(text) == [Eof]
  {
    var p := SpanEnd(text, 0, Whitespace);
    if p < |text| {
      SkipOnlyComments(text, p);
    }
  }

  /** Each token before the Eof consumes at least one character. */
  lemma {:induction false} TokenizeFromLength(chars: seq<char>, pos: nat)
    ensures pos <= |chars| ==> |TokenizeFrom(chars, pos)| <= |chars| - pos + 1
    ensures pos > |chars| ==> TokenizeFrom(chars, pos) == [Eof]
    decreases |chars| - pos
  {
    var p := SpanEnd(chars, pos, Whitespace);
    if p < |chars| {
      var q := SkipCommentsFrom(chars, p);
      if q < |chars| {
        TokenizeFromLength(chars, TokenAt(chars, q).next);
      }
    }
  }

  lemma TokenizeLength(text: string)
    ensures |Tokenize(text)| <= |text| + 1
  {
    TokenizeFromLength(text, 0);
  }

  /** Where each token before the final Eof starts. */
  function TokenStarts(chars: seq<char>, pos: nat): seq<nat>
    decreases |chars| - pos
  {
    var p := SpanEnd(chars, pos, Whitespace);
    if p >= |chars| then []
    else
      var q := SkipCommentsFrom(chars, p);
      if q >= |chars| then []
      else [q] + TokenStarts(chars, TokenAt(chars, q).next)
  }

  /** t is the token the dispatch lexes at start. */
  predicate LexedAt(chars: seq<char>, start: nat, t: Token) {
    start < |chars| && t == TokenAt(chars, start).token
  }

  /** The lexeme that starts at start ends at or before later. */
  predicate EndsBy(chars: seq<char>, start: nat, later: nat) {
    start < |chars| && TokenAt(chars, start).next <= later
  }

  /** ts[i] is the token lexed at st[i], from pos on, and each lexeme ends
      before the next one begins. */
  predicate InSourceOrder(chars: seq<char>, pos: nat, ts: seq<Token>, st: seq<nat>) {
    |st| == |ts| - 1
    && (forall i :: 0 <= i < |st| ==> pos <= st[i] && LexedAt(chars, st[i], ts[i]))
    && (forall i :: 0 <= i < |st| - 1 ==> EndsBy(chars, st[i], st[i + 1]))
  }

  /** One more token in front keeps the order. */
  lemma SourceOrderCons(chars: seq<char>, pos: nat, q: nat, r: Lexed, tr: seq<Token>, rest: seq<nat>)
    requires pos <= q && LexedAt(chars, q, r.token) && q < r.next
    requires EndsBy(chars, q, r.next)
    requires InSourceOrder(chars, r.next, tr, rest)
    ensures InSourceOrder(chars, pos, [r.token] + tr, [q] + rest)
  {
    var ts, st := [r.token] + tr, [q] + rest;
    forall i | 0 <= i < |st|
      ensures pos <= st[i] && LexedAt(chars, st[i], ts[i])
    {
      if i > 0 {
        assert st[i] == rest[i - 1] && ts[i] == tr[i - 1];
      }
    }
    forall i | 0 <= i < |st| - 1
      ensures EndsBy(chars, st[i], st[i + 1])
    {
      if i > 0 {
        assert st[i] == rest[i - 1] && st[i + 1] == rest[i];
      } else if |rest| > 0 {
        assert st[1] == rest[0] && r.next <= rest[0];
      }
    }
  }

  /** Tokens appear in source order: the i-th token is what the dispatch
      lexes at the i-th start, and each lexeme ends before the next one
      begins. */
  lemma {:induction false} TokenizeInSourceOrder(chars: seq<char>, pos: nat)
    ensures InSourceOrder(chars, pos, TokenizeFrom(chars, pos), TokenStarts(chars, pos))
    decreases |chars| - pos
  {
    var p := SpanEnd(chars, pos, Whitespace);
    if p < |chars| {
      var q := SkipCommentsFrom(chars, p);
      if q < |chars| {
        var r := TokenAt(chars, q);
        TokenizeInSourceOrder(chars, r.next);
        assert TokenizeFrom(chars, pos) == [r.token] + TokenizeFrom(chars, r.next);
        assert TokenStarts(chars, pos) == [q] + TokenStarts(chars, r.next);
        SourceOrderCons(chars, pos, q, r, TokenizeFrom(chars, r.next), TokenStarts(chars, r.next));
      }
    }
  }
}
