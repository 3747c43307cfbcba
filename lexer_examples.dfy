/** Short concrete texts taken from the ends of the scenarios in
    tests/test_scanner.rs, each tokenized step by step: the dispatch at a
    token start, the scans that decide its extent, then the rest. */
module LexExamples {
  import opened Chars
  import opened Tokens
  import opened LexSpec
  import opened RoundTrip

  // One step of the tokenizer for each kind of token start, stated for any
  // text so that the examples below never unfold the dispatch on a literal.

  lemma NumberStep(chars: seq<char>, p: nat, r: Lexed)
    requires p < |chars| && (IsAsciiDigit(chars[p]) || chars[p] == '.')
    requires NumberAt(chars, p) == r
    ensures TokenizeFrom(chars, p) == [r.token] + TokenizeFrom(chars, r.next)
  {
    DispatchNumber(chars, p);
    TokenizeFromAtToken(chars, p);
  }

  lemma OperatorStep(chars: seq<char>, p: nat, r: Lexed)
    requires p < |chars| && IsOperatorStart(chars[p]) && !CommentOpensAt(chars, p)
    requires OperatorAt(chars, p) == r
    ensures TokenizeFrom(chars, p) == [r.token] + TokenizeFrom(chars, r.next)
  {
    DispatchOperator(chars, p);
    TokenizeFromAtToken(chars, p);
  }

  lemma PunctuationStep(chars: seq<char>, p: nat)
    requires p < |chars| && Punctuation(chars[p]).Some?
    ensures TokenizeFrom(chars, p) == [Punctuation(chars[p]).value] + TokenizeFrom(chars, p + 1)
  {
    var c := chars[p];
    assert !IsIdentStart(c) && !IsAsciiDigit(c) && c != '.' && c != '"' && c != '\'';
    assert TokenAt(chars, p) == Lexed(Punctuation(c).value, p + 1);
    TokenizeFromAtToken(chars, p);
  }

  /** A comment that ends on a token start yields nothing. */
  lemma CommentStep(chars: seq<char>, p: nat, e: nat)
    requires CommentOpensAt(chars, p)
    requires CommentEnd(chars, p) == e && e < |chars| && !CommentOpensAt(chars, e)
    ensures TokenizeFrom(chars, p) == TokenizeFrom(chars, e)
  {
    assert SpanEnd(chars, p, Whitespace) == p;
    assert SkipCommentsFrom(chars, p) == e;
    assert SpanEnd(chars, e, Whitespace) == e;
  }

  /** The literal of test_tokenize_assign_float_with_f_postfix: the `f`
      is consumed but not kept. */
  lemma FloatWithSuffix(s: string)
    requires s == "10.5f;"
    ensures Tokenize(s) == [Number("10.5"), SemiColon, Eof]
  {
    FloatLexeme(s);
    NumberStep(s, 0, Lexed(Number("10.5"), 5));
    PunctuationStep(s, 5);
    TokenizeFromAtEnd(s, 6);
  }

  lemma FloatLexeme(s: string)
    requires s == "10.5f;"
    ensures NumberAt(s, 0) == Lexed(Number("10.5"), 5)
  {
    SpanEndUnique(s, 0, Digit, 2);
    SpanEndUnique(s, 3, Digit, 4);
    assert s[0..4] == "10.5";
  }

  /** The literal of test_tokenize_float_number_whiout_integer_part: a
      number may start with `.`. */
  lemma FractionWithoutIntegerPart(s: string)
    requires s == ".5;"
    ensures Tokenize(s) == [Number(".5"), SemiColon, Eof]
  {
    FractionLexeme(s);
    NumberStep(s, 0, Lexed(Number(".5"), 2));
    PunctuationStep(s, 2);
    TokenizeFromAtEnd(s, 3);
  }

  lemma FractionLexeme(s: string)
    requires s == ".5;"
    ensures NumberAt(s, 0) == Lexed(Number(".5"), 2)
  {
    SpanEndUnique(s, 0, Digit, 0);
    SpanEndUnique(s, 1, Digit, 2);
    assert s[0..2] == ".5";
  }

  /** The literal of test_tokenize_invalid_id: digits followed by letters
      are one invalid identifier naming the whole run. */
  lemma DigitsThenLetters(s: string)
    requires s == "12343abc;"
    ensures Tokenize(s) == [Invalid("Invalid identifier \"12343abc\"!"), SemiColon, Eof]
  {
    InvalidRunLexeme(s);
    NumberStep(s, 0, Lexed(Invalid("Invalid identifier \"12343abc\"!"), 8));
    PunctuationStep(s, 8);
    TokenizeFromAtEnd(s, 9);
  }

  lemma InvalidRunLexeme(s: string)
    requires s == "12343abc;"
    ensures NumberAt(s, 0) == Lexed(Invalid("Invalid identifier \"12343abc\"!"), 8)
  {
    SpanEndUnique(s, 0, Digit, 5);
    SpanEndUnique(s, 5, Alnum, 8);
    assert s[0..8] == "12343abc";
    assert InvalidIdentifierMessage("12343abc") == "Invalid identifier \"12343abc\"!";
  }

  /** The assignment of test_tokenize_ignore_multiline_comments2: a block
      comment between two tokens yields nothing. */
  lemma CommentInsideExpression(s: string)
    requires s == "= /* c */ 42;"
    ensures Tokenize(s) == [Operator(Assign), Number("42"), SemiColon, Eof]
  {
    OperatorStep(s, 0, Lexed(Operator(Assign), 1));
    SkipBlockCommentExample(s);
    NumberExample(s);
  }

  lemma SkipBlockCommentExample(s: string)
    requires s == "= /* c */ 42;"
    ensures TokenizeFrom(s, 1) == TokenizeFrom(s, 10)
  {
    TokenizeFromSkipsWhitespace(s, 1);
    assert ClosesAt(s, 7);
    assert BlockClose(s, 3) == Some(7);
    SpanEndUnique(s, 9, Whitespace, 10);
    assert CommentEnd(s, 2) == 10;
    CommentStep(s, 2, 10);
  }

  lemma NumberExample(s: string)
    requires s == "= /* c */ 42;"
    ensures TokenizeFrom(s, 10) == [Number("42"), SemiColon, Eof]
  {
    SpanEndUnique(s, 10, Digit, 12);
    NumberStep(s, 10, Lexed(Number("42"), 12));
    PunctuationStep(s, 12);
    TokenizeFromAtEnd(s, 13);
  }
}
