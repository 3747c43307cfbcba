/** lex_operator exactly as src/lib.rs:277-281 writes it, for the one place
    where the model departs from it: with no lookahead character the source
    returns Eof and leaves the cursor where it is. */
module AsWritten {
  import opened Chars
  import opened Tokens
  import opened LexSpec

  /** lex_operator as written: Eof without advancing when pos is the last
      position, otherwise the decision table. */
  function OperatorAtAsWritten(chars: seq<char>, pos: nat): (r: Lexed)
    requires pos < |chars|
    ensures Lookahead(chars, pos).Some? ==> r == OperatorAt(chars, pos)
    ensures Lookahead(chars, pos).None? ==> r.token == Eof && r.next == pos
  {
    if pos + 1 < |chars| then OperatorAt(chars, pos) else Lexed(Eof, pos)
  }

  /** On a text whose last character is one that tokenize_str hands to
      lex_operator (an operator character, or any other symbol that no
      other branch takes), an iteration of the loop of tokenize_str that
      reaches that character finds no whitespace and no comment to skip,
      gets Eof from lex_operator, pushes it, and leaves the cursor where it
      was and short of the end: the next iteration does the same, so the
      loop never ends. */
  lemma LastOperatorStalls(chars: seq<char>)
    requires |chars| > 0
    requires var c := chars[|chars| - 1];
             !IsAsciiWhitespace(c) && !IsIdentStart(c) && !IsAsciiDigit(c)
             && c != '.' && c != '"' && c != '\'' && Punctuation(c).None?
    ensures var p := |chars| - 1;
            SpanEnd(chars, p, Whitespace) == p && SkipCommentsFrom(chars, p) == p
            && OperatorAtAsWritten(chars, p) == Lexed(Eof, p) && p < |chars|
  {
  }

  /** The shortest such text. */
  lemma PlusStalls()
    ensures OperatorAtAsWritten("+", 0) == Lexed(Eof, 0)
    ensures OperatorAt("+", 0) == Lexed(Operator(Plus), 1)
  {
  }
}
