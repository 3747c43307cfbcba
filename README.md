# C-Scanner lexer, modelled in Dafny

This project models the lexer of C-Scanner, a scanner for a small subset of C.
The model covers:

- the character cursor `CharacterStream` (src/character_stream.rs);
- the token vocabulary;
- the sub-lexers for comments, identifiers and keywords, numbers, string
  literals, character literals and operators;
- the `tokenize_str` loop;
- the `Scanner` facade (src/lib.rs).

Every lexer operation has two forms:

- **A pure function** in module `LexSpec`. It maps the input characters and
  a position to the token produced and the position after it
  (`Lexed(token, next)`).
- **An imperative method** in module `Lexer`. It advances a shared
  `CharacterStream` object one character at a time, as the source does.
  Each method is proved to compute exactly its specification function.

The properties are then proved about the functions:

- what each sub-lexer accepts and returns;
- that the token sequence ends with exactly one `Eof`;
- source order and progress of the tokens;
- comments yield no tokens;
- a round trip: printing tokens and lexing the text gives them back.

Modules and files:

- `chars.dfy` (`Chars`): ASCII character classes, and `SpanEnd`, the
  position where a scan over a class of characters stops.
- `character_stream.dfy` (`CharStream`): class `CharacterStream`. Its
  invariant is "end flag ⇔ position at or past the end".
- `tokens.dfy` (`Tokens`): `KeywordType`, `OperatorType`, `Token`, the
  keyword table, operator spellings and diagnostic texts.
- `lexer_spec.dfy` (`LexSpec`): the specification functions.
- `lexer.dfy` (`Lexer`): the imperative lexer, proved against `LexSpec`.
- `scanner.dfy` (`Scanners`): class `Scanner`.
- `lexer_properties.dfy` (`LexProperties`): properties of each sub-lexer
  and of the whole tokenizer.
- `round_trip.dfy` (`RoundTrip`): printing tokens, and lexing the printed
  text back.
- `lexer_examples.dfy` (`LexExamples`): short texts from the test
  scenarios, tokenized step by step.
- `as_written.dfy` (`AsWritten`): `lex_operator`'s end-of-input branch
  exactly as the source writes it (see Findings).

The source reads the current character without a bounds check in many
places and would panic at the end of the input. Examples:

- an identifier or number that ends the text;
- an unterminated string or comment.

The model guards every such read. The end of the input behaves like a
character that matches nothing:

- scanning loops stop there;
- an unterminated string or character literal becomes its "missing
  terminating" `Invalid` token;
- an unterminated comment runs to the end.

In these cases the code decides, and the model follows it:

- **`''` (two quotes).** The value is NUL. `''` followed by `'` is
  `CharLit('\0')`. Followed by an ASCII letter or digit, it is "char
  literals should only have one character". Followed by anything else, or
  at the end of the input, it is "missing terminating '". It is not an
  empty character literal.
- **Operator kinds.** `OperatorType` has 22 variants (src/lib.rs:20-43).
- **Block comments.** The search for `*/` starts at the `*` of the opener,
  so `/*/` is already a closed comment.

## Model

| member | source | states |
|---|---|---|
| CharStream.CharacterStream.constructor | src/character_stream.rs:10-14 | starts at position 0 on the given characters; the end flag is set exactly when the text is empty; the invariant holds |
| CharStream.CharacterStream.Current | src/character_stream.rs:16-18 | defined only before the end; returns the character at the position |
| CharStream.CharacterStream.NextChar | src/character_stream.rs:20-22 | `Some` of the character after the position exactly when there is one, otherwise `None`; cannot move the cursor |
| CharStream.CharacterStream.AdvanceBy | src/character_stream.rs:24-30 | position grows by exactly `n`; the flag becomes set once the position reaches the end and is never cleared; the characters never change; the invariant is kept |
| CharStream.CharacterStream.IsEof | src/character_stream.rs:32-34 | under the invariant, true exactly when the position is at or past the end |
| CharStream.CharacterStream.CheckBounds | src/character_stream.rs:42-44 | true exactly when `!is_eof()`; then the position indexes a character |
| CharStream.CharacterStream.SkipWhitespace | src/character_stream.rs:36-40 | stops at the end or on a non-whitespace character; every skipped character was ASCII whitespace; stops at `SpanEnd(chars, old pos, Whitespace)`; the invariant is kept |
| Chars.SpanEnd | src/character_stream.rs:36-40 | the stopping point of a scan over a class of characters: never before the start, within the text, and not on a character of the class |
| Chars.SpanEndAllIn | src/character_stream.rs:37-38 | every character the scan passes over is in the class |
| Chars.SpanEndUnique | src/lib.rs:204-207 | any index that closes a run of the class and is followed by a non-member (or the end) is where the scan stops |
| Chars.SpanEndFrom | src/lib.rs:209-216 | resuming a scan after a run already known to be in the class stops at the same place |
| Chars.SpanEndIdempotent | src/character_stream.rs:36-40 | a second `skip_whitespace` does not move the cursor |
| Chars.DigitsAreAlnum | src/lib.rs:209-216 | a run of digits is a run of alphanumerics, so the invalid-identifier scan covers the digits already read |
| Chars.BlockClose | src/lib.rs:162-169 | the first `*/` at or after an index, if any; no closer stands before it |
| Tokens.KeywordOfSpelling | src/lib.rs:187-199 | the lookup names keyword `k` exactly when the text is `k`'s spelling (both directions) |
| Tokens.KeywordTextIsIdentifier | src/lib.rs:188-197 | every keyword spelling is non-empty, starts with an identifier start and consists of identifier characters |
| Tokens.KeywordOf | src/lib.rs:187-199 | the lookup's answer, when there is one, is the keyword the text spells; when there is none, the text spells no keyword |
| Tokens.KeywordOrId | src/lib.rs:187-199 | a `Keyword` exactly when the text spells some keyword (then that one); otherwise an `Id` carrying the text verbatim |
| LexSpec.CommentEnd | src/lib.rs:150-174 | after a comment and the whitespace after it: at least two characters on, within the text, and not on whitespace |
| LexSpec.SkipCommentsFrom | src/lib.rs:147-178 | never moves back; stops where no comment opens; if it moved, it stops off whitespace |
| LexSpec.IdentifierAt | src/lib.rs:180-200 | a `Keyword` or an `Id`; consumes at least one character when the first is an identifier character |
| LexSpec.NumberAt | src/lib.rs:202-235 | a `Number` or an `Invalid`; consumes at least one character from a digit or `.` |
| LexSpec.StringAt | src/lib.rs:237-254 | a string literal or the "missing terminating \"" diagnostic; always consumes the opening quote |
| LexSpec.CharAt | src/lib.rs:256-275 | a character literal or one of its two diagnostics; consumes at least one character |
| LexSpec.OperatorAt | src/lib.rs:277-331 | an `Operator` or an `Invalid`; consumes at least one character |
| LexSpec.OperatorTable | src/lib.rs:283-327 | consumes one character, or two only when there is a lookahead; an `Operator` exactly when the character starts an operator; anything else is the invalid-symbol diagnostic for that character, of width one |
| LexSpec.Lookahead | src/lib.rs:278-281 | the lookahead exists exactly when a character follows the current one, and is that character |
| LexSpec.Punctuation | src/lib.rs:110-137 | a token exactly for the seven characters `(){}[];`, and that token is one of the seven punctuation tokens |
| LexSpec.TokenAt | src/lib.rs:105-139 | never `Eof`; consumes at least one character |
| LexSpec.TokenizeFrom | src/lib.rs:91-141 | the loop from a position always yields at least one token, and the last one is `Eof` |
| LexSpec.Tokenize | src/lib.rs:88-145 | `tokenize_str` always returns a non-empty sequence ending in `Eof` |
| Lexer.SkipLineComment | src/lib.rs:150-155 | the cursor ends where `CommentEnd` says |
| Lexer.SkipBlockComment | src/lib.rs:161-170 | the cursor ends where `CommentEnd` says |
| Lexer.SkipComments | src/lib.rs:147-178 | the cursor ends at `SkipCommentsFrom` of where it started |
| Lexer.LexIdentifierOrKeyword | src/lib.rs:180-200 | returns the token and leaves the cursor exactly as `IdentifierAt` prescribes |
| Lexer.ScanDigits | src/lib.rs:204-207 | the cursor stops at the end of the digit run; the text gained exactly the digits passed |
| Lexer.ScanAlnum | src/lib.rs:213-216 | the cursor stops at the end of the alphanumeric run; the text gained exactly the characters passed |
| Lexer.LexNumber | src/lib.rs:202-235 | returns the token and leaves the cursor exactly as `NumberAt` prescribes |
| Lexer.LexFraction | src/lib.rs:220-234 | from a `.` after the digit run: returns the token and leaves the cursor as `NumberAt` prescribes |
| Lexer.NumberAtFraction | src/lib.rs:220-234 | with a `.` after the digits, the literal runs to the end of the second digit run, and the cursor passes one `f` |
| Lexer.LexString | src/lib.rs:237-254 | returns the token and leaves the cursor exactly as `StringAt` prescribes |
| Lexer.LexChar | src/lib.rs:256-275 | returns the token and leaves the cursor exactly as `CharAt` prescribes |
| Lexer.LexOperator | src/lib.rs:277-331 | returns the token and leaves the cursor exactly as `OperatorAt` prescribes |
| Lexer.LexToken | src/lib.rs:105-139 | the dispatch returns the token and leaves the cursor exactly as `TokenAt` prescribes |
| Lexer.TokenizeStr | src/lib.rs:88-145 | returns `Tokenize(text)` |
| Scanners.Scanner.constructor | src/lib.rs:70-75 | the tokens are those of the text and the index is 0 |
| Scanners.Scanner.NextToken | src/lib.rs:77-81 | `Some(tokens[index])` when the index is in range, else `None`; the index grows by one either way; the tokens do not change |
| Scanners.Scanner.Tokens | src/lib.rs:83-85 | the tokenization of the scanner's text |
| LexProperties.IdentifierAtSpec | src/lib.rs:180-199 | consumes the maximal run of identifier characters; a `Keyword` spells exactly that run; an `Id` carries the run verbatim, and the run spells no keyword |
| LexProperties.NumberAtInvalid | src/lib.rs:209-218 | `Invalid` exactly when the digit run is followed by an alphanumeric; then the whole alphanumeric run (digits included) is consumed and named in the message |
| LexProperties.NumberAtLiteral | src/lib.rs:202-235 | otherwise the literal is the longest number-shaped text at the position, verbatim; one `f` is consumed but not kept, and only after a literal with a `.` |
| LexProperties.FractionLiteral | src/lib.rs:220-232 | digits, `.`, digits: that text is the longest number-shaped text there, and one trailing `f` is skipped |
| LexProperties.WholeLiteral | src/lib.rs:204-207 | a digit run followed by neither an alphanumeric nor `.` is the longest number-shaped text there |
| LexProperties.StringAtSpec | src/lib.rs:237-254 | a literal exactly when a closing quote follows; it holds everything in between, verbatim and quote-free, plus NUL; the cursor ends just past the closing quote; otherwise the cursor ends at the end of the text |
| LexProperties.CharAtSpec | src/lib.rs:256-275 | a `CharLit` exactly when a quote stands two characters on, with the middle character (NUL if it is a quote) and three characters consumed; "too long" exactly when an alphanumeric stands there; at the end of the input "missing terminating '"; every diagnostic leaves the cursor on that third character |
| LexProperties.OperatorTableSpelling | src/lib.rs:283-327 | an operator exactly when the character can start one; the consumed characters spell it; any other symbol is `Invalid("Invalid symbol \"c\"!")` of width one |
| LexProperties.OperatorTableGreedy | src/lib.rs:283-327 | a one-character result means no two-character operator is spelled by the character and the lookahead |
| LexProperties.OperatorAtSpelling | src/lib.rs:277-331 | the same at a position of the text: operator ⇔ operator character, the consumed characters spell it, and the choice is greedy |
| LexProperties.TokenizeFromEndsWithEof | src/lib.rs:91-141 | the tokens end with `Eof` and contain no other `Eof` |
| LexProperties.TokenizeEndsWithEof | src/lib.rs:88-145 | `tokenize_str`'s output ends with exactly one `Eof` |
| LexProperties.TokenizeFromLength | src/lib.rs:105-141 | at most one token per remaining character, plus the `Eof` |
| LexProperties.TokenizeLength | src/lib.rs:88-145 | at most one token more than the text has characters: each non-`Eof` token consumes a character |
| LexProperties.TokenizeInSourceOrder | src/lib.rs:91-141 | the i-th token is what the dispatch lexes at the i-th token start; each lexeme ends before the next begins |
| LexProperties.CommentEndSpec | src/lib.rs:147-178 | a line comment runs up to its first newline (or the end), a block comment through the first `*/` searched from the opener's `*` (or to the end when there is none), and then the whitespace after it is skipped |
| LexProperties.SkipOnlyComments | src/lib.rs:147-178 | on a text of comments and whitespace only, `skip_comments` runs to the end |
| LexProperties.CommentsOnlyYieldEof | src/lib.rs:92-103 | a text of whitespace and comments only tokenizes to `[Eof]` |
| RoundTrip.IdentifierRoundTrip | src/lib.rs:180-199 | an identifier-character word followed by a separator lexes to its keyword or identifier and is consumed exactly |
| RoundTrip.NumberRoundTrip | src/lib.rs:202-235 | a number-shaped word followed by a separator lexes to `Number(word)` and is consumed exactly |
| RoundTrip.StringRoundTrip | src/lib.rs:237-254 | a quoted quote-free text lexes back to the literal with its NUL, consuming both quotes |
| RoundTrip.CharRoundTrip | src/lib.rs:256-275 | `'v'` lexes back to `CharLit(v)` for every non-quote `v`, consuming three characters |
| RoundTrip.OperatorTableInverse | src/lib.rs:283-327 | the table yields each operator from its spelling (inverse of `OperatorText`) |
| RoundTrip.OperatorRoundTrip | src/lib.rs:277-331 | an operator's spelling followed by a separator lexes back to it, consumed exactly, and opens no comment |
| RoundTrip.TokenAtRendered | src/lib.rs:105-139 | a printed token followed by a separator stands on neither whitespace nor a comment opener, and the dispatch gives it back |
| RoundTrip.RenderStart | src/lib.rs:106-138 | a printed token starts with no whitespace, and with `/` only if it is an operator |
| RoundTrip.DispatchIdentifier | src/lib.rs:106 | an identifier start is dispatched to `lex_identifier_or_keyword` |
| RoundTrip.DispatchNumber | src/lib.rs:107 | a digit or `.` is dispatched to `lex_number` |
| RoundTrip.DispatchString | src/lib.rs:108 | `"` is dispatched to `lex_string` |
| RoundTrip.DispatchChar | src/lib.rs:109 | `'` is dispatched to `lex_char` |
| RoundTrip.DispatchOperator | src/lib.rs:138 | an operator character is dispatched to `lex_operator` |
| RoundTrip.PunctuationRoundTrip | src/lib.rs:110-137 | each of the seven punctuation marks lexes from its one character |
| RoundTrip.TokenizeFromSkipsWhitespace | src/lib.rs:92 | whitespace at the position does not change the tokens that follow |
| RoundTrip.TokenizeFromAtToken | src/lib.rs:92-141 | with neither whitespace nor a comment at the position, the tokens are the one lexed there followed by the tokens after it |
| RoundTrip.TokenizeFromAtEnd | src/lib.rs:95-98 | at the end of the text only `Eof` is left |
| RoundTrip.TokenizeFromStep | src/lib.rs:92-141 | a token lexed at the position and followed by a space is yielded, and tokenizing goes on after the space |
| RoundTrip.UnparseHead | src/lib.rs:88-145 | the printed text of a token sequence starts with the first token's spelling and a space, and the rest follow |
| RoundTrip.UnparsedStep | src/lib.rs:91-141 | on printed tokens, the tokenizer yields the first one and goes on after its space |
| RoundTrip.TokenizePrinted | src/lib.rs:88-145 | tokenizing from where printed tokens stand gives them back, then `Eof` |
| RoundTrip.TokenizeUnparse | src/lib.rs:88-145 | for every printable token sequence, `Tokenize(Unparse(ts)) == ts + [Eof]` |
| RoundTrip.TokenizeUnparseEach | src/lib.rs:88-145 | the same round trip for a sequence whose tokens are each printable |
| RoundTrip.TokenizeRender | src/lib.rs:88-145 | a printable token printed alone tokenizes to itself and `Eof` |
| RoundTrip.RelexLexeme | src/lib.rs:180-235 | re-tokenizing the text of an identifier, keyword or number that the lexer produced gives that one token again |
| LexExamples.FloatWithSuffix | tests/test_scanner.rs:20-33 | `10.5f;` tokenizes to `Number("10.5")`, `SemiColon`, `Eof`: the `f` is consumed and dropped |
| LexExamples.FloatLexeme | src/lib.rs:218-231 | at `10.5f;` the number lexer yields `10.5` and stops after the `f` |
| LexExamples.FractionWithoutIntegerPart | tests/test_scanner.rs:84-97 | `.5;` tokenizes to `Number(".5")`, `SemiColon`, `Eof` |
| LexExamples.FractionLexeme | src/lib.rs:204-231 | at `.5;` the empty integer part is accepted and the literal is `.5` |
| LexExamples.DigitsThenLetters | tests/test_scanner.rs:265-276 | `12343abc;` tokenizes to the invalid-identifier diagnostic naming `12343abc`, then `SemiColon`, `Eof` |
| LexExamples.InvalidRunLexeme | src/lib.rs:209-216 | at `12343abc;` the number lexer consumes the whole alphanumeric run and reports it |
| LexExamples.CommentInsideExpression | tests/test_scanner.rs:338-354 | `= /* c */ 42;` tokenizes to `Assign`, `Number("42")`, `SemiColon`, `Eof`: the comment yields nothing |
| LexExamples.SkipBlockCommentExample | src/lib.rs:160-174 | the block comment and the blanks around it are skipped as a whole |
| LexExamples.NumberExample | src/lib.rs:204-234 | `42;` at the end of that text yields `Number("42")`, `SemiColon`, `Eof` |
| AsWritten.OperatorAtAsWritten | src/lib.rs:277-281 | as written: the table result when there is a lookahead; otherwise `Eof`, and the cursor does not move |
| AsWritten.LastOperatorStalls | src/lib.rs:91-141 | on a text ending in a character dispatched to `lex_operator`, an iteration at the last position skips nothing and gets `Eof` from `lex_operator`; it leaves the cursor short of the end, so the loop repeats forever |
| AsWritten.PlusStalls | src/lib.rs:277-281 | for the text `+`, the code as written returns `Eof` at position 0 without advancing; the model returns `Plus` and advances to 1 |

## Left out

- Unicode: `char::is_alphanumeric` (src/lib.rs:182, 209, 213) accepts
  every Unicode letter and digit. The model uses ASCII letters and digits
  for it and for `is_ascii_alphanumeric` (src/lib.rs:265).
- Panics: reads past the end of the input are guarded as described above,
  not modelled as panics.
- `lex_operator` at the last character: the model uses the corrected
  behaviour (see Findings).
- `skip_comments` calls itself after each comment. `Lexer.SkipComments`
  uses a loop that ends in the same state.
- `usize` arithmetic: positions and the scanner index are unbounded
  naturals. Overflow of `pos += offset` needs an input larger than memory.
- `#[derive(Debug, PartialEq, Eq)]` and `format!`: the diagnostics are
  built by sequence concatenation with the same texts.
- `Token::Char` and `Token::String` are renamed `CharLit` and `StringLit`,
  so that they do not clash with Dafny's `char` and `string`.
- src/main.rs: a demo that reads a file and prints tokens. It is I/O only.
- tests/test_scanner.rs: the full test texts are not replayed. Evaluating
  the tokenizer on literal texts of that length is beyond the verifier's
  resource limit. Module `LexExamples` replays short fragments of four of
  them (`10.5f;`, `.5;`, `12343abc;`, a comment inside an assignment).
  `TokenizeUnparse` and `CommentsOnlyYieldEof` state the general facts
  behind the rest.
- `Scanners.Scanner`: a ghost field `text` records the text, which the
  source does not keep. It lets the contracts say what `tokens` holds.

## Findings

| source | as written | input that shows it | evidently intended | confidence | as-written member | corrected member |
|---|---|---|---|---|---|---|
| src/lib.rs:278-281 | with no lookahead character, `lex_operator` returns `Token::Eof` without advancing. `tokenize_str` only stops at its two end-of-input checks (src/lib.rs:95-102), so it pushes `Eof` again and again and never returns | any text whose last character goes to `lex_operator`, e.g. `+` or `a=` | lex the last character like one with a non-matching lookahead: single-character operator or invalid symbol, advance by one | high (not executed) | AsWritten.LastOperatorStalls | LexSpec.OperatorAt |

The corrected `LexSpec.OperatorAt` always consumes at least one character.
`LexProperties.TokenizeLength` and `LexProperties.TokenizeEndsWithEof`
prove that the corrected tokenizer ends with a single `Eof` after at most
one token per character.
