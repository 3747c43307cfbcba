/** The token vocabulary of src/lib.rs:5-62: keyword kinds, operator kinds
    and the token union, with the keyword table of lex_identifier_or_keyword,
    the spelling of every operator and the diagnostic texts. */
module Tokens {
  import opened Chars

  datatype KeywordType =
    | Char | Double | Else | Float | For | If | Int | Long | Return | While

  datatype OperatorType =
    | Plus | PlusEqual | And | Assign | BitwiseAnd | BitwiseOr | Decrement
    | NotEqual | Divide | DivideEqual | Equals | GreaterThan
    | GreaterThanOrEqual | Increment | LessThan | LessThanOrEqual | Asterisk
    | AsteriskEqual | ExclamationPoint | Or | Minus | MinusEqual

  datatype Token =
    | CloseBrace
    | CloseBracket
    | CloseParen
    | CharLit(value: char)         // Token::Char
    | Eof
    | Id(name: string)
    | Keyword(kind: KeywordType)
    | Number(literal: string)
    | OpenBrace
    | OpenBracket
    | OpenParen
    | Operator(op: OperatorType)
    | SemiColon
    | StringLit(contents: string)  // Token::String
    | Invalid(message: string)

  /** The source text of each keyword. */
  function KeywordText(k: KeywordType): string {
    match k
    case Char => "char"
    case Double => "double"
    case Else => "else"
    case Float => "float"
    case For => "for"
    case If => "if"
    case Int => "int"
    case Long => "long"
    case Return => "return"
    case While => "while"
  }

  /** The keyword lookup of src/lib.rs:187-199: exact, case-sensitive
      comparison against the ten keywords. */
  function KeywordOf(text: string): (r: Option<KeywordType>)
    ensures r.Some? ==> text == KeywordText(r.value)
    ensures r.None? ==> forall k :: text != KeywordText(k)
  {
    match text
    case "for" => Some(For)
    case "while" => Some(While)
    case "if" => Some(If)
    case "else" => Some(Else)
    case "int" => Some(Int)
    case "float" => Some(Float)
    case "double" => Some(Double)
    case "long" => Some(Long)
    case "return" => Some(Return)
    case "char" => Some(Char)
    case _ => None
  }

  /** The lookup recognises a text exactly when it spells a keyword, and
      then names that keyword. */
  lemma KeywordOfSpelling(text: string, k: KeywordType)
    ensures KeywordOf(text) == Some(k) <==> text == KeywordText(k)
  {
  }

  /** Every keyword is spelled with identifier characters, so the
      identifier lexer can produce it. */
  lemma KeywordTextIsIdentifier(k: KeywordType)
    ensures |KeywordText(k)| > 0 && IsIdentStart(KeywordText(k)[0])
    ensures forall i :: 0 <= i < |KeywordText(k)| ==> IsIdentChar(KeywordText(k)[i])
  {
  }

  /** What an identifier-shaped text becomes: the keyword it spells, or an
      identifier carrying the text verbatim. */
  function KeywordOrId(text: string): (t: Token)
    ensures t.Keyword? || t.Id?
    ensures t.Keyword? <==> exists k :: text == KeywordText(k)
    ensures t.Keyword? ==> text == KeywordText(t.kind)
    ensures t.Id? ==> t.name == text
  {
    match KeywordOf(text)
    case Some(k) => KeywordOfSpelling(text, k); Keyword(k)
    case None =>
      forall k ensures text != KeywordText(k) { KeywordOfSpelling(text, k); }
      Id(text)
  }

  /** The source spelling of each operator. */
  function OperatorText(op: OperatorType): string {
    match op
    case Plus => "+"
    case PlusEqual => "+="
    case And => "&&"
    case Assign => "="
    case BitwiseAnd => "&"
    case BitwiseOr => "|"
    case Decrement => "--"
    case NotEqual => "!="
    case Divide => "/"
    case DivideEqual => "/="
    case Equals => "=="
    case GreaterThan => ">"
    case GreaterThanOrEqual => ">="
    case Increment => "++"
    case LessThan => "<"
    case LessThanOrEqual => "<="
    case Asterisk => "*"
    case AsteriskEqual => "*="
    case ExclamationPoint => "!"
    case Or => "||"
    case Minus => "-"
    case MinusEqual => "-="
  }

  /** The characters an operator can start with. */
  predicate IsOperatorStart(c: char) {
    c == '+' || c == '-' || c == '>' || c == '<' || c == '&' || c == '|'
    || c == '=' || c == '!' || c == '*' || c == '/'
  }

  // The diagnostics carried by Invalid tokens.

  function InvalidIdentifierMessage(run: string): string {
    "Invalid identifier \"" + run + "\"!"
  }

  const MissingQuoteMessage: string := "missing terminating \""

  const CharTooLongMessage: string := "char literals should only have one character"

  const MissingApostropheMessage: string := "missing terminating '"

  function InvalidSymbolMessage(c: char): string {
    "Invalid symbol \"" + [c] + "\"!"
  }
}
