/** Character classes used by the lexer, and the "maximal run" scans every
    sub-lexer is built from.

    Rust's `char::is_alphanumeric` is Unicode-aware; here it is modelled,
    like `is_ascii_alphanumeric`, as an ASCII letter or digit. */
module Chars {

  /** `char::is_ascii_whitespace`: space, tab, line feed, form feed, carriage
      return (not the vertical tab). */
  predicate IsAsciiWhitespace(c: char) {
    c == ' ' || c == '\t' || c == '\n' || c == '\U{000C}' || c == '\r'
  }

  predicate IsAsciiDigit(c: char) {
    '0' <= c <= '9'
  }

  predicate IsAsciiLetter(c: char) {
    'a' <= c <= 'z' || 'A' <= c <= 'Z'
  }

  predicate IsAlnum(c: char) {
    IsAsciiLetter(c) || IsAsciiDigit(c)
  }

  /** The characters that may start an identifier (the dispatch at
      src/lib.rs:106). */
  predicate IsIdentStart(c: char) {
    c == '_' || IsAsciiLetter(c)
  }

  /** The characters an identifier continues with (src/lib.rs:182). */
  predicate IsIdentChar(c: char) {
    c == '_' || IsAlnum(c)
  }

  /** The classes of characters the lexer's scanning loops run over. */
  datatype CharClass =
    | Whitespace   // skip_whitespace
    | Digit        // the digit runs of lex_number
    | Alnum        // the tail of an invalid identifier such as `12abc`
    | IdentChar    // lex_identifier_or_keyword
    | NotNewline   // the body of a line comment
    | NotQuote     // the body of a string literal

  predicate InClass(c: char, k: CharClass) {
    match k
    case Whitespace => IsAsciiWhitespace(c)
    case Digit => IsAsciiDigit(c)
    case Alnum => IsAlnum(c)
    case IdentChar => IsIdentChar(c)
    case NotNewline => c != '\n'
    case NotQuote => c != '"'
  }

  /** All of s[i..j] belongs to class k. */
  predicate AllIn(s: seq<char>, i: nat, j: nat, k: CharClass)
    requires i <= j <= |s|
  {
    forall m :: i <= m < j ==> InClass(s[m], k)
  }

  /** The index at which a scan that starts at `i` and advances while the
      current character is in class `k` stops: end of input counts as a
      character outside every class. A start beyond the end stays put. */
  function SpanEnd(s: seq<char>, i: nat, k: CharClass): (r: nat)
    ensures i <= r
    ensures i <= |s| ==> r <= |s|
    ensures i > |s| ==> r == i
    ensures r < |s| ==> !InClass(s[r], k)
    decreases |s| - i
  {
    if i >= |s| || !InClass(s[i], k) then i else SpanEnd(s, i + 1, k)
  }

  /** Every character the scan passes over belongs to class k. */
  lemma {:induction false} SpanEndAllIn(s: seq<char>, i: nat, k: CharClass)
    requires i <= |s|
    ensures AllIn(s, i, SpanEnd(s, i, k), k)
    decreases |s| - i
  {
    if i < |s| && InClass(s[i], k) {
      SpanEndAllIn(s, i + 1, k);
    }
  }

  /** SpanEnd is the only stopping point: any index that closes a run of
      class k starting at i and is followed by a character outside k (or by
      the end of input) is SpanEnd(s, i, k). */
  lemma {:induction false} SpanEndUnique(s: seq<char>, i: nat, k: CharClass, r: nat)
    requires i <= r <= |s|
    requires AllIn(s, i, r, k)
    requires r == |s| || !InClass(s[r], k)
    ensures SpanEnd(s, i, k) == r
    decreases r - i
  {
    if i < r {
      SpanEndUnique(s, i + 1, k, r);
    }
  }

  /** Skipping a run that is known to be in class k does not change where
      the scan stops. */
  lemma SpanEndFrom(s: seq<char>, i: nat, j: nat, k: CharClass)
    requires i <= j <= |s|
    requires AllIn(s, i, j, k)
    ensures SpanEnd(s, i, k) == SpanEnd(s, j, k)
  {
    var r := SpanEnd(s, j, k);
    SpanEndAllIn(s, j, k);
    SpanEndUnique(s, i, k, r);
  }

  /** Scanning again from where a scan stopped does not move: a second
      skip_whitespace changes nothing. */
  lemma SpanEndIdempotent(s: seq<char>, i: nat, k: CharClass)
    ensures SpanEnd(s, SpanEnd(s, i, k), k) == SpanEnd(s, i, k)
  {
  }

  /** A run of digits is a run of alphanumerics. */
  lemma DigitsAreAlnum(s: seq<char>, i: nat, j: nat)
    requires i <= j <= |s| && AllIn(s, i, j, Digit)
    ensures AllIn(s, i, j, Alnum)
  {
  }

  /** Adjacent slices join. */
  lemma SliceJoin(s: seq<char>, i: nat, j: nat, k: nat)
    requires i <= j <= k <= |s|
    ensures s[i..j] + s[j..k] == s[i..k]
  {
  }

  /** The two-character block-comment closer stands at index j. */
  predicate ClosesAt(s: seq<char>, j: nat) {
    j + 1 < |s| && s[j] == '*' && s[j + 1] == '/'
  }

  /** The first j >= i at which the closer stands, if any: where the scanning loop
      of a block comment (src/lib.rs:162-169) stops. */
  function BlockClose(s: seq<char>, i: nat): (r: Option<nat>)
    ensures r.Some? ==> i <= r.value && ClosesAt(s, r.value)
    ensures forall j :: i <= j && (r.None? || j < r.value) ==> !ClosesAt(s, j)
    decreases |s| - i
  {
    if i >= |s| then None
    else if ClosesAt(s, i) then Some(i)
    else BlockClose(s, i + 1)
  }

  datatype Option<+T> = None | Some(value: T)
}
