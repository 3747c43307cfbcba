/** The Scanner facade of src/lib.rs:64-86: the whole token sequence,
    computed once when the scanner is made, and a read index into it. */
module Scanners {
  import opened Chars
  import opened Tokens
  import opened LexSpec
  import Lexer

  class Scanner {
    /** The read index; every call of NextToken moves it on by one. */
    var index: nat
    /** The tokens of the text; never changed after construction. */
    const tokens: seq<Token>
    /** The text the scanner was made from (the source does not keep it). */
    ghost const text: string

    ghost predicate Valid()
      reads this
    {
      tokens == Tokenize(text)
    }

    /** `Scanner::new`: tokenizes the whole text eagerly. */
    constructor (text: string)
      ensures this.text == text && Valid()
      ensures index == 0
    {
      this.text := text;
      var ts := Lexer.TokenizeStr(text);
      tokens := ts;
      index := 0;
    }

    /** `next_token`: the token at the index, if there is one, and the index
        moves on by one in either case; the tokens stay as they are. Past
        the end, nothing more is returned. */
    method NextToken() returns (t: Option<Token>)
      modifies this`index
      ensures index == old(index) + 1
      ensures old(index) < |tokens| ==> t == Some(tokens[old(index)])
      ensures old(index) >= |tokens| ==> t == None
    {
      t := if index < |tokens| then Some(tokens[index]) else None;
      index := index + 1;
    }

    /** `tokens`: the tokenization of the text the scanner was made from. */
    function Tokens(): (ts: seq<Token>)
      reads this
      requires Valid()
      ensures ts == Tokenize(text)
    {
      tokens
    }
  }
}
