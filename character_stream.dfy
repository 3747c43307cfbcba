/** The character cursor of src/character_stream.rs: the whole input as a
    fixed sequence of characters, a position into it and an end-of-input
    flag that the cursor keeps equal to "the position is at or past the
    end". */
module CharStream {
  import opened Chars

  class CharacterStream {
    /** The input; never changed after construction. */
    const chars: seq<char>
    /** The current position; it only ever moves forward. */
    var pos: nat
    /** `is_end_of_file`. */
    var eof: bool

    /** The class invariant: the flag says exactly whether the position
        still indexes a character. */
    ghost predicate Valid()
      reads this
    {
      eof <==> pos >= |chars|
    }

    /** `CharacterStream::new`: position 0, the flag set exactly when the
        text is empty. */
    constructor (text: seq<char>)
      ensures chars == text && pos == 0
      ensures eof <==> |text| == 0
      ensures Valid()
    {
      chars := text;
      pos := 0;
      eof := |text| == 0;
    }

    /** `current_char`: defined only while the end has not been reached. */
    function Current(): (c: char)
      reads this
      requires Valid() && !eof
      ensures pos < |chars| && c == chars[pos]
    {
      chars[pos]
    }

    /** `next_char`: the character one ahead of the position, if there is
        one. Being a function, it cannot move the cursor. */
    function NextChar(): (r: Option<char>)
      reads this
      ensures r.Some? <==> pos + 1 < |chars|
      ensures r.Some? ==> r.value == chars[pos + 1]
    {
      if pos + 1 < |chars| then Some(chars[pos + 1]) else None
    }

    /** `advance_by`: moves forward by exactly `n`, sets the flag once the
        position reaches the end and never clears it. */
    method AdvanceBy(n: nat)
      requires Valid()
      modifies this
      ensures pos == old(pos) + n
      ensures eof <==> old(eof) || pos >= |chars|
      ensures old(eof) ==> eof
      ensures Valid()
    {
      pos := pos + n;
      if pos >= |chars| {
        eof := true;
      }
    }

    /** `is_eof`: under the invariant, whether the position is past the last
        character. */
    function IsEof(): (b: bool)
      reads this
      requires Valid()
      ensures b <==> pos >= |chars|
    {
      eof
    }

    /** `check_bounds`: whether the position indexes a character, which
        under the invariant is the negation of the flag. */
    function CheckBounds(): (b: bool)
      reads this
      requires Valid()
      ensures b <==> !IsEof()
      ensures b ==> pos < |chars|
    {
      pos < |chars|
    }

    /** `skip_whitespace`: advances past the maximal run of ASCII whitespace
        at the position. Afterwards the end is reached or the current
        character is not whitespace; every skipped character was whitespace;
        where it stops is the whitespace scan SpanEnd, so a second call
        stays put (Chars.SpanEndIdempotent). */
    method SkipWhitespace()
      requires Valid()
      modifies this
      ensures Valid()
      ensures pos == SpanEnd(chars, old(pos), Whitespace)
      ensures eof || !IsAsciiWhitespace(chars[pos])
      ensures old(pos) <= pos
      ensures old(pos) < |chars| ==> forall i :: old(pos) <= i < pos ==> IsAsciiWhitespace(chars[i])
    {
      while !IsEof() && IsAsciiWhitespace(Current())
        invariant Valid() && old(pos) <= pos
        invariant SpanEnd(chars, pos, Whitespace) == SpanEnd(chars, old(pos), Whitespace)
        invariant forall i :: old(pos) <= i < pos && i < |chars| ==> IsAsciiWhitespace(chars[i])
        decreases |chars| - pos
      {
        AdvanceBy(1);
      }
    }
  }
}
