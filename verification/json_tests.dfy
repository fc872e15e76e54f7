/**
 The unit tests of src/json.rs, and an input that shows the escape flag
 staying set after a string literal closes. Each text is cut into stretches
 that are copied unchanged and single characters that change the flags.
 */
module JsonTests {
  import opened Wrappers
  import opened Chars
  import opened Json
  import opened JsonLemmas

  const INSIDE: Flags := Flags(true, false)

  /** A stretch of printable ASCII with no quote or backslash, read from `f`, is copied unchanged. */
  lemma PrintableStretch(f: Flags, s: string)
    requires forall i :: 0 <= i < |s| ==> ' ' <= s[i] <= '~' && s[i] != '"' && s[i] != '\\'
    requires f.insideString || ' ' !in s
    ensures FormatFrom(f, s) == Success(s) && Trace(f, s) == f
  {
    forall i | 0 <= i < |s|
      ensures !Dropped(f, s[i])
    {
      PrintableKept(f, s[i]);
    }
    PlainStretch(f, s);
  }

  const WORDS: string := "This is string"
  const QUOTE: string := "\""

  /** A string literal without insignificant whitespace is returned unchanged. */
  lemma StringLiteralUnchanged()
    ensures Format(QUOTE + WORDS + QUOTE) == Success(QUOTE + WORDS + QUOTE)
  {
    assert QUOTE == ['"'];
    OneCharacter(START, '"');
    OneCharacter(INSIDE, '"');
    PrintableStretch(INSIDE, WORDS);
    FormatConcat(START, QUOTE, WORDS);
    TraceConcat(START, QUOTE, WORDS);
    FormatConcat(START, QUOTE + WORDS, QUOTE);
  }

  const ARRAY: string := "[1,2]"

  /** A compact array is returned unchanged. */
  lemma SimpleArrayUnchanged()
    ensures Format(ARRAY) == Success(ARRAY)
  {
    PrintableStretch(START, ARRAY);
  }

  const HEAD: string := "[1,"
  const LINE_BREAK: string := "\n"
  const TAIL: string := "2]"

  /** A line break between array elements is removed. */
  lemma LineBreakRemoved()
    ensures Format(HEAD + LINE_BREAK + TAIL) == Success(HEAD + TAIL)
  {
    assert LINE_BREAK == ['\n'];
    OneCharacter(START, '\n');
    PrintableStretch(START, HEAD);
    PrintableStretch(START, TAIL);
    FormatConcat(START, HEAD, LINE_BREAK);
    TraceConcat(START, HEAD, LINE_BREAK);
    assert HEAD + [] == HEAD;
    FormatConcat(START, HEAD + LINE_BREAK, TAIL);
  }

  /** A backslash outside any string literal is rejected. */
  lemma BackslashOutsideStringRejected()
    ensures Format("[\\n]") == Failure(UnexpectedEscape)
  {
  }

  const ESCAPED: string := "\"\\n\""
  const AFTER: string := " \\"
  const ESCAPE_SET: Flags := Flags(true, true)

  /**
   After `"\n"` the escape flag stays set, so the closing quote does not end
   the literal: the space after it is kept and a later backslash is accepted.
   */
  lemma EscapeOutlivesItsString()
    ensures Format(ESCAPED + AFTER) == Success(ESCAPED + AFTER)
  {
    assert ESCAPED == ['"'] + ['\\'] + ['n'] + ['"'];
    assert AFTER == [' '] + ['\\'];
    OneCharacter(START, '"');
    OneCharacter(INSIDE, '\\');
    OneCharacter(ESCAPE_SET, 'n');
    OneCharacter(ESCAPE_SET, '"');
    OneCharacter(ESCAPE_SET, ' ');
    OneCharacter(ESCAPE_SET, '\\');
    FormatConcat(START, ['"'], ['\\']);
    TraceConcat(START, ['"'], ['\\']);
    FormatConcat(START, ['"'] + ['\\'], ['n']);
    TraceConcat(START, ['"'] + ['\\'], ['n']);
    FormatConcat(START, ['"'] + ['\\'] + ['n'], ['"']);
    TraceConcat(START, ['"'] + ['\\'] + ['n'], ['"']);
    FormatConcat(ESCAPE_SET, [' '], ['\\']);
    FormatConcat(START, ESCAPED, AFTER);
  }
}
