/**
 The unit tests of src/jsonreader.rs, and a few more inputs, stated as
 lemmas about the splitter model. Chunks are written as byte lists; the
 comment on each gives the text. Each test first fixes the byte classes of
 its chunk, then follows the loop over those classes, then reads off the
 result of `push`.
 */
module JsonReaderTests {
  import opened Wrappers
  import opened Chars
  import opened JsonReader
  import opened JsonReaderLemmas

  /** `"prop"` */
  const PROP: seq<byte> := [34, 112, 114, 111, 112, 34]
  /** `"second"` */
  const SECOND: seq<byte> := [34, 115, 101, 99, 111, 110, 100, 34]
  /** `"first"` */
  const FIRST: seq<byte> := [34, 102, 105, 114, 115, 116, 34]
  /** `"first\" part"` */
  const FIRST_PART: seq<byte> := [34, 102, 105, 114, 115, 116, 92, 34, 32, 112, 97, 114, 116, 34]
  /** `}` */
  const CLOSE: seq<byte> := [125]
  /** `{"prop": 1}` */
  const SIMPLE: seq<byte> := [123, 34, 112, 114, 111, 112, 34, 58, 32, 49, 125]
  /** `null` */
  const NULL: seq<byte> := [110, 117, 108, 108]
  /** `{"a"` */
  const OPEN_A: seq<byte> := [123, 34, 97, 34]
  /** `:1}` */
  const COLON_ONE: seq<byte> := [58, 49, 125]
  /** `"\n"` */
  const ESCAPED_N: seq<byte> := [34, 92, 110, 34]

  /** The class of every byte the tests use. */
  lemma KnownClasses()
    ensures Classify(34) == Quote && Classify(92) == Backslash
    ensures Classify(123) == Opener && Classify(125) == Closer
    ensures Classify(32) == Whitespace
    ensures Classify(97) == Literal && Classify(101) == Literal && Classify(102) == Literal
    ensures Classify(108) == Literal && Classify(110) == Literal && Classify(114) == Literal
    ensures Classify(115) == Literal && Classify(116) == Literal && Classify(117) == Literal
    ensures Classify(49) == Literal
    ensures Classify(58) == Other && Classify(99) == Other && Classify(100) == Other
    ensures Classify(105) == Other && Classify(111) == Other && Classify(112) == Other
  {
  }

  lemma TwoSlices(chunk: seq<byte>, x: seq<byte>, y: seq<byte>)
    requires chunk == x + y
    ensures Slices(chunk, [Span(0, |x|), Span(|x|, |chunk|)]) == [x, y]
  {
    var ms := Slices(chunk, [Span(0, |x|), Span(|x|, |chunk|)]);
    assert ms[0] == chunk[0..|x|] == x;
    assert ms[1] == chunk[|x|..|chunk|] == y;
  }

  // ---------------------------------------------------------------------------
  // parse_single_string_literal

  lemma PropClasses()
    ensures Classes(PROP) == [Quote, Other, Literal, Other, Other, Quote]
  {
    KnownClasses();
    var c := Classes(PROP);
    assert c[0] == Quote && c[1] == Other && c[2] == Literal && c[3] == Other && c[4] == Other && c[5] == Quote;
  }

  /** One string literal is one message, and the splitter is back between values. */
  lemma SingleStringLiteral()
    ensures Push(Default(), PROP) == Pushed(Default(), Success([PROP]))
  {
    PropClasses();
    assert Run(Begin(Default()), Classes(PROP), 0, 6) == Scanning(Default(), 6, [Span(0, 6)]);
    PushOfRun(Default(), PROP, Default(), 6, [Span(0, 6)]);
    WholeSlice(PROP);
  }

  // ---------------------------------------------------------------------------
  // parse_two_string_literals

  lemma SecondClasses()
    ensures Classes(SECOND) == [Quote, Literal, Literal, Other, Other, Literal, Other, Quote]
  {
    KnownClasses();
    var c := Classes(SECOND);
    assert c[0] == Quote && c[1] == Literal && c[2] == Literal && c[3] == Other;
    assert c[4] == Other && c[5] == Literal && c[6] == Other && c[7] == Quote;
  }

  /** The byte classes of `"prop""second"`. */
  const TWO_CLASSES: seq<ByteClass> := [Quote, Other, Literal, Other, Other, Quote,
    Quote, Literal, Literal, Other, Other, Literal, Other, Quote]

  lemma TwoStringLiteralsRun()
    ensures Run(Begin(Default()), TWO_CLASSES, 0, 14) == Scanning(Default(), 14, [Span(0, 6), Span(6, 14)])
  {
    var c := TWO_CLASSES;
    TwoSegment1();
    TwoSegment2();
    TwoSegment3();
    RunSplit(Begin(Default()), c, 0, 6, 14);
    RunSplit(Scanning(Default(), 6, [Span(0, 6)]), c, 6, 10, 14);
  }

  lemma TwoSegment1()
    ensures Run(Begin(Default()), TWO_CLASSES, 0, 6) == Scanning(Default(), 6, [Span(0, 6)])
  {
  }

  lemma TwoSegment2()
    ensures Run(Scanning(Default(), 6, [Span(0, 6)]), TWO_CLASSES, 6, 10) == Scanning(InString(), 6, [Span(0, 6)])
  {
  }

  lemma TwoSegment3()
    ensures Run(Scanning(InString(), 6, [Span(0, 6)]), TWO_CLASSES, 10, 14)
      == Scanning(Default(), 14, [Span(0, 6), Span(6, 14)])
  {
  }

  /** Two adjacent string literals are two messages. */
  lemma TwoStringLiterals()
    ensures Push(Default(), PROP + SECOND) == Pushed(Default(), Success([PROP, SECOND]))
  {
    var chunk := PROP + SECOND;
    PropClasses();
    SecondClasses();
    ClassesAppend(PROP, SECOND);
    assert Classes(chunk) == TWO_CLASSES;
    TwoStringLiteralsRun();
    PushOfRun(Default(), chunk, Default(), 14, [Span(0, 6), Span(6, 14)]);
    TwoSlices(chunk, PROP, SECOND);
  }

  // ---------------------------------------------------------------------------
  // split_two_strings_with_one_having_escaped_delimiter

  lemma FirstPartClasses()
    ensures Classes(FIRST_PART) == [Quote, Literal, Other, Literal, Literal, Literal, Backslash,
      Quote, Whitespace, Other, Literal, Literal, Literal, Quote]
  {
    KnownClasses();
    var c := Classes(FIRST_PART);
    assert c[0] == Quote && c[1] == Literal && c[2] == Other && c[3] == Literal && c[4] == Literal;
    assert c[5] == Literal && c[6] == Backslash && c[7] == Quote && c[8] == Whitespace;
    assert c[9] == Other && c[10] == Literal && c[11] == Literal && c[12] == Literal && c[13] == Quote;
  }

  /** The byte classes of `"first\" part""second"`. */
  const ESCAPED_CLASSES: seq<ByteClass> := [Quote, Literal, Other, Literal, Literal, Literal, Backslash,
    Quote, Whitespace, Other, Literal, Literal, Literal, Quote,
    Quote, Literal, Literal, Other, Other, Literal, Other, Quote]

  /** Inside a string, the splitter's state at the outer level. */
  function InString(): JsonSplitter {
    Default().(mode := StringLiteral, depth := 1)
  }

  lemma EscapedDelimiterRun()
    ensures Run(Begin(Default()), ESCAPED_CLASSES, 0, 22) == Scanning(Default(), 22, [Span(0, 14), Span(14, 22)])
  {
    var c := ESCAPED_CLASSES;
    EscapedSegments();
    RunSplit(Begin(Default()), c, 0, 5, 22);
    RunSplit(Scanning(InString(), 0, []), c, 5, 10, 22);
    RunSplit(Scanning(InString(), 0, []), c, 10, 15, 22);
  }

  lemma EscapedSegments()
    ensures Run(Begin(Default()), ESCAPED_CLASSES, 0, 5) == Scanning(InString(), 0, [])
    ensures Run(Scanning(InString(), 0, []), ESCAPED_CLASSES, 5, 10) == Scanning(InString(), 0, [])
    ensures Run(Scanning(InString(), 0, []), ESCAPED_CLASSES, 10, 15) == Scanning(InString(), 14, [Span(0, 14)])
    ensures Run(Scanning(InString(), 14, [Span(0, 14)]), ESCAPED_CLASSES, 15, 22)
      == Scanning(Default(), 22, [Span(0, 14), Span(14, 22)])
  {
    EscapedSegment1();
    EscapedSegment2();
    EscapedSegment3();
    EscapedSegment4();
  }

  lemma EscapedSegment1()
    ensures Run(Begin(Default()), ESCAPED_CLASSES, 0, 5) == Scanning(InString(), 0, [])
  {
  }

  lemma EscapedSegment2()
    ensures Run(Scanning(InString(), 0, []), ESCAPED_CLASSES, 5, 10) == Scanning(InString(), 0, [])
  {
  }

  lemma EscapedSegment3()
    ensures Run(Scanning(InString(), 0, []), ESCAPED_CLASSES, 10, 15) == Scanning(InString(), 14, [Span(0, 14)])
  {
  }

  lemma EscapedSegment4()
    ensures Run(Scanning(InString(), 14, [Span(0, 14)]), ESCAPED_CLASSES, 15, 22)
      == Scanning(Default(), 22, [Span(0, 14), Span(14, 22)])
  {
  }

  /** An escaped quote does not end a string literal. */
  lemma EscapedDelimiter()
    ensures Push(Default(), FIRST_PART + SECOND) == Pushed(Default(), Success([FIRST_PART, SECOND]))
  {
    var chunk := FIRST_PART + SECOND;
    FirstPartClasses();
    SecondClasses();
    ClassesAppend(FIRST_PART, SECOND);
    assert Classes(chunk) == ESCAPED_CLASSES;
    EscapedDelimiterRun();
    PushOfRun(Default(), chunk, Default(), 22, [Span(0, 14), Span(14, 22)]);
    TwoSlices(chunk, FIRST_PART, SECOND);
  }

  // ---------------------------------------------------------------------------
  // should_taint_on_bracket_on_not_produce_any_messages

  lemma FirstClasses()
    ensures Classes(FIRST) == [Quote, Literal, Other, Literal, Literal, Literal, Quote]
  {
    KnownClasses();
    var c := Classes(FIRST);
    assert c[0] == Quote && c[1] == Literal && c[2] == Other && c[3] == Literal;
    assert c[4] == Literal && c[5] == Literal && c[6] == Quote;
  }

  /**
   A valid string literal yields one message; a `}` pushed afterwards fails,
   taints the splitter, and every push after that fails too.
   */
  lemma TaintOnStrayBracket(later: seq<byte>)
    ensures Push(Default(), FIRST) == Pushed(Default(), Success([FIRST]))
    ensures Push(Default(), CLOSE) == Pushed(Default().(tainted := true), Failure(Tainted))
    ensures Push(Default().(tainted := true), later) == Pushed(Default().(tainted := true), Failure(Tainted))
  {
    FirstClasses();
    assert Run(Begin(Default()), Classes(FIRST), 0, 7) == Scanning(Default(), 7, [Span(0, 7)]);
    PushOfRun(Default(), FIRST, Default(), 7, [Span(0, 7)]);
    WholeSlice(FIRST);
    KnownClasses();
    assert Classes(CLOSE) == [Closer];
    assert Run(Begin(Default()), Classes(CLOSE), 0, 1) == Tripped(Default().(tainted := true));
    TaintIsPermanent(Default(), CLOSE, later);
  }

  /** A stray closer later in the same chunk discards a message found before it. */
  lemma StrayCloserDiscardsEarlierMessages()
    ensures Push(Default(), FIRST + CLOSE) == Pushed(Default().(tainted := true), Failure(Tainted))
  {
    FirstClasses();
    KnownClasses();
    ClassesAppend(FIRST, CLOSE);
    assert Classes(CLOSE) == [Closer];
    var cls := [Quote, Literal, Other, Literal, Literal, Literal, Quote, Closer];
    assert Classes(FIRST + CLOSE) == cls;
    RunSplit(Begin(Default()), cls, 0, 7, 8);
    assert Run(Begin(Default()), cls, 0, 7) == Scanning(Default(), 7, [Span(0, 7)]);
  }

  // ---------------------------------------------------------------------------
  // parse_simple_message

  lemma SimpleClasses()
    ensures Classes(SIMPLE) == [Opener, Quote, Other, Literal, Other, Other, Quote,
      Other, Whitespace, Literal, Closer]
  {
    KnownClasses();
    var c := Classes(SIMPLE);
    assert c[0] == Opener && c[1] == Quote && c[2] == Other && c[3] == Literal && c[4] == Other;
    assert c[5] == Other && c[6] == Quote && c[7] == Other && c[8] == Whitespace;
    assert c[9] == Literal && c[10] == Closer;
  }

  /** An object holding a string and a number is one message. */
  lemma SimpleMessage()
    ensures Push(Default(), SIMPLE) == Pushed(Default(), Success([SIMPLE]))
  {
    SimpleClasses();
    var cls := [Opener, Quote, Other, Literal, Other, Other, Quote, Other, Whitespace, Literal, Closer];
    RunSplit(Begin(Default()), cls, 0, 7, 11);
    assert Run(Begin(Default()), cls, 0, 7) == Scanning(Default().(mode := ObjectOrArray, depth := 1), 0, []);
    PushOfRun(Default(), SIMPLE, Default(), 11, [Span(0, 11)]);
    WholeSlice(SIMPLE);
  }

  // ---------------------------------------------------------------------------
  // parse_null

  /**
   `null` alone yields no message, neither from `push` nor from `flush`: the
   value is only cut at a byte outside the literal characters, and none
   follows. The splitter is left in RootLevelValue mode. So the expectation
   of the parse_null unit test, one message `null`, does not hold.
   */
  lemma NullYieldsNothing()
    ensures PushAndFlush(Default(), NULL) == Pushed(Default().(mode := RootLevelValue), Success([]))
  {
    KnownClasses();
    var c := Classes(NULL);
    assert c[0] == Literal && c[1] == Literal && c[2] == Literal && c[3] == Literal;
    assert c == [Literal, Literal, Literal, Literal];
    assert Run(Begin(Default()), c, 0, 4) == Scanning(Default().(mode := RootLevelValue), 0, []);
    PushOfRun(Default(), NULL, Default().(mode := RootLevelValue), 0, []);
    FlushAddsNothing(Default(), NULL);
  }

  // ---------------------------------------------------------------------------
  // Chunk boundaries and escapes

  /**
   A value split across two pushes is not reassembled: the second push
   emits only its own bytes, from its start through the closing brace.
   */
  lemma FragmentAcrossChunks()
    ensures var s1 := Default().(mode := ObjectOrArray, depth := 1);
      && Push(Default(), OPEN_A) == Pushed(s1, Success([]))
      && Push(s1, COLON_ONE) == Pushed(Default(), Success([COLON_ONE]))
  {
    FragmentOpens();
    FragmentCloses();
  }

  /** The first push opens an object and a string and closes the string, emitting nothing. */
  lemma FragmentOpens()
    ensures Push(Default(), OPEN_A) == Pushed(Default().(mode := ObjectOrArray, depth := 1), Success([]))
  {
    KnownClasses();
    var s1 := Default().(mode := ObjectOrArray, depth := 1);
    var c := Classes(OPEN_A);
    assert c[0] == Opener && c[1] == Quote && c[2] == Literal && c[3] == Quote;
    assert c == [Opener, Quote, Literal, Quote];
    assert Run(Begin(Default()), c, 0, 4) == Scanning(s1, 0, []);
    PushOfRun(Default(), OPEN_A, s1, 0, []);
  }

  /** The second push closes the object and emits its own bytes only. */
  lemma FragmentCloses()
    ensures Push(Default().(mode := ObjectOrArray, depth := 1), COLON_ONE) == Pushed(Default(), Success([COLON_ONE]))
  {
    KnownClasses();
    var s1 := Default().(mode := ObjectOrArray, depth := 1);
    var d := Classes(COLON_ONE);
    assert d[0] == Other && d[1] == Literal && d[2] == Closer;
    assert d == [Other, Literal, Closer];
    assert Run(Begin(s1), d, 0, 3) == Scanning(Default(), 3, [Span(0, 3)]);
    PushOfRun(s1, COLON_ONE, Default(), 3, [Span(0, 3)]);
    WholeSlice(COLON_ONE);
  }

  /**
   A backslash escapes up to the next quote, not just the next byte: in
   `"\n"` the closing quote is taken as escaped, so no message is emitted
   and the splitter stays inside the string.
   */
  lemma EscapeSpansToNextQuote()
    ensures Push(Default(), ESCAPED_N) == Pushed(Default().(mode := StringLiteral, depth := 1), Success([]))
  {
    KnownClasses();
    var s1 := Default().(mode := StringLiteral, depth := 1);
    var c := Classes(ESCAPED_N);
    assert c[0] == Quote && c[1] == Backslash && c[2] == Literal && c[3] == Quote;
    assert c == [Quote, Backslash, Literal, Quote];
    assert Run(Begin(Default()), c, 0, 4) == Scanning(s1, 0, []);
    PushOfRun(Default(), ESCAPED_N, s1, 0, []);
  }

  /** `"\\"` */
  const DOUBLE_BACKSLASH: seq<byte> := [34, 92, 92, 34]

  /** Two backslashes cancel, so the quote after them closes the string. */
  lemma DoubleBackslashCloses()
    ensures Push(Default(), DOUBLE_BACKSLASH) == Pushed(Default(), Success([DOUBLE_BACKSLASH]))
  {
    KnownClasses();
    var cls := Classes(DOUBLE_BACKSLASH);
    assert cls == [Quote, Backslash, Backslash, Quote];
    assert !EscapedAt(cls, 1, 3);
    TopLevelEscapedString(Default(), DOUBLE_BACKSLASH, 1, 3);
  }
}
