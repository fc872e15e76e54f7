/**
 The per-connection JSON stream splitter (`JsonSplitter` in src/jsonreader.rs).

 The splitter is a four-mode state machine that walks one byte chunk and
 returns the complete JSON values it recognises in it, as slices of that
 chunk. The splitter only ever looks at a byte through its class (`Classify`),
 so the loop of `push` is modelled as a fold of `Step` over the classes of the
 chunk's bytes: `Run(r, cls, i, n)` is the loop state after reading indices
 `i` up to `n` from state `r`, with the local `start` offset and the slices
 found so far kept as index spans.
 */
module JsonReader {
  import opened Wrappers
  import opened Chars

  datatype SplitError = Tainted

  datatype ParseMode = ObjectOrArray | StringLiteral | RootLevelValue | Undetermined

  /** The splitter's fields. `maxSize` and `buffer` are stored but never read. */
  datatype JsonSplitter = JsonSplitter(
    maxSize: nat,
    buffer: seq<byte>,
    depth: nat,
    mode: ParseMode,
    escapingNextChar: bool,
    tainted: bool)

  const SYM_QUOTES: char := '"'
  const SYM_OPEN_CURLY: char := '{'
  const SYM_CLOSE_CURLY: char := '}'
  const SYM_OPEN_BRACKET: char := '['
  const SYM_CLOSE_BRACKET: char := ']'
  const SYM_BACKSLASH: char := '\\'

  /** The characters that may continue a bare literal or number. */
  const ROOT_LEVEL_CHARS: seq<char> :=
    ['t', 'r', 'u', 'e', 'E', 'f', 'a', 'l', 's', 'n', '-', '.',
     '0', '1', '2', '3', '4', '5', '6', '7', '8', '9']

  /** Membership in ROOT_LEVEL_CHARS, written out (see RootLevelCharsAgree). */
  predicate IsRootLevelChar(c: char) {
    || ('0' <= c <= '9')
    || c == 't' || c == 'r' || c == 'u' || c == 'e' || c == 'E'
    || c == 'f' || c == 'a' || c == 'l' || c == 's' || c == 'n'
    || c == '-' || c == '.'
  }

  lemma RootLevelCharsAgree(c: char)
    ensures IsRootLevelChar(c) <==> c in ROOT_LEVEL_CHARS
  {
  }

  predicate IsOpener(c: char) {
    c == SYM_OPEN_CURLY || c == SYM_OPEN_BRACKET
  }

  predicate IsCloser(c: char) {
    c == SYM_CLOSE_CURLY || c == SYM_CLOSE_BRACKET
  }

  /**
   The invariant every reachable splitter keeps: outside an aggregate or a
   string the depth is zero, inside one it is positive, and the escape flag
   is only ever set inside a string literal.
   */
  predicate Valid(sp: JsonSplitter) {
    && (sp.mode == Undetermined || sp.mode == RootLevelValue ==> sp.depth == 0)
    && (sp.mode == StringLiteral || sp.mode == ObjectOrArray ==> sp.depth >= 1)
    && (sp.escapingNextChar ==> sp.mode == StringLiteral)
  }

  function New(maxSize: nat): (sp: JsonSplitter)
    ensures Valid(sp) && !sp.tainted
    ensures sp.mode == Undetermined && sp.maxSize == maxSize && sp.buffer == []
  {
    JsonSplitter(maxSize, [], 0, Undetermined, false, false)
  }

  /** `JsonSplitter::default`, a splitter with the advisory size 4000. */
  function Default(): (sp: JsonSplitter)
    ensures Valid(sp) && !sp.tainted
    ensures sp.mode == Undetermined && sp.maxSize == 4000 && sp.buffer == []
  {
    New(4000)
  }

  /** The half-open index range `chunk[lo..hi]` of one emitted message. */
  datatype Span = Span(lo: nat, hi: nat)

  /** The outcome of one loop iteration: carry on, possibly emitting a span, or taint. */
  datatype StepResult =
    | Next(sp: JsonSplitter, start: nat, emit: Option<Span>)
    | Taint(sp: JsonSplitter)

  /** How the splitter tells bytes apart, after `byte as char`. */
  datatype ByteClass = Quote | Backslash | Opener | Closer | Literal | Whitespace | Other

  function Classify(b: byte): ByteClass {
    var c := ToChar(b);
    if c == SYM_QUOTES then Quote
    else if c == SYM_BACKSLASH then Backslash
    else if IsOpener(c) then Opener
    else if IsCloser(c) then Closer
    else if IsRootLevelChar(c) then Literal
    else if IsWhitespace(c) then Whitespace
    else Other
  }

  /** A byte that continues a bare value: one of ROOT_LEVEL_CHARS. */
  predicate IsLiteral(b: byte) {
    Classify(b) == Literal
  }

  lemma LiteralIsRootLevelChar(b: byte)
    ensures IsLiteral(b) <==> IsRootLevelChar(ToChar(b))
  {
  }

  /**
   One iteration of the loop in `push`: the byte at index `i`, of class `k`,
   read in state `sp`, with the local `start` offset.
   */
  function Step(sp: JsonSplitter, start: nat, i: nat, k: ByteClass): (r: StepResult)
    requires Valid(sp) && !sp.tainted && start <= i
  {
    match sp.mode
    case Undetermined =>
      (match k
       case Opener => Next(sp.(mode := ObjectOrArray, depth := sp.depth + 1), i, None)
       case Closer => Taint(sp.(tainted := true))
       case Quote => Next(sp.(mode := StringLiteral, depth := sp.depth + 1), start, None)
       case Whitespace => Next(sp, start, None)
       case _ => Next(sp.(mode := RootLevelValue), i, None))
    case StringLiteral =>
      (match k
       case Quote =>
         if sp.escapingNextChar then
           Next(sp.(escapingNextChar := false), start, None)
         else if sp.depth == 1 then
           Next(sp.(depth := 0, mode := Undetermined), i + 1, Some(Span(start, i + 1)))
         else
           Next(sp.(depth := sp.depth - 1, mode := ObjectOrArray), start, None)
       case Backslash => Next(sp.(escapingNextChar := !sp.escapingNextChar), start, None)
       case _ => Next(sp, start, None))
    case RootLevelValue =>
      if k != Literal then
        Next(sp, i + 1, Some(Span(start, i + 1)))
      else
        Next(sp, start, None)
    case ObjectOrArray =>
      (match k
       case Quote => Next(sp.(mode := StringLiteral, depth := sp.depth + 1), start, None)
       case Opener => Next(sp.(depth := sp.depth + 1), start, None)
       case Closer =>
         if sp.depth == 0 then
           Taint(sp.(tainted := true))
         else if sp.depth == 1 then
           Next(sp.(depth := 0, mode := Undetermined), i + 1, Some(Span(start, i + 1)))
         else
           Next(sp.(depth := sp.depth - 1), start, None)
       case _ => Next(sp, start, None))
  }

  /**
   One step keeps the invariant; it taints exactly on a closer read between
   values; it never moves `start` backwards or past the byte after `i`; and
   it emits only on a byte that ends a value (a quote or closer at depth 1,
   or a terminator of a bare value), the span running from `start` through `i`.
   */
  lemma StepFacts(sp: JsonSplitter, start: nat, i: nat, k: ByteClass)
    requires Valid(sp) && !sp.tainted && start <= i
    ensures var r := Step(sp, start, i, k);
      && Valid(r.sp)
      && r.sp.maxSize == sp.maxSize && r.sp.buffer == sp.buffer
      && (r.Taint? <==> sp.mode == Undetermined && k == Closer)
      && (r.Taint? ==> r.sp.tainted)
      && (r.Next? ==> !r.sp.tainted && start <= r.start <= i + 1)
      && (r.Next? && r.emit.Some? ==>
        && r.emit.value == Span(start, i + 1)
        && r.start == i + 1
        && k != Literal
        && ((sp.mode == RootLevelValue && r.sp == sp) || (sp.depth == 1 && r.sp.mode == Undetermined)))
  {
  }

  /** Spans that are non-empty, lie below `bound`, and follow each other left to right without overlap. */
  predicate OrderedWithin(spans: seq<Span>, bound: nat) {
    && (forall k :: 0 <= k < |spans| ==> spans[k].lo < spans[k].hi <= bound)
    && (forall j, k :: 0 <= j < k < |spans| ==> spans[j].hi <= spans[k].lo)
  }

  /** Each span ends on a byte that cannot continue a bare value: a quote, a closer or a terminator. */
  predicate EndsOnBoundary(cls: seq<ByteClass>, spans: seq<Span>) {
    forall k :: 0 <= k < |spans| ==>
      0 < spans[k].hi <= |cls| && cls[spans[k].hi - 1] != Literal
  }

  /** The state of the loop in `push`: still scanning, or returned `Err(Tainted)`. */
  datatype Scan =
    | Scanning(sp: JsonSplitter, start: nat, spans: seq<Span>)
    | Tripped(sp: JsonSplitter)

  /** The class of every byte of a chunk. */
  function Classes(chunk: seq<byte>): (cls: seq<ByteClass>)
    ensures |cls| == |chunk|
    ensures forall i :: 0 <= i < |chunk| ==> cls[i] == Classify(chunk[i])
  {
    seq(|chunk|, i requires 0 <= i < |chunk| => Classify(chunk[i]))
  }

  /**
   A loop state that may read the byte at index `i`: the splitter is valid,
   a returned `Err` left it tainted, and `start` has not passed `i`.
   */
  predicate Ready(r: Scan, i: nat) {
    && Valid(r.sp)
    && (r.Tripped? ==> r.sp.tainted)
    && (r.Scanning? ==> !r.sp.tainted && r.start <= i)
  }

  /**
   The loop state after reading the byte at index `i`, of class `k`: a
   returned `Err` stays returned, and an emitted span is appended.
   */
  function Advance(r: Scan, i: nat, k: ByteClass): (r': Scan)
    requires Ready(r, i)
    ensures Ready(r', i + 1)
    ensures r'.sp.maxSize == r.sp.maxSize && r'.sp.buffer == r.sp.buffer
    ensures r.Tripped? ==> r' == r
  {
    match r
    case Tripped(_) => r
    case Scanning(sp, start, spans) =>
      StepFacts(sp, start, i, k);
      match Step(sp, start, i, k)
      case Taint(sp') => Tripped(sp')
      case Next(sp', start', emit) =>
        if emit.Some? then Scanning(sp', start', spans + [emit.value])
        else Scanning(sp', start', spans)
  }

  /** The loop state after reading the bytes at indices `i` up to `n`, of classes `cls`, from state `r`. */
  function Run(r: Scan, cls: seq<ByteClass>, i: nat, n: nat): (r': Scan)
    requires Ready(r, i) && i <= n <= |cls|
    ensures Ready(r', n)
    ensures r'.sp.maxSize == r.sp.maxSize && r'.sp.buffer == r.sp.buffer
    ensures r.Tripped? ==> r' == r
    decreases n - i
  {
    if i == n then r else Run(Advance(r, i, cls[i]), cls, i + 1, n)
  }

  /** The state `push` enters its loop with: nothing found yet and `start` at 0. */
  function Begin(sp: JsonSplitter): (r: Scan)
    requires Valid(sp) && !sp.tainted
    ensures Ready(r, 0)
  {
    Scanning(sp, 0, [])
  }

  /** The found spans are non-empty, ordered, non-overlapping, before `start`, and end on boundary bytes. */
  predicate SpansOk(r: Scan, cls: seq<ByteClass>) {
    r.Scanning? ==> OrderedWithin(r.spans, r.start) && EndsOnBoundary(cls, r.spans)
  }

  lemma {:induction false} RunSpans(r: Scan, cls: seq<ByteClass>, i: nat, n: nat)
    requires Ready(r, i) && i <= n <= |cls| && SpansOk(r, cls)
    ensures SpansOk(Run(r, cls, i, n), cls)
    decreases n - i
  {
    if i < n {
      AdvanceSpans(r, cls, i);
      RunSpans(Advance(r, i, cls[i]), cls, i + 1, n);
    }
  }

  /** One step keeps the found spans ordered and boundary-terminated. */
  lemma AdvanceSpans(r: Scan, cls: seq<ByteClass>, i: nat)
    requires Ready(r, i) && i < |cls| && SpansOk(r, cls)
    ensures SpansOk(Advance(r, i, cls[i]), cls)
  {
    if r.Scanning? {
      var t := Step(r.sp, r.start, i, cls[i]);
      StepFacts(r.sp, r.start, i, cls[i]);
      if t.Next? && t.emit.Some? {
        AppendSpan(cls, r.spans, r.start, t.emit.value);
      }
    }
  }

  /** Appending the span `chunk[start..hi]` keeps the found spans ordered and boundary-terminated. */
  lemma AppendSpan(cls: seq<ByteClass>, spans: seq<Span>, start: nat, s: Span)
    requires OrderedWithin(spans, start) && EndsOnBoundary(cls, spans)
    requires s.lo == start < s.hi <= |cls| && cls[s.hi - 1] != Literal
    ensures OrderedWithin(spans + [s], s.hi) && EndsOnBoundary(cls, spans + [s])
  {
  }

  predicate InBounds(spans: seq<Span>, size: nat) {
    forall k :: 0 <= k < |spans| ==> spans[k].lo <= spans[k].hi <= size
  }

  /** The messages the spans denote: `buffer[start..i+1]` for each. */
  function Slices(chunk: seq<byte>, spans: seq<Span>): (ms: seq<seq<byte>>)
    requires InBounds(spans, |chunk|)
    ensures |ms| == |spans|
  {
    seq(|spans|, k requires 0 <= k < |spans| => chunk[spans[k].lo..spans[k].hi])
  }

  lemma SlicesEndOnBoundary(chunk: seq<byte>, spans: seq<Span>)
    requires InBounds(spans, |chunk|) && OrderedWithin(spans, |chunk|) && EndsOnBoundary(Classes(chunk), spans)
    ensures forall m :: m in Slices(chunk, spans) ==> |m| > 0 && !IsLiteral(m[|m| - 1])
  {
    var ms := Slices(chunk, spans);
    var cls := Classes(chunk);
    forall k | 0 <= k < |ms|
      ensures |ms[k]| > 0 && !IsLiteral(ms[k][|ms[k]| - 1])
    {
      var s := spans[k];
      assert ms[k] == chunk[s.lo..s.hi];
      assert cls[s.hi - 1] != Literal;
      LastOfSlice(chunk, s.lo, s.hi);
    }
  }

  lemma LastOfSlice(chunk: seq<byte>, lo: nat, hi: nat)
    requires lo < hi <= |chunk| && Classify(chunk[hi - 1]) != Literal
    ensures var m := chunk[lo..hi]; |m| > 0 && !IsLiteral(m[|m| - 1])
  {
    assert chunk[lo..hi][hi - 1 - lo] == chunk[hi - 1];
  }

  /** What one call of `push` leaves behind: the new state and the returned value. */
  datatype Pushed = Pushed(next: JsonSplitter, result: Result<seq<seq<byte>>, SplitError>)

  /**
   `JsonSplitter::push`. A tainted splitter fails at once and is left as it
   is; otherwise the chunk is scanned, and a stray closer taints the splitter
   and discards every message found earlier in the same chunk.
   */
  function Push(sp: JsonSplitter, chunk: seq<byte>): (r: Pushed)
    requires Valid(sp)
    ensures Valid(r.next)
    ensures r.next.maxSize == sp.maxSize && r.next.buffer == sp.buffer
    ensures sp.tainted ==> r == Pushed(sp, Failure(Tainted))
    ensures r.result.Failure? <==> r.next.tainted
    ensures r.result.Success? ==> forall m :: m in r.result.value ==>
      |m| > 0 && !IsLiteral(m[|m| - 1])
  {
    if sp.tainted then
      Pushed(sp, Failure(Tainted))
    else
      var cls := Classes(chunk);
      match Run(Begin(sp), cls, 0, |chunk|)
      case Tripped(sp') => Pushed(sp', Failure(Tainted))
      case Scanning(sp', _, spans) =>
        RunSpans(Begin(sp), cls, 0, |chunk|);
        var ms := Slices(chunk, spans);
        SlicesEndOnBoundary(chunk, spans);
        Pushed(sp', Success(ms))
  }

  /**
   `JsonSplitter::flush`: it fails on a tainted splitter and otherwise
   returns no messages, in every mode.
   */
  function Flush(sp: JsonSplitter): (r: Pushed)
    ensures r.next == sp
    ensures r.result.Failure? <==> sp.tainted
    ensures r.result.Success? ==> r.result.value == []
  {
    if sp.tainted then Pushed(sp, Failure(Tainted)) else Pushed(sp, Success([]))
  }

  /** `JsonSplitter::push_and_flush`: the messages of `push` followed by those of `flush`. */
  function PushAndFlush(sp: JsonSplitter, chunk: seq<byte>): (r: Pushed)
    requires Valid(sp)
    ensures Valid(r.next)
    ensures sp.tainted ==> r == Pushed(sp, Failure(Tainted))
    ensures r.result.Failure? <==> r.next.tainted
    ensures r.result.Success? ==> forall m :: m in r.result.value ==>
      |m| > 0 && !IsLiteral(m[|m| - 1])
  {
    var p := Push(sp, chunk);
    match p.result
    case Failure(e) => p
    case Success(ms) =>
      var f := Flush(p.next);
      match f.result
      case Failure(e) => f
      case Success(ms2) => Pushed(f.next, Success(ms + ms2))
  }
}
