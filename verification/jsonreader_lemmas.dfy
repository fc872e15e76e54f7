/**
 Properties of the splitter model: sticky taint and where taint comes from,
 the shape of the emitted messages, how strings, aggregates and bare values
 are recognised, and the outcomes of the unit tests in src/jsonreader.rs.
 */
module JsonReaderLemmas {
  import opened Wrappers
  import opened Chars
  import opened JsonReader

  // ---------------------------------------------------------------------------
  // Composing runs

  /** Reading `i..n` is reading `i..j` and then `j..n`. */
  lemma {:induction false} RunSplit(r: Scan, cls: seq<ByteClass>, i: nat, j: nat, n: nat)
    requires Ready(r, i) && i <= j <= n <= |cls|
    ensures Run(r, cls, i, n) == Run(Run(r, cls, i, j), cls, j, n)
    decreases j - i
  {
    if i < j {
      RunSplit(Advance(r, i, cls[i]), cls, i + 1, j, n);
    }
  }

  /** Reading one more byte at the end of a run. */
  lemma RunSnoc(r: Scan, cls: seq<ByteClass>, i: nat, n: nat)
    requires Ready(r, i) && i <= n < |cls|
    ensures Run(r, cls, i, n + 1) == Advance(Run(r, cls, i, n), n, cls[n])
  {
    RunSplit(r, cls, i, n, n + 1);
  }

  lemma PushOfRun(sp: JsonSplitter, chunk: seq<byte>, next: JsonSplitter, start: nat, spans: seq<Span>)
    requires Valid(sp) && !sp.tainted
    requires Run(Begin(sp), Classes(chunk), 0, |chunk|) == Scanning(next, start, spans)
    ensures InBounds(spans, |chunk|)
    ensures Push(sp, chunk) == Pushed(next, Success(Slices(chunk, spans)))
  {
    RunSpans(Begin(sp), Classes(chunk), 0, |chunk|);
  }

  lemma SlicesAppend(chunk: seq<byte>, spans: seq<Span>, s: Span)
    requires InBounds(spans, |chunk|) && s.lo <= s.hi <= |chunk|
    ensures Slices(chunk, spans + [s]) == Slices(chunk, spans) + [chunk[s.lo..s.hi]]
  {
    assert (spans + [s])[..|spans|] == spans;
  }

  lemma WholeSlice(chunk: seq<byte>)
    requires |chunk| > 0
    ensures Slices(chunk, [Span(0, |chunk|)]) == [chunk]
  {
    var ms := Slices(chunk, [Span(0, |chunk|)]);
    assert ms[0] == chunk[0..|chunk|] == chunk;
  }

  // ---------------------------------------------------------------------------
  // Sticky taint

  /** After a failed push, every later push fails and changes nothing. */
  lemma TaintIsPermanent(sp: JsonSplitter, first: seq<byte>, later: seq<byte>)
    requires Valid(sp)
    requires Push(sp, first).result.Failure?
    ensures var t := Push(sp, first).next;
      t.tainted && Push(t, later) == Pushed(t, Failure(Tainted))
  {
  }

  /** The byte at index `j` is a `}` or `]` read while the splitter is between values. */
  predicate StrayCloserAt(sp: JsonSplitter, cls: seq<ByteClass>, j: nat)
    requires Valid(sp) && !sp.tainted && j < |cls|
  {
    var r := Run(Begin(sp), cls, 0, j);
    r.Scanning? && r.sp.mode == Undetermined && cls[j] == Closer
  }

  lemma {:induction false} TrippedIff(sp: JsonSplitter, cls: seq<ByteClass>, n: nat)
    requires Valid(sp) && !sp.tainted && n <= |cls|
    ensures Run(Begin(sp), cls, 0, n).Tripped? <==> exists j :: 0 <= j < n && StrayCloserAt(sp, cls, j)
  {
    if n > 0 {
      TrippedIff(sp, cls, n - 1);
      RunSnoc(Begin(sp), cls, 0, n - 1);
      var r := Run(Begin(sp), cls, 0, n - 1);
      if r.Tripped? {
        var j :| 0 <= j < n - 1 && StrayCloserAt(sp, cls, j);
        assert 0 <= j < n && StrayCloserAt(sp, cls, j);
      } else {
        StepFacts(r.sp, r.start, n - 1, cls[n - 1]);
        assert Run(Begin(sp), cls, 0, n).Tripped? <==> StrayCloserAt(sp, cls, n - 1);
        assert forall j :: 0 <= j < n && StrayCloserAt(sp, cls, j) ==> j == n - 1;
      }
    }
  }

  /**
   A push on a clean splitter fails exactly when some `}` or `]` is read in
   Undetermined mode; the `depth == 0` closer in ObjectOrArray mode never
   fires, because that mode always has a positive depth.
   */
  lemma TaintOnlyByStrayCloser(sp: JsonSplitter, chunk: seq<byte>)
    requires Valid(sp) && !sp.tainted
    ensures Push(sp, chunk).result.Failure? <==>
      exists j :: 0 <= j < |chunk| && StrayCloserAt(sp, Classes(chunk), j)
  {
    TrippedIff(sp, Classes(chunk), |chunk|);
  }

  // ---------------------------------------------------------------------------
  // The shape of the emitted messages

  /**
   The messages of a successful push are slices of the current chunk, in
   order, non-overlapping, each ending on a quote, a closer or a terminator.
   */
  lemma MessagesAreOrderedSlices(sp: JsonSplitter, chunk: seq<byte>)
    requires Valid(sp) && !sp.tainted
    requires Push(sp, chunk).result.Success?
    ensures exists spans ::
      && OrderedWithin(spans, |chunk|)
      && EndsOnBoundary(Classes(chunk), spans)
      && InBounds(spans, |chunk|)
      && Push(sp, chunk).result.value == Slices(chunk, spans)
  {
    var r := Run(Begin(sp), Classes(chunk), 0, |chunk|);
    RunSpans(Begin(sp), Classes(chunk), 0, |chunk|);
    PushOfRun(sp, chunk, r.sp, r.start, r.spans);
    assert OrderedWithin(r.spans, |chunk|) && InBounds(r.spans, |chunk|);
  }

  // ---------------------------------------------------------------------------
  // Bytes that leave the state alone

  /** A byte class that the current mode passes over without any change. */
  predicate Inert(sp: JsonSplitter, k: ByteClass) {
    match sp.mode
    case Undetermined => k == Whitespace
    case StringLiteral => k != Quote && k != Backslash
    case RootLevelValue => k == Literal
    case ObjectOrArray => k != Quote && k != Opener && k != Closer
  }

  lemma StepInert(s: JsonSplitter, start: nat, i: nat, k: ByteClass)
    requires Valid(s) && !s.tainted && start <= i && Inert(s, k)
    ensures Step(s, start, i, k) == Next(s, start, None)
  {
  }

  lemma {:induction false} RunOverInert(
    cls: seq<ByteClass>, a: nat, b: nat, s: JsonSplitter, st: nat, spans: seq<Span>)
    requires Valid(s) && !s.tainted && st <= a <= b <= |cls|
    requires forall i :: a <= i < b ==> Inert(s, cls[i])
    ensures Run(Scanning(s, st, spans), cls, a, b) == Scanning(s, st, spans)
    decreases b - a
  {
    if a < b {
      StepInert(s, st, a, cls[a]);
      RunOverInert(cls, a + 1, b, s, st, spans);
    }
  }

  // ---------------------------------------------------------------------------
  // String literals

  /** Classes that neither close nor escape inside a string literal. */
  predicate PlainString(cls: seq<ByteClass>, a: nat, b: nat)
    requires a <= b <= |cls|
  {
    forall i :: a <= i < b ==> cls[i] != Quote && cls[i] != Backslash
  }

  /**
   A quote read between values opens a top-level string without moving
   `start`, and the next quote closes it: the message runs from the old
   `start` through the closing quote, and the splitter is back where it was.
   */
  lemma RunTopLevelString(cls: seq<ByteClass>, a: nat, b: nat, s: JsonSplitter, st: nat, spans: seq<Span>)
    requires Valid(s) && !s.tainted && s.mode == Undetermined && st <= a < b < |cls|
    requires cls[a] == Quote && cls[b] == Quote && PlainString(cls, a + 1, b)
    ensures Run(Scanning(s, st, spans), cls, a, b + 1) == Scanning(s, b + 1, spans + [Span(st, b + 1)])
  {
    var s1 := Scanning(s.(mode := StringLiteral, depth := 1), st, spans);
    assert Advance(Scanning(s, st, spans), a, cls[a]) == s1;
    RunOverInert(cls, a + 1, b, s1.sp, st, spans);
    RunSplit(s1, cls, a + 1, b, b + 1);
  }

  /**
   A quote inside an aggregate enters a nested string one level deeper, and
   its closing quote returns to the aggregate exactly as it was.
   */
  lemma RunNestedString(cls: seq<ByteClass>, a: nat, b: nat, s: JsonSplitter, st: nat, spans: seq<Span>)
    requires Valid(s) && !s.tainted && s.mode == ObjectOrArray && st <= a < b < |cls|
    requires cls[a] == Quote && cls[b] == Quote && PlainString(cls, a + 1, b)
    ensures Run(Scanning(s, st, spans), cls, a, b + 1) == Scanning(s, st, spans)
  {
    var s1 := Scanning(s.(mode := StringLiteral, depth := s.depth + 1), st, spans);
    assert Advance(Scanning(s, st, spans), a, cls[a]) == s1;
    RunOverInert(cls, a + 1, b, s1.sp, st, spans);
    RunSplit(s1, cls, a + 1, b, b + 1);
  }

  lemma ClassesAppend(x: seq<byte>, y: seq<byte>)
    ensures Classes(x + y) == Classes(x) + Classes(y)
  {
  }

  lemma QuoteClass()
    ensures Classify(34) == Quote
  {
  }

  /**
   A chunk made of whitespace, an opening quote, plain string bytes and a
   closing quote is one message, leading whitespace included, and the
   splitter ends where it began.
   */
  lemma TopLevelString(sp: JsonSplitter, lead: seq<byte>, body: seq<byte>)
    requires Valid(sp) && !sp.tainted && sp.mode == Undetermined
    requires forall i :: 0 <= i < |lead| ==> Classify(lead[i]) == Whitespace
    requires forall i :: 0 <= i < |body| ==> Classify(body[i]) != Quote && Classify(body[i]) != Backslash
    ensures var chunk := lead + [34 as byte] + body + [34 as byte];
      Push(sp, chunk) == Pushed(sp, Success([chunk]))
  {
    var q: byte := 34;
    var chunk := lead + [q] + body + [q];
    var cls := Classes(chunk);
    var a := |lead|;
    var b := |lead| + 1 + |body|;
    QuoteClass();
    ClassesAppend(lead + [q] + body, [q]);
    ClassesAppend(lead + [q], body);
    ClassesAppend(lead, [q]);
    assert cls == Classes(lead) + [Quote] + Classes(body) + [Quote];
    assert forall i :: 0 <= i < a ==> Inert(sp, cls[i]);
    RunOverInert(cls, 0, a, sp, 0, []);
    assert PlainString(cls, a + 1, b);
    RunTopLevelString(cls, a, b, sp, 0, []);
    RunSplit(Begin(sp), cls, 0, a, b + 1);
    PushOfRun(sp, chunk, sp, b + 1, [Span(0, b + 1)]);
    WholeSlice(chunk);
  }

  // ---------------------------------------------------------------------------
  // String literals with backslashes

  /** The number of backslashes among `cls[lo..hi]`. */
  function Backslashes(cls: seq<ByteClass>, lo: nat, hi: nat): nat
    requires lo <= hi <= |cls|
    decreases hi - lo
  {
    if lo == hi then 0 else Backslashes(cls, lo, hi - 1) + (if cls[hi - 1] == Backslash then 1 else 0)
  }

  /** The index just after the last quote of `cls[a..j]`, or `a` when it holds none. */
  function SinceQuote(cls: seq<ByteClass>, a: nat, j: nat): (q: nat)
    requires a <= j <= |cls|
    ensures a <= q <= j
    decreases j - a
  {
    if j == a then a else if cls[j - 1] == Quote then j else SinceQuote(cls, a, j - 1)
  }

  /**
   In a string whose body starts at `a`, the byte at `j` is read as escaped:
   an odd number of backslashes lies between the previous quote (or the start
   of the body) and `j`.
   */
  predicate EscapedAt(cls: seq<ByteClass>, a: nat, j: nat)
    requires a <= j <= |cls|
  {
    Backslashes(cls, SinceQuote(cls, a, j), j) % 2 == 1
  }

  /**
   Inside a string literal whose body starts at `a` with the escape flag
   clear, as long as every quote read is escaped, the splitter stays in the
   string, emits nothing, and its escape flag is EscapedAt.
   */
  lemma {:induction false} RunInString(cls: seq<ByteClass>, a: nat, j: nat, s: JsonSplitter, st: nat, spans: seq<Span>)
    requires Valid(s) && !s.tainted && s.mode == StringLiteral && !s.escapingNextChar && st <= a <= j <= |cls|
    requires forall q :: a <= q < j && cls[q] == Quote ==> EscapedAt(cls, a, q)
    ensures Run(Scanning(s, st, spans), cls, a, j) == Scanning(s.(escapingNextChar := EscapedAt(cls, a, j)), st, spans)
    decreases j - a
  {
    if j > a {
      var k := j - 1;
      RunInString(cls, a, k, s, st, spans);
      RunSnoc(Scanning(s, st, spans), cls, a, k);
      if cls[k] == Quote {
        assert EscapedAt(cls, a, k);
        assert SinceQuote(cls, a, j) == j;
      } else {
        assert SinceQuote(cls, a, j) == SinceQuote(cls, a, k);
      }
    }
  }

  /**
   A string literal closes at its first quote that is not escaped: at depth 1
   it emits from `start` through that quote and returns to Undetermined,
   deeper it returns to the enclosing aggregate; no earlier byte emits.
   */
  lemma RunStringToClose(cls: seq<ByteClass>, a: nat, b: nat, s: JsonSplitter, st: nat, spans: seq<Span>)
    requires Valid(s) && !s.tainted && s.mode == StringLiteral && !s.escapingNextChar && st <= a <= b < |cls|
    requires forall q :: a <= q < b && cls[q] == Quote ==> EscapedAt(cls, a, q)
    requires cls[b] == Quote && !EscapedAt(cls, a, b)
    ensures Run(Scanning(s, st, spans), cls, a, b + 1) ==
      if s.depth == 1 then Scanning(s.(mode := Undetermined, depth := 0), b + 1, spans + [Span(st, b + 1)])
      else Scanning(s.(mode := ObjectOrArray, depth := s.depth - 1), st, spans)
  {
    RunInString(cls, a, b, s, st, spans);
    RunSnoc(Scanning(s, st, spans), cls, a, b);
    assert s.(escapingNextChar := false) == s;
  }

  /**
   A chunk made of whitespace, an opening quote at `a - 1`, and a string body
   closed by the first quote at `b` that is not escaped, is one message, and
   the splitter ends where it began.
   */
  lemma TopLevelEscapedString(sp: JsonSplitter, chunk: seq<byte>, a: nat, b: nat)
    requires Valid(sp) && !sp.tainted && sp.mode == Undetermined
    requires 0 < a <= b && b + 1 == |chunk|
    requires forall i :: 0 <= i < a - 1 ==> Classify(chunk[i]) == Whitespace
    requires Classify(chunk[a - 1]) == Quote
    requires forall q :: a <= q < b && Classes(chunk)[q] == Quote ==> EscapedAt(Classes(chunk), a, q)
    requires Classify(chunk[b]) == Quote && !EscapedAt(Classes(chunk), a, b)
    ensures Push(sp, chunk) == Pushed(sp, Success([chunk]))
  {
    var cls := Classes(chunk);
    assert forall i :: 0 <= i < a - 1 ==> Inert(sp, cls[i]);
    RunOverInert(cls, 0, a - 1, sp, 0, []);
    var s1 := sp.(mode := StringLiteral, depth := 1);
    assert Advance(Scanning(sp, 0, []), a - 1, cls[a - 1]) == Scanning(s1, 0, []);
    RunSnoc(Begin(sp), cls, 0, a - 1);
    RunStringToClose(cls, a, b, s1, 0, []);
    RunSplit(Begin(sp), cls, 0, a, b + 1);
    PushOfRun(sp, chunk, sp, b + 1, [Span(0, b + 1)]);
    WholeSlice(chunk);
  }

  // ---------------------------------------------------------------------------
  // Objects and arrays

  /** The nesting contribution of one byte: +1 for `{`/`[`, -1 for `}`/`]`. */
  function Delta(k: ByteClass): int {
    match k
    case Opener => 1
    case Closer => -1
    case _ => 0
  }

  /** Openers minus closers. */
  function Balance(ks: seq<ByteClass>): int {
    if ks == [] then 0 else Delta(ks[0]) + Balance(ks[1..])
  }

  lemma StepInAggregate(s: JsonSplitter, start: nat, i: nat, k: ByteClass)
    requires Valid(s) && !s.tainted && start <= i && s.mode == ObjectOrArray
    requires k != Quote && s.depth + Delta(k) >= 1
    ensures Step(s, start, i, k) == Next(s.(depth := s.depth + Delta(k)), start, None)
  {
  }

  /**
   Inside an aggregate and away from strings, the depth follows the bracket
   balance: each `{`/`[` adds one, each `}`/`]` that does not close the
   outermost level removes one, and nothing is emitted.
   */
  lemma {:induction false} RunFlatAggregate(
    cls: seq<ByteClass>, a: nat, n: nat, s: JsonSplitter, st: nat, spans: seq<Span>)
    requires Valid(s) && !s.tainted && s.mode == ObjectOrArray && st <= a <= n <= |cls|
    requires forall i :: a <= i < n ==> cls[i] != Quote
    requires forall k :: a <= k <= n ==> s.depth + Balance(cls[a..k]) >= 1
    ensures Run(Scanning(s, st, spans), cls, a, n) ==
      Scanning(s.(depth := s.depth + Balance(cls[a..n])), st, spans)
    decreases n - a
  {
    if a == n {
      assert cls[a..n] == [];
    } else {
      var d := Delta(cls[a]);
      assert cls[a..a + 1] == [cls[a]] && Balance([cls[a]]) == d;
      StepInAggregate(s, st, a, cls[a]);
      var s1 := s.(depth := s.depth + d);
      var a1 := a + 1;
      forall k | a1 <= k <= n
        ensures s1.depth + Balance(cls[a1..k]) >= 1
      {
        assert cls[a..k][1..] == cls[a1..k];
      }
      RunFlatAggregate(cls, a1, n, s1, st, spans);
      assert cls[a..n][1..] == cls[a1..n];
    }
  }

  lemma StepCloseAggregate(s: JsonSplitter, start: nat, i: nat)
    requires Valid(s) && !s.tainted && start <= i && s.mode == ObjectOrArray && s.depth == 1
    ensures Step(s, start, i, Closer) == Next(s.(depth := 0, mode := Undetermined), i + 1, Some(Span(start, i + 1)))
  {
  }

  lemma AggregateClasses(open: byte, body: seq<byte>, close: byte)
    requires Classify(open) == Opener && Classify(close) == Closer
    ensures Classes([open] + body + [close]) == [Opener] + Classes(body) + [Closer]
  {
    ClassesAppend([open] + body, [close]);
    ClassesAppend([open], body);
  }

  /**
   An opener, a string-free body whose balance never drops below zero and
   ends at zero, and a closer form exactly one message: the whole chunk.
   */
  lemma FlatAggregate(sp: JsonSplitter, open: byte, body: seq<byte>, close: byte)
    requires Valid(sp) && !sp.tainted && sp.mode == Undetermined
    requires Classify(open) == Opener && Classify(close) == Closer
    requires forall i :: 0 <= i < |body| ==> Classify(body[i]) != Quote
    requires forall k :: 0 <= k <= |body| ==> Balance(Classes(body)[..k]) >= 0
    requires Balance(Classes(body)) == 0
    ensures var chunk := [open] + body + [close];
      Push(sp, chunk) == Pushed(sp, Success([chunk]))
  {
    var chunk := [open] + body + [close];
    var cls := Classes(chunk);
    var n := 1 + |body|;
    AggregateClasses(open, body, close);
    var s1 := sp.(mode := ObjectOrArray, depth := 1);
    assert Advance(Begin(sp), 0, cls[0]) == Scanning(s1, 0, []);
    forall k | 1 <= k <= n ensures s1.depth + Balance(cls[1..k]) >= 1 {
      assert cls[1..k] == Classes(body)[..k - 1];
    }
    assert cls[1..n] == Classes(body);
    RunFlatAggregate(cls, 1, n, s1, 0, []);
    StepCloseAggregate(s1, 0, n);
    RunSplit(Begin(sp), cls, 0, 1, n + 1);
    RunSplit(Scanning(s1, 0, []), cls, 1, n, n + 1);
    assert Run(Begin(sp), cls, 0, n + 1) == Scanning(sp, n + 1, [Span(0, n + 1)]);
    PushOfRun(sp, chunk, sp, n + 1, [Span(0, n + 1)]);
    WholeSlice(chunk);
  }

  // ---------------------------------------------------------------------------
  // Bare values

  function Concat(ms: seq<seq<byte>>): seq<byte> {
    if ms == [] then [] else Concat(ms[..|ms| - 1]) + ms[|ms| - 1]
  }

  lemma ConcatAppend(ms: seq<seq<byte>>, m: seq<byte>)
    ensures Concat(ms + [m]) == Concat(ms) + m
  {
    assert (ms + [m])[..|ms|] == ms;
  }

  /** A piece of a bare value: literal characters closed by one terminator. */
  predicate RootPiece(m: seq<byte>) {
    && |m| > 0
    && !IsLiteral(m[|m| - 1])
    && forall j :: 0 <= j < |m| - 1 ==> IsLiteral(m[j])
  }

  /** The spans cover `[0, start)` end to end, with no gap. */
  predicate Tiles(spans: seq<Span>, start: nat) {
    && (|spans| == 0 ==> start == 0)
    && (|spans| > 0 ==> spans[0].lo == 0 && spans[|spans| - 1].hi == start)
    && (forall k :: 0 < k < |spans| ==> spans[k - 1].hi == spans[k].lo)
  }

  /** Inside every span, all bytes but the last are literal characters. */
  predicate LiteralInside(cls: seq<ByteClass>, spans: seq<Span>) {
    forall k, j :: 0 <= k < |spans| && spans[k].lo <= j < spans[k].hi - 1 && j < |cls| ==>
      cls[j] == Literal
  }

  /**
   What RootLevelValue mode keeps true after reading up to `i`: the spans
   tile everything before `start`, each is literals closed by one other
   byte, and everything from `start` on is literal.
   */
  predicate RootInv(cls: seq<ByteClass>, spans: seq<Span>, start: nat, i: nat) {
    && Tiles(spans, start)
    && LiteralInside(cls, spans)
    && start <= i
    && (forall j :: start <= j < i && j < |cls| ==> cls[j] == Literal)
  }

  lemma AdvanceRootLevel(sp: JsonSplitter, cls: seq<ByteClass>, st: nat, spans: seq<Span>, i: nat)
    requires Valid(sp) && !sp.tainted && sp.mode == RootLevelValue && i < |cls|
    requires RootInv(cls, spans, st, i)
    ensures var r := Advance(Scanning(sp, st, spans), i, cls[i]);
      r.Scanning? && r.sp == sp && RootInv(cls, r.spans, r.start, i + 1)
  {
    if cls[i] != Literal {
      var spans' := spans + [Span(st, i + 1)];
      assert Advance(Scanning(sp, st, spans), i, cls[i]) == Scanning(sp, i + 1, spans');
      assert LiteralInside(cls, spans') by {
        forall k, j | 0 <= k < |spans'| && spans'[k].lo <= j < spans'[k].hi - 1 && j < |cls|
          ensures cls[j] == Literal
        {
          if k < |spans| {
            assert spans'[k] == spans[k];
          }
        }
      }
    } else {
      assert Advance(Scanning(sp, st, spans), i, cls[i]) == Scanning(sp, st, spans);
    }
  }

  lemma {:induction false} RunRootLevel(sp: JsonSplitter, cls: seq<ByteClass>, st: nat, spans: seq<Span>, i: nat, n: nat)
    requires Valid(sp) && !sp.tainted && sp.mode == RootLevelValue && i <= n <= |cls|
    requires RootInv(cls, spans, st, i)
    ensures var r := Run(Scanning(sp, st, spans), cls, i, n);
      r.Scanning? && r.sp == sp && RootInv(cls, r.spans, r.start, n)
    decreases n - i
  {
    if i < n {
      AdvanceRootLevel(sp, cls, st, spans, i);
      var r := Advance(Scanning(sp, st, spans), i, cls[i]);
      RunRootLevel(sp, cls, r.start, r.spans, i + 1, n);
    }
  }

  lemma {:induction false} TilesConcat(chunk: seq<byte>, spans: seq<Span>, start: nat)
    requires Tiles(spans, start) && start <= |chunk| && InBounds(spans, |chunk|)
    ensures Concat(Slices(chunk, spans)) == chunk[..start]
    decreases |spans|
  {
    if spans != [] {
      var init := spans[..|spans| - 1];
      var last := spans[|spans| - 1];
      var mid := if init == [] then 0 else init[|init| - 1].hi;
      assert Tiles(init, mid) by {
        if init != [] {
          assert init[|init| - 1].hi == spans[|spans| - 2].hi == last.lo;
        }
      }
      assert mid == last.lo;
      TilesConcat(chunk, init, mid);
      SlicesAppend(chunk, init, last);
      assert init + [last] == spans;
      ConcatAppend(Slices(chunk, init), chunk[last.lo..last.hi]);
      assert chunk[..mid] + chunk[mid..start] == chunk[..start];
    }
  }

  lemma LiteralInsidePieces(chunk: seq<byte>, spans: seq<Span>)
    requires InBounds(spans, |chunk|) && EndsOnBoundary(Classes(chunk), spans)
    requires LiteralInside(Classes(chunk), spans)
    requires forall k :: 0 <= k < |spans| ==> spans[k].lo < spans[k].hi
    ensures forall m :: m in Slices(chunk, spans) ==> RootPiece(m)
  {
    var ms := Slices(chunk, spans);
    var cls := Classes(chunk);
    forall k | 0 <= k < |ms| ensures RootPiece(ms[k]) {
      var s := spans[k];
      var m := ms[k];
      assert m == chunk[s.lo..s.hi];
      forall j | 0 <= j < |m| - 1 ensures IsLiteral(m[j]) {
        assert m[j] == chunk[s.lo + j];
        assert cls[s.lo + j] == Literal;
      }
      assert m[|m| - 1] == chunk[s.hi - 1];
      assert cls[s.hi - 1] != Literal;
    }
  }

  /**
   Once in RootLevelValue mode the splitter never leaves it and never fails:
   the chunk is cut after every byte outside the literal characters, each
   cut emits the piece before it, and a terminator-less tail emits nothing.
   */
  lemma RootLevelValueIsAbsorbing(sp: JsonSplitter, chunk: seq<byte>)
    requires Valid(sp) && !sp.tainted && sp.mode == RootLevelValue
    ensures Push(sp, chunk).next == sp
    ensures Push(sp, chunk).result.Success?
    ensures var ms := Push(sp, chunk).result.value;
      && (forall m :: m in ms ==> RootPiece(m))
      && |Concat(ms)| <= |chunk|
      && chunk[..|Concat(ms)|] == Concat(ms)
      && (forall j :: |Concat(ms)| <= j < |chunk| ==> IsLiteral(chunk[j]))
  {
    var cls := Classes(chunk);
    RunRootLevel(sp, cls, 0, [], 0, |chunk|);
    RunSpans(Begin(sp), cls, 0, |chunk|);
    var r := Run(Begin(sp), cls, 0, |chunk|);
    PushOfRun(sp, chunk, sp, r.start, r.spans);
    RootLevelSlices(chunk, r.spans, r.start);
  }

  /** The slices a RootLevelValue run leaves: pieces that tile the chunk up to `start`, then literals. */
  lemma RootLevelSlices(chunk: seq<byte>, spans: seq<Span>, start: nat)
    requires start <= |chunk| && InBounds(spans, |chunk|)
    requires RootInv(Classes(chunk), spans, start, |chunk|)
    requires OrderedWithin(spans, start) && EndsOnBoundary(Classes(chunk), spans)
    ensures var ms := Slices(chunk, spans);
      && (forall m :: m in ms ==> RootPiece(m))
      && Concat(ms) == chunk[..start]
      && (forall j :: start <= j < |chunk| ==> IsLiteral(chunk[j]))
  {
    TilesConcat(chunk, spans, start);
    LiteralInsidePieces(chunk, spans);
  }

  // ---------------------------------------------------------------------------
  // flush

  /** `flush` adds nothing: `push_and_flush` returns exactly what `push` returns. */
  lemma FlushAddsNothing(sp: JsonSplitter, chunk: seq<byte>)
    requires Valid(sp)
    ensures PushAndFlush(sp, chunk) == Push(sp, chunk)
  {
    var p := Push(sp, chunk);
    if p.result.Success? {
      assert p.result.value + [] == p.result.value;
    }
  }
}
