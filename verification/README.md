# ws-cli-mockserver core in Dafny

This project models the three pure-logic components of the `ws-cli-mockserver`
terminal tool and proves properties of them:

- **The JSON stream splitter** (`JsonSplitter` in `src/jsonreader.rs`). It is a
  per-connection state machine with four modes: `Undetermined`, `StringLiteral`,
  `ObjectOrArray` and `RootLevelValue`. It also has a nesting depth, an escape
  flag and a sticky `tainted` flag.
  - `push` walks one byte chunk. It returns the complete JSON values found in
    the chunk, as slices of that chunk.
  - A closing bracket read in `Undetermined` mode taints the splitter for good.
- **The JSON compactor** (`JsonFormatter::format` in `src/json.rs`). It makes one
  pass with two flags, `inside_string` and `escaping`.
  - It drops control characters everywhere.
  - It drops whitespace outside string literals.
  - It rejects a backslash read outside a string literal.
- **The command parser** (`Parser::parse` in `src/parser.rs`).
  - It trims the line and discards everything up to the first `:`.
  - It splits the rest at the first space.
  - It maps the command word to `Send`, `List`, `Help`, `Exit` or `Malformed`.

Files:

- `wrappers.dfy`: `Option` and `Result`.
- `chars.dfy`: bytes and character classes.
  - Rust's `char::is_whitespace` is written out as the Unicode White_Space set.
  - Rust's `char::is_control` is written out as the Cc category.
  - `byte as char` maps a byte to the Latin-1 code point with the same value.
- The splitter:
  - `jsonreader.dfy` holds the model.
  - `jsonreader_lemmas.dfy` holds its properties.
  - `jsonreader_tests.dfy` holds its unit-test outcomes.
- The compactor: `json.dfy`, `json_lemmas.dfy` and `json_tests.dfy`.
- The parser: `parser.dfy`, `parser_lemmas.dfy` and `parser_tests.dfy`.

How the splitter is modelled:

- The loop of `push` only looks at a byte through its class: quote, backslash,
  opener, closer, literal character, whitespace or other.
- So the loop is a fold of `Step` over `Classes(chunk)`.
- `Run(r, cls, i, n)` is the loop state after indices `i` to `n`.
- The local `start` offset and the messages found so far are kept as index
  spans. They become slices only when the loop ends.
- The splitter's state is an immutable datatype. `push` returns the next state
  together with its result.

The model follows the code as written where it differs from the documented design:

- A bare value ends at its first non-literal byte. That byte is part of the
  emitted message, and the splitter stays in RootLevelValue instead of going back
  to Undetermined. So a bare value makes every later byte of the connection part
  of a run of bare values (RootLevelValueIsAbsorbing).
- Inside a string the splitter's escape flag is cleared only by a quote or a
  second backslash, not by the next byte. So in `"\n"` the closing quote counts
  as escaped (EscapeSpansToNextQuote).
- The compactor's escape flag is never cleared at all (EscapingIsSticky).
- `parse` builds a Malformed value for a line without `:`, but then discards it
  and goes on with the whole trimmed line (NoColonNotRejected).

## Model

| member | source | states |
|---|---|---|
| JsonReader.New | src/jsonreader.rs:59-68 | A new splitter is untainted, in Undetermined mode, has an empty buffer, keeps `max_size`, and satisfies the mode/depth invariant (so depth 0 and no escape pending) |
| JsonReader.Default | src/jsonreader.rs:220-224 | The default splitter is what `new(4000)` builds: untainted, in Undetermined mode with depth 0 and no escape pending, an empty buffer, and `max_size` 4000 |
| JsonReader.RootLevelCharsAgree | src/jsonreader.rs:33-56 | The literal-character test holds exactly for the 22 characters of ROOT_LEVEL_CHARS |
| JsonReader.LiteralIsRootLevelChar | src/jsonreader.rs:215-217 | A byte counts as a literal character exactly when `is_root_level_char(byte as char)` holds |
| JsonReader.StepFacts | src/jsonreader.rs:85-172 | One loop iteration keeps the invariant: Undetermined and RootLevelValue have depth 0, the other modes depth at least 1, and the escape flag implies StringLiteral. It fails exactly on a closer in Undetermined mode, so the depth-0 taint branch of ObjectOrArray is unreachable. An emitted message is `start..i+1`, it ends on a non-literal byte, `start` moves past it, and the mode either stays RootLevelValue or drops from depth 1 to Undetermined |
| JsonReader.Advance | src/jsonreader.rs:79-174 | One iteration of the loop keeps the loop invariant, and after a failure nothing changes |
| JsonReader.Run | src/jsonreader.rs:79-174 | The loop from any index to any later one keeps the invariant and never touches `max_size` or `buffer` |
| JsonReader.RunSpans | src/jsonreader.rs:122-124 | The messages found by the loop are non-empty, non-overlapping and left to right, below `start`, and each ends on a non-literal byte |
| JsonReader.SlicesEndOnBoundary | src/jsonreader.rs:140-142 | Each slice of the chunk ends on a quote, a closer or a terminator, never on a literal character |
| JsonReader.Push | src/jsonreader.rs:70-181 | A tainted splitter fails at once and is unchanged. The result fails exactly when the new state is tainted. Every message is non-empty and its last byte is not a literal character |
| JsonReaderLemmas.RunSplit | src/jsonreader.rs:79-174 | Reading indices `i..n` equals reading `i..j` and then `j..n` |
| JsonReaderLemmas.PushOfRun | src/jsonreader.rs:70-181 | When the loop over the whole chunk does not fail, `push` returns the loop's final state and the slices the loop found |
| JsonReaderLemmas.TaintIsPermanent | src/jsonreader.rs:72-74 | After a failed push the splitter is tainted, and every later push fails and leaves it unchanged |
| JsonReaderLemmas.TrippedIff | src/jsonreader.rs:93-96 | The loop fails exactly when it reads a closer while in Undetermined mode |
| JsonReaderLemmas.TaintOnlyByStrayCloser | src/jsonreader.rs:93-96 | `push` fails exactly when some byte of the chunk is a `}` or `]` read in Undetermined mode |
| JsonReaderLemmas.MessagesAreOrderedSlices | src/jsonreader.rs:76-78 | On success the messages are non-overlapping, left-to-right slices of this chunk only, each ending on a non-literal byte |
| JsonReaderLemmas.RunOverInert | src/jsonreader.rs:101-106 | Bytes that a mode ignores leave the whole loop state unchanged. These are whitespace in Undetermined, non-quote non-backslash bytes in a string, literals in a bare value, and ordinary bytes in an aggregate |
| JsonReader.Flush | src/jsonreader.rs:183-198 | `flush` fails exactly on a tainted splitter, otherwise returns no messages, and never changes the splitter |
| JsonReader.PushAndFlush | src/jsonreader.rs:200-213 | A tainted splitter fails at once and is unchanged. The result fails exactly when the new state is tainted. Every message is non-empty and ends on a non-literal byte |
| JsonReaderLemmas.RunTopLevelString | src/jsonreader.rs:97-100 | A string with no quote or backslash inside, read between values, emits one message from the old `start` through its closing quote and leaves the splitter in Undetermined as before |
| JsonReaderLemmas.RunNestedString | src/jsonreader.rs:147-150 | A string inside an aggregate raises the depth and then returns to ObjectOrArray at the same depth, emitting nothing |
| JsonReaderLemmas.TopLevelString | src/jsonreader.rs:97-126 | Whitespace followed by a string literal without quotes or backslashes inside is pushed as exactly one message, the whole chunk |
| JsonReaderLemmas.RunInString | src/jsonreader.rs:109-136 | Inside a string, as long as every quote read is escaped, the splitter stays in the string and emits nothing. Its escape flag is set exactly when an odd number of backslashes follows the last quote, since a backslash toggles the flag and an escaped quote clears it |
| JsonReaderLemmas.RunStringToClose | src/jsonreader.rs:117-131 | A string closes at its first quote preceded, since the previous quote, by an even number of backslashes. At depth 1 it emits from `start` through that quote and returns to Undetermined. Deeper, it returns to the enclosing aggregate one level up, emitting nothing |
| JsonReaderLemmas.TopLevelEscapedString | src/jsonreader.rs:97-131 | Whitespace, a quote, and a string body with backslashes, closed by its first quote that is not escaped, is pushed as exactly one message, the whole chunk |
| JsonReaderLemmas.RunFlatAggregate | src/jsonreader.rs:151-153 | Inside an aggregate, openers and closers change the depth by their balance while it stays at least 1 |
| JsonReaderLemmas.StepCloseAggregate | src/jsonreader.rs:159-164 | A closer at depth 1 emits the aggregate from its start through the closer and returns to Undetermined |
| JsonReaderLemmas.FlatAggregate | src/jsonreader.rs:88-92 | A balanced `{...}` or `[...]` without strings is pushed as exactly one message |
| JsonReaderLemmas.RootLevelValueIsAbsorbing | src/jsonreader.rs:138-144 | Once in RootLevelValue, the splitter never leaves that mode and `push` never fails. The messages are consecutive pieces from the chunk's start, each a run of literal characters closed by one other byte. What follows the last piece is all literal characters, and nothing is emitted for it |
| JsonReaderLemmas.FlushAddsNothing | src/jsonreader.rs:183-213 | `flush` contributes no messages, so `push_and_flush` returns exactly what `push` returns |
| JsonReaderTests.SingleStringLiteral | src/jsonreader.rs:230-237 | Pushing `"prop"` yields exactly that text |
| JsonReaderTests.TwoStringLiterals | src/jsonreader.rs:239-247 | Pushing `"prop""second"` yields the two literals in order |
| JsonReaderTests.EscapedDelimiter | src/jsonreader.rs:249-257 | Pushing `"first\" part""second"` yields `"first\" part"` and then `"second"` |
| JsonReaderTests.TaintOnStrayBracket | src/jsonreader.rs:259-272 | `"first"` yields one message. A `}` taints the splitter and fails, and every later push fails |
| JsonReaderTests.StrayCloserDiscardsEarlierMessages | src/jsonreader.rs:93-96 | A stray `}` after a complete string in the same chunk fails the push, so the string already found is lost |
| JsonReaderTests.SimpleMessage | src/jsonreader.rs:274-281 | Pushing `{"prop": 1}` yields exactly that text |
| JsonReaderTests.NullYieldsNothing | src/jsonreader.rs:283-290 | `null` followed by a flush yields no message and leaves the splitter in RootLevelValue, so the assertion of that test does not hold |
| JsonReaderTests.FragmentAcrossChunks | src/jsonreader.rs:76-78 | `{"a"` and then `:1}` in two pushes: the first yields nothing, and the second yields only `:1}`, because `start` restarts at 0 |
| JsonReaderTests.EscapeSpansToNextQuote | src/jsonreader.rs:110-135 | In `"\n"` the closing quote is taken as escaped, so nothing is emitted and the splitter stays inside the string |
| JsonReaderTests.DoubleBackslashCloses | src/jsonreader.rs:132-134 | In `"\\"` the second backslash cancels the first, so the closing quote ends the string and the chunk is one message |
| Json.Feed | src/json.rs:14-37 | One character fails exactly when it is a backslash outside a string. Otherwise it is appended unless it is a control character or whitespace outside a string, and quotes and backslashes are always appended. An unescaped quote toggles the string flag, an escaped one does not, and a backslash sets the escape flag |
| Json.FormatFrom | src/json.rs:13-41 | On success the output has no control character and is no longer than the input |
| Json.Format | src/json.rs:7-42 | `format` starts outside any string with no escape pending. On success its output has no control character and is no longer than the input |
| JsonLemmas.FormatIsSubsequence | src/json.rs:13-38 | The output is the input with some characters deleted, in order and with nothing inserted |
| JsonLemmas.FormatKeepsSkeleton | src/json.rs:15-24 | On success every quote and backslash of the input appears in the output, in the same order |
| JsonLemmas.FormatFromIdempotent | src/json.rs:13-38 | Formatting a successful output again returns it unchanged |
| JsonLemmas.FormatIdempotent | src/json.rs:7-42 | If `format(s)` returns `t`, then `format(t)` returns `t` |
| JsonLemmas.FormatFailsIff | src/json.rs:23-29 | Formatting fails exactly when the input has a backslash at a position that is outside a string literal |
| JsonLemmas.FormatFixpointIff | src/json.rs:31-37 | A text is returned unchanged exactly when it has no stray backslash, no control character and no whitespace outside string literals |
| JsonLemmas.WhitespaceOnlyInStrings | src/json.rs:31-37 | Every whitespace character in a successful output lies inside a string literal |
| JsonLemmas.EscapingIsSticky | src/json.rs:15-26 | Once the escape flag is set, the flags never change again, so later quotes neither open nor close a string |
| JsonLemmas.FormatConcat | src/json.rs:13-38 | Formatting `a + b` is formatting `a`, then formatting `b` from the flags `a` left, with the first failure winning |
| JsonTests.StringLiteralUnchanged | src/json.rs:49-63 | `"This is string"` is returned unchanged |
| JsonTests.SimpleArrayUnchanged | src/json.rs:66-72 | `[1,2]` is returned unchanged |
| JsonTests.LineBreakRemoved | src/json.rs:74-80 | `[1,\n2]` becomes `[1,2]` |
| JsonTests.BackslashOutsideStringRejected | src/json.rs:23-29 | A backslash outside any string literal is rejected with UnexpectedEscape |
| JsonTests.EscapeOutlivesItsString | src/json.rs:15-26 | After `"\n"` a following space is kept and a backslash is accepted, because the string never closes |
| Parser.SkipWhitespace | src/parser.rs:22 | Skips exactly the leading whitespace and stops at the first non-whitespace character |
| Parser.ContentLength | src/parser.rs:22 | Cuts exactly the trailing whitespace |
| Parser.Find | src/parser.rs:23 | Returns the first occurrence of the character, or none when there is none |
| Parser.SplitOnce | src/parser.rs:23-31 | Splits around the first occurrence of the separator, so the left part has none, and gives nothing exactly when there is none |
| ParserLemmas.TrimStrips | src/parser.rs:22 | Trimming yields a slice of the line with only whitespace before and after it, and the slice neither starts nor ends with whitespace, so exactly the leading and trailing whitespace is removed |
| ParserLemmas.ColonPayload | src/parser.rs:22-25 | The text used after trimming is everything after the first `:`, without trailing whitespace |
| ParserLemmas.ParseIgnoresPrefix | src/parser.rs:22-25 | Everything up to and including the first `:` is ignored |
| ParserLemmas.NoColonNotRejected | src/parser.rs:23-27 | A line without `:` is not rejected, because the Malformed value is dropped. It parses like its trimmed text after a `:`, so `ls` parses like `:ls` |
| ParserLemmas.ColonLine | src/parser.rs:22-45 | A line starting with `:` is dispatched on the words of the rest of the line, without its trailing whitespace |
| ParserLemmas.WordsOf | src/parser.rs:29-37 | The command word is the text up to the first space and the argument is everything after it. Without a space the word is the whole text and the argument is empty |
| ParserLemmas.CommandWord | src/parser.rs:22-45 | For every line `:` followed by `y`, let `P` be `y` without its trailing whitespace, split at its first space into a word and an argument. Then `ls` gives List, `exit` Exit, `help`/`h` Help, and `send`/`s` Send with the argument, each if and only if. Any other word gives Malformed("could not parse " + `P`) |
| ParserLemmas.CommandWordExists | src/parser.rs:29-37 | Every line after its colon splits into such a command word and argument |
| ParserLemmas.NoRetrim | src/parser.rs:23-44 | No second trim follows the `:`, so `: ls` has an empty command word and is Malformed |
| ParserTests.BareWordAccepted | src/parser.rs:23-27 | `ls` without a colon gives List |
| ParserTests.SendCommand | src/parser.rs:43 | `:send a.json` gives Send("a.json") |
| ParserTests.ShortSendWithoutArgument | src/parser.rs:34-37 | `:s` with no space gives Send("") |
| ParserTests.SpaceAfterColonRejected | src/parser.rs:44 | `: ls` gives Malformed("could not parse  ls") |
| ParserTests.TrailingTabTrimmed | src/parser.rs:22 | `:ls` followed by a tab gives List, because trimming removes the tab |
| ParserTests.TabIsNoSeparator | src/parser.rs:29-44 | `:send`, a tab and `x` gives Malformed with the whole text, because only a space separates the argument |
| ParserTests.UnknownCommandRejected | src/parser.rs:44 | `:foo` gives Malformed("could not parse foo") |

## Left out

- JsonReader.Push: requires the mode/depth invariant `Valid` of its state.
  - The fields are private and only `new` builds a splitter, so every reachable state satisfies it.
  - Without it, a quote at depth 0 in StringLiteral mode would underflow the `u32` depth.
- JsonReader depth: the depth is an unbounded `nat`. The model does not wrap or panic at 2^32 nestings, as `u32` arithmetic would.
- Messages stay byte slices. `String::from_utf8_lossy` decoding is not modelled, so a slice cut inside a multi-byte UTF-8 sequence stays as bytes.
- `max_size` and `buffer` are stored and carried along, but never read, as in the source.
- No buffering across chunks: `start` restarts at 0 on each push, so a value split over two pushes is not reassembled (FragmentAcrossChunks). Chunk-boundary independence is therefore not stated.
- JsonReader.Flush: the `match` in `flush` has no StringLiteral arm, so that Rust code does not compile. It is modelled as it evidently intends: an error when tainted, otherwise no messages.
- The `parse_null` unit test expects `null` to be emitted. The code as written emits nothing, and NullYieldsNothing proves that outcome instead.
- Json.Format works on Dafny characters (Unicode scalar values), as Rust's `chars()` does. UTF-8 encoding is not modelled.
- `HELP_TEXT` in src/parser.rs is display text and is not modelled.
- The connection adapters (src/adapters/*.rs, src/tcp.rs), the poll loop (src/app.rs), the terminal UI (src/ui.rs), mock-file storage (src/mocks.rs), process wiring (src/main.rs) and the browser client (mock-client/main.js) are not part of this model. They are sockets, files, threads and rendering, with no logic of the three components in them.
