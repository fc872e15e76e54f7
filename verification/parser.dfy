/**
 The operator command parser (`Parser::parse` in src/parser.rs).

 A command line is trimmed, everything up to and including its first `:` is
 discarded (a line without `:` is kept whole), and the rest is split at its
 first space into a command word and its argument.
 */
module Parser {
  import opened Wrappers
  import opened Chars

  datatype ParseResult = Send(file: string) | List | Help | Exit | Malformed(message: string)

  /** The index of the first non-whitespace character of `s` at or after `i`, or `|s|`. */
  function SkipWhitespace(s: string, i: nat): (k: nat)
    requires i <= |s|
    ensures i <= k <= |s|
    ensures forall j :: i <= j < k ==> IsWhitespace(s[j])
    ensures k == |s| || !IsWhitespace(s[k])
    decreases |s| - i
  {
    if i == |s| || !IsWhitespace(s[i]) then i else SkipWhitespace(s, i + 1)
  }

  /** The length of `s[..n]` without its trailing whitespace. */
  function ContentLength(s: string, n: nat): (k: nat)
    requires n <= |s|
    ensures k <= n
    ensures forall j :: k <= j < n ==> IsWhitespace(s[j])
    ensures k == 0 || !IsWhitespace(s[k - 1])
    decreases n
  {
    if n == 0 || !IsWhitespace(s[n - 1]) then n else ContentLength(s, n - 1)
  }

  /** `str::trim`: the text between the leading and the trailing whitespace (see TrimStrips). */
  function Trim(s: string): (r: string)
    ensures |r| <= |s|
    ensures r != [] ==> !IsWhitespace(r[0]) && !IsWhitespace(r[|r| - 1])
  {
    var hi := ContentLength(s, |s|);
    var lo := SkipWhitespace(s[..hi], 0);
    s[lo..hi]
  }

  /** The index of the first `c` in `s` at or after `i`. */
  function Find(s: string, c: char, i: nat): (r: Option<nat>)
    requires i <= |s|
    ensures r.None? <==> forall j :: i <= j < |s| ==> s[j] != c
    ensures r.Some? ==> i <= r.value < |s| && s[r.value] == c
    ensures r.Some? ==> forall j :: i <= j < r.value ==> s[j] != c
    decreases |s| - i
  {
    if i == |s| then None
    else if s[i] == c then Some(i)
    else Find(s, c, i + 1)
  }

  /** `str::split_once` with a character pattern: the text around the first `c`. */
  function SplitOnce(s: string, c: char): (r: Option<(string, string)>)
    ensures r.None? <==> c !in s
    ensures r.Some? ==> s == r.value.0 + [c] + r.value.1 && c !in r.value.0
  {
    match Find(s, c, 0)
    case None => None
    case Some(k) =>
      assert s == s[..k] + [c] + s[k + 1..];
      Some((s[..k], s[k + 1..]))
  }

  /**
   The text after the first `:` of the trimmed line, or the whole trimmed line
   when it has no `:` (the `Malformed` value built for that case is dropped).
   */
  function Payload(command: string): string {
    var t := Trim(command);
    match SplitOnce(t, ':')
    case Some((_, r)) => r
    case None => t
  }

  /** The command word and its argument: the payload split at its first space. */
  function Words(s: string): (string, string) {
    match SplitOnce(s, ' ')
    case Some((c, r)) => (c, r)
    case None => (s, "")
  }

  /** What a command word means, given its argument and the whole payload. */
  function Dispatch(cmd: string, rest: string, s: string): ParseResult {
    if cmd == "ls" then List
    else if cmd == "exit" then Exit
    else if cmd == "help" || cmd == "h" then Help
    else if cmd == "send" || cmd == "s" then Send(rest)
    else Malformed("could not parse " + s)
  }

  /** `Parser::parse`. */
  function Parse(command: string): ParseResult {
    var s := Payload(command);
    var w := Words(s);
    Dispatch(w.0, w.1, s)
  }
}
