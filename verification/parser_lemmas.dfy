/**
 Properties of the command parser: what trimming leaves, that everything up
 to the first `:` is ignored, that a line without `:` is accepted, and how the
 command word and its argument decide the result.
 */
module ParserLemmas {
  import opened Wrappers
  import opened Chars
  import opened Parser

  /** `str::trim_end`: `s` without its trailing whitespace. */
  function TrimEnd(s: string): string {
    s[..ContentLength(s, |s|)]
  }

  /** `Trim` removes the leading and the trailing whitespace of `s`, and nothing else. */
  lemma TrimStrips(s: string)
    ensures exists lo, hi ::
      && 0 <= lo <= hi <= |s|
      && Trim(s) == s[lo..hi]
      && (forall j :: 0 <= j < lo ==> IsWhitespace(s[j]))
      && (forall j :: hi <= j < |s| ==> IsWhitespace(s[j]))
  {
    var hi := ContentLength(s, |s|);
    var lo := SkipWhitespace(s[..hi], 0);
    assert forall j :: 0 <= j < lo ==> s[j] == s[..hi][j];
    assert Trim(s) == s[lo..hi];
  }

  /** `ContentLength` is the only cut with only whitespace behind it and none at its end. */
  lemma ContentLengthUnique(s: string, n: nat, k: nat)
    requires k <= n <= |s|
    requires forall j :: k <= j < n ==> IsWhitespace(s[j])
    requires k == 0 || !IsWhitespace(s[k - 1])
    ensures ContentLength(s, n) == k
  {
  }

  /** `Find` returns the first occurrence. */
  lemma FindFirst(s: string, c: char, k: nat)
    requires k < |s| && s[k] == c
    requires forall j :: 0 <= j < k ==> s[j] != c
    ensures Find(s, c, 0) == Some(k)
  {
  }

  /** Splitting at the first `c` of `a + [c] + b` when `a` has none. */
  lemma SplitAtFirst(a: string, c: char, b: string)
    requires c !in a
    ensures SplitOnce(a + [c] + b, c) == Some((a, b))
  {
    var s := a + [c] + b;
    FindFirst(s, c, |a|);
    assert s[..|a|] == a;
    assert s[|a| + 1..] == b;
  }

  /** Everything after the first `:` of a line, without trailing whitespace, is its payload. */
  lemma ColonPayload(p: string, x: string)
    requires ':' !in p
    ensures Payload(p + [':'] + x) == TrimEnd(x)
  {
    var s := p + [':'] + x;
    var kx := ContentLength(x, |x|);
    var hi := |p| + 1 + kx;
    assert forall j :: hi <= j < |s| ==> s[j] == x[j - |p| - 1];
    assert s[hi - 1] == if kx == 0 then ':' else x[kx - 1];
    ContentLengthUnique(s, |s|, hi);
    var lo := SkipWhitespace(s[..hi], 0);
    assert s[..hi][|p|] == ':';
    assert lo <= |p|;
    var t := s[lo..hi];
    assert Trim(s) == t;
    var q := p[lo..];
    assert ':' !in q;
    assert t == q + [':'] + x[..kx];
    SplitAtFirst(q, ':', x[..kx]);
  }

  /** Everything up to and including the first `:` is ignored. */
  lemma ParseIgnoresPrefix(p: string, x: string)
    requires ':' !in p
    ensures Parse(p + [':'] + x) == Parse([':'] + x)
  {
    ColonPayload(p, x);
    ColonPayload([], x);
    assert [] + [':'] + x == [':'] + x;
  }

  /** A trimmed text has nothing to trim at its end. */
  lemma TrimmedHasNoTrailingWhitespace(t: string)
    requires t == [] || !IsWhitespace(t[|t| - 1])
    ensures TrimEnd(t) == t
  {
    ContentLengthUnique(t, |t|, |t|);
  }

  /** A line without `:` is not rejected: it parses like its trimmed text after a `:`. */
  lemma NoColonNotRejected(command: string)
    requires ':' !in command
    ensures Parse(command) == Parse([':'] + Trim(command))
  {
    var t := Trim(command);
    var hi := ContentLength(command, |command|);
    var lo := SkipWhitespace(command[..hi], 0);
    assert t == command[lo..hi];
    assert ':' !in t;
    assert Payload(command) == t;
    ColonPayload([], t);
    assert [] + [':'] + t == [':'] + t;
    TrimmedHasNoTrailingWhitespace(t);
  }

  /** Trailing whitespace of a text that starts with a space. */
  lemma TrimEndAfterSpace(x: string)
    requires x != [] && x[0] == ' '
    ensures TrimEnd(x) == if TrimEnd(x[1..]) == [] then [] else [' '] + TrimEnd(x[1..])
  {
    var x' := x[1..];
    var k' := ContentLength(x', |x'|);
    assert forall j :: k' + 1 <= j < |x| ==> x[j] == x'[j - 1];
    if k' > 0 {
      assert x[k'] == x'[k' - 1];
    }
    ContentLengthUnique(x, |x|, if k' == 0 then 0 else k' + 1);
    if k' > 0 {
      assert x[..k' + 1] == [' '] + x'[..k'];
    }
  }

  /**
   The command word of `:` followed by `y` is `y`, without trailing
   whitespace, up to its first space; the text after that space is the
   argument. The word decides the result: `ls`, `exit`, `help`/`h` and
   `send`/`s` are the commands, `send`/`s` take the argument as it stands,
   and any other word is rejected with the whole text in the message.
   */
  lemma CommandWord(y: string, w: string, rest: string)
    requires ' ' !in w
    requires TrimEnd(y) == w + [' '] + rest || (TrimEnd(y) == w && rest == [])
    ensures var r := Parse([':'] + y);
      && (r == List <==> w == "ls")
      && (r == Exit <==> w == "exit")
      && (r == Help <==> w == "help" || w == "h")
      && (r.Send? <==> w == "send" || w == "s")
      && (r.Send? ==> r.file == rest)
      && (r.Malformed? ==> r.message == "could not parse " + TrimEnd(y))
  {
    var t := TrimEnd(y);
    ColonLine(y);
    WordsOf(t, w, rest);
    assert Parse([':'] + y) == Dispatch(w, rest, t);
  }

  /** What `parse` does with `:` followed by `y`: dispatch on the words of `y` without trailing whitespace. */
  lemma ColonLine(y: string)
    ensures var t := TrimEnd(y); Parse([':'] + y) == Dispatch(Words(t).0, Words(t).1, t)
  {
    ColonPayload([], y);
    assert [] + [':'] + y == [':'] + y;
  }

  /** The words of `w`, a space and `rest`, or of `w` alone, when `w` holds no space. */
  lemma WordsOf(t: string, w: string, rest: string)
    requires ' ' !in w
    requires t == w + [' '] + rest || (t == w && rest == [])
    ensures Words(t) == (w, rest)
  {
    if t == w + [' '] + rest {
      SplitAtFirst(w, ' ', rest);
    }
  }

  /** Every colon line splits into a command word and an argument as CommandWord takes them. */
  lemma CommandWordExists(y: string)
    ensures exists w, rest :: ' ' !in w && (TrimEnd(y) == w + [' '] + rest || (TrimEnd(y) == w && rest == []))
  {
    var t := TrimEnd(y);
    match SplitOnce(t, ' ')
    case Some((w, rest)) =>
      assert ' ' !in w && t == w + [' '] + rest;
    case None =>
      var none: string := [];
      assert ' ' !in t && (TrimEnd(y) == t + [' '] + none || (TrimEnd(y) == t && none == []));
  }

  /** There is no second trim after the `:`, so a space right after it leaves an empty command word. */
  lemma NoRetrim(x: string)
    ensures Parse([':', ' '] + x).Malformed?
  {
    var y := [' '] + x;
    assert y[1..] == x;
    TrimEndAfterSpace(y);
    assert [':'] + y == [':', ' '] + x;
    if TrimEnd(x) == [] {
      CommandWord(y, [], []);
    } else {
      assert TrimEnd(y) == [] + [' '] + TrimEnd(x);
      CommandWord(y, [], TrimEnd(x));
    }
  }
}
