/**
 The behaviour of `Parser::parse` on a few command lines. Each line is
 assembled from named pieces so that the general lemmas apply to it.
 */
module ParserTests {
  import opened Wrappers
  import opened Chars
  import opened Parser
  import opened ParserLemmas

  const COLON: string := ":"
  const LS: string := "ls"
  const SEND: string := "send"
  const SHORT_SEND: string := "s"
  const FOO: string := "foo"
  const FILE: string := "a.json"
  const SPACE: string := " "

  /** `:ls` lists the messages. */
  lemma ListCommand()
    ensures Parse(COLON + LS) == List
  {
    TrimmedHasNoTrailingWhitespace(LS);
    assert [':'] + LS == COLON + LS;
    CommandWord(LS, LS, []);
  }

  /** `:send a.json` sends the named file. */
  lemma SendCommand()
    ensures Parse(COLON + SEND + SPACE + FILE) == Send(FILE)
  {
    var y := SEND + SPACE + FILE;
    assert [':'] + y == COLON + SEND + SPACE + FILE;
    TrimmedHasNoTrailingWhitespace(y);
    CommandWord(y, SEND, FILE);
  }

  /** `:s` with no argument sends the empty name. */
  lemma ShortSendWithoutArgument()
    ensures Parse(COLON + SHORT_SEND) == Send("")
  {
    TrimmedHasNoTrailingWhitespace(SHORT_SEND);
    assert [':'] + SHORT_SEND == COLON + SHORT_SEND;
    CommandWord(SHORT_SEND, SHORT_SEND, []);
  }

  /** A line without a colon is accepted: `ls` lists the messages. */
  lemma BareWordAccepted()
    ensures Parse(LS) == List
  {
    ContentLengthUnique(LS, 2, 2);
    assert LS[..2] == LS;
    assert Trim(LS) == LS;
    NoColonNotRejected(LS);
    ListCommand();
    assert [':'] + LS == COLON + LS;
  }

  /** A space and `ls`. */
  const SPACE_LS: string := " ls"

  /** A space after the colon leaves an empty command word, so `: ls` is rejected. */
  lemma SpaceAfterColonRejected()
    ensures Parse(COLON + SPACE_LS) == Malformed("could not parse " + SPACE_LS)
  {
    var y := SPACE_LS;
    assert [':'] + y == COLON + SPACE_LS;
    assert |y| == 3 && y[2] == 's';
    TrimmedHasNoTrailingWhitespace(y);
    assert y == [] + [' '] + LS;
    CommandWord(y, [], LS);
  }

  /** An unknown command word is rejected with the payload in the message. */
  lemma UnknownCommandRejected()
    ensures Parse(COLON + FOO) == Malformed("could not parse " + FOO)
  {
    TrimmedHasNoTrailingWhitespace(FOO);
    assert [':'] + FOO == COLON + FOO;
    CommandWord(FOO, FOO, []);
  }

  const TAB: string := "\t"

  /** A trailing tab is trimmed away, so `:ls` followed by a tab lists the messages. */
  lemma TrailingTabTrimmed()
    ensures Parse(COLON + LS + TAB) == List
  {
    var y := LS + TAB;
    assert [':'] + y == COLON + LS + TAB;
    ContentLengthUnique(y, 3, 2);
    assert y[..2] == LS;
    CommandWord(y, LS, []);
  }

  /** `send`, a tab and `x`. */
  const SEND_TAB_X: string := "send\tx"

  /** Only a space separates the argument: in `:send` tab `x` the whole text is the command word. */
  lemma TabIsNoSeparator()
    ensures Parse(COLON + SEND_TAB_X) == Malformed("could not parse " + SEND_TAB_X)
  {
    var y := SEND_TAB_X;
    assert [':'] + y == COLON + SEND_TAB_X;
    assert |y| == 6 && y[5] == 'x';
    TrimmedHasNoTrailingWhitespace(y);
    assert forall i :: 0 <= i < |y| ==> y[i] != ' ';
    CommandWord(y, y, []);
  }
}
