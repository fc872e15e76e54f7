/**
 The JSON compactor (`JsonFormatter::format` in src/json.rs).

 The formatter makes one left-to-right pass over the characters of a text,
 carrying two flags: whether the pass is inside a string literal, and whether
 a backslash has been read inside a string. It copies every character except
 control characters (dropped everywhere) and whitespace outside a string
 literal, and it gives up on a backslash read outside a string literal.
 */
module Json {
  import opened Wrappers
  import opened Chars

  datatype FormatError = UnexpectedEscape

  /** The two local flags of the formatter's loop. */
  datatype Flags = Flags(insideString: bool, escaping: bool)

  /** The flags before the first character. */
  const START: Flags := Flags(false, false)

  /** What one character contributes: the flags after it and the characters appended. */
  datatype Effect = Effect(flags: Flags, out: string)

  /**
   The characters the compactor removes: control characters anywhere, and
   whitespace outside a string literal. A quote or a backslash is never removed.
   */
  predicate Dropped(f: Flags, c: char) {
    c != '"' && c != '\\' && (IsControl(c) || (!f.insideString && IsWhitespace(c)))
  }

  /**
   How the flags evolve over a character: an unescaped quote toggles the
   string flag, an escaped quote leaves it alone, and a backslash sets the
   escape flag, which nothing ever clears.
   */
  function After(f: Flags, c: char): Flags {
    if c == '"' then (if f.escaping then f else f.(insideString := !f.insideString))
    else if c == '\\' then f.(escaping := true)
    else f
  }

  /** One iteration of the loop of `format`. */
  function Feed(f: Flags, c: char): (r: Result<Effect, FormatError>)
    ensures r.Failure? <==> c == '\\' && !f.insideString
    ensures r.Success? ==> r.value.flags == After(f, c)
    ensures r.Success? ==> (r.value.out == [] <==> Dropped(f, c))
    ensures r.Success? && !Dropped(f, c) ==> r.value.out == [c]
  {
    if c == '"' then
      Success(Effect(if f.escaping then f else f.(insideString := !f.insideString), [c]))
    else if c == '\\' then
      if f.insideString then Success(Effect(f.(escaping := true), [c]))
      else Failure(UnexpectedEscape)
    else if !IsControl(c) && (f.insideString || !IsWhitespace(c)) then
      Success(Effect(f, [c]))
    else
      Success(Effect(f, []))
  }

  /**
   The rest of the loop, from flags `f` over the remaining characters `s`.
   On success the output never holds a control character and is no longer
   than the input.
   */
  function FormatFrom(f: Flags, s: string): (r: Result<string, FormatError>)
    ensures r.Success? ==> |r.value| <= |s|
    ensures r.Success? ==> forall i :: 0 <= i < |r.value| ==> !IsControl(r.value[i])
    decreases |s|
  {
    if s == [] then Success([])
    else
      match Feed(f, s[0])
      case Failure(e) => Failure(e)
      case Success(step) =>
        match FormatFrom(step.flags, s[1..])
        case Failure(e) => Failure(e)
        case Success(t) => Success(step.out + t)
  }

  /** `JsonFormatter::format`. */
  function Format(s: string): (r: Result<string, FormatError>)
    ensures r.Success? ==> |r.value| <= |s|
    ensures r.Success? ==> forall i :: 0 <= i < |r.value| ==> !IsControl(r.value[i])
  {
    FormatFrom(START, s)
  }
}
