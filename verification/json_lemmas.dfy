/**
 Properties of the compactor: it only removes characters, it keeps every
 quote and backslash, it is idempotent, it fails exactly on a backslash read
 outside a string literal, and it leaves a text alone exactly when nothing in
 it is removable. Positions are described through `Trace`, the flags before
 a given character.
 */
module JsonLemmas {
  import opened Wrappers
  import opened Chars
  import opened Json

  /** The flags after reading `p` from `f`. */
  function Trace(f: Flags, p: string): Flags
    decreases |p|
  {
    if p == [] then f else Trace(After(f, p[0]), p[1..])
  }

  /** `t` can be obtained from `s` by deleting characters. */
  predicate IsSubsequence(t: string, s: string)
    decreases |s|
  {
    if t == [] then true
    else if s == [] then false
    else (t[0] == s[0] && IsSubsequence(t[1..], s[1..])) || IsSubsequence(t, s[1..])
  }

  /** The quotes and backslashes of `s`, in order. */
  function Skeleton(s: string): string
    decreases |s|
  {
    if s == [] then []
    else (if s[0] == '"' || s[0] == '\\' then [s[0]] else []) + Skeleton(s[1..])
  }

  /** A backslash at index `i` read outside a string literal. */
  predicate StrayEscapeAt(f: Flags, s: string, i: int)
    requires 0 <= i < |s|
  {
    s[i] == '\\' && !Trace(f, s[..i]).insideString
  }

  /** Nothing in `s` is removable or rejected when read from `f`. */
  predicate Compact(f: Flags, s: string) {
    forall i :: 0 <= i < |s| ==> !StrayEscapeAt(f, s, i) && !Dropped(Trace(f, s[..i]), s[i])
  }

  lemma TraceCons(f: Flags, s: string, i: int)
    requires 0 <= i < |s|
    ensures Trace(f, s[..i + 1]) == Trace(After(f, s[0]), s[1..][..i])
  {
    assert s[..i + 1][1..] == s[1..][..i];
  }

  lemma SkeletonCons(c: char, t: string)
    ensures Skeleton([c] + t) == (if c == '"' || c == '\\' then [c] else []) + Skeleton(t)
  {
    assert ([c] + t)[1..] == t;
  }

  lemma {:induction false} TraceConcat(f: Flags, a: string, b: string)
    ensures Trace(f, a + b) == Trace(Trace(f, a), b)
    decreases |a|
  {
    if a == [] {
      assert a + b == b;
    } else {
      assert (a + b)[0] == a[0];
      assert (a + b)[1..] == a[1..] + b;
      TraceConcat(After(f, a[0]), a[1..], b);
    }
  }

  /** The pass over a single character. */
  lemma OneCharacter(f: Flags, c: char)
    ensures FormatFrom(f, [c]) == (if Feed(f, c).Failure? then Failure(UnexpectedEscape) else Success(Feed(f, c).value.out))
    ensures Trace(f, [c]) == After(f, c)
  {
    assert [c][1..] == [];
    if Feed(f, c).Success? {
      assert Feed(f, c).value.out + [] == Feed(f, c).value.out;
    }
  }

  /** The result of running over `a` and then `b`: the first failure, or both outputs. */
  function Join(x: Result<string, FormatError>, y: Result<string, FormatError>): Result<string, FormatError> {
    if x.Failure? then x
    else if y.Failure? then y
    else Success(x.value + y.value)
  }

  /** The pass over `a + b` is the pass over `a` followed by the pass over `b` from the flags `a` leaves. */
  lemma {:induction false} FormatConcat(f: Flags, a: string, b: string)
    ensures FormatFrom(f, a + b) == Join(FormatFrom(f, a), FormatFrom(Trace(f, a), b))
    decreases |a|
  {
    if a == [] {
      assert a + b == b;
      if FormatFrom(f, b).Success? {
        assert [] + FormatFrom(f, b).value == FormatFrom(f, b).value;
      }
    } else {
      assert (a + b)[0] == a[0];
      assert (a + b)[1..] == a[1..] + b;
      FormatConcat(After(f, a[0]), a[1..], b);
      if Feed(f, a[0]).Success? {
        var out := Feed(f, a[0]).value.out;
        var x := FormatFrom(After(f, a[0]), a[1..]);
        var y := FormatFrom(Trace(f, a), b);
        if x.Success? && y.Success? {
          assert out + (x.value + y.value) == (out + x.value) + y.value;
        }
      }
    }
  }

  /** A stretch with no quote, no backslash and nothing removable is copied unchanged. */
  lemma {:induction false} PlainStretch(f: Flags, s: string)
    requires forall i :: 0 <= i < |s| ==> s[i] != '"' && s[i] != '\\' && !Dropped(f, s[i])
    ensures FormatFrom(f, s) == Success(s) && Trace(f, s) == f
    decreases |s|
  {
    if s != [] {
      PlainStretch(f, s[1..]);
      assert [s[0]] + s[1..] == s;
    }
  }

  /** Printable ASCII is kept: outside a string anything but the space, inside a string everything. */
  lemma PrintableKept(f: Flags, c: char)
    requires ' ' <= c <= '~'
    requires f.insideString || c != ' '
    ensures !Dropped(f, c)
  {
  }

  /** The output is the input with some characters deleted. */
  lemma {:induction false} FormatIsSubsequence(f: Flags, s: string, t: string)
    requires FormatFrom(f, s) == Success(t)
    ensures IsSubsequence(t, s)
    decreases |s|
  {
    if s != [] {
      var step := Feed(f, s[0]).value;
      var t' := FormatFrom(step.flags, s[1..]).value;
      FormatIsSubsequence(step.flags, s[1..], t');
      if step.out == [] {
        assert t == t';
      } else {
        assert t == [s[0]] + t';
        assert t[1..] == t';
      }
    }
  }

  /** On success every quote and backslash of the input reaches the output, in order. */
  lemma {:induction false} FormatKeepsSkeleton(f: Flags, s: string, t: string)
    requires FormatFrom(f, s) == Success(t)
    ensures Skeleton(t) == Skeleton(s)
    decreases |s|
  {
    if s != [] {
      var step := Feed(f, s[0]).value;
      var t' := FormatFrom(step.flags, s[1..]).value;
      FormatKeepsSkeleton(step.flags, s[1..], t');
      if step.out == [] {
        assert t == t';
      } else {
        assert t == [s[0]] + t';
        SkeletonCons(s[0], t');
      }
    }
  }

  /** Formatting the output again, from the same flags, changes nothing. */
  lemma {:induction false} FormatFromIdempotent(f: Flags, s: string, t: string)
    requires FormatFrom(f, s) == Success(t)
    ensures FormatFrom(f, t) == Success(t)
    decreases |s|
  {
    if s != [] {
      var step := Feed(f, s[0]).value;
      var t' := FormatFrom(step.flags, s[1..]).value;
      FormatFromIdempotent(step.flags, s[1..], t');
      if step.out == [] {
        assert t == t';
        assert step.flags == f;
      } else {
        assert t == [s[0]] + t';
        assert t[0] == s[0] && t[1..] == t';
      }
    }
  }

  lemma FormatIdempotent(s: string, t: string)
    requires Format(s) == Success(t)
    ensures Format(t) == Success(t)
  {
    FormatFromIdempotent(START, s, t);
  }

  /** The pass fails exactly when some backslash is read outside a string literal. */
  lemma {:induction false} FormatFailsIff(f: Flags, s: string)
    ensures FormatFrom(f, s).Failure? <==> exists i :: 0 <= i < |s| && StrayEscapeAt(f, s, i)
    decreases |s|
  {
    if s != [] {
      var f' := After(f, s[0]);
      FormatFailsIff(f', s[1..]);
      if FormatFrom(f, s).Failure? {
        if Feed(f, s[0]).Failure? {
          assert s[..0] == [];
          assert StrayEscapeAt(f, s, 0);
        } else {
          var j :| 0 <= j < |s[1..]| && StrayEscapeAt(f', s[1..], j);
          TraceCons(f, s, j);
          assert StrayEscapeAt(f, s, j + 1);
        }
      } else {
        forall i | 0 <= i < |s|
          ensures !StrayEscapeAt(f, s, i)
        {
          if i == 0 {
            assert s[..0] == [];
          } else {
            TraceCons(f, s, i - 1);
            assert !StrayEscapeAt(f', s[1..], i - 1);
          }
        }
      }
    }
  }

  /** A text is returned unchanged exactly when nothing in it is removable or rejected. */
  lemma {:induction false} FormatFixpointIff(f: Flags, s: string)
    ensures FormatFrom(f, s) == Success(s) <==> Compact(f, s)
    decreases |s|
  {
    if s != [] {
      var f' := After(f, s[0]);
      FormatFixpointIff(f', s[1..]);
      assert s[..0] == [];
      if FormatFrom(f, s) == Success(s) {
        var step := Feed(f, s[0]).value;
        var t' := FormatFrom(f', s[1..]).value;
        assert s == step.out + t';
        assert step.out == [s[0]] && t' == s[1..];
        forall i | 0 <= i < |s|
          ensures !StrayEscapeAt(f, s, i) && !Dropped(Trace(f, s[..i]), s[i])
        {
          if i > 0 {
            TraceCons(f, s, i - 1);
            assert !StrayEscapeAt(f', s[1..], i - 1);
          }
        }
      }
      if Compact(f, s) {
        forall i | 0 <= i < |s[1..]|
          ensures !StrayEscapeAt(f', s[1..], i) && !Dropped(Trace(f', s[1..][..i]), s[1..][i])
        {
          TraceCons(f, s, i);
          assert !StrayEscapeAt(f, s, i + 1);
        }
        assert !StrayEscapeAt(f, s, 0);
        assert [s[0]] + s[1..] == s;
      }
    }
  }

  /** Outside a string literal the output holds no whitespace. */
  lemma WhitespaceOnlyInStrings(s: string, t: string)
    requires Format(s) == Success(t)
    ensures forall i :: 0 <= i < |t| && IsWhitespace(t[i]) ==> Trace(START, t[..i]).insideString
  {
    FormatIdempotent(s, t);
    FormatFixpointIff(START, t);
    forall i | 0 <= i < |t| && IsWhitespace(t[i])
      ensures Trace(START, t[..i]).insideString
    {
      assert !Dropped(Trace(START, t[..i]), t[i]);
    }
  }

  /**
   The escape flag is never cleared: once it is set the flags stop changing,
   so every later quote is copied without opening or closing a string.
   */
  lemma {:induction false} EscapingIsSticky(f: Flags, p: string)
    requires f.escaping
    ensures Trace(f, p) == f
    decreases |p|
  {
    if p != [] {
      assert After(f, p[0]) == f;
      EscapingIsSticky(f, p[1..]);
    }
  }
}
