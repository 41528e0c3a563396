/**
 * Records without quotes come back from the field cursor of src/ccsv.h
 * exactly as they were joined.
 */
module CcsvRoundTrip {

  import opened Ctype
  import opened Libc
  import opened Ccsv
  import opened CcsvLaws

  /** A delimiter a line can be split on: any byte `-d` accepts other than
      a quote and the newline that ends the line.  Blanks such as a tab are
      allowed. */
  predicate PlainDelim(d: char)
  {
    d != '\0' && d != '"' && d != '\n'
  }

  /** A field that needs no quoting: no delimiter, quote or NUL inside, and
      no blank at either end.  With a blank delimiter the field must not be
      empty: the leading-blank skip (src/ccsv.h:46) would take its delimiter
      for white space (see BlankDelimiterDropsEmpty). */
  predicate PlainField(f: seq<char>, d: char)
  {
    && (forall i :: 0 <= i < |f| ==> f[i] != d && f[i] != '"' && f[i] != '\0')
    && (f == [] || (!IsSpace(f[0]) && !IsSpace(f[|f| - 1])))
    && (IsSpace(d) ==> f != [])
  }

  predicate PlainFields(fs: seq<seq<char>>, d: char)
  {
    forall i :: 0 <= i < |fs| ==> PlainField(fs[i], d)
  }

  /** The fields written one after another with the delimiter between them. */
  function Join(fs: seq<seq<char>>, d: char): (r: seq<char>)
    requires |fs| >= 1
    ensures |fs| == 1 ==> r == fs[0]
    ensures |fs| > 1 ==> r == fs[0] + [d] + Join(fs[1..], d)
    decreases |fs|
  {
    if |fs| == 1 then fs[0] else fs[0] + [d] + Join(fs[1..], d)
  }

  /** The line as fgets leaves it in the buffer: the joined fields, the
      newline and the terminating NUL. */
  function Line(w: seq<char>, fs: seq<seq<char>>, d: char): (s: seq<char>)
    requires |fs| >= 1
    ensures Terminated(s) && |w| < |s|
  {
    w + Join(fs, d) + ['\n', '\0']
  }

  /** A joined record holds neither a NUL nor a quote. */
  lemma {:induction false} JoinPlain(fs: seq<seq<char>>, d: char)
    requires |fs| >= 1 && PlainDelim(d) && PlainFields(fs, d)
    ensures forall k :: 0 <= k < |Join(fs, d)| ==> Join(fs, d)[k] != '\0' && Join(fs, d)[k] != '"'
    decreases |fs|
  {
    if |fs| > 1 {
      JoinPlain(fs[1..], d);
      var f := fs[0];
      var t := Join(fs[1..], d);
      assert PlainField(f, d);
      forall k | 0 <= k < |Join(fs, d)|
        ensures Join(fs, d)[k] != '\0' && Join(fs, d)[k] != '"'
      {
        if k < |f| {
          assert Join(fs, d)[k] == f[k];
        } else if k > |f| {
          assert Join(fs, d)[k] == t[k - |f| - 1];
        }
      }
    } else {
      assert PlainField(fs[0], d);
    }
  }

  /** The C string at the cursor runs to the final NUL. */
  lemma LineEnd(w: seq<char>, fs: seq<seq<char>>, d: char)
    requires |fs| >= 1 && PlainDelim(d) && PlainFields(fs, d)
    ensures StrEnd(Line(w, fs, d), |w|) == |Line(w, fs, d)| - 1
  {
    var s := Line(w, fs, d);
    JoinPlain(fs, d);
    forall k | |w| <= k < |s| - 1
      ensures s[k] != '\0'
    {
      if k < |w| + |Join(fs, d)| {
        assert s[k] == Join(fs, d)[k - |w|];
      }
    }
    StrEndAt(s, |w|, |s| - 1);
  }

  /** How a line with one field lies in the buffer. */
  lemma LastSplit(w: seq<char>, f: seq<char>, d: char)
    requires PlainDelim(d) && PlainField(f, d)
    ensures var s := Line(w, [f], d);
      && |s| == |w| + |f| + 2
      && (forall k :: |w| <= k < |s| - 1 ==> s[k] != d && s[k] != '\0')
      && s[|s| - 2] == '\n'
      && (f != [] ==> s[|w|] == f[0])
      && (w != [] ==> s[|w| - 1] == w[|w| - 1])
      && s[|w|..|s| - 1] == f + ['\n']
  {
    var s := Line(w, [f], d);
    assert s == w + f + ['\n', '\0'];
    forall k | |w| <= k < |s| - 1
      ensures s[k] != d && s[k] != '\0'
    {
      if k < |w| + |f| {
        assert s[k] == f[k - |w|];
      }
    }
  }

  /** The last field of the line. */
  lemma LastRoundTrip(w: seq<char>, f: seq<char>, d: char)
    requires PlainDelim(d) && PlainField(f, d)
    requires (w != [] && w[|w| - 1] == '\0') || f != []
    ensures Safe(Line(w, [f], d), |w|)
    ensures Fields(Line(w, [f], d), Some(|w|), d) == [f]
  {
    var s := Line(w, [f], d);
    var base := |w|;
    LastSplit(w, f, d);
    assert Safe(s, base) by {
      if f == [] { assert !IsSpace(s[base - 1]); } else { assert !IsSpace(s[base]); }
    }
    PlainLast(s, base, f, d);
    StepLast(s, base, f, d);
  }

  /** The last plain field of a line: it is returned trimmed, and the line ends. */
  lemma PlainLast(s: seq<char>, base: nat, f: seq<char>, d: char)
    requires Terminated(s) && PlainDelim(d) && PlainField(f, d)
    requires |s| == base + |f| + 2 && s[base..|s| - 1] == f + ['\n']
    requires forall k :: base <= k < |s| - 1 ==> s[k] != d && s[k] != '\0'
    requires Safe(s, base)
    ensures var o := NextFieldSpec(s, Some(base), d);
      o.line == None && o.field.Some? && o.field.value < |o.buf| && CStr(o.buf, o.field.value) == f
  {
    var r0 := if f == [] then base + 1 else base;
    assert s[|s| - 2] == (f + ['\n'])[|f|];
    if f != [] {
      assert s[base] == (f + ['\n'])[0];
    }
    assert SkipSpace(s, base) == r0;
    StrEndAt(s, base, |s| - 1);
    StrChrNone(s, r0, |s| - 1, d);
    UnquotedField(s, base, d);
    StrEndFrom(s, base, r0);
    if f != [] {
      assert CStr(s, r0) == f + ['\n'];
      TrimRightIs(f + ['\n'], |f|);
      assert (f + ['\n'])[..|f|] == f;
    }
  }

  /** Fields after a call that returns the last field. */
  lemma StepLast(s: seq<char>, base: nat, v: seq<char>, d: char)
    requires Terminated(s) && d != '\0' && base < |s| && Safe(s, base)
    requires var o := NextFieldSpec(s, Some(base), d);
      o.line == None && o.field.Some? && o.field.value < |o.buf| && CStr(o.buf, o.field.value) == v
    ensures Fields(s, Some(base), d) == [v]
  {
    FieldsStep(s, base, d);
  }

  /** How a line with more than one field lies in the buffer. */
  lemma FirstSplit(w: seq<char>, fs: seq<seq<char>>, d: char)
    requires |fs| > 1 && PlainDelim(d) && PlainFields(fs, d)
    ensures var s := Line(w, fs, d);
      && |w| + |fs[0]| < |s|
      && s[|w| + |fs[0]|] == d
      && (forall k :: |w| <= k < |w| + |fs[0]| ==> s[k] != d && s[k] != '\0' && s[k] == fs[0][k - |w|])
      && s[|w|..|w| + |fs[0]|] == fs[0]
      && s[|w| + |fs[0]| := '\0'] == Line(w + fs[0] + ['\0'], fs[1..], d)
  {
    var s := Line(w, fs, d);
    var f := fs[0];
    assert PlainField(f, d);
    assert s == w + f + [d] + Join(fs[1..], d) + ['\n', '\0'];
    assert s[|w|..|w| + |f|] == f;
    assert s[|w| + |f| := '\0'] == Line(w + f + ['\0'], fs[1..], d);
  }

  /** A plain field `f` at `base`, closed by the delimiter. */
  lemma PlainAt(s: seq<char>, base: nat, f: seq<char>, d: char)
    requires Terminated(s) && PlainDelim(d) && PlainField(f, d) && base + |f| < |s|
    requires s[base..base + |f|] == f && s[base + |f|] == d && Safe(s, base)
    ensures SkipSpace(s, base) == base
    ensures var o := NextFieldSpec(s, Some(base), d);
      && CStr(o.buf, base) == f
      && o.line == Some(base + |f| + 1)
      && o.buf == s[base + |f| := '\0']
  {
    assert s[base] == if f == [] then d else f[0];
    forall k | base <= k < base + |f| ensures s[k] != d && s[k] != '\0' {
      assert s[k] == f[k - base];
    }
    StrChrAt(s, base, base + |f|, d);
    UnquotedField(s, base, d);
    TrimRightIs(f, |f|);
    assert f[..|f|] == f;
  }

  /** The first field of a line that has more. */
  lemma FirstRoundTrip(w: seq<char>, fs: seq<seq<char>>, d: char)
    requires |fs| > 1 && PlainDelim(d) && PlainFields(fs, d)
    ensures var s := Line(w, fs, d);
      var o := NextFieldSpec(s, Some(|w|), d);
      && Safe(s, |w|)
      && CStr(o.buf, |w|) == fs[0]
      && o.line == Some(|w| + |fs[0]| + 1)
      && o.buf == Line(w + fs[0] + ['\0'], fs[1..], d)
  {
    var s := Line(w, fs, d);
    var f := fs[0];
    assert PlainField(f, d);
    FirstSplit(w, fs, d);
    LineEnd(w, fs, d);
    assert Safe(s, |w|) by {
      assert !IsSpace(s[|w|]) && |w| < StrEnd(s, |w|);
    }
    PlainAt(s, |w|, f, d);
  }

  /** Fields of a line with more than one field: the first, then those
      of the rest of the line. */
  lemma FirstFields(w: seq<char>, fs: seq<seq<char>>, d: char)
    requires |fs| > 1 && PlainDelim(d) && PlainFields(fs, d)
    ensures var w' := w + fs[0] + ['\0'];
      && Safe(Line(w, fs, d), |w|)
      && Safe(Line(w', fs[1..], d), |w'|)
      && Fields(Line(w, fs, d), Some(|w|), d) == [fs[0]] + Fields(Line(w', fs[1..], d), Some(|w'|), d)
  {
    FirstRoundTrip(w, fs, d);
    var w' := w + fs[0] + ['\0'];
    StepFields(Line(w, fs, d), |w|, Line(w', fs[1..], d), |w'|, fs[0], d);
  }

  /** Fields after a call whose outcome is known. */
  lemma StepFields(s: seq<char>, base: nat, s': seq<char>, base': nat, v: seq<char>, d: char)
    requires Terminated(s) && d != '\0' && base < |s| && Safe(s, base)
    requires var o := NextFieldSpec(s, Some(base), d);
      o.buf == s' && o.line == Some(base') && CStr(o.buf, base) == v && o.field == Some(base)
    ensures Terminated(s') && base' < |s'| && Safe(s', base')
    ensures Fields(s, Some(base), d) == [v] + Fields(s', Some(base'), d)
  {
    FieldsStep(s, base, d);
  }

  /** The tail of a list of plain fields is plain. */
  lemma PlainTail(fs: seq<seq<char>>, d: char)
    requires |fs| >= 1 && PlainFields(fs, d)
    ensures PlainFields(fs[1..], d)
  {
    forall i | 0 <= i < |fs[1..]| ensures PlainField(fs[1..][i], d) {
      assert fs[1..][i] == fs[i + 1];
    }
  }

  /** Every field of a plain line comes back, from any cursor that has a
      byte that is not blank behind it. */
  lemma {:induction false} RoundTripFrom(w: seq<char>, fs: seq<seq<char>>, d: char)
    requires |fs| >= 1 && PlainDelim(d) && PlainFields(fs, d)
    requires (w != [] && w[|w| - 1] == '\0') || fs != [[]]
    ensures Safe(Line(w, fs, d), |w|)
    ensures Fields(Line(w, fs, d), Some(|w|), d) == fs
    decreases |fs|
  {
    if |fs| == 1 {
      assert PlainField(fs[0], d);
      LastRoundTrip(w, fs[0], d);
      assert [fs[0]] == fs;
    } else {
      PlainTail(fs, d);
      RoundTripFrom(w + fs[0] + ['\0'], fs[1..], d);
      RoundTripCons(w, fs, d);
    }
  }

  /** The first field, then the fields of the rest of the line. */
  lemma RoundTripCons(w: seq<char>, fs: seq<seq<char>>, d: char)
    requires |fs| > 1 && PlainDelim(d) && PlainFields(fs, d)
    requires var w' := w + fs[0] + ['\0'];
      Safe(Line(w', fs[1..], d), |w'|) && Fields(Line(w', fs[1..], d), Some(|w'|), d) == fs[1..]
    ensures Safe(Line(w, fs, d), |w|)
    ensures Fields(Line(w, fs, d), Some(|w|), d) == fs
  {
    FirstFields(w, fs, d);
    assert fs == [fs[0]] + fs[1..];
  }

  /** The last call on a blank delimiter at `base`, then `g`: the blank is
      skipped as leading white space and `g` is the last field. */
  lemma BlankThenLast(s: seq<char>, base: nat, g: seq<char>, d: char)
    requires PlainDelim(d) && IsSpace(d) && PlainField(g, d)
    requires |s| == base + |g| + 3 && s[base] == d && s[base + 1..] == g + ['\n', '\0']
    ensures Terminated(s) && Safe(s, base)
    ensures Fields(s, Some(base), d) == [g]
  {
    var r0 := base + 1;
    assert s[r0] == g[0] && s[|s| - 1] == '\0' && s[|s| - 2] == '\n';
    forall k | r0 <= k < |s| - 1
      ensures s[k] != d && s[k] != '\0'
    {
      if k < r0 + |g| {
        assert s[k] == g[k - r0];
      }
    }
    StrEndAt(s, base, |s| - 1);
    assert Safe(s, base) by { assert !IsSpace(s[r0]); }
    assert SkipSpace(s, base) == SkipSpace(s, r0) == r0;
    StrEndAt(s, r0, |s| - 1);
    StrChrNone(s, r0, |s| - 1, d);
    UnquotedField(s, base, d);
    assert CStr(s, r0) == g + ['\n'];
    TrimRightIs(g + ['\n'], |g|);
    assert (g + ['\n'])[..|g|] == g;
    StepLast(s, base, g, d);
  }

  /** With a blank delimiter such as a tab, an empty field between two others
      is lost: the second delimiter is skipped as leading white space
      (src/ccsv.h:46), so a line joined from three fields gives back two. */
  lemma BlankDelimiterDropsEmpty(f: seq<char>, g: seq<char>, d: char)
    requires PlainDelim(d) && IsSpace(d) && PlainField(f, d) && PlainField(g, d)
    ensures Safe(Line([], [f, [], g], d), 0)
    ensures Fields(Line([], [f, [], g], d), Some(0), d) == [f, g]
  {
    var s := Line([], [f, [], g], d);
    var s1 := s[|f| := '\0'];
    BlankLine(f, g, d);
    PlainAt(s, 0, f, d);
    StepFields(s, 0, s1, |f| + 1, f, d);
    BlankThenLast(s1, |f| + 1, g, d);
    assert [f] + [g] == [f, g];
  }

  /** How the line `f d d g` lies in the buffer, and what the first call
      leaves of it. */
  lemma BlankLine(f: seq<char>, g: seq<char>, d: char)
    requires PlainDelim(d) && IsSpace(d) && PlainField(f, d) && PlainField(g, d)
    ensures var s := Line([], [f, [], g], d);
      && |f| < |s| && s[0..|f|] == f && s[|f|] == d
      && Safe(s, 0)
      && var s1 := s[|f| := '\0'];
        |s1| == |f| + 1 + |g| + 3 && s1[|f| + 1] == d && s1[|f| + 2..] == g + ['\n', '\0']
  {
    var s := Line([], [f, [], g], d);
    var n := |f|;
    assert Join([f, [], g], d) == f + [d] + ([] + [d] + g);
    assert s == f + [d, d] + g + ['\n', '\0'];
    assert s[0..n] == f;
    forall k | 0 <= k < |s| - 1
      ensures s[k] != '\0'
    {
      if k < n {
        assert s[k] == f[k];
      } else if n + 2 <= k < n + 2 + |g| {
        assert s[k] == g[k - n - 2];
      }
    }
    StrEndAt(s, 0, |s| - 1);
    assert Safe(s, 0) by { assert !IsSpace(s[0]); }
    assert s[n := '\0'][n + 2..] == g + ['\n', '\0'];
  }

  /** A line of plain fields, split by the cursor, gives back its fields;
      the one line that is excluded is the blank one, where the trim of the
      last field would read before the buffer. */
  lemma RoundTrip(fs: seq<seq<char>>, d: char)
    requires |fs| >= 1 && PlainDelim(d) && PlainFields(fs, d) && fs != [[]]
    ensures Safe(Line([], fs, d), 0)
    ensures Fields(Line([], fs, d), Some(0), d) == fs
  {
    RoundTripFrom([], fs, d);
  }
}
