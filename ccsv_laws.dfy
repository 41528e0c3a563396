/**
 * What successive calls of the field cursor of src/ccsv.h return, stated
 * over the one-call specification Ccsv.NextFieldSpec.
 */
module CcsvLaws {

  import opened Ctype
  import opened Libc
  import opened Ccsv

  /** A field with its trailing blanks removed. */
  function TrimRight(t: seq<char>): (r: seq<char>)
    ensures |r| <= |t| && r == t[..|r|]
    ensures r == [] || !IsSpace(r[|r| - 1])
    decreases |t|
  {
    if t != [] && IsSpace(t[|t| - 1]) then TrimRight(t[..|t| - 1]) else t
  }

  /** TrimRight keeps exactly the prefix up to the last byte that is not blank. */
  lemma {:induction false} TrimRightIs(t: seq<char>, m: nat)
    requires m <= |t| && (m == 0 || !IsSpace(t[m - 1]))
    requires forall k :: m <= k < |t| ==> IsSpace(t[k])
    ensures TrimRight(t) == t[..m]
    decreases |t|
  {
    if m < |t| {
      TrimRightIs(t[..|t| - 1], m);
      assert t[..|t| - 1][..m] == t[..m];
    } else {
      assert t[..m] == t;
    }
  }

  /** What a call returns for a quoted field whose opening quote sits just
      before `ret` (src/ccsv.h:47-57): the value is the text between the
      opening quote and the closing quote, with every doubled quote left as
      it is; the cursor moves past the first delimiter found from one byte
      before the closing quote, so anything between the closing quote and
      that delimiter belongs to no field.  Without a closing quote the field
      runs to the end of the record and the cursor becomes NULL. */
  ghost predicate QuotedOutcome(s: seq<char>, ret: nat, delim: char, o: Step)
    requires Terminated(s) && 0 < ret < |s| && delim != '\0'
  {
    && |o.buf| == |s| && Terminated(o.buf)
    && o.field == Some(ret) && o.typ == Some('"')
    && match FieldEnd(s, ret, '"')
       case Some(e) =>
         && CStr(o.buf, ret) == s[ret..e]
         && o.line == (match StrChr(s, e - 1, delim) case Some(d) => Some(d + 1) case None => None)
       case None =>
         CStr(o.buf, ret) == CStr(s, ret) && o.line == None
  }

  /** A call on a field that opens with a quote returns the quoted value. */
  lemma QuotedField(s: seq<char>, base: nat, delim: char)
    requires Terminated(s) && delim != '\0' && base < |s| && Safe(s, base)
    requires s[SkipSpace(s, base)] == '"'
    ensures SkipSpace(s, base) + 1 < |s|
    ensures QuotedOutcome(s, SkipSpace(s, base) + 1, delim, NextFieldSpec(s, Some(base), delim))
    ensures FirstClose(s, SkipSpace(s, base) + 1, FieldEnd(s, SkipSpace(s, base) + 1, '"'))
  {
    OpensQuote(s, base, delim);
    QuotedFrom(s, base, SkipSpace(s, base) + 1, delim, NextFieldSpec(s, Some(base), delim));
    QuotedEnd(s, SkipSpace(s, base) + 1);
  }

  /** A call that meets a quote after the leading blanks. */
  lemma OpensQuote(s: seq<char>, base: nat, delim: char)
    requires Terminated(s) && delim != '\0' && base < |s| && Safe(s, base)
    requires s[SkipSpace(s, base)] == '"'
    ensures SkipSpace(s, base) + 1 < |s|
    ensures NextFieldSpec(s, Some(base), delim) == FieldFrom(s, base, SkipSpace(s, base) + 1, '"', delim)
  {
    var r0 := SkipSpace(s, base);
    assert r0 < StrEnd(s, base);
    OpensQuoteAt(s, base, delim, r0);
  }

  /** OpensQuote once the opening quote's index `r0` is known. */
  lemma OpensQuoteAt(s: seq<char>, base: nat, delim: char, r0: nat)
    requires Terminated(s) && delim != '\0' && base < |s| && Safe(s, base)
    requires r0 == SkipSpace(s, base) && s[r0] == '"' && r0 + 1 < |s|
    ensures NextFieldSpec(s, Some(base), delim) == FieldFrom(s, base, r0 + 1, '"', delim)
  {
  }

  /** QuotedField once the opening quote is known to sit before `ret`. */
  lemma QuotedFrom(s: seq<char>, base: nat, ret: nat, delim: char, o: Step)
    requires Terminated(s) && delim != '\0' && base < ret < |s|
    requires o == FieldFrom(s, base, ret, '"', delim)
    ensures QuotedOutcome(s, ret, delim, o)
  {
    match FieldEnd(s, ret, '"')
    case Some(e) =>
      QuotedFromEnded(s, base, ret, delim, o, e);
    case None =>
      QuotedFromLast(s, base, ret, delim, o);
  }

  /** QuotedFrom when the closing quote is at `e`. */
  lemma QuotedFromEnded(s: seq<char>, base: nat, ret: nat, delim: char, o: Step, e: nat)
    requires Terminated(s) && delim != '\0' && base < ret < |s|
    requires o == FieldFrom(s, base, ret, '"', delim) && FieldEnd(s, ret, '"') == Some(e)
    ensures QuotedOutcome(s, ret, delim, o)
  {
    QuotedEnded(s, base, ret, e, delim);
  }

  /** QuotedFrom when the quote is never closed. */
  lemma QuotedFromLast(s: seq<char>, base: nat, ret: nat, delim: char, o: Step)
    requires Terminated(s) && delim != '\0' && base < ret < |s|
    requires o == FieldFrom(s, base, ret, '"', delim) && FieldEnd(s, ret, '"') == None
    ensures QuotedOutcome(s, ret, delim, o)
  {
    assert LastField(s, ret, '"').buf == s;
  }

  /** QuotedField once the closing quote `e` is known. */
  lemma QuotedEnded(s: seq<char>, base: nat, ret: nat, e: nat, delim: char)
    requires Terminated(s) && delim != '\0' && base < ret < |s| && ret <= e < StrEnd(s, ret) && s[e] == '"'
    ensures var o := EndedField(s, base, ret, '"', e, delim);
      && CStr(o.buf, ret) == s[ret..e]
      && o.line == (match StrChr(s, e - 1, delim) case Some(d) => Some(d + 1) case None => None)
  {
    var s1 := s[e := '\0'];
    StrEndAt(s1, ret, e);
    assert s1[ret..e] == s[ret..e];
    assert LastField(s1, ret, '"').buf == s1;
  }

  /** What a call returns for an unquoted field starting at `r0`
      (src/ccsv.h:49-64), the call having started at `base`: the value runs
      from `r0` to the next delimiter, or to the end of the record (the
      final newline included), with trailing blanks trimmed, and the buffer
      is the old one with a NUL written right after the value.  In
      mid-record this holds except when the field is empty and preceded by
      two or more blanks; see BlankFieldLeaks. */
  ghost predicate UnquotedOutcome(s: seq<char>, base: nat, r0: nat, delim: char, o: Step)
    requires Terminated(s) && r0 < |s| && delim != '\0'
  {
    && |o.buf| == |s| && Terminated(o.buf)
    && o.field == Some(r0) && o.typ == Some(delim)
    && match StrChr(s, r0, delim)
       case Some(d) =>
         && o.line == Some(d + 1)
         && (r0 < d || r0 <= base + 1 ==>
               && CStr(o.buf, r0) == TrimRight(s[r0..d])
               && o.buf == s[r0 + |TrimRight(s[r0..d])| := '\0'])
       case None =>
         && o.line == None
         && CStr(o.buf, r0) == TrimRight(CStr(s, r0))
         && (TrimRight(CStr(s, r0)) != [] ==> o.buf == s[r0 + |TrimRight(CStr(s, r0))| := '\0'])
  }

  /** A call on a field that does not open with a quote returns the
      trimmed unquoted value. */
  lemma UnquotedField(s: seq<char>, base: nat, delim: char)
    requires Terminated(s) && delim != '\0' && delim != '"' && base < |s| && Safe(s, base)
    requires s[SkipSpace(s, base)] != '"'
    ensures UnquotedOutcome(s, base, SkipSpace(s, base), delim, NextFieldSpec(s, Some(base), delim))
  {
    OpensPlain(s, base, delim);
    UnquotedFrom(s, base, SkipSpace(s, base), delim);
  }

  /** A call that meets no quote after the leading blanks. */
  lemma OpensPlain(s: seq<char>, base: nat, delim: char)
    requires Terminated(s) && delim != '\0' && delim != '"' && base < |s| && Safe(s, base)
    requires s[SkipSpace(s, base)] != '"'
    ensures NextFieldSpec(s, Some(base), delim) == FieldFrom(s, base, SkipSpace(s, base), delim, delim)
  {
    StrEndFrom(s, base, SkipSpace(s, base));
  }

  /** UnquotedField once the first byte `r0` that is not blank is known. */
  lemma UnquotedFrom(s: seq<char>, base: nat, r0: nat, delim: char)
    requires Terminated(s) && delim != '\0' && delim != '"' && base <= r0 < |s|
    requires !IsSpace(s[r0]) && s[r0] != '"'
    ensures UnquotedOutcome(s, base, r0, delim, FieldFrom(s, base, r0, delim, delim))
  {
    match StrChr(s, r0, delim)
    case Some(d) =>
      UnquotedEnded(s, base, r0, d, delim);
    case None =>
      UnquotedLast(s, r0, delim);
  }

  /** UnquotedField once the delimiter `d` is known. */
  lemma UnquotedEnded(s: seq<char>, base: nat, r0: nat, d: nat, delim: char)
    requires Terminated(s) && delim != '\0' && delim != '"' && base <= r0 < |s| && r0 <= d < StrEnd(s, r0)
    requires s[d] == delim && !IsSpace(s[r0])
    ensures var o := EndedField(s, base, r0, delim, d, delim);
      && o.line == Some(d + 1)
      && (r0 < d || r0 <= base + 1 ==>
            && CStr(o.buf, r0) == TrimRight(s[r0..d])
            && o.buf == s[r0 + |TrimRight(s[r0..d])| := '\0'])
  {
    EndedByDelimiter(s, base, r0, d, delim);
    if r0 < d || r0 <= base + 1 {
      TrimmedCut(s, base, r0, d);
    }
  }

  /** The trailing-blank trim before a delimiter at `d` keeps the field's
      first byte, so the NUL it writes ends the trimmed value. */
  lemma TrimmedCut(s: seq<char>, base: nat, r0: nat, d: nat)
    requires Terminated(s) && base <= r0 < |s| && r0 <= d <= StrEnd(s, r0) && !IsSpace(s[r0])
    requires r0 < d || r0 <= base + 1
    ensures var q := TrimBack(s, base, d - 1);
      && CStr(s[q + 1 := '\0'], r0) == TrimRight(s[r0..d])
      && q + 1 == r0 + |TrimRight(s[r0..d])|
  {
    var q := TrimBack(s, base, d - 1);
    assert r0 <= q + 1;
    CutAfter(s, r0, d, q);
  }

  /** An unquoted field ended by a delimiter: the trimmed end becomes NUL
      and the cursor moves past the delimiter. */
  lemma EndedByDelimiter(s: seq<char>, base: nat, r0: nat, d: nat, delim: char)
    requires Terminated(s) && delim != '\0' && delim != '"' && base <= r0 <= d < |s| && s[d] == delim
    ensures var o := EndedField(s, base, r0, delim, d, delim);
      o.buf == s[TrimBack(s, base, d - 1) + 1 := '\0'] && o.line == Some(d + 1)
  {
  }

  /** Cutting the record after `q`, the last byte of the field [r0, d) that
      is not blank, leaves the field trimmed on the right. */
  lemma CutAfter(s: seq<char>, r0: nat, d: nat, q: int)
    requires Terminated(s) && r0 < |s| && r0 <= d <= StrEnd(s, r0) && r0 - 1 <= q < d
    requires q >= r0 ==> !IsSpace(s[q])
    requires forall k :: q < k < d ==> IsSpace(s[k])
    ensures CStr(s[q + 1 := '\0'], r0) == TrimRight(s[r0..d])
    ensures q + 1 == r0 + |TrimRight(s[r0..d])|
  {
    var b := s[q + 1 := '\0'];
    StrEndAt(b, r0, q + 1);
    assert CStr(b, r0) == s[r0..q + 1] == s[r0..d][..q + 1 - r0];
    TrimRightIs(s[r0..d], q + 1 - r0);
  }

  /** UnquotedField for the final field of the record. */
  lemma UnquotedLast(s: seq<char>, r0: nat, delim: char)
    requires Terminated(s) && delim != '"' && r0 < |s| && !IsSpace(s[r0])
    ensures var o := LastField(s, r0, delim);
      && CStr(o.buf, r0) == TrimRight(CStr(s, r0))
      && (TrimRight(CStr(s, r0)) != [] ==> o.buf == s[r0 + |TrimRight(CStr(s, r0))| := '\0'])
  {
    LastFieldTrims(s, r0, delim);
    CutAfterLast(s, r0, TrimAll(s, StrEnd(s, r0) - 1));
  }

  /** The end-of-record branch cuts an unquoted field after its last byte
      that is not blank. */
  lemma LastFieldTrims(s: seq<char>, r0: nat, delim: char)
    requires Terminated(s) && delim != '"' && r0 < |s|
    ensures LastField(s, r0, delim).buf == s[TrimAll(s, StrEnd(s, r0) - 1) + 1 := '\0']
  {
  }

  /** Cutting the record after `q`, the last byte before the NUL that is not
      blank, leaves the field at `r0` trimmed on the right. */
  lemma CutAfterLast(s: seq<char>, r0: nat, q: int)
    requires Terminated(s) && r0 < |s| && !IsSpace(s[r0]) && -1 <= q < StrEnd(s, r0)
    requires q >= 0 ==> !IsSpace(s[q])
    requires forall k :: q < k < StrEnd(s, r0) ==> IsSpace(s[k])
    ensures CStr(s[q + 1 := '\0'], r0) == TrimRight(CStr(s, r0))
    ensures TrimRight(CStr(s, r0)) != [] ==> q + 1 == r0 + |TrimRight(CStr(s, r0))|
  {
    if r0 <= q {
      CutAfter(s, r0, StrEnd(s, r0), q);
    } else {
      assert r0 == StrEnd(s, r0);
      EmptyLast(s, r0, q);
    }
  }

  /** UnquotedLast when nothing but the NUL is left of the field. */
  lemma EmptyLast(s: seq<char>, r0: nat, q: int)
    requires Terminated(s) && -1 <= q < r0 < |s| && s[r0] == '\0'
    ensures CStr(s[q + 1 := '\0'], r0) == TrimRight(CStr(s, r0))
  {
    StrEndAt(s[q + 1 := '\0'], r0, r0);
  }

  /** The trim of src/ccsv.h:56 is bounded by the start of the call rather
      than by the start of the field: an empty field preceded by two or more
      blanks keeps its delimiter, so the returned string is the delimiter
      followed by the rest of the record. */
  lemma BlankFieldLeaks(s: seq<char>, base: nat, delim: char)
    requires Terminated(s) && delim != '\0' && delim != '"' && base < |s| && Safe(s, base)
    requires s[SkipSpace(s, base)] != '"'
    requires StrChr(s, SkipSpace(s, base), delim) == Some(SkipSpace(s, base))
    requires SkipSpace(s, base) >= base + 2
    ensures var r0 := SkipSpace(s, base);
      var o := NextFieldSpec(s, Some(base), delim);
      CStr(o.buf, r0) == CStr(s, r0) && CStr(s, r0)[0] == delim
  {
    var r0 := SkipSpace(s, base);
    StrEndFrom(s, base, r0);
    assert NextFieldSpec(s, Some(base), delim) == FieldFrom(s, base, r0, delim, delim);
    var o := EndedField(s, base, r0, delim, r0, delim);
    assert TrimBack(s, base, r0 - 1) == base;
    assert o.buf == s[base + 1 := '\0'];
    StrEndAt(o.buf, r0, StrEnd(s, r0));
  }

  /** Which ever call returns NULL leaves the cursor NULL, so every later
      call returns NULL and changes nothing. */
  lemma NullForever(s: seq<char>, line: Option<nat>, delim: char)
    requires Terminated(s) && delim != '\0'
    requires line.Some? ==> line.value < |s| && Safe(s, line.value)
    ensures var o := NextFieldSpec(s, line, delim);
      o.line.None? ==> NextFieldSpec(o.buf, o.line, delim) == Step(o.buf, None, None, None)
  {
  }

  /** A cursor standing on the NUL that ends the record yields one empty
      field, then NULL. */
  lemma EmptyAtEnd(s: seq<char>, i: nat, delim: char)
    requires Terminated(s) && delim != '\0' && delim != '"' && i < |s| && s[i] == '\0' && Safe(s, i)
    ensures Fields(s, Some(i), delim) == [[]]
  {
    assert SkipSpace(s, i) == i;
    UnquotedField(s, i, delim);
    var o := NextFieldSpec(s, Some(i), delim);
    assert StrChr(s, i, delim) == None;
    assert CStr(s, i) == [];
    assert Fields(o.buf, o.line, delim) == [];
  }

  /** A quoted value whose last byte is the delimiter: the delimiter search
      of src/ccsv.h:53 starts one byte before the closing quote and finds
      that byte, so the cursor lands on the NUL written over the closing
      quote and the rest of the record is lost: `"a,",b` yields `a,` and an
      empty field. */
  lemma QuotedDelimiterLast(s: seq<char>, base: nat, delim: char, e: nat)
    requires Terminated(s) && delim != '\0' && delim != '"' && base < |s| && Safe(s, base)
    requires s[SkipSpace(s, base)] == '"'
    requires SkipSpace(s, base) + 1 < |s| && FieldEnd(s, SkipSpace(s, base) + 1, '"') == Some(e)
    requires SkipSpace(s, base) + 1 < e && s[e - 1] == delim
    ensures Fields(s, Some(base), delim) == [s[SkipSpace(s, base) + 1..e], []]
  {
    var ret := SkipSpace(s, base) + 1;
    QuotedField(s, base, delim);
    var o := NextFieldSpec(s, Some(base), delim);
    QuotedClosedBy(s, ret, delim, o, e);
    NextFieldProgress(s, Some(base), delim);
    EmptyAtEnd(o.buf, e, delim);
  }

  /** A quoted field whose closing quote follows a delimiter: the cursor is
      left on the NUL written over that quote. */
  lemma QuotedClosedBy(s: seq<char>, ret: nat, delim: char, o: Step, e: nat)
    requires Terminated(s) && 0 < ret < |s| && delim != '\0'
    requires QuotedOutcome(s, ret, delim, o)
    requires FieldEnd(s, ret, '"') == Some(e) && ret < e && s[e - 1] == delim
    ensures e < |o.buf| && o.buf[e] == '\0' && o.line == Some(e)
  {
    assert StrChr(s, e - 1, delim) == Some(e - 1);
    assert |CStr(o.buf, ret)| == e - ret;
  }

  /** One step of Fields: the value of this call, then those of the calls
      after it. */
  lemma FieldsStep(s: seq<char>, base: nat, delim: char)
    requires Terminated(s) && delim != '\0' && base < |s| && Safe(s, base)
    ensures var o := NextFieldSpec(s, Some(base), delim);
      && o.field.Some? && o.field.value < |o.buf|
      && (o.line.Some? ==> o.line.value < |o.buf| && Safe(o.buf, o.line.value))
      && Fields(s, Some(base), delim) == [CStr(o.buf, o.field.value)] + Fields(o.buf, o.line, delim)
  {
    NextFieldProgress(s, Some(base), delim);
  }

  /** The line `"a""b",c` as fgets leaves it. */
  const DoubledQuoteLine: seq<char> := "\"a\"\"b\",c\n\0"

  lemma DoubledQuoteStart()
    ensures Terminated(DoubledQuoteLine) && Safe(DoubledQuoteLine, 0)
    ensures SkipSpace(DoubledQuoteLine, 0) == 0 && DoubledQuoteLine[0] == '"'
  {
    var s := DoubledQuoteLine;
    assert StrEnd(s, 0) == 9;
    assert !IsSpace(s[1]);
  }

  lemma DoubledQuoteEnds()
    ensures Terminated(DoubledQuoteLine)
    ensures FieldEnd(DoubledQuoteLine, 1, '"') == Some(5)
    ensures StrChr(DoubledQuoteLine, 4, ',') == Some(6)
    ensures DoubledQuoteLine[1..5] == "a\"\"b"
  {
    var s := DoubledQuoteLine;
    assert StrChr(s, 1, '"') == Some(2);
    assert StrChr(s, 4, '"') == Some(5);
    assert SkipPairs(s, 5) == Some(5);
    assert SkipPairs(s, 2) == Some(5);
  }

  /** A doubled quote inside a quoted field is stepped over but not
      collapsed: `"a""b",c` yields `a""b`, and the cursor moves to `c`. */
  lemma DoubledQuoteKept()
    ensures var o := NextFieldSpec(DoubledQuoteLine, Some(0), ',');
      && o.field == Some(1)
      && CStr(o.buf, 1) == "a\"\"b"
      && o.line == Some(7)
  {
    DoubledQuoteStart();
    DoubledQuoteEnds();
    QuotedField(DoubledQuoteLine, 0, ',');
  }
}
