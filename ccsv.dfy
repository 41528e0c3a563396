/**
 * The in-place field cursor of src/ccsv.h.
 *
 * A record is a C string in a caller-owned buffer.  `ccsv_nextfield` cuts the
 * next field out of it by writing a NUL after the field, returns a pointer to
 * the field and moves the cursor `line` past it, or to NULL after the last
 * field.  Pointers are modelled as indices into the buffer, NULL as None.
 *
 * NextFieldSpec states one call on buffer values; the class Cursor performs
 * the call in place on an array and is proved to agree with it; Fields gives
 * the fields that successive calls return.
 */
module Ccsv {

  import opened Ctype
  import opened Libc

  /** The call cannot scan before the buffer: somewhere before the end of the
      current C string there is a byte that is not white space.  Without it
      the backward trim of src/ccsv.h:62-63 runs off the front of the buffer
      (a record made of blanks only, such as "\n"). */
  predicate Safe(s: seq<char>, line: nat)
    requires Terminated(s) && line < |s|
  {
    exists k :: 0 <= k < StrEnd(s, line) && !IsSpace(s[k])
  }

  /** Skipping leading white space (src/ccsv.h:46). */
  function SkipSpace(s: seq<char>, i: nat): (j: nat)
    requires Terminated(s) && i < |s|
    ensures i <= j <= StrEnd(s, i) && !IsSpace(s[j])
    ensures forall k :: i <= k < j ==> IsSpace(s[k])
    decreases |s| - i
  {
    if IsSpace(s[i]) then SkipSpace(s, i + 1) else i
  }

  /** Stepping over doubled quotes (src/ccsv.h:51): from a quote at `j`,
      while it is followed by another quote, search again two bytes on. */
  function SkipPairs(s: seq<char>, j: nat): (r: Option<nat>)
    requires Terminated(s) && j < |s|
    ensures r.Some? ==> j <= r.value < |s|
    ensures r.Some? && s[j] == '"' ==> s[r.value] == '"' && r.value < StrEnd(s, j)
    decreases |s| - j
  {
    if s[j] == '"' && s[j + 1] == '"' then
      match StrChr(s, j + 2, '"')
      case None => None
      case Some(k) =>
        StrEndFrom(s, j, j + 2);
        SkipPairs(s, k)
    else Some(j)
  }

  /** Where the field that starts at `ret` ends (src/ccsv.h:49-51): the next
      separator, where for a quoted field a doubled quote is not an end. */
  function FieldEnd(s: seq<char>, ret: nat, sep: char): (r: Option<nat>)
    requires Terminated(s) && ret < |s| && sep != '\0'
    ensures r.Some? ==> ret <= r.value < StrEnd(s, ret) && s[r.value] == sep
  {
    match StrChr(s, ret, sep)
    case None => None
    case Some(j) =>
      if sep == '"' then
        StrEndFrom(s, ret, j);
        SkipPairs(s, j)
      else Some(j)
  }

  /** Text of a quoted field up to its closing quote, read from the left:
      bytes other than a quote, and doubled quotes `""`. */
  predicate Paired(t: seq<char>)
    decreases |t|
  {
    if t == [] then true
    else if t[0] != '"' then Paired(t[1..])
    else |t| >= 2 && t[1] == '"' && Paired(t[2..])
  }

  /** A quote at `e` closes the quoted field that starts at `from`: the text
      before it is Paired and the quote is not the first half of a pair. */
  predicate ClosesAt(s: seq<char>, from: nat, e: nat)
    requires from <= e && e + 1 < |s|
  {
    Paired(s[from..e]) && s[e] == '"' && s[e + 1] != '"'
  }

  /** Bytes other than a quote in front of Paired text keep it Paired. */
  lemma {:induction false} PairedPlain(u: seq<char>, v: seq<char>)
    requires '"' !in u && Paired(v)
    ensures Paired(u + v)
    decreases |u|
  {
    if u != [] {
      PairedPlain(u[1..], v);
      assert u[0] in u && (u + v)[0] == u[0];
      assert (u + v)[1..] == u[1..] + v;
    } else {
      assert u + v == v;
    }
  }

  /** Dropping a front run of bytes other than a quote keeps text Paired. */
  lemma {:induction false} PairedUnplain(t: seq<char>, m: nat)
    requires m <= |t| && '"' !in t[..m] && Paired(t)
    ensures Paired(t[m..])
    decreases m
  {
    if m > 0 {
      assert t[0] == t[..m][0];
      assert t[1..][..m - 1] == t[1..m];
      assert t[1..m] == t[..m][1..];
      PairedUnplain(t[1..], m - 1);
      assert t[1..][m - 1..] == t[m..];
    }
  }

  /** Inside Paired text, a Paired prefix followed by a quote is followed
      by a second quote: the reading from the left is unique. */
  lemma {:induction false} PairedParse(t: seq<char>, m: nat)
    requires m < |t| && Paired(t) && Paired(t[..m]) && t[m] == '"'
    ensures m + 1 < |t| && t[m + 1] == '"'
    decreases m
  {
    if m > 0 {
      var p := t[..m];
      assert p[0] == t[0];
      if t[0] != '"' {
        assert p[1..] == t[1..][..m - 1];
        PairedParse(t[1..], m - 1);
      } else {
        assert p[1] == t[1];
        assert p[2..] == t[2..][..m - 2];
        PairedParse(t[2..], m - 2);
      }
    }
  }

  /** A leading `""` pair does not change which quotes close the field. */
  lemma PairStep(s: seq<char>, j: nat, e: nat)
    requires j + 2 <= e && e + 1 < |s| && s[j] == '"' && s[j + 1] == '"'
    ensures ClosesAt(s, j, e) <==> ClosesAt(s, j + 2, e)
  {
    assert s[j..e][0] == '"' && s[j..e][1] == '"';
    assert s[j..e][2..] == s[j + 2..e];
  }

  /** Nothing closes the field from a `""` pair at `j` when nothing closes
      it from just after the pair, at `m`. */
  lemma UnclosedFromPair(s: seq<char>, j: nat, m: nat, end: nat)
    requires m == j + 2 && m <= end < |s| && s[j] == '"' && s[j + 1] == '"'
    requires forall e :: m <= e < end ==> !ClosesAt(s, m, e)
    ensures forall e :: j <= e < end ==> !ClosesAt(s, j, e)
  {
    forall e | j <= e < end
      ensures !ClosesAt(s, j, e)
    {
      if e == j + 1 {
        assert s[j..e] == ['"'];
      } else if e > j + 1 {
        PairStep(s, j, e);
      }
    }
  }

  /** The first close after a `""` pair at `j` is the first close from `j`. */
  lemma ClosedFromPair(s: seq<char>, j: nat, m: nat, e: nat)
    requires m == j + 2 && m <= e && e + 1 < |s| && s[j] == '"' && s[j + 1] == '"'
    requires ClosesAt(s, m, e) && forall e' :: m <= e' < e ==> !ClosesAt(s, m, e')
    ensures ClosesAt(s, j, e) && forall e' :: j <= e' < e ==> !ClosesAt(s, j, e')
  {
    PairStep(s, j, e);
    UnclosedFromPair(s, j, m, e);
  }

  /** SkipPairs from a quote at `j` finds the quote that closes the field
      from `j`, and fails only when no quote of the C string closes it. */
  lemma {:induction false} SkipPairsCloses(s: seq<char>, j: nat)
    requires Terminated(s) && j < |s| && s[j] == '"'
    ensures FirstClose(s, j, SkipPairs(s, j))
    decreases |s| - j
  {
    if s[j + 1] == '"' {
      StrEndFrom(s, j, j + 1);
      StrEndFrom(s, j, j + 2);
      var end := StrEnd(s, j);
      match StrChr(s, j + 2, '"')
      case None =>
        UnclosedAfterPlain(s, j + 2, end, end);
        UnclosedFromPair(s, j, j + 2, end);
      case Some(k) =>
        StrEndFrom(s, j, k);
        SkipPairsCloses(s, k);
        match SkipPairs(s, k)
        case Some(e) =>
          ClosedAfterPlain(s, j + 2, k, e);
          ClosedFromPair(s, j, j + 2, e);
        case None =>
          UnclosedAfterPlain(s, j + 2, k, end);
          UnclosedFromPair(s, j, j + 2, end);
    } else {
      assert s[j..j] == [];
    }
  }

  /** `r` is where the quoted field whose text starts at `from` ends: the
      first quote of the C string that closes it, or None when none does. */
  predicate FirstClose(s: seq<char>, from: nat, r: Option<nat>)
    requires Terminated(s) && from < |s|
  {
    match r
    case Some(e) =>
      && from <= e < StrEnd(s, from) && ClosesAt(s, from, e)
      && forall e' :: from <= e' < e ==> !ClosesAt(s, from, e')
    case None => forall e :: from <= e < StrEnd(s, from) ==> !ClosesAt(s, from, e)
  }

  /** A close found after a run of bytes other than a quote also closes
      the field from the start of that run, and is the first to do so. */
  lemma ClosedAfterPlain(s: seq<char>, ret: nat, j: nat, e: nat)
    requires ret <= j <= e && e + 1 < |s|
    requires forall k :: ret <= k < j ==> s[k] != '"'
    requires ClosesAt(s, j, e)
    ensures ClosesAt(s, ret, e)
    ensures forall e' :: ret <= e' < e ==> !ClosesAt(s, ret, e')
  {
    assert '"' !in s[ret..j];
    PairedPlain(s[ret..j], s[j..e]);
    assert s[ret..j] + s[j..e] == s[ret..e];
    forall e' | ret <= e' < e && ClosesAt(s, ret, e')
      ensures false
    {
      assert s[ret..e][..e' - ret] == s[ret..e'];
      PairedParse(s[ret..e], e' - ret);
    }
  }

  /** Nothing closes the field from the start of a run of bytes other than
      a quote when nothing closes it from the end of that run. */
  lemma UnclosedAfterPlain(s: seq<char>, ret: nat, j: nat, end: nat)
    requires ret <= j <= end < |s|
    requires forall k :: ret <= k < j ==> s[k] != '"'
    requires forall e :: j <= e < end ==> !ClosesAt(s, j, e)
    ensures forall e :: ret <= e < end ==> !ClosesAt(s, ret, e)
  {
    forall e | ret <= e < end && ClosesAt(s, ret, e)
      ensures false
    {
      assert j <= e;
      assert '"' !in s[ret..e][..j - ret];
      PairedUnplain(s[ret..e], j - ret);
      assert s[ret..e][j - ret..] == s[j..e];
      assert ClosesAt(s, j, e);
    }
  }

  /** A quoted field ends at the first quote that closes it, stepping over
      `""` pairs (src/ccsv.h:49-51), and has no end exactly when no quote
      of the C string closes it. */
  lemma QuotedEnd(s: seq<char>, ret: nat)
    requires Terminated(s) && ret < |s|
    ensures FirstClose(s, ret, FieldEnd(s, ret, '"'))
  {
    match StrChr(s, ret, '"')
    case None =>
    case Some(j) =>
      StrEndFrom(s, ret, j);
      SkipPairsCloses(s, j);
      match SkipPairs(s, j)
      case Some(e) =>
        ClosedAfterPlain(s, ret, j, e);
      case None =>
        UnclosedAfterPlain(s, ret, j, StrEnd(s, ret));
  }

  /** The trailing-blank trim of a field in mid-record (src/ccsv.h:56): it
      never goes below the start `base` of the call. */
  function TrimBack(s: seq<char>, base: nat, p: int): (q: int)
    requires -1 <= p < |s|
    ensures -1 <= q <= p && (q == p || base <= q)
    ensures forall k :: q < k <= p ==> IsSpace(s[k])
    ensures q <= base || !IsSpace(s[q])
    decreases p + 1
  {
    if p > base && IsSpace(s[p]) then TrimBack(s, base, p - 1) else p
  }

  /** The trailing-blank trim of the last field (src/ccsv.h:63).  The
      source has no lower bound and reads before the buffer when every byte
      at or below `p` is blank; this function stops at -1 instead, which
      the precondition Safe of NextFieldSpec keeps from happening. */
  function TrimAll(s: seq<char>, p: int): (q: int)
    requires -1 <= p < |s|
    ensures -1 <= q <= p && (q >= 0 ==> !IsSpace(s[q]))
    ensures forall k :: q < k <= p ==> IsSpace(s[k])
    decreases p + 1
  {
    if p >= 0 && IsSpace(s[p]) then TrimAll(s, p - 1) else p
  }

  /** The outcome of one call: the new buffer, the new cursor, the returned
      field pointer and the value stored through `type`. */
  datatype Step = Step(buf: seq<char>, line: Option<nat>, field: Option<nat>, typ: Option<char>)

  /** The end-of-record branch (src/ccsv.h:60-65). */
  function LastField(s: seq<char>, ret: nat, sep: char): (r: Step)
    requires Terminated(s) && ret < |s|
    ensures |r.buf| == |s| && Terminated(r.buf)
    ensures r.line.None? && r.field == Some(ret) && r.typ == Some(sep)
  {
    var p := StrEnd(s, ret) - 1;
    var q := if sep != '"' then TrimAll(s, p) else p;
    Step(s[q + 1 := '\0'], None, Some(ret), Some(sep))
  }

  /** One call of ccsv_nextfield (src/ccsv.h:38-68) on buffer `s` with the
      cursor at `line`. */
  function NextFieldSpec(s: seq<char>, line: Option<nat>, delim: char): (r: Step)
    requires Terminated(s) && delim != '\0'
    requires line.Some? ==> line.value < |s| && Safe(s, line.value)
    ensures |r.buf| == |s| && Terminated(r.buf)
    ensures r.field.None? <==> line.None?
    ensures r.field.Some? ==> r.field.value < |s|
    ensures line.None? ==> r.buf == s && r.line.None? && r.typ.None?
    ensures line.Some? ==>
      var r0 := SkipSpace(s, line.value);
      && r.field == Some(if s[r0] == '"' then r0 + 1 else r0)
      && r.typ == Some(if s[r0] == '"' then '"' else delim)
  {
    if line.None? then Step(s, None, None, None)
    else
      var base := line.value;
      var r0 := SkipSpace(s, base);
      if s[r0] == '"' then FieldFrom(s, base, r0 + 1, '"', delim)
      else FieldFrom(s, base, r0, delim, delim)
  }

  /** The rest of a call once the field start `ret` and the separator `sep`
      are known (src/ccsv.h:49-65). */
  function FieldFrom(s: seq<char>, base: nat, ret: nat, sep: char, delim: char): (r: Step)
    requires Terminated(s) && delim != '\0' && sep != '\0' && base <= ret < |s|
    requires sep == '"' ==> 0 < ret || s[ret] != '"'
    requires sep != '"' ==> sep == delim
    ensures |r.buf| == |s| && Terminated(r.buf)
    ensures r.field == Some(ret) && r.typ == Some(sep)
  {
    match FieldEnd(s, ret, sep)
    case None => LastField(s, ret, sep)
    case Some(e) => EndedField(s, base, ret, sep, e, delim)
  }

  /** The branch of src/ccsv.h:52-58, where the field ends at separator `e`
      before the end of the C string; the cursor goes past the next
      delimiter, and the end-of-record branch follows when a quoted field
      has no delimiter after it. */
  function EndedField(s: seq<char>, base: nat, ret: nat, sep: char, e: nat, delim: char): (r: Step)
    requires Terminated(s) && delim != '\0' && base <= ret <= e < |s| && s[e] == sep
    requires sep == '"' ==> 0 < e
    ensures |r.buf| == |s| && Terminated(r.buf)
    ensures r.field == Some(ret) && r.typ == Some(sep)
  {
    var p := e - 1;
    var next := if sep == '"' then
                  (match StrChr(s, p, delim) case None => None case Some(d) => Some(d + 1))
                else Some(e + 1);
    var q := if sep != '"' then TrimBack(s, base, p) else p;
    var s1 := s[q + 1 := '\0'];
    if next.Some? then Step(s1, next, Some(ret), Some(sep))
    else LastField(s1, ret, sep)
  }

  /** The cursor only moves forward, stays inside the buffer, and the next
      call is again free of the backward overrun: a byte that is not blank
      (the first byte of this field, or a NUL written over it) now lies
      before the cursor. */
  lemma NextFieldProgress(s: seq<char>, line: Option<nat>, delim: char)
    requires Terminated(s) && delim != '\0'
    requires line.Some? ==> line.value < |s| && Safe(s, line.value)
    ensures var o := NextFieldSpec(s, line, delim);
      o.line.Some? ==> line.Some? && line.value < o.line.value < |s| && Safe(o.buf, o.line.value)
  {
    if line.Some? {
      var base := line.value;
      var r0 := SkipSpace(s, base);
      var ret := if s[r0] == '"' then r0 + 1 else r0;
      var sep := if s[r0] == '"' then '"' else delim;
      StrEndFrom(s, base, r0);
      StrEndFrom(s, base, ret);
      assert NextFieldSpec(s, line, delim) == FieldFrom(s, base, ret, sep, delim);
      match FieldEnd(s, ret, sep)
      case None =>
      case Some(e) =>
        EndedProgress(s, base, r0, ret, sep, e, delim);
    }
  }

  /** NextFieldProgress for a field that ends at separator `e`; `r0` is the
      first byte after the leading blanks. */
  lemma EndedProgress(s: seq<char>, base: nat, r0: nat, ret: nat, sep: char, e: nat, delim: char)
    requires Terminated(s) && delim != '\0' && sep != '\0' && base <= r0 <= ret <= e < |s| && s[e] == sep
    requires !IsSpace(s[r0]) && (sep == '"' ==> r0 < e)
    ensures var o := EndedField(s, base, ret, sep, e, delim);
      o.line.Some? ==> base < o.line.value < |s| && Safe(o.buf, o.line.value)
  {
    var o := EndedField(s, base, ret, sep, e, delim);
    if o.line.Some? {
      var n := o.line.value;
      var p := e - 1;
      var q := if sep != '"' then TrimBack(s, base, p) else p;
      assert o.buf == s[q + 1 := '\0'];
      assert r0 < n < |s|;
      assert !IsSpace(o.buf[r0]);
      StrEndFrom(o.buf, n, n);
      assert 0 <= r0 < StrEnd(o.buf, n) && !IsSpace(o.buf[r0]);
    }
  }

  /** The values successive calls return, from cursor `line` until NULL; each
      value is read from the buffer as it stands right after its call. */
  function Fields(s: seq<char>, line: Option<nat>, delim: char): (fs: seq<seq<char>>)
    requires Terminated(s) && delim != '\0'
    requires line.Some? ==> line.value < |s| && Safe(s, line.value)
    decreases if line.Some? then |s| - line.value + 1 else 0
  {
    var o := NextFieldSpec(s, line, delim);
    if o.field.None? then []
    else
      NextFieldProgress(s, line, delim);
      [CStr(o.buf, o.field.value)] + Fields(o.buf, o.line, delim)
  }

  /** struct ccsv: the cursor `line` into the caller's buffer and the
      delimiter.  The buffer itself belongs to the caller and is rewritten by
      each call. */
  class Cursor {
    var buf: array<char>
    var line: Option<nat>
    var delim: char

    ghost predicate Valid()
      reads this, buf
    {
      Terminated(buf[..]) && delim != '\0' && (line.Some? ==> line.value < buf.Length)
    }

    /** The next call cannot scan before the buffer. */
    ghost predicate Ready()
      reads this, buf
      requires Valid()
    {
      line.Some? ==> Safe(buf[..], line.value)
    }

    /** ccsv_init_ex (src/ccsv.h:21-24): the cursor at the start of `ln`. */
    constructor InitEx(ln: array<char>, dlm: char)
      requires Terminated(ln[..]) && dlm != '\0'
      ensures Valid() && buf == ln && line == Some(0) && delim == dlm
    {
      buf, line, delim := ln, Some(0), dlm;
    }

    /** ccsv_init (src/ccsv.h:28-31): as InitEx with a comma. */
    constructor Init(ln: array<char>)
      requires Terminated(ln[..])
      ensures Valid() && buf == ln && line == Some(0) && delim == ','
    {
      buf, line, delim := ln, Some(0), ',';
    }

    /** ccsv_nextfield (src/ccsv.h:38-68): returns the index of the next
        field (None for NULL) and the value stored through `type` (None when
        nothing is stored), rewriting the buffer in place. */
    method NextField() returns (field: Option<nat>, typ: Option<char>)
      requires Valid() && Ready()
      modifies this`line, buf
      ensures Valid() && Ready() && buf == old(buf) && delim == old(delim)
      ensures var o := NextFieldSpec(old(buf[..]), old(line), delim);
        buf[..] == o.buf && line == o.line && field == o.field && typ == o.typ
    {
      ghost var s := buf[..];
      ghost var o := NextFieldSpec(s, line, delim);
      NextFieldProgress(s, line, delim);
      if line.None? {
        return None, None;
      }
      var base := line.value;
      var ret := SkipBlanks(base);
      StrEndFrom(s, base, ret);
      var sep := delim;
      if buf[ret] == '"' {
        sep := '"';
        ret := ret + 1;
      }
      StrEndFrom(s, base, ret);
      typ := Some(sep);
      assert o == FieldFrom(s, base, ret, sep, delim);
      CutFrom(base, ret, sep);
      field := Some(ret);
    }

    /** src/ccsv.h:49-65 once the start of the field is known. */
    method CutFrom(base: nat, ret: nat, sep: char)
      requires Terminated(buf[..]) && delim != '\0' && sep != '\0' && base <= ret < buf.Length
      requires sep == '"' ==> 0 < ret || buf[ret] != '"'
      requires sep != '"' ==> sep == delim && exists k :: 0 <= k < StrEnd(buf[..], ret) && !IsSpace(buf[k])
      modifies this`line, buf
      ensures var o := FieldFrom(old(buf[..]), base, ret, sep, delim);
        buf[..] == o.buf && line == o.line
    {
      line := FindFieldEnd(ret, sep);
      if line.Some? {
        CutEnded(base, ret, sep, line.value);
      } else {
        CutLast(ret, sep);
      }
    }

    /** src/ccsv.h:46: the first byte at or after `i` that is not blank. */
    method SkipBlanks(i: nat) returns (j: nat)
      requires Terminated(buf[..]) && i < buf.Length
      ensures j == SkipSpace(buf[..], i)
    {
      j := i;
      while IsSpace(buf[j])
        invariant i <= j <= SkipSpace(buf[..], i)
        decreases buf.Length - j
      {
        j := j + 1;
      }
    }

    /** src/ccsv.h:49-51: the separator that ends the field at `ret`,
        stepping over doubled quotes when the separator is a quote. */
    method FindFieldEnd(ret: nat, sep: char) returns (l: Option<nat>)
      requires Terminated(buf[..]) && ret < buf.Length && sep != '\0'
      ensures l == FieldEnd(buf[..], ret, sep)
    {
      ghost var s := buf[..];
      l := StrChr(buf[..], ret, sep);
      while l.Some? && sep == '"' && buf[l.value] == '"' && buf[l.value + 1] == '"'
        invariant l.Some? ==> ret <= l.value < |s| && s[l.value] == sep
        invariant FieldEnd(s, ret, sep) == (if l.Some? && sep == '"' then SkipPairs(s, l.value) else l)
        decreases if l.Some? then |s| - l.value else 0
      {
        l := StrChr(buf[..], l.value + 2, sep);
      }
    }

    /** src/ccsv.h:56: trims blanks backwards from `p`, not below `base`. */
    method TrimBlanksBack(base: nat, p0: int) returns (p: int)
      requires -1 <= p0 < buf.Length
      ensures p == TrimBack(buf[..], base, p0)
    {
      p := p0;
      while p > base && IsSpace(buf[p])
        invariant -1 <= p <= p0 && TrimBack(buf[..], base, p) == TrimBack(buf[..], base, p0)
        decreases p
      {
        p := p - 1;
      }
    }

    /** src/ccsv.h:63: trims blanks backwards from `p` with no lower bound. */
    method TrimBlanksAll(p0: int) returns (p: int)
      requires p0 < buf.Length
      requires exists k :: 0 <= k <= p0 && !IsSpace(buf[k])
      ensures p == TrimAll(buf[..], p0)
    {
      p := p0;
      while IsSpace(buf[p])
        invariant p <= p0 && (exists k :: 0 <= k <= p && !IsSpace(buf[k]))
        invariant TrimAll(buf[..], p) == TrimAll(buf[..], p0)
        decreases p
      {
        p := p - 1;
      }
    }

    /** src/ccsv.h:60-65, the last field of the record. */
    method CutLast(ret: nat, sep: char)
      requires Terminated(buf[..]) && ret < buf.Length
      requires sep != '"' ==> exists k :: 0 <= k < StrEnd(buf[..], ret) && !IsSpace(buf[k])
      modifies buf
      ensures buf[..] == LastField(old(buf[..]), ret, sep).buf
    {
      var p := StrEnd(buf[..], ret) - 1;
      if sep != '"' {
        p := TrimBlanksAll(p);
      }
      buf[p + 1] := '\0';
    }

    /** src/ccsv.h:52-58 (and 60-65 when no delimiter follows a quoted
        field): a field that ends at separator `e`. */
    method CutEnded(base: nat, ret: nat, sep: char, e: nat)
      requires Terminated(buf[..]) && delim != '\0' && base <= ret <= e < buf.Length && buf[e] == sep
      requires sep == '"' ==> 0 < e
      modifies this`line, buf
      ensures var o := EndedField(old(buf[..]), base, ret, sep, e, delim);
        buf[..] == o.buf && line == o.line
    {
      var p := e - 1;
      line := Some(e + 1);
      if sep == '"' {
        var d := StrChr(buf[..], p, delim);
        line := if d.Some? then Some(d.value + 1) else None;
      }
      if sep != '"' {
        p := TrimBlanksBack(base, p);
      }
      buf[p + 1] := '\0';
      if line.None? {
        CutLast(ret, sep);
      }
    }
  }
}
