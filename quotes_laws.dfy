/**
 * The header count of countquotes_fld against the tokenizer: on a line
 * of plain fields, one plus the delimiters it counts is the number of
 * fields ccsv_nextfield returns, which is what sizes the header-name
 * table (src/csvcut.c:372, 387).
 */
module QuotesLaws {

  import opened Ctype
  import opened Libc
  import opened Ccsv
  import opened CcsvRoundTrip
  import opened Quotes

  /** A character that does not occur is counted zero times. */
  lemma CountAbsent(t: seq<char>, c: char)
    requires forall k :: 0 <= k < |t| ==> t[k] != c
    ensures Count(t, c) == 0
  {
    CountIsMultiplicity(t, c);
    assert c !in multiset(t);
  }

  /** Joined plain fields hold one delimiter fewer than fields. */
  lemma {:induction false} JoinDelims(fs: seq<seq<char>>, d: char)
    requires |fs| >= 1 && PlainDelim(d) && PlainFields(fs, d)
    ensures Count(Join(fs, d), d) == |fs| - 1
    decreases |fs|
  {
    assert PlainField(fs[0], d);
    CountAbsent(fs[0], d);
    if |fs| > 1 {
      PlainTail(fs, d);
      JoinDelims(fs[1..], d);
      CountAppend(fs[0], [d], d);
      CountAppend(fs[0] + [d], Join(fs[1..], d), d);
    }
  }

  /** The C string of a plain line is its joined fields and the newline. */
  lemma PlainLineText(fs: seq<seq<char>>, d: char)
    requires |fs| >= 1 && PlainDelim(d) && PlainFields(fs, d)
    ensures CStr(Line([], fs, d), 0) == Join(fs, d) + ['\n']
  {
    LineEnd([], fs, d);
    assert Line([], fs, d) == Join(fs, d) + ['\n'] + ['\0'];
  }

  /** The header table countquotes_fld sizes for a plain line has exactly
      one entry per field that the tokenizer returns from it. */
  lemma HeaderCountMatches(fs: seq<seq<char>>, d: char)
    requires |fs| >= 1 && PlainDelim(d) && PlainFields(fs, d) && fs != [[]]
    ensures 1 + OutsideDelims(CStr(Line([], fs, d), 0), d) == |Fields(Line([], fs, d), Some(0), d)|
  {
    var t := Join(fs, d) + ['\n'];
    PlainLineText(fs, d);
    JoinPlain(fs, d);
    CountAbsent(Join(fs, d), '"');
    CountAbsent(['\n'], '"');
    CountAbsent(['\n'], d);
    CountAppend(Join(fs, d), ['\n'], '"');
    CountAppend(Join(fs, d), ['\n'], d);
    NoQuotesAllOutside(t, d);
    JoinDelims(fs, d);
    RoundTrip(fs, d);
  }
}
