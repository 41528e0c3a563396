/**
 * The quote counters that the record assembler of src/csvcut.c calls on
 * every chunk fgets reads: countquotes (src/csvcut.c:170-175) and
 * countquotes_fld (src/csvcut.c:177-186), which also counts the header's
 * fields.
 */
module Quotes {

  import opened Libc

  /** The number of `c` in `t`. */
  function Count(t: seq<char>, c: char): (n: nat)
    ensures n <= |t|
    decreases |t|
  {
    if t == [] then 0 else Count(t[..|t| - 1], c) + (if t[|t| - 1] == c then 1 else 0)
  }

  /** The delimiters of `t` seen while the quotes before them are even in
      number; a delimiter that is itself a quote is tested before it is
      counted as one. */
  function OutsideDelims(t: seq<char>, d: char): (n: nat)
    ensures n <= Count(t, d)
    decreases |t|
  {
    if t == [] then 0
    else
      var u := t[..|t| - 1];
      OutsideDelims(u, d) + (if t[|t| - 1] == d && Count(u, '"') % 2 == 0 then 1 else 0)
  }

  /** Counting is taking the multiplicity. */
  lemma {:induction false} CountIsMultiplicity(t: seq<char>, c: char)
    ensures Count(t, c) == multiset(t)[c]
    decreases |t|
  {
    if t != [] {
      var u := t[..|t| - 1];
      CountIsMultiplicity(u, c);
      assert t == u + [t[|t| - 1]];
      assert multiset(t) == multiset(u) + multiset{t[|t| - 1]};
    }
  }

  /** The count of a concatenation is the sum of the counts. */
  lemma CountAppend(a: seq<char>, b: seq<char>, c: char)
    ensures Count(a + b, c) == Count(a, c) + Count(b, c)
  {
    CountIsMultiplicity(a + b, c);
    CountIsMultiplicity(a, c);
    CountIsMultiplicity(b, c);
    assert multiset(a + b) == multiset(a) + multiset(b);
  }

  /** Without quotes every delimiter is outside them. */
  lemma {:induction false} NoQuotesAllOutside(t: seq<char>, d: char)
    requires Count(t, '"') == 0
    ensures OutsideDelims(t, d) == Count(t, d)
    decreases |t|
  {
    if t != [] {
      var u := t[..|t| - 1];
      CountAppend(u, [t[|t| - 1]], '"');
      assert u + [t[|t| - 1]] == t;
      NoQuotesAllOutside(u, d);
    }
  }

  /** countquotes(str, &len, ...) at `s[i..]`: the quotes of the C string
      there and its length (src/csvcut.c:170-175). */
  method CountQuotes(s: seq<char>, i: nat) returns (ret: nat, len: nat)
    requires Terminated(s) && i < |s|
    ensures len == |CStr(s, i)| && ret == Count(CStr(s, i), '"')
  {
    ret, len := 0, 0;
    while s[i + len] != '\0'
      invariant i + len <= StrEnd(s, i)
      invariant ret == Count(s[i..i + len], '"')
      decreases StrEnd(s, i) - (i + len)
    {
      assert s[i..i + len + 1][..len] == s[i..i + len];
      if s[i + len] == '"' {
        ret := ret + 1;
      }
      len := len + 1;
    }
  }

  /** countquotes_fld(str, &len, dchar, &fields): as countquotes, and
      `fields` goes up once for each delimiter met while the quotes counted
      so far in this chunk are even (src/csvcut.c:177-186). */
  method CountQuotesFld(s: seq<char>, i: nat, dchar: char, fields: int) returns (ret: nat, len: nat, fields': int)
    requires Terminated(s) && i < |s|
    ensures len == |CStr(s, i)| && ret == Count(CStr(s, i), '"')
    ensures fields' == fields + OutsideDelims(CStr(s, i), dchar)
  {
    ret, len, fields' := 0, 0, fields;
    while s[i + len] != '\0'
      invariant i + len <= StrEnd(s, i)
      invariant ret == Count(s[i..i + len], '"')
      invariant fields' == fields + OutsideDelims(s[i..i + len], dchar)
      decreases StrEnd(s, i) - (i + len)
    {
      assert s[i..i + len + 1][..len] == s[i..i + len];
      if s[i + len] == dchar && ret % 2 == 0 {
        fields' := fields' + 1;
      }
      if s[i + len] == '"' {
        ret := ret + 1;
      }
      len := len + 1;
    }
  }
}
