/**
 * The pieces of <string.h> and <stdlib.h> the core relies on, stated over a
 * buffer `s` whose last byte is a NUL, with C pointers as indices into it.
 */
module Libc {

  import opened Ctype

  datatype Option<T> = None | Some(value: T)

  /** A buffer that holds at least one C string: its last byte is NUL. */
  predicate Terminated(s: seq<char>)
  {
    |s| > 0 && s[|s| - 1] == '\0'
  }

  /** The index of the NUL that ends the C string starting at `i`
      (so strlen(s + i) == StrEnd(s, i) - i). */
  function StrEnd(s: seq<char>, i: nat): (e: nat)
    requires Terminated(s) && i < |s|
    ensures i <= e < |s| && s[e] == '\0'
    ensures forall k :: i <= k < e ==> s[k] != '\0'
    decreases |s| - i
  {
    if s[i] == '\0' then i else StrEnd(s, i + 1)
  }

  /** The C string starting at `i`, without its NUL. */
  function CStr(s: seq<char>, i: nat): (r: seq<char>)
    requires Terminated(s) && i < |s|
    ensures '\0' !in r
  {
    s[i..StrEnd(s, i)]
  }

  /** strchr(s + i, c) for a character c other than NUL: the first occurrence
      of c in the C string starting at `i`, or None (NULL). */
  function StrChr(s: seq<char>, i: nat, c: char): (r: Option<nat>)
    requires Terminated(s) && i < |s| && c != '\0'
    ensures r.Some? ==> i <= r.value < StrEnd(s, i) && s[r.value] == c
    ensures r.Some? ==> forall k :: i <= k < r.value ==> s[k] != c
    ensures r.None? ==> forall k :: i <= k < StrEnd(s, i) ==> s[k] != c
    decreases |s| - i
  {
    if s[i] == '\0' then None else if s[i] == c then Some(i) else StrChr(s, i + 1, c)
  }

  /** Every string position between `i` and the end of its C string ends
      the same C string. */
  lemma StrEndFrom(s: seq<char>, i: nat, j: nat)
    requires Terminated(s) && i < |s| && i <= j <= StrEnd(s, i)
    ensures j < |s| && StrEnd(s, j) == StrEnd(s, i)
    decreases StrEnd(s, i) - j
  {
    if s[j] != '\0' {
      StrEndFrom(s, i, j + 1);
    }
  }

  /** A NUL at `j` with no NUL between `i` and `j` ends the string at `i`. */
  lemma StrEndAt(s: seq<char>, i: nat, j: nat)
    requires Terminated(s) && i <= j < |s| && s[j] == '\0'
    requires forall k :: i <= k < j ==> s[k] != '\0'
    ensures StrEnd(s, i) == j
    decreases j - i
  {
    if i < j {
      StrEndAt(s, i + 1, j);
    }
  }

  /** strchr finds the first c when nothing before it is c or NUL. */
  lemma StrChrAt(s: seq<char>, i: nat, j: nat, c: char)
    requires Terminated(s) && i <= j < |s| && c != '\0' && s[j] == c
    requires forall k :: i <= k < j ==> s[k] != c && s[k] != '\0'
    ensures StrChr(s, i, c) == Some(j)
    decreases j - i
  {
    if i < j {
      StrChrAt(s, i + 1, j, c);
    }
  }

  /** strchr fails when the string ends before any c. */
  lemma StrChrNone(s: seq<char>, i: nat, j: nat, c: char)
    requires Terminated(s) && i <= j < |s| && c != '\0' && s[j] == '\0'
    requires forall k :: i <= k < j ==> s[k] != c && s[k] != '\0'
    ensures StrChr(s, i, c) == None
    decreases j - i
  {
    if i < j {
      StrChrNone(s, i + 1, j, c);
    }
  }

  /** The value of the decimal digits of `t` from `i` up to `j`, as strtol
      reads them (most significant first). */
  function DigitsValue(t: seq<char>, i: nat, j: nat): nat
    requires i <= j <= |t|
    decreases j - i
  {
    if i == j then 0 else DigitsValue(t, i, j - 1) * 10 + ((t[j - 1] as int - '0' as int) % 10)
  }

  /** The end of the run of digits of `t` that starts at `i`. */
  function DigitsEnd(t: seq<char>, i: nat): (j: nat)
    requires i <= |t|
    ensures i <= j <= |t| && (j < |t| ==> !IsDigit(t[j]))
    ensures forall k :: i <= k < j ==> IsDigit(t[k])
    decreases |t| - i
  {
    if i < |t| && IsDigit(t[i]) then DigitsEnd(t, i + 1) else i
  }

  /** strtol(t + i, &end, 10) when t[i] is a digit: the value and the end. */
  function StrToL(t: seq<char>, i: nat): (r: (nat, nat))
    requires i < |t| && IsDigit(t[i])
    ensures i < r.1 <= |t| && (r.1 < |t| ==> !IsDigit(t[r.1]))
  {
    var j := DigitsEnd(t, i);
    (DigitsValue(t, i, j), j)
  }
}
