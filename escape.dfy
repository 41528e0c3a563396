/**
 * The JSON value escaper `escape` of src/csvcut.c:188-228: a static scratch
 * buffer, grown on demand, into which a field is copied with newline, tab,
 * carriage return and double quote written as a backslash pair.
 */
module Escape {

  /** The characters of the table `esc` (src/csvcut.c:190). */
  predicate Escapable(c: char)
  {
    c == '\n' || c == '\t' || c == '\r' || c == '"'
  }

  /** The table `rpl` (src/csvcut.c:191): the letter written after the
      backslash. */
  function Replacement(c: char): (r: char)
    requires Escapable(c)
    ensures r != '\\' && r != '\0'
    ensures Code(r) && Original(r) == c
  {
    match c
    case '\n' => 'n'
    case '\t' => 't'
    case '\r' => 'r'
    case '"' => '"'
  }

  /** A letter that may follow a backslash in the output. */
  predicate Code(c: char)
  {
    c == 'n' || c == 't' || c == 'r' || c == '"'
  }

  /** The character a code letter stands for. */
  function Original(c: char): (r: char)
    requires Code(c)
    ensures Escapable(r)
  {
    match c
    case 'n' => '\n'
    case 't' => '\t'
    case 'r' => '\r'
    case '"' => '"'
  }

  /** The text the loop of src/csvcut.c:215-226 writes for `s`, character
      by character: a character outside the table is copied; one inside it
      becomes a backslash and its letter, unless the last byte written is a
      double quote, in which case it is dropped. */
  function Escaped(s: seq<char>): (r: seq<char>)
    ensures |r| <= 2 * |s|
    ensures '\0' !in s ==> '\0' !in r
    decreases |s|
  {
    if s == [] then [] else EscapeNext(Escaped(s[..|s| - 1]), s[|s| - 1])
  }

  /** Escaped grows by one EscapeNext per input character. */
  lemma EscapedSnoc(s: seq<char>, i: nat)
    requires i < |s|
    ensures Escaped(s[..i + 1]) == EscapeNext(Escaped(s[..i]), s[i])
  {
    assert s[..i + 1][..i] == s[..i];
  }

  /** One pass of the loop: what is written after output `o` for `c`. */
  function EscapeNext(o: seq<char>, c: char): (r: seq<char>)
  {
    if !Escapable(c) then o + [c]
    else if o != [] && o[|o| - 1] == '"' then o
    else o + ['\\', Replacement(c)]
  }

  /** Text without any table character is copied unchanged. */
  lemma {:induction false} EscapedCopies(s: seq<char>)
    requires forall i :: 0 <= i < |s| ==> !Escapable(s[i])
    ensures Escaped(s) == s
    decreases |s|
  {
    if s != [] {
      EscapedCopies(s[..|s| - 1]);
    }
  }

  /** The output never holds a raw newline, tab or carriage return, and
      every double quote in it is the second byte of a backslash pair. */
  lemma {:induction false} EscapedIsSafe(s: seq<char>)
    ensures forall i :: 0 <= i < |Escaped(s)| ==> Escaped(s)[i] != '\n' && Escaped(s)[i] != '\t' && Escaped(s)[i] != '\r'
    ensures forall i :: 0 <= i < |Escaped(s)| && Escaped(s)[i] == '"' ==> 0 < i && Escaped(s)[i - 1] == '\\'
    decreases |s|
  {
    if s != [] {
      EscapedIsSafe(s[..|s| - 1]);
    }
  }

  /** A doubled quote collapses to one escaped quote. */
  lemma DoubledQuoteCollapses()
    ensures Escaped("\"\"") == "\\\""
  {
    assert "\"\""[..1] == "\"";
    assert "\""[..0] == [];
  }

  /** A backslash is not escaped, so a backslash followed by `n` and a
      newline give the same output: the escaping cannot be undone in
      general. */
  lemma BackslashIsAmbiguous()
    ensures Escaped("\\n") == Escaped("\n")
    ensures "\\n" != "\n"
  {
    assert "\\n"[..1] == "\\";
    assert "\\"[..0] == [];
    assert "\n"[..0] == [];
  }

  /** Reading the output back: a backslash pair stands for its table
      character, anything else for itself.  Decoded from the end, like
      Escaped is built. */
  function Unescaped(t: seq<char>): (r: seq<char>)
    decreases |t|
  {
    if t == [] then []
    else if |t| >= 2 && t[|t| - 2] == '\\' && Code(t[|t| - 1]) then
      Unescaped(t[..|t| - 2]) + [Original(t[|t| - 1])]
    else Unescaped(t[..|t| - 1]) + [t[|t| - 1]]
  }

  /** No table character directly follows a double quote. */
  predicate NoDrop(s: seq<char>)
  {
    forall i :: 0 < i < |s| && s[i - 1] == '"' ==> !Escapable(s[i])
  }

  /** The output ends in a double quote only right after an input quote. */
  lemma {:induction false} EndsInQuote(s: seq<char>)
    requires NoDrop(s)
    ensures var o := Escaped(s); o != [] && o[|o| - 1] == '"' ==> s != [] && s[|s| - 1] == '"'
    decreases |s|
  {
    if s != [] {
      NoDropPrefix(s);
      EndsInQuote(s[..|s| - 1]);
    }
  }

  /** The output never ends in a lone backslash when the input has none. */
  lemma EndsInBackslash(s: seq<char>)
    requires '\\' !in s
    ensures var o := Escaped(s); o == [] || o[|o| - 1] != '\\'
  {
    if s != [] {
      var p := s[..|s| - 1];
      var o := Escaped(p);
      var c := s[|s| - 1];
      if !Escapable(c) || !(o != [] && o[|o| - 1] == '"') {
      } else {
        assert Escaped(s) == o;
      }
    }
  }

  /** NoDrop holds of every prefix. */
  lemma NoDropPrefix(s: seq<char>)
    requires s != [] && NoDrop(s)
    ensures NoDrop(s[..|s| - 1])
  {
    var p := s[..|s| - 1];
    forall i | 0 < i < |p| && p[i - 1] == '"'
      ensures !Escapable(p[i])
    {
      assert s[i - 1] == p[i - 1] && s[i] == p[i];
    }
  }

  /** Decoding a copied character. */
  lemma UnescapedCopy(o: seq<char>, c: char)
    requires o == [] || o[|o| - 1] != '\\'
    ensures Unescaped(o + [c]) == Unescaped(o) + [c]
  {
    var t := o + [c];
    assert t[..|t| - 1] == o;
  }

  /** Decoding a backslash pair. */
  lemma UnescapedPair(o: seq<char>, c: char)
    requires Escapable(c)
    ensures Unescaped(o + ['\\', Replacement(c)]) == Unescaped(o) + [c]
  {
    var t := o + ['\\', Replacement(c)];
    assert t[..|t| - 2] == o;
  }

  /** Where no character is dropped and the input has no backslash,
      decoding the output gives the input back. */
  lemma {:induction false} EscapedRoundTrip(s: seq<char>)
    requires '\\' !in s && NoDrop(s)
    ensures Unescaped(Escaped(s)) == s
    decreases |s|
  {
    if s != [] {
      var p := s[..|s| - 1];
      assert '\\' !in p;
      NoDropPrefix(s);
      EscapedRoundTrip(p);
      RoundTripLast(s);
    }
  }

  /** The step of EscapedRoundTrip: the last input character. */
  lemma RoundTripLast(s: seq<char>)
    requires s != [] && '\\' !in s && NoDrop(s)
    requires Unescaped(Escaped(s[..|s| - 1])) == s[..|s| - 1]
    ensures Unescaped(Escaped(s)) == s
  {
    var p := s[..|s| - 1];
    var c := s[|s| - 1];
    assert p + [c] == s;
    assert '\\' !in p;
    if !Escapable(c) {
      EndsInBackslash(p);
      RoundTripCopy(p, c);
    } else {
      NoDropPrefix(s);
      EndsInQuote(p);
      assert p != [] ==> p[|p| - 1] == s[|s| - 2];
      RoundTripPair(p, c);
    }
  }

  /** RoundTripLast for a copied character. */
  lemma RoundTripCopy(p: seq<char>, c: char)
    requires !Escapable(c) && Unescaped(Escaped(p)) == p
    requires Escaped(p) == [] || Escaped(p)[|Escaped(p)| - 1] != '\\'
    ensures Unescaped(Escaped(p + [c])) == p + [c]
  {
    assert (p + [c])[..|p|] == p;
    UnescapedCopy(Escaped(p), c);
  }

  /** RoundTripLast for a table character that is not dropped. */
  lemma RoundTripPair(p: seq<char>, c: char)
    requires Escapable(c) && Unescaped(Escaped(p)) == p
    requires var o := Escaped(p); !(o != [] && o[|o| - 1] == '"')
    ensures Unescaped(Escaped(p + [c])) == p + [c]
  {
    assert (p + [c])[..|p|] == p;
    UnescapedPair(Escaped(p), c);
  }

  /** The bytes the loop needs: the sentinel byte in front, the output and
      its terminating NUL. */
  function Needed(s: seq<char>): (n: nat)
    ensures n <= 2 * |s| + 2
  {
    |Escaped(s)| + 2
  }

  /** The bytes available once src/csvcut.c:204-210 has run, as written:
      a new block of 2*len+1 bytes when `buflen < len*2`, otherwise the old
      block of buflen+1 bytes, or no block at all when none was ever made
      (buflen is 0 exactly when buf is NULL). */
  function AsWrittenBytes(buflen: nat, len: nat): nat
  {
    if buflen < 2 * len then 2 * len + 1
    else if buflen == 0 then 0
    else buflen + 1
  }

  /** The as-written block is one byte short for a newline, and absent
      for an empty field escaped before any other. */
  lemma AsWrittenTooShort()
    ensures AsWrittenBytes(0, 1) == 3 && Needed("\n") == 4
    ensures AsWrittenBytes(0, 0) == 0 && Needed("") == 2
  {
    assert "\n"[..0] == [];
  }

  /** On a fresh buffer the as-written block suffices exactly when the
      field is not empty and at least one of its characters is dropped or
      copied rather than doubled. */
  lemma AsWrittenFresh(s: seq<char>)
    ensures Needed(s) <= AsWrittenBytes(0, |s|) <==> s != [] && |Escaped(s)| < 2 * |s|
  {
  }

  /** The bytes available with the guard `buflen < len*2 + 1` and a block
      of buflen+1 bytes, buflen then being 2*len+1. */
  function CorrectedBytes(buflen: nat, len: nat): nat
  {
    if buflen < 2 * len + 1 then 2 * len + 2 else buflen + 1
  }

  /** The corrected block always holds the output. */
  lemma CorrectedSuffices(buflen: nat, s: seq<char>)
    ensures Needed(s) <= CorrectedBytes(buflen, |s|)
  {
  }

  /** The static state of escape (src/csvcut.c:192-193): the scratch block
      `buf` of buflen+1 bytes whose first byte is a NUL sentinel, or NULL. */
  class Scratch {
    var buf: array?<char>
    var buflen: nat

    ghost predicate Valid()
      reads this, buf
    {
      && (buf == null ==> buflen == 0)
      && (buf != null ==> buf.Length == buflen + 1 && buf[0] == '\0')
    }

    /** The state at program start. */
    constructor ()
      ensures Valid() && buf == null && buflen == 0
    {
      buf := null;
      buflen := 0;
    }

    /** escape(NULL) (src/csvcut.c:197-203): the block is freed. */
    method Release()
      modifies this
      ensures Valid() && buf == null && buflen == 0
    {
      buf := null;
      buflen := 0;
    }

    /** escape(str) with the corrected growth guard: the block grows to
        hold the sentinel, twice the field and the NUL, and the result, the
        C string at buf+1, is the escaped field. */
    method Escape(str: seq<char>) returns (r: seq<char>)
      requires Valid() && '\0' !in str
      modifies this, buf
      ensures Valid() && r == Escaped(str)
      ensures buflen == if old(buflen) < 2 * |str| + 1 then 2 * |str| + 1 else old(buflen)
      ensures buf != null && |r| + 1 < buf.Length && buf[1..|r| + 1] == r && buf[|r| + 1] == '\0'
    {
      if buflen < 2 * |str| + 1 {
        buflen := 2 * |str| + 1;
        buf := new char[buflen + 1];
        buf[0] := '\0';
      }
      var b := Fill(buf, str);
      r := buf[1..b];
    }

    /** The loop of src/csvcut.c:215-227 on a block with room for the
        sentinel, twice the field and the NUL. */
    static method Fill(a: array<char>, str: seq<char>) returns (b: nat)
      requires a.Length >= 2 * |str| + 2 && a[0] == '\0'
      modifies a
      ensures a[0] == '\0' && b == 1 + |Escaped(str)| && b < a.Length
      ensures a[1..b] == Escaped(str) && a[b] == '\0'
    {
      b := 1;
      var i := 0;
      while i < |str|
        invariant 0 <= i <= |str| && a[0] == '\0'
        invariant b == 1 + |Escaped(str[..i])| && a[1..b] == Escaped(str[..i])
        invariant |Escaped(str[..i])| <= 2 * i
      {
        EscapedSnoc(str, i);
        b := Put(a, b, str[i], Escaped(str[..i]));
        i := i + 1;
      }
      assert str[..i] == str;
      a[b] := '\0';
    }

    /** The body of the loop of src/csvcut.c:215-226: `c` is written at
        `b`, after the output `o` and the sentinel. */
    static method Put(a: array<char>, b: nat, c: char, ghost o: seq<char>) returns (b': nat)
      requires 1 <= b && b + 2 <= a.Length && a[0] == '\0'
      requires b == 1 + |o| && a[1..b] == o
      modifies a
      ensures a[0] == '\0' && b' == 1 + |EscapeNext(o, c)| && a[1..b'] == EscapeNext(o, c)
    {
      assert a[b - 1] == '"' <==> o != [] && o[|o| - 1] == '"' by {
        if b > 1 { assert a[1..b][b - 2] == a[b - 1]; }
      }
      if !Escapable(c) {
        a[b] := c;
        b' := b + 1;
      } else if a[b - 1] != '"' {
        a[b] := '\\';
        a[b + 1] := Replacement(c);
        b' := b + 2;
      } else {
        b' := b;
      }
    }
  }
}
