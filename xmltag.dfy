/**
 * `xmltagsanitize` of src/csvcut.c:230-237: a header name, used as an XML
 * element name, is rewritten in place so that it starts with a letter or an
 * underscore and holds only letters, digits and underscores (an ASCII subset
 * of the Name production of section 2.3 of XML 1.0).
 */
module XmlTag {

  import opened Ctype
  import opened Libc

  /** A character that may start a sanitized name. */
  predicate NameStart(c: char)
  {
    IsAlpha(c) || c == '_'
  }

  /** A character that may appear in a sanitized name. */
  predicate NameChar(c: char)
  {
    IsAlnum(c) || c == '_'
  }

  /** A name the sanitizer accepts as it is. */
  predicate IsName(s: seq<char>)
  {
    s != [] && NameStart(s[0]) && forall i :: 0 < i < |s| ==> NameChar(s[i])
  }

  /** The first statement (src/csvcut.c:232): a first character that is
      not a letter becomes '_'. */
  function FixFirst(s: seq<char>): (r: seq<char>)
    requires s != []
    ensures |r| == |s| && NameStart(r[0]) && r[1..] == s[1..]
  {
    if IsAlpha(s[0]) then s else s[0 := '_']
  }

  /** The loop (src/csvcut.c:233-236): every character that is not a letter
      or a digit becomes '_'. */
  function FixAll(s: seq<char>): (r: seq<char>)
    ensures |r| == |s|
    ensures forall i :: 0 <= i < |s| ==> NameChar(r[i])
    ensures forall i :: 0 <= i < |s| ==> r[i] == (if IsAlnum(s[i]) then s[i] else '_')
  {
    seq(|s|, i requires 0 <= i < |s| => if IsAlnum(s[i]) then s[i] else '_')
  }

  /** The whole rewrite of a non-empty name; an empty name is left alone. */
  function Sanitized(s: seq<char>): seq<char>
  {
    if s == [] then [] else FixAll(FixFirst(s))
  }

  /** The rewrite keeps the length, yields a name, and changes only
      characters that were not allowed where they stood, each into '_'. */
  lemma SanitizedIsName(s: seq<char>)
    ensures |Sanitized(s)| == |s|
    ensures s != [] ==> IsName(Sanitized(s))
    ensures forall i :: 0 <= i < |s| ==>
      Sanitized(s)[i] == (if (if i == 0 then IsAlpha(s[i]) else IsAlnum(s[i])) then s[i] else '_')
  {
    if s != [] {
      var f := FixFirst(s);
      assert forall i :: 0 < i < |s| ==> f[i] == f[1..][i - 1] == s[1..][i - 1] == s[i];
    }
  }

  /** Names are exactly the strings the rewrite leaves unchanged. */
  lemma SanitizedFixesNames(s: seq<char>)
    ensures s != [] ==> (Sanitized(s) == s <==> IsName(s))
  {
    SanitizedIsName(s);
    if s != [] && IsName(s) {
      forall i | 0 <= i < |s|
        ensures Sanitized(s)[i] == s[i]
      {
        if i == 0 {
          assert !IsAlpha(s[0]) ==> s[0] == '_';
        } else {
          assert NameChar(s[i]);
        }
      }
    }
  }

  /** Rewriting twice is rewriting once. */
  lemma SanitizedIdempotent(s: seq<char>)
    ensures Sanitized(Sanitized(s)) == Sanitized(s)
  {
    SanitizedIsName(s);
    SanitizedFixesNames(Sanitized(s));
  }

  /** The loop as written, on the whole buffer `b` from index `k`: it stops
      at a NUL, and None means it ran past the end of the buffer. */
  function LoopFrom(b: seq<char>, k: nat): (r: Option<seq<char>>)
    requires k <= |b|
    ensures r.Some? ==> |r.value| == |b|
    decreases |b| - k
  {
    if k == |b| then None
    else if b[k] == '\0' then Some(b)
    else LoopFrom(b[k := if IsAlnum(b[k]) then b[k] else '_'], k + 1)
  }

  /** xmltagsanitize as written, on the C string at `p` of buffer `b`. */
  function AsWritten(b: seq<char>, p: nat): Option<seq<char>>
    requires p < |b|
  {
    LoopFrom(if IsAlpha(b[p]) then b else b[p := '_'], p)
  }

  /** On an empty name the first statement overwrites the terminator and
      the loop runs on: off the end of the buffer when that NUL was the
      last byte, and across the next field otherwise. */
  lemma AsWrittenEmptyRunsOn()
    ensures AsWritten("\0", 0) == None
    ensures AsWritten("\0b-c\0", 0) == Some("_b_c\0")
  {
    var u := "_";
    assert "\0"[0 := '_'] == u && u[0 := '_'] == u;
    assert LoopFrom(u, 0) == LoopFrom(u, 1) == None;
    var b0 := "_b-c\0";
    var b1 := "_b_c\0";
    assert "\0b-c\0"[0 := '_'] == b0 && b0[0 := '_'] == b0 && b0[1 := 'b'] == b0;
    assert b0[2 := '_'] == b1 && b1[3 := 'c'] == b1;
    assert LoopFrom(b1, 4) == Some(b1);
    assert LoopFrom(b0, 0) == LoopFrom(b0, 1) == LoopFrom(b0, 2) == LoopFrom(b1, 3) == LoopFrom(b1, 4);
  }

  /** The loop as written rewrites the string from `k` to its NUL. */
  lemma {:induction false} LoopFromFixes(b: seq<char>, k: nat)
    requires Terminated(b) && k < |b|
    ensures LoopFrom(b, k) == Some(b[..k] + FixAll(CStr(b, k)) + b[StrEnd(b, k)..])
    decreases |b| - k
  {
    var e := StrEnd(b, k);
    if b[k] == '\0' {
      assert CStr(b, k) == [] && FixAll([]) == [];
      assert b[..k] + [] + b[k..] == b;
    } else {
      var b' := b[k := if IsAlnum(b[k]) then b[k] else '_'];
      StrEndFrom(b, k, k + 1);
      StrEndAt(b', k + 1, e);
      LoopFromFixes(b', k + 1);
      FixStep(b, k, e);
    }
  }

  /** One pass of the loop moves one character from the string into the
      rewritten prefix. */
  lemma FixStep(b: seq<char>, k: nat, e: nat)
    requires k < e <= |b|
    ensures var b' := b[k := if IsAlnum(b[k]) then b[k] else '_'];
      b'[..k + 1] + FixAll(b'[k + 1..e]) + b'[e..] == b[..k] + FixAll(b[k..e]) + b[e..]
  {
    var c := if IsAlnum(b[k]) then b[k] else '_';
    var b' := b[k := c];
    assert b'[..k + 1] == b[..k] + [c];
    assert b'[k + 1..e] == b[k + 1..e] && b'[e..] == b[e..];
    assert FixAll(b[k..e]) == [c] + FixAll(b[k + 1..e]);
  }

  /** On a non-empty name the source does what Sanitized says. */
  lemma AsWrittenAgrees(b: seq<char>, p: nat)
    requires Terminated(b) && p < |b| && b[p] != '\0'
    ensures AsWritten(b, p) == Some(b[..p] + Sanitized(CStr(b, p)) + b[StrEnd(b, p)..])
  {
    var e := StrEnd(b, p);
    var b1 := if IsAlpha(b[p]) then b else b[p := '_'];
    StrEndAt(b1, p, e);
    LoopFromFixes(b1, p);
    assert b1[p..e] == FixFirst(b[p..e]);
    assert b1[..p] == b[..p] && b1[e..] == b[e..];
  }

  /** xmltagsanitize with the first statement guarded against the empty
      name: the C string at `p` of the buffer becomes Sanitized of it and
      nothing else changes. */
  method Sanitize(a: array<char>, p: nat)
    requires p < a.Length && Terminated(a[..])
    modifies a
    ensures var e := StrEnd(old(a[..]), p);
      a[..] == old(a[..p]) + Sanitized(old(a[p..e])) + old(a[e..])
  {
    ghost var s0 := a[..];
    ghost var e := StrEnd(s0, p);
    ghost var t := Sanitized(s0[p..e]);
    SanitizedIsName(s0[p..e]);
    if a[p] != '\0' && !IsAlpha(a[p]) {
      a[p] := '_';
    }
    var k := p;
    while a[k] != '\0'
      invariant p <= k <= e
      invariant forall j :: 0 <= j < p || e <= j < a.Length ==> a[j] == s0[j]
      invariant forall j :: p <= j < k ==> a[j] == t[j - p]
      invariant forall j :: k < j < e ==> a[j] == s0[j]
      invariant k < e ==> a[k] == (if k == p && !IsAlpha(s0[p]) then '_' else s0[k])
      decreases e - k
    {
      if !IsAlnum(a[k]) {
        a[k] := '_';
      }
      k := k + 1;
    }
    assert a[..] == s0[..p] + t + s0[e..];
  }
}
