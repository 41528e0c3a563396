/**
 * What the record assembler of src/csvcut.c:350-369 reads: whole physical
 * lines, appended verbatim, until the per-line parity rule stops it; and
 * how that rule compares with the cumulative rule "a record ends at the
 * first line end where its quote count is even".
 */
module AssemblerLaws {

  import opened Libc
  import opened Quotes
  import opened Assembler

  /** fgets stops after the first newline it stores. */
  lemma {:induction false} ChunkNoNewline(input: seq<char>, pos: nat, m: nat)
    requires pos < |input| && m >= 1
    ensures forall k :: pos <= k < ChunkEnd(input, pos, m) - 1 ==> input[k] != '\n'
    decreases m
  {
    if !(input[pos] == '\n' || m == 1 || pos + 1 == |input|) {
      ChunkNoNewline(input, pos + 1, m - 1);
    }
  }

  /** The index just past the physical line that starts at `pos`: past its
      newline, or the end of the input when it has none. */
  function NextLine(input: seq<char>, pos: nat): (e: nat)
    requires pos <= |input|
    ensures pos <= e <= |input|
    ensures pos < |input| ==> pos < e
    ensures pos < e < |input| ==> input[e - 1] == '\n'
    decreases |input| - pos
  {
    if pos == |input| then pos
    else if input[pos] == '\n' then pos + 1
    else NextLine(input, pos + 1)
  }

  /** Bytes that are not newlines do not move the end of the line. */
  lemma {:induction false} NextLineSkip(input: seq<char>, pos: nat, e: nat)
    requires pos <= e <= |input|
    requires forall k :: pos <= k < e ==> input[k] != '\n'
    ensures NextLine(input, pos) == NextLine(input, e)
    decreases e - pos
  {
    if pos < e {
      NextLineSkip(input, pos + 1, e);
    }
  }

  /** A line ends just past its first newline. */
  lemma NextLineAt(input: seq<char>, pos: nat, e: nat)
    requires pos < e <= |input| && input[e - 1] == '\n'
    requires forall k :: pos <= k < e - 1 ==> input[k] != '\n'
    ensures NextLine(input, pos) == e
  {
    NextLineSkip(input, pos, e - 1);
  }

  /** The line input[pos..e] is the last one: it has no newline to end it. */
  predicate Unterminated(input: seq<char>, pos: nat, e: nat)
    requires pos <= e <= |input|
  {
    !(pos < e && input[e - 1] == '\n')
  }

  /** `l` is the physical line at the stream position of `a`, appended
      verbatim, with its quotes counted; it ends the input exactly when it
      has no newline; the buffer grew by whole BUFCHUNKs. */
  ghost predicate ReadsLine(input: seq<char>, a: Asm, l: LineRead)
    requires a.pos <= |input|
  {
    && l.st.pos == NextLine(input, a.pos)
    && l.st.text == a.text + input[a.pos..l.st.pos]
    && l.quotes == Count(input[a.pos..l.st.pos], '"')
    && (l.eof <==> Unterminated(input, a.pos, l.st.pos))
    && l.st.bufsiz >= a.bufsiz
    && (l.st.bufsiz - a.bufsiz) % BUFCHUNK == 0
  }

  /** One more BUFCHUNK keeps a growth a whole number of BUFCHUNKs. */
  lemma GrowthStep(d: int)
    requires d % BUFCHUNK == 0
    ensures (d + BUFCHUNK) % BUFCHUNK == 0
  {
  }

  /** A chunk without a newline, then the rest of the line. */
  lemma ReadsLineMore(input: seq<char>, a: Asm, e: nat, lb: LineRead, q: nat)
    requires a.pos < e <= |input| && q == Count(input[a.pos..e], '"')
    requires forall k :: a.pos <= k < e ==> input[k] != '\n'
    requires ReadsLine(input, Asm(e, a.text + input[a.pos..e], a.bufsiz + BUFCHUNK), lb)
    ensures ReadsLine(input, a, AddQuotes(lb, q))
  {
    var c := input[a.pos..e];
    var p := lb.st.pos;
    NextLineSkip(input, a.pos, e);
    assert input[a.pos..p] == c + input[e..p];
    CountAppend(c, input[e..p], '"');
    assert lb.st.text == a.text + (c + input[e..p]);
    GrowthStep(lb.st.bufsiz - (a.bufsiz + BUFCHUNK));
  }

  /** One pass of the inner loop with room for at least one byte: it
      either reads the whole line, or a part of it without a newline after
      which the buffer has grown by BUFCHUNK. */
  lemma ChunkStepReads(input: seq<char>, a: Asm)
    requires Ready(input, a) && a.bufsiz - |a.text| >= 2
    ensures match ChunkStep(input, a)
      case Done(l) => ReadsLine(input, a, l)
      case More(b, q) =>
        && a.pos < b.pos <= |input|
        && b == Asm(b.pos, a.text + input[a.pos..b.pos], a.bufsiz + BUFCHUNK)
        && q == Count(input[a.pos..b.pos], '"')
        && (forall k :: a.pos <= k < b.pos ==> input[k] != '\n')
        && b.bufsiz - |b.text| >= 2
  {
    var n := a.bufsiz - |a.text|;
    if a.pos == |input| {
      ChunkAtEnd(input, a);
      assert input[a.pos..a.pos] == [];
    } else {
      var e := ChunkEnd(input, a.pos, n - 1);
      assert FGets(input, a.pos, n) == Some(e);
      ChunkNoNewline(input, a.pos, n - 1);
      var c := input[a.pos..e];
      var t := a.text + c;
      assert t[|t| - 1] == input[e - 1];
      if input[e - 1] == '\n' {
        ChunkEnds(input, a, e, t);
        NextLineAt(input, a.pos, e);
      } else {
        ChunkGoesOn(input, a, e, t);
      }
    }
  }

  /** The inner loop, with room for at least one byte, reads exactly the
      physical line at the stream position (see ReadsLine). */
  lemma {:induction false} ReadLineReads(input: seq<char>, a: Asm)
    requires Ready(input, a) && a.bufsiz - |a.text| >= 2
    ensures ReadsLine(input, a, ReadLine(input, a))
    decreases |input| - a.pos
  {
    ChunkStepReads(input, a);
    match ChunkStep(input, a)
    case Done(l) =>
      ReadLineDone(input, a, l);
    case More(b, q) =>
      ReadLineMore(input, a, b, q);
      ReadLineReads(input, b);
      ReadsLineMore(input, a, b.pos, ReadLine(input, b), q);
  }

  /** With room only for the NUL (the buffer then ends in a newline),
      fgets stores an empty string and the inner loop reads nothing. */
  lemma ReadLineNoRoom(input: seq<char>, a: Asm)
    requires Ready(input, a) && a.bufsiz - |a.text| == 1
    ensures ReadLine(input, a) == LineRead(a, 0, false)
  {
    assert FGets(input, a.pos, 1) == Some(a.pos);
    assert a.text + input[a.pos..a.pos] == a.text;
    ChunkEnds(input, a, a.pos, a.text);
    ReadLineDone(input, a, LineRead(a, 0, false));
  }

  /** Whatever the room, the inner loop appends the bytes it consumes
      verbatim and counts their quotes. */
  lemma ReadLineVerbatim(input: seq<char>, a: Asm)
    requires Ready(input, a)
    ensures var l := ReadLine(input, a);
      && l.st.text == a.text + input[a.pos..l.st.pos]
      && l.quotes == Count(input[a.pos..l.st.pos], '"')
  {
    if a.bufsiz - |a.text| == 1 {
      ReadLineNoRoom(input, a);
      assert input[a.pos..a.pos] == [];
    } else {
      ReadLineReads(input, a);
    }
  }

  /** Two adjacent slices appended one after the other. */
  lemma AppendSlices(t: seq<char>, s: seq<char>, i: nat, j: nat, k: nat)
    requires i <= j <= k <= |s|
    ensures t + s[i..j] + s[j..k] == t + s[i..k]
  {
    assert s[i..k] == s[i..j] + s[j..k];
  }

  /** The outer loop appends the bytes it consumes verbatim. */
  lemma {:induction false} AssembleVerbatim(input: seq<char>, a: Asm, req: nat)
    requires Ready(input, a) && req <= 1
    ensures var r := AssembleFrom(input, a, req);
      r.st.text == a.text + input[a.pos..r.st.pos]
    decreases 2 * (|input| - a.pos) + (1 - req)
  {
    var goal := AssembleFrom(input, a, req);
    var l := ReadLine(input, a);
    AssembleStep(input, a, req, goal);
    ReadLineVerbatim(input, a);
    if !(l.eof || l.quotes % 2 == 1 - req) {
      AssembleVerbatim(input, l.st, 1 - req);
      AppendSlices(a.text, input, a.pos, l.st.pos, goal.st.pos);
    }
  }

  /** The quotes of the physical line at `pos`. */
  function LineQuotes(input: seq<char>, pos: nat): nat
    requires pos <= |input|
  {
    Count(input[pos..NextLine(input, pos)], '"')
  }

  /** Where a record starting at `pos` ends, and whether the input ran
      out in it. */
  datatype Span = Span(end: nat, eof: bool)

  /** The rule of src/csvcut.c:350-368 on whole lines: `req` is the target
      of the previous line; the next line is tested against 1 - req, so
      the k-th line of a record ends it when its own quote parity differs
      from k's, and the record always ends at the last line of the input. */
  function ParityRule(input: seq<char>, pos: nat, req: nat): (r: Span)
    requires pos <= |input| && req <= 1
    ensures pos <= r.end <= |input|
    ensures pos < |input| ==> pos < r.end
    ensures r.eof ==> r.end == |input|
    ensures !r.eof ==> pos < r.end && input[r.end - 1] == '\n'
    decreases 2 * (|input| - pos) + (1 - req)
  {
    var e := NextLine(input, pos);
    if Unterminated(input, pos, e) then Span(e, true)
    else if LineQuotes(input, pos) % 2 == 1 - req then Span(e, false)
    else ParityRule(input, e, 1 - req)
  }

  /** No line end lies strictly inside a line. */
  lemma {:induction false} NextLineFirst(input: seq<char>, pos: nat)
    requires pos <= |input|
    ensures forall k :: pos <= k < NextLine(input, pos) - 1 ==> input[k] != '\n'
    decreases |input| - pos
  {
    if pos < |input| && input[pos] != '\n' {
      NextLineFirst(input, pos + 1);
    }
  }

  /** The quotes of adjacent slices add up. */
  lemma CountJoin(s: seq<char>, i: nat, j: nat, k: nat)
    requires i <= j <= k <= |s|
    ensures Count(s[i..k], '"') == Count(s[i..j], '"') + Count(s[j..k], '"')
  {
    assert s[i..k] == s[i..j] + s[j..k];
    CountAppend(s[i..j], s[j..k], '"');
  }

  /** The rule the assembler evidently means: a record ends at the first
      line end where the quotes counted so far (`q` before `pos`) are
      even, or at the last line of the input. */
  function IntendedFrom(input: seq<char>, pos: nat, q: nat): (r: Span)
    requires pos <= |input|
    ensures pos <= r.end <= |input|
    ensures pos < |input| ==> pos < r.end
    ensures r.eof ==> r.end == |input|
    ensures !r.eof ==> pos < r.end && input[r.end - 1] == '\n'
    decreases |input| - pos
  {
    var e := NextLine(input, pos);
    var q' := q + LineQuotes(input, pos);
    if Unterminated(input, pos, e) then Span(e, true)
    else if q' % 2 == 0 then Span(e, false)
    else IntendedFrom(input, e, q')
  }

  /** The intended record is balanced: unless the input ran out, the
      quotes up to its end are even. */
  lemma {:induction false} IntendedIsEven(input: seq<char>, pos: nat, q: nat)
    requires pos <= |input|
    ensures var r := IntendedFrom(input, pos, q);
      !r.eof ==> (q + Count(input[pos..r.end], '"')) % 2 == 0
    decreases |input| - pos
  {
    var e := NextLine(input, pos);
    var q' := q + LineQuotes(input, pos);
    if !Unterminated(input, pos, e) && q' % 2 != 0 {
      var r := IntendedFrom(input, e, q');
      assert IntendedFrom(input, pos, q) == r;
      IntendedIsEven(input, e, q');
      if !r.eof {
        CountJoin(input, pos, e, r.end);
      }
    }
  }

  /** At every line end `k` inside the intended record the quotes so far
      are odd, so it is the shortest balanced run of whole lines. */
  lemma {:induction false} IntendedIsFirst(input: seq<char>, pos: nat, q: nat, k: nat)
    requires pos <= |input| && pos <= k < IntendedFrom(input, pos, q).end - 1 && input[k] == '\n'
    ensures (q + Count(input[pos..k + 1], '"')) % 2 == 1
    decreases |input| - pos
  {
    var e := NextLine(input, pos);
    var q' := q + LineQuotes(input, pos);
    if k >= e {
      assert IntendedFrom(input, pos, q) == IntendedFrom(input, e, q');
      IntendedIsFirst(input, e, q', k);
      CountJoin(input, pos, e, k + 1);
      var c1, c2 := Count(input[pos..e], '"'), Count(input[e..k + 1], '"');
      assert q' == q + c1;
      assert q + Count(input[pos..k + 1], '"') == q' + c2;
    } else {
      NextLineFirst(input, pos);
      assert k + 1 == e;
      assert !Unterminated(input, pos, e) && q' % 2 != 0;
      assert q' == q + Count(input[pos..k + 1], '"');
    }
  }

  /** The assembler's outcome `r` is the span `s` of the input read from
      `p0`. */
  ghost predicate Follows(input: seq<char>, p0: nat, r: LineRead, s: Span)
    requires p0 <= s.end <= |input|
  {
    r.st.pos == s.end && r.st.text == input[p0..s.end] && r.eof == s.eof
  }

  /** One line read as ReadsLine says is one step of the parity rule. */
  lemma RuleStep(input: seq<char>, a: Asm, req: nat, p0: nat, l: LineRead)
    requires a.pos <= |input| && req <= 1 && p0 <= a.pos && a.text == input[p0..a.pos]
    requires ReadsLine(input, a, l)
    ensures l.st.text == input[p0..l.st.pos]
    ensures l.eof || l.quotes % 2 == 1 - req ==> ParityRule(input, a.pos, req) == Span(l.st.pos, l.eof)
    ensures !(l.eof || l.quotes % 2 == 1 - req) ==> ParityRule(input, a.pos, req) == ParityRule(input, l.st.pos, 1 - req)
  {
    AppendSlices([], input, p0, a.pos, l.st.pos);
  }

  /** Every line the outer loop reads from `a` on, up to the end of the
      record, starts with room for at least one byte besides the NUL. */
  ghost predicate RoomForEveryLine(input: seq<char>, a: Asm, req: nat)
    requires Ready(input, a) && req <= 1
    decreases 2 * (|input| - a.pos) + (1 - req)
  {
    && a.bufsiz - |a.text| >= 2
    && var l := ReadLine(input, a);
      (l.eof || l.quotes % 2 == 1 - req || RoomForEveryLine(input, l.st, 1 - req))
  }

  /** While every line of the record starts with room for a byte, the
      outer loop follows the parity rule line by line. */
  lemma {:induction false} AssembleFollowsRule(input: seq<char>, a: Asm, req: nat, p0: nat)
    requires Ready(input, a) && req <= 1 && p0 <= a.pos && a.text == input[p0..a.pos]
    requires RoomForEveryLine(input, a, req)
    ensures Follows(input, p0, AssembleFrom(input, a, req), ParityRule(input, a.pos, req))
    decreases 2 * (|input| - a.pos) + (1 - req)
  {
    var goal := AssembleFrom(input, a, req);
    var l := ReadLine(input, a);
    AssembleStep(input, a, req, goal);
    ReadLineReads(input, a);
    RuleStep(input, a, req, p0, l);
    if l.eof || l.quotes % 2 == 1 - req {
      assert goal.st == l.st && goal.eof == l.eof;
    } else {
      assert goal == AssembleFrom(input, l.st, 1 - req);
      AssembleFollowsRule(input, l.st, 1 - req, p0);
    }
  }

  /** The room condition, one line at a time. */
  lemma RoomStep(input: seq<char>, a: Asm, req: nat, l: LineRead)
    requires Ready(input, a) && req <= 1 && a.bufsiz - |a.text| >= 2 && l == ReadLine(input, a)
    requires l.eof || l.quotes % 2 == 1 - req || RoomForEveryLine(input, l.st, 1 - req)
    ensures RoomForEveryLine(input, a, req)
  {
  }

  /** The record from `a`, read from `p0` on, fits in the buffer with two
      bytes to spare. */
  ghost predicate Fits(input: seq<char>, a: Asm, req: nat, p0: nat)
  {
    && a.pos <= |input| && req <= 1 && p0 <= a.pos && a.text == input[p0..a.pos]
    && ParityRule(input, a.pos, req).end - p0 + 2 <= a.bufsiz
  }

  /** A line read within a record that fits leaves the rest of the record
      fitting, further on in the input. */
  lemma FitsStep(input: seq<char>, a: Asm, req: nat, p0: nat, l: LineRead)
    requires Fits(input, a, req, p0) && ReadsLine(input, a, l)
    ensures !(l.eof || l.quotes % 2 == 1 - req) ==> Fits(input, l.st, 1 - req, p0) && a.pos < l.st.pos
  {
    RuleStep(input, a, req, p0, l);
  }

  /** A record that fits in the buffer with two bytes to spare leaves room
      for a byte at the start of each of its lines. */
  lemma {:induction false} FitsHasRoom(input: seq<char>, a: Asm, req: nat, p0: nat)
    requires Ready(input, a) && Fits(input, a, req, p0)
    ensures RoomForEveryLine(input, a, req)
    decreases 2 * (|input| - a.pos) + (1 - req)
  {
    var l := ReadLine(input, a);
    assert |a.text| == a.pos - p0;
    ReadLineReads(input, a);
    FitsStep(input, a, req, p0, l);
    if !(l.eof || l.quotes % 2 == 1 - req) {
      FitsHasRoom(input, l.st, 1 - req, p0);
    }
    RoomStep(input, a, req, l);
  }

  /** One record read from `pos` with a fresh buffer of `bufsiz` bytes is
      the run of whole lines the parity rule picks, copied verbatim, as
      long as no line of it starts with room for the NUL alone. */
  lemma AssembleIsParityRule(input: seq<char>, pos: nat, bufsiz: nat)
    requires pos <= |input| && bufsiz >= 2
    requires RoomForEveryLine(input, Asm(pos, [], bufsiz), 1)
    ensures var r := Assemble(input, pos, bufsiz);
      var s := ParityRule(input, pos, 1);
      r.st.pos == s.end && r.st.text == input[pos..s.end] && r.eof == s.eof
  {
    AssembleFollowsRule(input, Asm(pos, [], bufsiz), 1, pos);
  }

  /** In particular, a record that fits in the first buffer with two bytes
      to spare is the run of lines the parity rule picks. */
  lemma AssembleFitsParityRule(input: seq<char>, pos: nat, bufsiz: nat)
    requires pos <= |input| && bufsiz >= 2
    requires ParityRule(input, pos, 1).end - pos + 2 <= bufsiz
    ensures var r := Assemble(input, pos, bufsiz);
      var s := ParityRule(input, pos, 1);
      r.st.pos == s.end && r.st.text == input[pos..s.end] && r.eof == s.eof
  {
    FitsHasRoom(input, Asm(pos, [], bufsiz), 1, pos);
    AssembleIsParityRule(input, pos, bufsiz);
  }

  /** A line that starts with room for the NUL alone ends the record
      early: fgets stores an empty string with no quotes, which matches
      the parity target at once or after one more empty read, and the
      record is what was read before it, not at the end of the input. */
  lemma EarlyClose(input: seq<char>, a: Asm, req: nat)
    requires Ready(input, a) && req <= 1 && a.bufsiz - |a.text| == 1
    ensures AssembleFrom(input, a, req) == LineRead(a, 0, false)
  {
    ReadLineNoRoom(input, a);
    if req == 0 {
      assert AssembleFrom(input, a, req) == AssembleFrom(input, a, 1);
    }
  }

  /** From the second line of a record whose first line had an odd
      number `q1` of quotes, the two rules agree as long as either ends it
      at that second line. */
  lemma SecondLineAgrees(input: seq<char>, e1: nat, q1: nat)
    requires e1 <= |input| && q1 % 2 == 1
    ensures var e2 := NextLine(input, e1);
      var p := ParityRule(input, e1, 0);
      var i := IntendedFrom(input, e1, q1);
      (p.end <= e2 || i.end <= e2) ==> p == i
  {
    var e2 := NextLine(input, e1);
    var q2 := LineQuotes(input, e1);
    if !Unterminated(input, e1, e2) && q2 % 2 == 0 {
      SecondLineOn(input, e1, q1);
      if e2 == |input| {
        RulesAtEnd(input, 1, q1 + q2);
      }
    }
  }

  /** A second line that ends neither rule's record hands both rules on
      to the third line. */
  lemma SecondLineOn(input: seq<char>, e1: nat, q1: nat)
    requires e1 <= |input| && q1 % 2 == 1
    requires !Unterminated(input, e1, NextLine(input, e1)) && LineQuotes(input, e1) % 2 == 0
    ensures ParityRule(input, e1, 0) == ParityRule(input, NextLine(input, e1), 1)
    ensures IntendedFrom(input, e1, q1) == IntendedFrom(input, NextLine(input, e1), q1 + LineQuotes(input, e1))
  {
  }

  /** At the end of the input both rules end the record there. */
  lemma RulesAtEnd(input: seq<char>, req: nat, q: nat)
    requires req <= 1
    ensures ParityRule(input, |input|, req) == Span(|input|, true)
    ensures IntendedFrom(input, |input|, q) == Span(|input|, true)
  {
  }

  /** A record read before the end of the input consumes at least one
      byte. */
  lemma AssembleProgress(input: seq<char>, pos: nat, bufsiz: nat)
    requires pos <= |input| && bufsiz >= 2
    ensures var r := Assemble(input, pos, bufsiz);
      r.eof || pos < r.st.pos
  {
    var a := Asm(pos, [], bufsiz);
    AssembleStep(input, a, 1, Assemble(input, pos, bufsiz));
    ReadLineReads(input, a);
  }

  /** For records of one or two lines the two rules agree: whenever either
      ends the record within the first two lines, both give the same
      record. */
  lemma TwoLinesAgree(input: seq<char>, pos: nat)
    requires pos <= |input|
    ensures var e2 := NextLine(input, NextLine(input, pos));
      var p := ParityRule(input, pos, 1);
      var i := IntendedFrom(input, pos, 0);
      (p.end <= e2 || i.end <= e2) ==> p == i
  {
    var e1 := NextLine(input, pos);
    var q1 := LineQuotes(input, pos);
    if !Unterminated(input, pos, e1) && q1 % 2 != 0 {
      assert ParityRule(input, pos, 1) == ParityRule(input, e1, 0);
      assert IntendedFrom(input, pos, 0) == IntendedFrom(input, e1, q1);
      SecondLineAgrees(input, e1, q1);
    }
  }

  /** A quoted field over three lines: the first line has one quote, the
      second none, the third one. */
  const Glued: seq<char> := "\"a\nb\nc\"\nd\n"

  /** The lines of Glued and their quotes. */
  lemma GluedLines()
    ensures |Glued| == 10
    ensures NextLine(Glued, 0) == 3 && NextLine(Glued, 3) == 5
    ensures NextLine(Glued, 5) == 8 && NextLine(Glued, 8) == 10 && NextLine(Glued, 10) == 10
    ensures LineQuotes(Glued, 0) == 1 && LineQuotes(Glued, 3) == 0
    ensures LineQuotes(Glued, 5) == 1 && LineQuotes(Glued, 8) == 0
  {
    var s := Glued;
    assert NextLine(s, 9) == 10;
    assert NextLine(s, 7) == 8 && NextLine(s, 6) == 8;
    assert NextLine(s, 4) == 5;
    assert NextLine(s, 2) == 3 && NextLine(s, 1) == 3;
    assert s[0..3] == ['"', 'a', '\n'];
    assert s[3..5] == ['b', '\n'];
    assert s[5..8] == ['c', '"', '\n'];
    assert s[8..10] == ['d', '\n'];
    CountIsMultiplicity(s[0..3], '"');
    CountIsMultiplicity(s[3..5], '"');
    CountIsMultiplicity(s[5..8], '"');
    CountIsMultiplicity(s[8..10], '"');
  }

  /** The per-line rule does not end the record after the third line,
      whose quote closes the field, and glues the next line "d" onto it up
      to the end of the input; the intended rule ends it after the third
      line. */
  lemma ThirdLineGlued(bufsiz: nat)
    requires bufsiz >= 12
    ensures |Glued| == 10
    ensures var r := Assemble(Glued, 0, bufsiz);
      r.st.text == Glued && r.eof
    ensures IntendedFrom(Glued, 0, 0) == Span(8, false)
  {
    var s := Glued;
    GluedLines();
    assert ParityRule(s, 10, 1) == Span(10, true);
    assert ParityRule(s, 8, 0) == Span(10, true);
    assert ParityRule(s, 5, 1) == Span(10, true);
    assert ParityRule(s, 3, 0) == Span(10, true);
    assert ParityRule(s, 0, 1) == Span(10, true);
    AssembleFitsParityRule(s, 0, bufsiz);
    assert s[0..10] == s;
    assert IntendedFrom(s, 5, 1) == Span(8, false);
    assert IntendedFrom(s, 3, 1) == Span(8, false);
  }
  /** A quoted field over two lines whose first line is four bytes long. */
  const Tight: seq<char> := "\"ab\nc\"\n"

  /** The lines of Tight, their quotes, and the record the parity rule
      picks: both lines. */
  lemma TightLines()
    ensures |Tight| == 7
    ensures NextLine(Tight, 0) == 4 && NextLine(Tight, 4) == 7
    ensures LineQuotes(Tight, 0) == 1 && LineQuotes(Tight, 4) == 1
    ensures ParityRule(Tight, 0, 1) == Span(7, false)
  {
    var s := Tight;
    assert NextLine(s, 6) == 7 && NextLine(s, 5) == 7;
    assert NextLine(s, 3) == 4 && NextLine(s, 2) == 4 && NextLine(s, 1) == 4;
    assert s[0..4] == ['"', 'a', 'b', '\n'];
    assert s[4..7] == ['c', '"', '\n'];
    CountIsMultiplicity(s[0..4], '"');
    CountIsMultiplicity(s[4..7], '"');
    assert ParityRule(s, 4, 0) == Span(7, false);
  }

  /** With a five-byte buffer the first line of Tight leaves room for the
      NUL alone, so the record ends after it with its field still open. */
  lemma TightBufferCloses()
    ensures |Tight| == 7 && ParityRule(Tight, 0, 1) == Span(7, false)
    ensures Assemble(Tight, 0, 5) == LineRead(Asm(4, Tight[..4], 5), 0, false)
  {
    TightLines();
    var a := Asm(0, [], 5);
    ReadLineReads(Tight, a);
    var l := ReadLine(Tight, a);
    assert l == LineRead(Asm(4, Tight[..4], 5), 1, false);
    EarlyClose(Tight, l.st, 0);
  }

  /** With a six-byte buffer every line of Tight starts with room for a
      byte, and the record is both lines. */
  lemma TightBufferRoomy()
    ensures |Tight| == 7
    ensures var r := Assemble(Tight, 0, 6);
      r.st.text == Tight && !r.eof
  {
    TightLines();
    var b := Asm(0, [], 6);
    ReadLineReads(Tight, b);
    var l := ReadLine(Tight, b);
    ReadLineReads(Tight, l.st);
    RoomStep(Tight, l.st, 0, ReadLine(Tight, l.st));
    RoomStep(Tight, b, 1, l);
    AssembleIsParityRule(Tight, 0, 6);
    assert Tight[0..7] == Tight;
  }
}
