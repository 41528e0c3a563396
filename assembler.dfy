/**
 * The logical-record assembler of csv_cut (src/csvcut.c:350-369): it
 * reads physical lines with fgets into a buffer that grows by BUFCHUNK,
 * and goes on reading while a per-line quote-parity test against an
 * alternating target `req` says a quoted field is still open.
 */
module Assembler {

  import opened Libc
  import opened Quotes

  /** The growth step of the line buffer (src/csvcut.c:41). */
  const BUFCHUNK: nat := 512

  /** The index just past the chunk that fgets reads from `pos` when it may
      store `m` characters: it stops after a newline, after `m`
      characters, or at the end of the input. */
  function ChunkEnd(input: seq<char>, pos: nat, m: nat): (e: nat)
    requires pos < |input| && m >= 1
    ensures pos < e <= |input| && e - pos <= m
    ensures e - pos < m && e < |input| ==> input[e - 1] == '\n'
    decreases m
  {
    if input[pos] == '\n' || m == 1 || pos + 1 == |input| then pos + 1 else ChunkEnd(input, pos + 1, m - 1)
  }

  /** fgets(&buf[lnx], n, fp) with the stream at `pos`: the new stream
      position, the chunk read being input[pos..that], or None for NULL.
      With n == 1 there is room only for the NUL: nothing is read and the
      call succeeds, as glibc's fgets does. */
  function FGets(input: seq<char>, pos: nat, n: nat): (r: Option<nat>)
    requires pos <= |input| && n >= 1
    ensures r.Some? ==> pos <= r.value <= |input| && r.value - pos < n
    ensures r.Some? && n >= 2 ==> pos < r.value
    ensures r.None? <==> n >= 2 && pos == |input|
  {
    if n == 1 then Some(pos)
    else if pos == |input| then None
    else Some(ChunkEnd(input, pos, n - 1))
  }

  /** The stream position, the bytes buf[0..lnx] and bufsiz; lnxsiz is
      bufsiz - lnx. */
  datatype Asm = Asm(pos: nat, text: seq<char>, bufsiz: nat)

  /** What the assembler keeps between fgets calls: a NUL still fits, and
      when only the NUL fits the text ends in a newline (the buffer grows
      after every chunk that does not). */
  predicate Ready(input: seq<char>, a: Asm)
  {
    && a.pos <= |input|
    && |a.text| < a.bufsiz
    && (a.bufsiz - |a.text| == 1 ==> a.text != [] && a.text[|a.text| - 1] == '\n')
  }

  /** The outcome of the inner loop: where it leaves the assembler, the
      quotes it counted, and whether fgets returned NULL. */
  datatype LineRead = LineRead(st: Asm, quotes: nat, eof: bool)

  /** What one pass of the inner loop leads to: the line is read (fgets
      returned NULL, or the buffer now ends in a newline), or reading goes
      on from a grown buffer after a chunk with `quotes` quotes. */
  datatype Chunked = Done(line: LineRead) | More(next: Asm, quotes: nat)

  /** One pass of the inner loop (src/csvcut.c:355-366): fgets at
      buf[lnx] with lnxsiz bytes of room, the chunk's quotes, and BUFCHUNK
      more bytes when the chunk does not end in a newline. */
  function ChunkStep(input: seq<char>, a: Asm): (r: Chunked)
    requires Ready(input, a)
    ensures r.More? ==> Ready(input, r.next) && a.pos < r.next.pos
    ensures r.Done? ==> Ready(input, r.line.st) && a.pos <= r.line.st.pos && a.bufsiz <= r.line.st.bufsiz
    ensures r.Done? && r.line.st.pos == a.pos ==> r.line.quotes == 0
    ensures r.More? ==> a.bufsiz <= r.next.bufsiz
  {
    match FGets(input, a.pos, a.bufsiz - |a.text|)
    case None => Done(LineRead(a, 0, true))
    case Some(e) =>
      var c := input[a.pos..e];
      var t := a.text + c;
      if t[|t| - 1] == '\n' then Done(LineRead(Asm(e, t, a.bufsiz), Count(c, '"'), false))
      else More(Asm(e, t, a.bufsiz + BUFCHUNK), Count(c, '"'))
  }

  /** The inner loop (src/csvcut.c:353-367): chunks until one ends in a
      newline or fgets returns NULL. */
  function ReadLine(input: seq<char>, a: Asm): (r: LineRead)
    requires Ready(input, a)
    ensures Ready(input, r.st) && a.pos <= r.st.pos && a.bufsiz <= r.st.bufsiz
    ensures r.st.pos == a.pos ==> r.quotes == 0
    decreases |input| - a.pos
  {
    match ChunkStep(input, a)
    case Done(l) => l
    case More(b, q) => AddQuotes(ReadLine(input, b), q)
  }

  /** The outer loop (src/csvcut.c:351-369) from a state where `req` holds
      the target of the previous line: flip `req`, read a line, and stop
      when its quote parity equals the new `req` or fgets returned NULL. */
  function AssembleFrom(input: seq<char>, a: Asm, req: nat): (r: LineRead)
    requires Ready(input, a) && req <= 1
    ensures Ready(input, r.st) && a.pos <= r.st.pos && a.bufsiz <= r.st.bufsiz
    decreases 2 * (|input| - a.pos) + (1 - req)
  {
    var req' := 1 - req;
    var l := ReadLine(input, a);
    if l.eof || l.quotes % 2 == req' then l
    else AssembleFrom(input, l.st, req')
  }

  /** One logical record read from `pos` with a buffer of `bufsiz` bytes:
      buf[0]='\0', req=1, lnx=0, lnxsiz=bufsiz (src/csvcut.c:351). */
  function Assemble(input: seq<char>, pos: nat, bufsiz: nat): (r: LineRead)
    requires pos <= |input| && bufsiz >= 2
    ensures Ready(input, r.st) && pos <= r.st.pos && bufsiz <= r.st.bufsiz
  {
    AssembleFrom(input, Asm(pos, [], bufsiz), 1)
  }

  /** The quotes of `r` plus `q` more. */
  function AddQuotes(r: LineRead, q: nat): LineRead
  {
    r.(quotes := r.quotes + q)
  }

  /** The chunk fgets stored at buf[lnx], read back as a C string. */
  lemma ChunkString(buf: seq<char>, c: seq<char>)
    requires '\0' !in c
    ensures Terminated(buf + c + ['\0']) && |buf| < |buf + c + ['\0']|
    ensures CStr(buf + c + ['\0'], |buf|) == c
  {
    var s := buf + c + ['\0'];
    forall k | |buf| <= k < |buf| + |c|
      ensures s[k] != '\0'
    {
      assert s[k] == c[k - |buf|];
    }
    StrEndAt(s, |buf|, |buf| + |c|);
  }

  /** fgets returned NULL: the line ends where it was. */
  lemma ChunkAtEnd(input: seq<char>, a: Asm)
    requires Ready(input, a) && FGets(input, a.pos, a.bufsiz - |a.text|).None?
    ensures ChunkStep(input, a) == Done(LineRead(a, 0, true))
  {
  }

  /** fgets read input[a.pos..e] and the buffer now ends in a newline,
      which ends the line. */
  lemma ChunkEnds(input: seq<char>, a: Asm, e: nat, t: seq<char>)
    requires Ready(input, a) && FGets(input, a.pos, a.bufsiz - |a.text|) == Some(e)
    requires t == a.text + input[a.pos..e] && t != [] && t[|t| - 1] == '\n'
    ensures ChunkStep(input, a) == Done(LineRead(Asm(e, t, a.bufsiz), Count(input[a.pos..e], '"'), false))
  {
  }

  /** fgets read input[a.pos..e] and the buffer does not end in a newline,
      so it grows and reading goes on. */
  lemma ChunkGoesOn(input: seq<char>, a: Asm, e: nat, t: seq<char>)
    requires Ready(input, a) && FGets(input, a.pos, a.bufsiz - |a.text|) == Some(e)
    requires t == a.text + input[a.pos..e] && t != [] && t[|t| - 1] != '\n'
    ensures ChunkStep(input, a) == More(Asm(e, t, a.bufsiz + BUFCHUNK), Count(input[a.pos..e], '"'))
  {
  }

  /** The inner loop after a pass that reads on. */
  lemma ReadLineMore(input: seq<char>, a: Asm, b: Asm, q: nat)
    requires Ready(input, a) && ChunkStep(input, a) == More(b, q)
    ensures ReadLine(input, a) == AddQuotes(ReadLine(input, b), q)
  {
  }

  /** The inner loop after a pass that ends the line. */
  lemma ReadLineDone(input: seq<char>, a: Asm, l: LineRead)
    requires Ready(input, a) && ChunkStep(input, a) == Done(l)
    ensures ReadLine(input, a) == l
  {
  }

  /** What fgets stores leaves the buffer non-empty: either it read a
      character, or there was room only for the NUL and the buffer already
      ended in a newline. */
  lemma ChunkNonEmpty(input: seq<char>, a: Asm, e: nat)
    requires Ready(input, a) && FGets(input, a.pos, a.bufsiz - |a.text|) == Some(e)
    ensures |a.text + input[a.pos..e]| == |a.text| + (e - a.pos) > 0
  {
  }

  /** Where the outer loop stands with respect to the record `goal`:
      while it goes on, the rest of the loop from `a` yields `goal`; once
      it stops, the assembler holds `goal`. */
  ghost predicate Pending(input: seq<char>, a: Asm, req: nat, noq: nat, atEnd: bool, goal: LineRead)
  {
    && Ready(input, a) && req <= 1
    && (!atEnd && noq != req ==> AssembleFrom(input, a, req) == goal)
    && (atEnd || noq == req ==> a == goal.st && atEnd == goal.eof)
  }

  /** One pass of the outer loop (src/csvcut.c:352-368): flip `req`, read
      a line, keep its quote parity; the loop measure goes down when it
      goes on. */
  lemma AssembleStep(input: seq<char>, a: Asm, req: nat, goal: LineRead)
    requires Ready(input, a) && req <= 1 && AssembleFrom(input, a, req) == goal
    ensures var l := ReadLine(input, a);
      && Pending(input, l.st, 1 - req, l.quotes % 2, l.eof, goal)
      && (!l.eof && l.quotes % 2 != 1 - req ==> 2 * (|input| - l.st.pos) + req < 2 * (|input| - a.pos) + (1 - req))
  {
  }

  /** One pass of the inner loop (src/csvcut.c:355-366) on csv_cut's
      locals: fgets at buf[lnx] with lnxsiz bytes of room; on NULL nothing
      changes and `atEnd` is set; otherwise the chunk's quotes are counted,
      lnx and lnxsiz move past it, and the buffer grows by BUFCHUNK when
      the last byte read is not a newline. */
  method ReadChunk(input: seq<char>, pos0: nat, buf0: seq<char>, bufsiz0: nat, lnxsiz0: nat)
    returns (pos: nat, buf: seq<char>, bufsiz: nat, lnx: nat, lnxsiz: nat, q: nat, lastchar: char, atEnd: bool)
    requires '\0' !in input && Ready(input, Asm(pos0, buf0, bufsiz0)) && |buf0| + lnxsiz0 == bufsiz0
    ensures Ready(input, Asm(pos, buf, bufsiz)) && lnx == |buf| && lnx + lnxsiz == bufsiz
    ensures atEnd ==> ChunkStep(input, Asm(pos0, buf0, bufsiz0)) == Done(LineRead(Asm(pos, buf, bufsiz), 0, true))
    ensures !atEnd && lastchar == '\n' ==> ChunkStep(input, Asm(pos0, buf0, bufsiz0)) == Done(LineRead(Asm(pos, buf, bufsiz), q, false))
    ensures !atEnd && lastchar != '\n' ==> ChunkStep(input, Asm(pos0, buf0, bufsiz0)) == More(Asm(pos, buf, bufsiz), q)
  {
    pos, buf, bufsiz, lnx, lnxsiz := pos0, buf0, bufsiz0, |buf0|, lnxsiz0;
    q, lastchar, atEnd := 0, '\0', false;
    var end := FGets(input, pos, lnxsiz);
    if end.None? {
      ChunkAtEnd(input, Asm(pos, buf, bufsiz));
      atEnd := true;
      return;
    }
    var c := input[pos..end.value];
    NoNulInChunk(input, pos, end.value);
    ChunkString(buf, c);
    var len;
    q, len := CountQuotes(buf + c + ['\0'], lnx);
    ChunkNonEmpty(input, Asm(pos0, buf0, bufsiz0), end.value);
    pos := end.value;
    buf := buf + c;
    lnx := lnx + len;
    lnxsiz := lnxsiz - len;
    lastchar := buf[lnx - 1];
    if lastchar != '\n' {
      ChunkGoesOn(input, Asm(pos0, buf0, bufsiz0), pos, buf);
      bufsiz := bufsiz + BUFCHUNK;
      lnxsiz := lnxsiz + BUFCHUNK;
    } else {
      ChunkEnds(input, Asm(pos0, buf0, bufsiz0), pos, buf);
    }
  }

  /** The inner loop (src/csvcut.c:353-367) on csv_cut's locals: read
      chunks until one ends in a newline or fgets returns NULL, adding each
      chunk's quotes to `noqc`; `atEnd` is `end == NULL`. */
  method ReadPhysicalLine(input: seq<char>, pos0: nat, buf0: seq<char>, bufsiz0: nat, lnxsiz0: nat)
    returns (pos: nat, buf: seq<char>, bufsiz: nat, lnx: nat, lnxsiz: nat, noqc: nat, atEnd: bool)
    requires '\0' !in input && Ready(input, Asm(pos0, buf0, bufsiz0)) && |buf0| + lnxsiz0 == bufsiz0
    ensures LineRead(Asm(pos, buf, bufsiz), noqc, atEnd) == ReadLine(input, Asm(pos0, buf0, bufsiz0))
    ensures lnx == |buf| && lnx + lnxsiz == bufsiz
  {
    pos, buf, bufsiz, lnx, lnxsiz := pos0, buf0, bufsiz0, |buf0|, lnxsiz0;
    noqc, atEnd := 0, false;
    ghost var goal := ReadLine(input, Asm(pos0, buf0, bufsiz0));
    var lastchar := '\0';
    while lastchar != '\n'
      invariant Ready(input, Asm(pos, buf, bufsiz)) && lnx == |buf| && lnx + lnxsiz == bufsiz && !atEnd
      invariant lastchar == '\n' ==> LineRead(Asm(pos, buf, bufsiz), noqc, false) == goal
      invariant lastchar != '\n' ==> AddQuotes(ReadLine(input, Asm(pos, buf, bufsiz)), noqc) == goal
      decreases |input| - pos + (if lastchar == '\n' then 0 else 1)
    {
      ghost var prev := Asm(pos, buf, bufsiz);
      var q;
      pos, buf, bufsiz, lnx, lnxsiz, q, lastchar, atEnd := ReadChunk(input, pos, buf, bufsiz, lnxsiz);
      if atEnd {
        ReadLineDone(input, prev, LineRead(prev, 0, true));
        break;
      }
      noqc := noqc + q;
      if lastchar != '\n' {
        ReadLineMore(input, prev, Asm(pos, buf, bufsiz), q);
      } else {
        ReadLineDone(input, prev, LineRead(Asm(pos, buf, bufsiz), q, false));
      }
    }
  }

  /** No chunk of an input without NUL bytes holds one. */
  lemma NoNulInChunk(input: seq<char>, i: nat, j: nat)
    requires '\0' !in input && i <= j <= |input|
    ensures '\0' !in input[i..j]
  {
  }

  /** One logical record (src/csvcut.c:351-369): buf[0]='\0', req=1,
      lnx=0, lnxsiz=bufsiz, noq=0, then physical lines while the parity of
      each line's own quotes differs from the alternating target `req`. */
  method ReadRecord(input: seq<char>, pos0: nat, bufsiz0: nat)
    returns (pos: nat, buf: seq<char>, bufsiz: nat, atEnd: bool)
    requires '\0' !in input && pos0 <= |input| && bufsiz0 >= 2
    ensures var r := Assemble(input, pos0, bufsiz0);
      Asm(pos, buf, bufsiz) == r.st && atEnd == r.eof
  {
    pos, buf, bufsiz, atEnd := pos0, [], bufsiz0, false;
    var lnx, lnxsiz := 0, bufsiz;
    var req, noq := 1, 0;
    ghost var goal := Assemble(input, pos0, bufsiz0);
    while !atEnd && noq != req
      invariant lnx == |buf| && lnx + lnxsiz == bufsiz
      invariant Pending(input, Asm(pos, buf, bufsiz), req, noq, atEnd, goal)
      decreases 2 * (|input| - pos) + (1 - req) + (if !atEnd && noq != req then 2 else 0)
    {
      AssembleStep(input, Asm(pos, buf, bufsiz), req, goal);
      ghost var l := ReadLine(input, Asm(pos, buf, bufsiz));
      req := 1 - req;
      var noqc;
      pos, buf, bufsiz, lnx, lnxsiz, noqc, atEnd := ReadPhysicalLine(input, pos, buf, bufsiz, lnxsiz);
      assert l == LineRead(Asm(pos, buf, bufsiz), noqc, atEnd);
      noq := noqc % 2;
    }
  }
}
