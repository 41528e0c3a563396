/**
 * The earlier csvcut.c at the top of the repository.  Its get_list and
 * needpos are those of src/csvcut.c line for line (csvcut.c:48-126 against
 * src/csvcut.c:90-168), and so is its record assembly loop but for the
 * quote counter, countchar on '"' (csvcut.c:149-168); both are reused from
 * the modules FieldList and Assembler.  What differs is the record loop
 * around them (csvcut.c:169-186): the -H header is dropped before it is
 * cut, and the selection test reads `positions[i]` for the 0-based field i
 * with no bound on i.
 */
module Legacy {

  import opened Libc
  import opened Ccsv
  import opened FieldList
  import opened FieldListLaws
  import opened Quotes
  import opened Assembler
  import opened AssemblerLaws
  import opened Cut

  /** countchar(str, ch, &len) at `s[i..]`: the occurrences of `ch` in the
      C string there and its length (csvcut.c:128-133).  On '"' this is what
      countquotes returns, so the assembler of src/csvcut.c serves both. */
  method CountChar(s: seq<char>, i: nat, ch: char) returns (ret: nat, len: nat)
    requires Terminated(s) && i < |s|
    ensures len == |CStr(s, i)| && ret == Count(CStr(s, i), ch)
  {
    ret, len := 0, 0;
    while s[i + len] != '\0'
      invariant i + len <= StrEnd(s, i)
      invariant ret == Count(s[i..i + len], ch)
      decreases StrEnd(s, i) - (i + len)
    {
      assert s[i..i + len + 1][..len] == s[i..i + len];
      if s[i + len] == ch {
        ret := ret + 1;
      }
      len := len + 1;
    }
  }

  /** The selection test of csvcut.c:179 reads `positions[i]` only when the
      two tests before it fail; this says that read is inside the array. */
  predicate InBounds(s: Sel, i: nat)
  {
    s.positions.None? || (s.autostop > 0 && s.autostop < i) || i < |s.positions.value|
  }

  /** positions==NULL || (autostop>0 && autostop<i) || positions[i]!=0
      for the 0-based field i (csvcut.c:179). */
  predicate Keeps(s: Sel, i: nat)
    requires InBounds(s, i)
  {
    s.positions.None? || (s.autostop > 0 && s.autostop < i) || s.positions.value[i] != 0
  }

  /** After a list whose tokens all parse, field i is kept exactly when the
      list asks for column i, counted from 1: one column further on than
      asked, and never the first. */
  lemma KeepsOfRanges(rs: seq<Range>, i: nat)
    requires ValidRanges(rs) && rs != [] && InBounds(ListState(rs), i)
    ensures Keeps(ListState(rs), i) <==> Intended(rs, i)
  {
    var s := ListState(rs);
    if i == 0 {
      MarkedMeans(rs, 0);
    } else {
      FixedIsMarkedOrPast(rs, i - 1);
      SelectionOfRanges(rs, i - 1);
    }
  }

  /** The same for a `-f` list as get_list reads it. */
  lemma KeepsMeaning(list: seq<char>, i: nat)
    requires Compile(Initial, list).Compiled? && InBounds(Compile(Initial, list).sel, i)
    ensures AllParse(SplitList(list))
    ensures Keeps(Compile(Initial, list).sel, i) <==> Intended(RangesOf(SplitList(list)), i)
  {
    CompileOutcome(Initial, list);
    SelectionMeaning(list, 0);
    KeepsOfRanges(RangesOf(SplitList(list)), i);
  }

  /** Against the corrected test of src/csvcut.c:391: the field this test
      keeps at i + 1 is the one that test keeps at i, and field 0 is never
      kept once a list is given. */
  lemma KeepsShifted(list: seq<char>, i: nat)
    requires Compile(Initial, list).Compiled? && InBounds(Compile(Initial, list).sel, i + 1)
    ensures var s := Compile(Initial, list).sel;
      && s.positions.Some? && s.maxval < |s.positions.value| && 0 < |s.positions.value|
      && !Keeps(s, 0)
      && (Keeps(s, i + 1) <==> EmitsFixed(s, i))
  {
    var s := Compile(Initial, list).sel;
    SelectionMeaning(list, i);
    KeepsMeaning(list, i + 1);
    KeepsMeaning(list, 0);
  }

  /** `-f 1` keeps the second field and not the first, and a record with
      more fields than the array has bytes sends the test past its end. */
  lemma FirstColumnAsWritten()
    ensures Compile(Initial, "1").Compiled?
    ensures var s := Compile(Initial, "1").sel;
      && s.positions.Some? && 1 < |s.positions.value|
      && RangesOf(SplitList("1")) == [Range(1, 1, false, false)]
      && Intended(RangesOf(SplitList("1")), 1) && !Intended(RangesOf(SplitList("1")), 2)
      && !Keeps(s, 0) && Keeps(s, 1)
      && !InBounds(s, |s.positions.value|)
  {
    var r := Range(1, 1, false, false);
    RenderParse(r);
    assert Render(r) == "1";
    assert SepIndex("1", 0) == 1;
    assert SplitList("1") == ["1"];
    assert AllParse(["1"]);
    CompileOutcome(Initial, "1");
    var s0 := ApplyRanges(Initial, [r]);
    assert [r][1..] == [];
    assert s0 == Apply(Initial, r);
    assert s0.autostop == 0 && s0.maxval == 1 && s0.autostart == 0;
    assert Contents(s0)[1] == 1;
    assert TokenSelects(r, 1);
    assert !Intended([r], 2);
  }

  /** The test can be made at every index below n. */
  predicate AllInBounds(s: Sel, n: nat)
  {
    forall i :: 0 <= i < n ==> InBounds(s, i)
  }

  /** The field loop of csvcut.c:177-183: field i goes to the printer when
      the test keeps it, as output position `col`. */
  function Kept(fs: seq<seq<char>>, s: Sel): (out: seq<Out>)
    requires AllInBounds(s, |fs|)
    ensures |out| <= |fs|
    decreases |fs|
  {
    if fs == [] then []
    else
      var prev := Kept(fs[..|fs| - 1], s);
      var i := |fs| - 1;
      if Keeps(s, i) then prev + [Out(i, |prev|, fs[i])] else prev
  }

  /** One more field: printed after the others when the test keeps it. */
  lemma KeptLast(fs: seq<seq<char>>, s: Sel)
    requires AllInBounds(s, |fs|) && fs != []
    ensures var prev := Kept(fs[..|fs| - 1], s);
      var i := |fs| - 1;
      Kept(fs, s) == if Keeps(s, i) then prev + [Out(i, |prev|, fs[i])] else prev
  {
  }

  /** Every printed field is a kept one, with its own value, the printed
      fields keep the order of the record, and the k-th has col == k. */
  lemma {:induction false} KeptSound(fs: seq<seq<char>>, s: Sel)
    requires AllInBounds(s, |fs|)
    ensures var out := Kept(fs, s);
      forall k :: 0 <= k < |out| ==>
        out[k].index < |fs| && Keeps(s, out[k].index) && out[k].value == fs[out[k].index] && out[k].col == k
        && (k > 0 ==> out[k - 1].index < out[k].index)
    decreases |fs|
  {
    if fs != [] {
      var u := fs[..|fs| - 1];
      KeptSound(u, s);
      KeptLast(fs, s);
      var prev := Kept(u, s);
      var out := Kept(fs, s);
      forall k | 0 <= k < |out|
        ensures out[k].index < |fs| && Keeps(s, out[k].index) && out[k].value == fs[out[k].index] && out[k].col == k
        ensures k > 0 ==> out[k - 1].index < out[k].index
      {
        if k < |prev| {
          assert out[k] == prev[k];
          assert fs[prev[k].index] == u[prev[k].index];
          if k > 0 {
            assert out[k - 1] == prev[k - 1];
          }
        } else if k > 0 {
          assert out[k - 1] == prev[k - 1];
        }
      }
    }
  }

  /** Every field the test keeps is printed. */
  lemma {:induction false} KeptComplete(fs: seq<seq<char>>, s: Sel)
    requires AllInBounds(s, |fs|)
    ensures var out := Kept(fs, s);
      forall j :: 0 <= j < |fs| && Keeps(s, j) ==> exists k :: 0 <= k < |out| && out[k].index == j
    decreases |fs|
  {
    if fs != [] {
      var u := fs[..|fs| - 1];
      KeptComplete(u, s);
      KeptLast(fs, s);
      var prev := Kept(u, s);
      var out := Kept(fs, s);
      forall j | 0 <= j < |fs| && Keeps(s, j)
        ensures exists k :: 0 <= k < |out| && out[k].index == j
      {
        if j < |u| {
          var k :| 0 <= k < |prev| && prev[k].index == j;
          assert out[k] == prev[k];
        } else {
          assert out[|prev|].index == j;
        }
      }
    }
  }

  /** With no -f list every field is printed, in place. */
  lemma {:induction false} KeptAll(fs: seq<seq<char>>, s: Sel)
    requires s.positions.None?
    ensures InPlace(Kept(fs, s)) && |Kept(fs, s)| == |fs|
    ensures forall k :: 0 <= k < |fs| ==> Kept(fs, s)[k].value == fs[k]
    decreases |fs|
  {
    if fs != [] {
      KeptAll(fs[..|fs| - 1], s);
    }
  }

  /** What one record yields (csvcut.c:169-185): no row for line 1 under
      Hflag, whatever it holds, since it is dropped before it is cut; no row
      for the empty buffer left at the end; otherwise its kept fields.
      None where the model stops: a record of blanks only, whose trim reads
      before the buffer (src/ccsv.h:62-63), or a field index the test would
      read `positions` past its end at. */
  function Record(text: seq<char>, ln: nat, delim: char, s: Sel, hflag: bool): (r: Option<seq<Row>>)
    requires delim != '\0'
    ensures hflag && ln == 1 ==> r == Some([])
    ensures text == [] ==> r == Some([])
    ensures r.Some? ==> |r.value| <= 1 && (r.value != [] ==> r.value[0].lineno == ln && !(hflag && ln == 1))
    ensures r.None? <==> !(hflag && ln == 1) && (Blank(text) || (text != [] && !AllInBounds(s, |Fields(Line(text), Some(0), delim)|)))
  {
    if hflag && ln == 1 then Some([])
    else if text == [] then Some([])
    else if Blank(text) then None
    else
      var fs := Fields(Line(text), Some(0), delim);
      if AllInBounds(s, |fs|) then Some([Row(ln, Kept(fs, s))]) else None
  }

  /** With no -f list the row of a record holds all its fields in place. */
  lemma RecordUnfiltered(text: seq<char>, ln: nat, delim: char, s: Sel, hflag: bool)
    requires delim != '\0'
    ensures s.positions.None? && Record(text, ln, delim, s, hflag).Some? ==> Unfiltered(Record(text, ln, delim, s, hflag).value)
  {
    var r := Record(text, ln, delim, s, hflag);
    if s.positions.None? && r.Some? && r.value != [] {
      KeptAll(Fields(Line(text), Some(0), delim), s);
      assert r.value[1..] == [];
    }
  }

  /** The earlier csv_cut on one input from the stream position `pos`,
      with `bufsiz` bytes of buffer and `lineno` records read so far
      (csvcut.c:147-188): the rows of its records, until fgets reports the
      end of the input or a record stops the model. */
  function LegacyStream(input: seq<char>, pos: nat, bufsiz: nat, lineno: nat, delim: char, s: Sel, hflag: bool): (r: CutResult)
    requires '\0' !in input && pos <= |input| && bufsiz >= 2 && delim != '\0'
    ensures Numbered(r.rows, lineno, hflag)
    ensures r.overrun.Some? ==> lineno < r.overrun.value
    ensures s.positions.None? ==> Unfiltered(r.rows)
    decreases |input| - pos
  {
    var a := Assemble(input, pos, bufsiz);
    var ln := lineno + 1;
    var here := Record(a.st.text, ln, delim, s, hflag);
    if here.None? then CutResult([], Some(ln))
    else
      RecordUnfiltered(a.st.text, ln, delim, s, hflag);
      if a.eof then
        RowsJoin(here.value, [], ln, hflag, s.positions.None?);
        assert here.value + [] == here.value;
        CutResult(here.value, None)
      else
        AssembleProgress(input, pos, bufsiz);
        var rest := LegacyStream(input, a.st.pos, a.st.bufsiz, ln, delim, s, hflag);
        RowsJoin(here.value, rest.rows, ln, hflag, s.positions.None?);
        CutResult(here.value + rest.rows, rest.overrun)
  }

  /** The test of csvcut.c:179 on the static array, or None where it would
      read `positions` past its end. */
  method Test(cols: Columns, i: nat) returns (keep: Option<bool>)
    ensures keep.None? <==> !InBounds(cols.State(), i)
    ensures keep.Some? ==> keep.value == Keeps(cols.State(), i)
  {
    if cols.positions == null || (cols.autostop > 0 && cols.autostop < i) {
      return Some(true);
    }
    if i >= cols.positions.Length {
      return None;
    }
    keep := Some(cols.positions[i] != 0);
  }

  /** The selection loop after one more field. */
  lemma KeptStep(all: seq<seq<char>>, i: nat, s: Sel, out: seq<Out>)
    requires i < |all| && AllInBounds(s, i + 1) && out == Kept(all[..i], s)
    ensures Kept(all[..i + 1], s) == if Keeps(s, i) then out + [Out(i, |out|, all[i])] else out
  {
    assert all[..i + 1][..i] == all[..i];
  }

  /** One pass of the field loop (csvcut.c:177-183): the next field, and
      the printer call when the test keeps it.  `done` is the NULL that ends
      the loop, `oob` a test that would read past the array. */
  method CutField(cols: Columns, c: Cursor, i: nat, out: seq<Out>, ghost all: seq<seq<char>>, ghost s: Sel)
    returns (done: bool, oob: bool, out': seq<Out>)
    requires c.Valid() && Rest(c.buf[..], c.line, c.delim, all, i)
    requires cols.State() == s && AllInBounds(s, i) && out == Kept(all[..i], s)
    modifies c`line, c.buf
    ensures c.Valid() && c.buf == old(c.buf) && c.delim == old(c.delim)
    ensures done ==> !oob && i == |all| && out' == out
    ensures oob ==> !done && i < |all| && !InBounds(s, i)
    ensures !done && !oob ==> Rest(c.buf[..], c.line, c.delim, all, i + 1)
    ensures !done && !oob ==> AllInBounds(s, i + 1) && out' == Kept(all[..i + 1], s)
  {
    var v := NextValue(c, all, i);
    if v.None? {
      return true, false, out;
    }
    var keep := Test(cols, i);
    if keep.None? {
      return false, true, out;
    }
    done, oob := false, false;
    KeptStep(all, i, s, out);
    out' := if keep.value then out + [Out(i, |out|, v.value)] else out;
  }

  /** One record (csvcut.c:175-183): ccsv_init_ex on the buffer, then
      ccsv_nextfield until NULL, handing the kept fields to the printer.
      `oob` is the first field at which the test would read past the
      array; the loop stops there. */
  method CutRecord(cols: Columns, buf: array<char>, delim: char) returns (out: seq<Out>, oob: bool)
    requires Terminated(buf[..]) && delim != '\0' && Safe(buf[..], 0)
    modifies buf
    ensures var all := Fields(old(buf[..]), Some(0), delim);
      && (oob <==> !AllInBounds(cols.State(), |all|))
      && (!oob ==> out == Kept(all, cols.State()))
  {
    ghost var all := Fields(buf[..], Some(0), delim);
    ghost var s := cols.State();
    var c := new Cursor.InitEx(buf, delim);
    var i := 0;
    out, oob := [], false;
    while true
      invariant c.Valid() && c.buf == buf && Rest(buf[..], c.line, c.delim, all, i)
      invariant cols.State() == s && AllInBounds(s, i) && out == Kept(all[..i], s)
      decreases |all| - i
    {
      var done;
      done, oob, out := CutField(cols, c, i, out, all, s);
      if done {
        assert all[..i] == all;
        return;
      }
      if oob {
        return;
      }
      i := i + 1;
    }
  }

  /** One pass of the record loop (csvcut.c:149-185): read a record, count
      it, drop it under Hflag when it is line 1, and cut it unless it is
      empty.  `here` is None where the model stops. */
  method CutOne(cols: Columns, input: seq<char>, pos: nat, bufsiz: nat, lineno: nat, delim: char, hflag: bool)
    returns (pos': nat, bufsiz': nat, lineno': nat, atEnd: bool, here: Option<seq<Row>>)
    requires '\0' !in input && pos <= |input| && bufsiz >= 2 && delim != '\0'
    ensures var a := Assemble(input, pos, bufsiz);
      && pos' == a.st.pos && bufsiz' == a.st.bufsiz && atEnd == a.eof && lineno' == lineno + 1
      && here == Record(a.st.text, lineno', delim, cols.State(), hflag)
      && (!atEnd ==> pos < pos')
  {
    var text;
    pos', text, bufsiz', atEnd := ReadRecord(input, pos, bufsiz);
    AssembleProgress(input, pos, bufsiz);
    lineno' := lineno + 1;
    if hflag && lineno' == 1 {
      return pos', bufsiz', lineno', atEnd, Some([]);
    }
    if text == [] {
      return pos', bufsiz', lineno', atEnd, Some([]);
    }
    var buf := new char[|text| + 1](k => if 0 <= k < |text| then text[k] else '\0');
    assert buf[..] == Line(text);
    if !Safe(buf[..], 0) {
      return pos', bufsiz', lineno', atEnd, None;
    }
    var out, oob := CutRecord(cols, buf, delim);
    here := if oob then None else Some([Row(lineno', out)]);
  }

  /** What is left of the result once `rows` are out. */
  ghost predicate Pends(goal: CutResult, rows: seq<Row>, input: seq<char>, pos: nat, bufsiz: nat, lineno: nat,
                        delim: char, s: Sel, hflag: bool)
  {
    && '\0' !in input && pos <= |input| && bufsiz >= 2 && delim != '\0'
    && var r := LegacyStream(input, pos, bufsiz, lineno, delim, s, hflag);
    goal.rows == rows + r.rows && goal.overrun == r.overrun
  }

  /** A record that stops the model ends the result where it stands. */
  lemma PendsStop(goal: CutResult, rows: seq<Row>, input: seq<char>, pos: nat, bufsiz: nat, lineno: nat,
                  delim: char, s: Sel, hflag: bool)
    requires Pends(goal, rows, input, pos, bufsiz, lineno, delim, s, hflag)
    requires Record(Assemble(input, pos, bufsiz).st.text, lineno + 1, delim, s, hflag).None?
    ensures goal == CutResult(rows, Some(lineno + 1))
  {
  }

  /** The last record adds its row and ends the result. */
  lemma PendsLast(goal: CutResult, rows: seq<Row>, input: seq<char>, pos: nat, bufsiz: nat, lineno: nat,
                  delim: char, s: Sel, hflag: bool)
    requires Pends(goal, rows, input, pos, bufsiz, lineno, delim, s, hflag)
    requires var a := Assemble(input, pos, bufsiz); Record(a.st.text, lineno + 1, delim, s, hflag).Some? && a.eof
    ensures var a := Assemble(input, pos, bufsiz);
      goal == CutResult(rows + Record(a.st.text, lineno + 1, delim, s, hflag).value, None)
  {
  }

  /** Any other record adds its row and leaves the rest to come. */
  lemma PendsStep(goal: CutResult, rows: seq<Row>, input: seq<char>, pos: nat, bufsiz: nat, lineno: nat,
                  delim: char, s: Sel, hflag: bool)
    requires Pends(goal, rows, input, pos, bufsiz, lineno, delim, s, hflag)
    requires var a := Assemble(input, pos, bufsiz); Record(a.st.text, lineno + 1, delim, s, hflag).Some? && !a.eof
    ensures var a := Assemble(input, pos, bufsiz);
      Pends(goal, rows + Record(a.st.text, lineno + 1, delim, s, hflag).value, input, a.st.pos, a.st.bufsiz, lineno + 1, delim, s, hflag)
  {
    var a := Assemble(input, pos, bufsiz);
    AssembleProgress(input, pos, bufsiz);
    var here := Record(a.st.text, lineno + 1, delim, s, hflag).value;
    var rest := LegacyStream(input, a.st.pos, a.st.bufsiz, lineno + 1, delim, s, hflag);
    assert rows + (here + rest.rows) == (rows + here) + rest.rows;
  }

  /** One pass of the record loop, with the rows printed so far: the
      result is either reached or still pending. */
  method CutNext(cols: Columns, input: seq<char>, pos: nat, bufsiz: nat, lineno: nat, delim: char, hflag: bool,
                 rows: seq<Row>, ghost goal: CutResult)
    returns (pos': nat, bufsiz': nat, lineno': nat, atEnd: bool, rows': seq<Row>, bad: bool)
    requires Pends(goal, rows, input, pos, bufsiz, lineno, delim, cols.State(), hflag)
    ensures pos <= pos' <= |input| && bufsiz' >= 2 && (!atEnd ==> pos < pos')
    ensures bad ==> rows' == rows && goal == CutResult(rows, Some(lineno'))
    ensures !bad && atEnd ==> goal == CutResult(rows', None)
    ensures !bad && !atEnd ==> Pends(goal, rows', input, pos', bufsiz', lineno', delim, cols.State(), hflag)
  {
    var here;
    pos', bufsiz', lineno', atEnd, here := CutOne(cols, input, pos, bufsiz, lineno, delim, hflag);
    if here.None? {
      PendsStop(goal, rows, input, pos, bufsiz, lineno, delim, cols.State(), hflag);
      return pos', bufsiz', lineno', atEnd, rows, true;
    }
    bad := false;
    rows' := rows + here.value;
    if atEnd {
      PendsLast(goal, rows, input, pos, bufsiz, lineno, delim, cols.State(), hflag);
    } else {
      PendsStep(goal, rows, input, pos, bufsiz, lineno, delim, cols.State(), hflag);
    }
  }

  /** The earlier csv_cut(fp, fnam, dchar) (csvcut.c:135-191) on an input
      without NUL bytes: a buffer of BUFCHUNK bytes and records until fgets
      returns NULL.  Unlike src/csvcut.c it leaves `positions` allocated. */
  method CutFile(cols: Columns, input: seq<char>, delim: char, hflag: bool)
    returns (rows: seq<Row>, overrun: Option<nat>)
    requires '\0' !in input && delim != '\0'
    ensures CutResult(rows, overrun) == LegacyStream(input, 0, BUFCHUNK, 0, delim, cols.State(), hflag)
  {
    ghost var s := cols.State();
    ghost var goal := LegacyStream(input, 0, BUFCHUNK, 0, delim, s, hflag);
    var pos, bufsiz, lineno, atEnd := 0, BUFCHUNK, 0, false;
    rows, overrun := [], None;
    while !atEnd
      invariant pos <= |input| && bufsiz >= 2 && cols.State() == s
      invariant !atEnd ==> Pends(goal, rows, input, pos, bufsiz, lineno, delim, s, hflag)
      invariant atEnd ==> goal == CutResult(rows, overrun)
      decreases |input| - pos, if atEnd then 0 else 1
    {
      var bad;
      pos, bufsiz, lineno, atEnd, rows, bad := CutNext(cols, input, pos, bufsiz, lineno, delim, hflag, rows, goal);
      if bad {
        overrun := Some(lineno);
        break;
      }
    }
  }
}
