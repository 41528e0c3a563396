/**
 * The record loop of csv_cut (src/csvcut.c:348-413): assemble a record,
 * cut it into fields with the cursor of src/ccsv.h, and pass the fields the
 * selection test keeps to the printer together with their field index and
 * their output position `col`.  Printing itself is not modelled: a record
 * yields the list of (index, col, value) triples the printer would receive.
 */
module Cut {

  import opened Ctype
  import opened Libc
  import opened Ccsv
  import opened FieldList
  import opened FieldListLaws
  import opened Assembler
  import opened AssemblerLaws

  /** A field handed to the printer: prfld(f, i, col, ...). */
  datatype Out = Out(index: nat, col: nat, value: seq<char>)

  /** The fields one record prints, with its line number (the count of
      records read so far, src/csvcut.c:370). */
  datatype Row = Row(lineno: nat, fields: seq<Out>)

  /** What one input yields: the rows, and the line number of a record made
      only of blanks, if one is met.  On such a record the trim of the last
      field in src/ccsv.h:62-63 reads before the buffer; the model stops
      there. */
  datatype CutResult = CutResult(rows: seq<Row>, overrun: Option<nat>)

  /** The selection test can index `positions` at every i with maxval > i. */
  predicate Indexable(s: Sel)
  {
    s.positions.Some? ==> s.maxval < |s.positions.value|
  }

  /** The loop over the fields of one record (src/csvcut.c:383-397): field
      i goes to the printer when the selection test keeps it (with the
      `autostop` bound corrected, see EmitsFixed), as output
      position `col`, and col counts the fields printed before it. */
  function Selected(fs: seq<seq<char>>, s: Sel): (out: seq<Out>)
    requires Indexable(s)
    ensures |out| <= |fs|
    decreases |fs|
  {
    if fs == [] then []
    else
      var prev := Selected(fs[..|fs| - 1], s);
      var i := |fs| - 1;
      if EmitsFixed(s, i) then prev + [Out(i, |prev|, fs[i])] else prev
  }

  /** One more field: printed after the others when the selection keeps it. */
  lemma SelectedLast(fs: seq<seq<char>>, s: Sel)
    requires Indexable(s) && fs != []
    ensures var prev := Selected(fs[..|fs| - 1], s);
      var i := |fs| - 1;
      Selected(fs, s) == if EmitsFixed(s, i) then prev + [Out(i, |prev|, fs[i])] else prev
  {
  }

  /** Every printed field is a kept one, with its own value, and the k-th
      printed has col == k, so only the first is printed at col 0. */
  lemma {:induction false} SelectedSound(fs: seq<seq<char>>, s: Sel)
    requires Indexable(s)
    ensures var out := Selected(fs, s);
      forall k :: 0 <= k < |out| ==>
        out[k].index < |fs| && EmitsFixed(s, out[k].index) && out[k].value == fs[out[k].index] && out[k].col == k
    decreases |fs|
  {
    if fs != [] {
      var u := fs[..|fs| - 1];
      SelectedSound(u, s);
      SelectedLast(fs, s);
      var prev := Selected(u, s);
      var out := Selected(fs, s);
      forall k | 0 <= k < |out|
        ensures out[k].index < |fs| && EmitsFixed(s, out[k].index) && out[k].value == fs[out[k].index] && out[k].col == k
      {
        if k < |prev| {
          assert out[k] == prev[k];
          assert fs[prev[k].index] == u[prev[k].index];
        }
      }
    }
  }

  /** The printed fields keep the order of the record. */
  lemma {:induction false} SelectedOrdered(fs: seq<seq<char>>, s: Sel)
    requires Indexable(s)
    ensures var out := Selected(fs, s);
      forall k, l :: 0 <= k < l < |out| ==> out[k].index < out[l].index
    decreases |fs|
  {
    if fs != [] {
      var u := fs[..|fs| - 1];
      SelectedOrdered(u, s);
      SelectedSound(u, s);
      SelectedLast(fs, s);
    }
  }

  /** Every field the selection keeps is printed. */
  lemma {:induction false} SelectedComplete(fs: seq<seq<char>>, s: Sel)
    requires Indexable(s)
    ensures var out := Selected(fs, s);
      forall j :: 0 <= j < |fs| && EmitsFixed(s, j) ==> exists k :: 0 <= k < |out| && out[k].index == j
    decreases |fs|
  {
    if fs != [] {
      var u := fs[..|fs| - 1];
      SelectedComplete(u, s);
      SelectedLast(fs, s);
      var prev := Selected(u, s);
      var out := Selected(fs, s);
      forall j | 0 <= j < |fs| && EmitsFixed(s, j)
        ensures exists k :: 0 <= k < |out| && out[k].index == j
      {
        if j < |u| {
          var k :| 0 <= k < |prev| && prev[k].index == j;
          assert out[k] == prev[k];
        } else {
          assert out[|prev|].index == j;
        }
      }
    }
  }

  /** After a `-f` list, the printed fields are exactly those whose
      column the list asks for, in the order of the record. */
  lemma SelectedColumns(fs: seq<seq<char>>, list: seq<char>)
    requires Compile(Initial, list).Compiled?
    ensures AllParse(SplitList(list)) && Indexable(Compile(Initial, list).sel)
    ensures var out := Selected(fs, Compile(Initial, list).sel);
      var rs := RangesOf(SplitList(list));
      && (forall k :: 0 <= k < |out| ==>
            out[k].index < |fs| && Intended(rs, out[k].index + 1) && out[k].value == fs[out[k].index] && out[k].col == k)
      && (forall c :: 1 <= c <= |fs| && Intended(rs, c) ==> exists k :: 0 <= k < |out| && out[k].index == c - 1)
  {
    var s := Compile(Initial, list).sel;
    SelectionMeaning(list, 0);
    var rs := RangesOf(SplitList(list));
    SelectedAsked(fs, list, s, rs);
    SelectedAllAsked(fs, list, s, rs);
  }

  /** Every printed field is one whose column the list asks for. */
  lemma SelectedAsked(fs: seq<seq<char>>, list: seq<char>, s: Sel, rs: seq<Range>)
    requires Compile(Initial, list).Compiled? && s == Compile(Initial, list).sel
    requires AllParse(SplitList(list)) && rs == RangesOf(SplitList(list)) && Indexable(s)
    ensures var out := Selected(fs, s);
      forall k :: 0 <= k < |out| ==>
        out[k].index < |fs| && Intended(rs, out[k].index + 1) && out[k].value == fs[out[k].index] && out[k].col == k
  {
    var out := Selected(fs, s);
    SelectedSound(fs, s);
    forall k | 0 <= k < |out|
      ensures Intended(rs, out[k].index + 1)
    {
      SelectionMeaning(list, out[k].index);
    }
  }

  /** Every field whose column the list asks for is printed. */
  lemma SelectedAllAsked(fs: seq<seq<char>>, list: seq<char>, s: Sel, rs: seq<Range>)
    requires Compile(Initial, list).Compiled? && s == Compile(Initial, list).sel
    requires AllParse(SplitList(list)) && rs == RangesOf(SplitList(list)) && Indexable(s)
    ensures var out := Selected(fs, s);
      forall c :: 1 <= c <= |fs| && Intended(rs, c) ==> exists k :: 0 <= k < |out| && out[k].index == c - 1
  {
    var out := Selected(fs, s);
    SelectedComplete(fs, s);
    forall c | 1 <= c <= |fs| && Intended(rs, c)
      ensures exists k :: 0 <= k < |out| && out[k].index == c - 1
    {
      SelectionMeaning(list, c - 1);
    }
  }

  /** With no -f list every field is printed, at its own index. */
  lemma {:induction false} SelectedAll(fs: seq<seq<char>>, s: Sel)
    requires s.positions.None?
    ensures var out := Selected(fs, s);
      |out| == |fs| && forall k :: 0 <= k < |fs| ==> out[k] == Out(k, k, fs[k])
    decreases |fs|
  {
    if fs != [] {
      SelectedAll(fs[..|fs| - 1], s);
    }
  }

  /** strdup(f): the C string at `i`, read out of the buffer. */
  method StrDup(a: array<char>, i: nat) returns (v: seq<char>)
    requires Terminated(a[..]) && i < a.Length
    ensures v == CStr(a[..], i)
  {
    var e := i;
    while a[e] != '\0'
      invariant i <= e <= StrEnd(a[..], i)
      decreases StrEnd(a[..], i) - e
    {
      e := e + 1;
    }
    v := a[i..e];
  }

  /** The fields the cursor has still to return are all[i..]. */
  ghost predicate Rest(b: seq<char>, line: Option<nat>, delim: char, all: seq<seq<char>>, i: nat)
  {
    && Terminated(b) && delim != '\0' && (line.Some? ==> line.value < |b| && Safe(b, line.value))
    && i <= |all| && Fields(b, line, delim) == all[i..]
  }

  /** One call of the cursor takes the next field of the record. */
  lemma FieldsAdvance(b: seq<char>, line: Option<nat>, delim: char, all: seq<seq<char>>, i: nat)
    requires Rest(b, line, delim, all, i)
    ensures var o := NextFieldSpec(b, line, delim);
      && (o.field.None? ==> i == |all|)
      && (o.field.Some? ==>
            i < |all| && o.field.value < |o.buf| && all[i] == CStr(o.buf, o.field.value)
            && Rest(o.buf, o.line, delim, all, i + 1))
  {
    NextFieldProgress(b, line, delim);
    var o := NextFieldSpec(b, line, delim);
    if o.field.Some? {
      assert all[i..] == [CStr(o.buf, o.field.value)] + Fields(o.buf, o.line, delim);
      assert all[i..][1..] == all[i + 1..];
    }
  }

  /** ccsv_nextfield followed by strdup of the field it returns. */
  method NextValue(c: Cursor, ghost all: seq<seq<char>>, ghost i: nat) returns (v: Option<seq<char>>)
    requires c.Valid() && Rest(c.buf[..], c.line, c.delim, all, i)
    modifies c`line, c.buf
    ensures c.Valid() && c.buf == old(c.buf) && c.delim == old(c.delim)
    ensures v.None? ==> i == |all|
    ensures v.Some? ==> i < |all| && v.value == all[i] && Rest(c.buf[..], c.line, c.delim, all, i + 1)
  {
    FieldsAdvance(c.buf[..], c.line, c.delim, all, i);
    var f, typ := c.NextField();
    if f.None? {
      return None;
    }
    var w := StrDup(c.buf, f.value);
    v := Some(w);
  }

  /** The selection loop after one more field. */
  lemma SelectedStep(all: seq<seq<char>>, i: nat, s: Sel, out: seq<Out>)
    requires Indexable(s) && i < |all| && out == Selected(all[..i], s)
    ensures Selected(all[..i + 1], s) == if EmitsFixed(s, i) then out + [Out(i, |out|, all[i])] else out
  {
    SelectedLast(all[..i + 1], s);
    assert all[..i + 1][..i] == all[..i];
  }

  /** One pass of the field loop (src/csvcut.c:383-397): the next field,
      and, unless the record is skipped, the printer call when the selection
      keeps it.  `done` is the NULL that ends the loop. */
  method CutField(cols: Columns, c: Cursor, i: nat, out: seq<Out>, skip: bool, ghost all: seq<seq<char>>, ghost s: Sel)
    returns (done: bool, out': seq<Out>)
    requires c.Valid() && Rest(c.buf[..], c.line, c.delim, all, i)
    requires cols.State() == s && Indexable(s)
    requires out == if skip then [] else Selected(all[..i], s)
    modifies c`line, c.buf
    ensures c.Valid() && c.buf == old(c.buf) && c.delim == old(c.delim)
    ensures done ==> i == |all| && out' == out
    ensures !done ==> Rest(c.buf[..], c.line, c.delim, all, i + 1)
    ensures !done ==> out' == if skip then [] else Selected(all[..i + 1], s)
  {
    var v := NextValue(c, all, i);
    if v.None? {
      return true, out;
    }
    done := false;
    var keep := cols.Selects(i);
    if skip {
      out' := out;
    } else {
      SelectedStep(all, i, s, out);
      out' := if keep then out + [Out(i, |out|, v.value)] else out;
    }
  }

  /** One record (src/csvcut.c:382-397): ccsv_init_ex on the buffer, then
      ccsv_nextfield until NULL, numbering the fields from 0 and handing the
      kept ones to the printer; `skip` is Hflag on line 1, where the fields
      are cut but none is printed. */
  method CutRecord(cols: Columns, buf: array<char>, delim: char, skip: bool) returns (out: seq<Out>)
    requires Terminated(buf[..]) && delim != '\0' && Safe(buf[..], 0)
    requires cols.positions != null ==> cols.maxval < cols.positions.Length
    modifies buf
    ensures Indexable(cols.State())
    ensures out == if skip then [] else Selected(Fields(old(buf[..]), Some(0), delim), cols.State())
  {
    ghost var all := Fields(buf[..], Some(0), delim);
    ghost var s := cols.State();
    var c := new Cursor.InitEx(buf, delim);
    var i := 0;
    out := [];
    while true
      invariant c.Valid() && c.buf == buf && Rest(buf[..], c.line, c.delim, all, i)
      invariant cols.State() == s && Indexable(s)
      invariant out == if skip then [] else Selected(all[..i], s)
      decreases |all| - i
    {
      var done;
      done, out := CutField(cols, c, i, out, skip, all, s);
      if done {
        break;
      }
      i := i + 1;
    }
    assert all[..i] == all;
  }

  /** The buffer csv_cut hands to the cursor: the record and its NUL. */
  function Line(text: seq<char>): (s: seq<char>)
    ensures Terminated(s) && |s| == |text| + 1
  {
    text + ['\0']
  }

  /** A record of blanks only: the trim of its last field would read
      before the buffer (src/ccsv.h:62-63). */
  predicate Blank(text: seq<char>)
  {
    text != [] && !Safe(Line(text), 0)
  }

  /** The row one record prints, if any: none for the empty buffer left at
      the end of the input, none for line 1 under Hflag (src/csvcut.c:374, 390),
      otherwise the kept fields of the record. */
  function Here(text: seq<char>, ln: nat, delim: char, s: Sel, hflag: bool): (here: seq<Row>)
    requires delim != '\0' && Indexable(s) && !Blank(text)
    ensures |here| <= 1 && (here != [] ==> here[0].lineno == ln)
    ensures here != [] <==> text != [] && !(hflag && ln == 1)
  {
    if text == [] || (hflag && ln == 1) then []
    else [Row(ln, Selected(Fields(Line(text), Some(0), delim), s))]
  }

  /** Rows numbered after `after`, in increasing order, none of them 1
      under Hflag. */
  ghost predicate Numbered(rows: seq<Row>, after: nat, hflag: bool)
    decreases |rows|
  {
    rows == [] || (after < rows[0].lineno && !(hflag && rows[0].lineno == 1) && Numbered(rows[1..], rows[0].lineno, hflag))
  }

  /** What Numbered says of every row and every pair of rows. */
  lemma {:induction false} NumberedMeans(rows: seq<Row>, after: nat, hflag: bool)
    requires Numbered(rows, after, hflag)
    ensures forall k :: 0 <= k < |rows| ==> after < rows[k].lineno && (hflag ==> rows[k].lineno != 1)
    ensures forall k, l :: 0 <= k < l < |rows| ==> rows[k].lineno < rows[l].lineno
    decreases |rows|
  {
    if rows != [] {
      var tail := rows[1..];
      NumberedMeans(tail, rows[0].lineno, hflag);
      forall k, l | 0 <= k < l < |rows|
        ensures rows[k].lineno < rows[l].lineno
      {
        assert rows[l] == tail[l - 1];
        if k > 0 {
          assert rows[k] == tail[k - 1];
        }
      }
      forall k | 0 <= k < |rows|
        ensures after < rows[k].lineno && (hflag ==> rows[k].lineno != 1)
      {
        if k > 0 {
          assert rows[k] == tail[k - 1];
        }
      }
    }
  }

  /** Each field at its own index and column. */
  predicate InPlace(fields: seq<Out>)
  {
    forall j :: 0 <= j < |fields| ==> fields[j].index == j && fields[j].col == j
  }

  /** Every row prints its fields in place. */
  ghost predicate Unfiltered(rows: seq<Row>)
    decreases |rows|
  {
    rows == [] || (InPlace(rows[0].fields) && Unfiltered(rows[1..]))
  }

  /** What Unfiltered says of every row. */
  lemma {:induction false} UnfilteredMeans(rows: seq<Row>)
    requires Unfiltered(rows)
    ensures forall k :: 0 <= k < |rows| ==> InPlace(rows[k].fields)
    decreases |rows|
  {
    if rows != [] {
      UnfilteredMeans(rows[1..]);
      forall k | 0 < k < |rows| ensures InPlace(rows[k].fields) {
        assert rows[k] == rows[1..][k - 1];
      }
    }
  }

  /** The row of record `ln` followed by the rows after it. */
  lemma RowsJoin(here: seq<Row>, rest: seq<Row>, ln: nat, hflag: bool, unf: bool)
    requires ln >= 1 && |here| <= 1 && (here != [] ==> here[0].lineno == ln && !(hflag && ln == 1))
    requires Numbered(rest, ln, hflag)
    requires unf ==> Unfiltered(here) && Unfiltered(rest)
    ensures Numbered(here + rest, ln - 1, hflag)
    ensures unf ==> Unfiltered(here + rest)
  {
    if here == [] {
      assert here + rest == rest;
    } else {
      assert (here + rest)[0] == here[0] && (here + rest)[1..] == rest;
    }
  }

  /** With no -f list, the row of a record holds all its fields in order. */
  lemma HereUnfiltered(text: seq<char>, ln: nat, delim: char, s: Sel, hflag: bool)
    requires delim != '\0' && Indexable(s) && !Blank(text)
    ensures s.positions.None? ==> Unfiltered(Here(text, ln, delim, s, hflag))
  {
    if s.positions.None? && text != [] && !(hflag && ln == 1) {
      var here := Here(text, ln, delim, s, hflag);
      SelectedAll(Fields(Line(text), Some(0), delim), s);
      assert here[1..] == [];
    }
  }

  /** csv_cut on one input from the stream position `pos`, with a buffer of
      `bufsiz` bytes and `lineno` records read so far (src/csvcut.c:348-400):
      each record advances lineno and prints its row, until fgets reports
      the end of the input or a blank record is met. */
  function CutStream(input: seq<char>, pos: nat, bufsiz: nat, lineno: nat, delim: char, s: Sel, hflag: bool): (r: CutResult)
    requires '\0' !in input && pos <= |input| && bufsiz >= 2 && delim != '\0' && Indexable(s)
    ensures Numbered(r.rows, lineno, hflag)
    ensures r.overrun.Some? ==> lineno < r.overrun.value
    ensures s.positions.None? ==> Unfiltered(r.rows)
    decreases |input| - pos
  {
    var a := Assemble(input, pos, bufsiz);
    var ln := lineno + 1;
    if Blank(a.st.text) then CutResult([], Some(ln))
    else
      var here := Here(a.st.text, ln, delim, s, hflag);
      HereUnfiltered(a.st.text, ln, delim, s, hflag);
      if a.eof then
        RowsJoin(here, [], ln, hflag, s.positions.None?);
        assert here + [] == here;
        CutResult(here, None)
      else
        AssembleProgress(input, pos, bufsiz);
        var rest := CutStream(input, a.st.pos, a.st.bufsiz, ln, delim, s, hflag);
        RowsJoin(here, rest.rows, ln, hflag, s.positions.None?);
        CutResult(here + rest.rows, rest.overrun)
  }

  /** One pass of the record loop (src/csvcut.c:350-398): read a record,
      count it, and cut it unless it is empty or the Hflag header.  `bad` is
      a blank record, where the model stops. */
  method CutOne(cols: Columns, input: seq<char>, pos: nat, bufsiz: nat, lineno: nat, delim: char, hflag: bool, ghost s: Sel)
    returns (pos': nat, bufsiz': nat, lineno': nat, atEnd: bool, here: seq<Row>, bad: bool)
    requires '\0' !in input && pos <= |input| && bufsiz >= 2 && delim != '\0'
    requires cols.State() == s && Indexable(s)
    ensures var a := Assemble(input, pos, bufsiz);
      && pos' == a.st.pos && bufsiz' == a.st.bufsiz && atEnd == a.eof && lineno' == lineno + 1
      && bad == Blank(a.st.text) && here == (if bad then [] else Here(a.st.text, lineno', delim, s, hflag))
      && (!atEnd ==> pos < pos')
  {
    var text;
    pos', text, bufsiz', atEnd := ReadRecord(input, pos, bufsiz);
    AssembleProgress(input, pos, bufsiz);
    lineno' := lineno + 1;
    here, bad := [], false;
    if text != [] {
      var buf := new char[|text| + 1](k => if 0 <= k < |text| then text[k] else '\0');
      assert buf[..] == Line(text);
      if !Safe(buf[..], 0) {
        return pos', bufsiz', lineno', atEnd, [], true;
      }
      var skip := hflag && lineno' == 1;
      var out := CutRecord(cols, buf, delim, skip);
      if !skip {
        assert out == Selected(Fields(Line(text), Some(0), delim), s);
        here := [Row(lineno', out)];
      }
    }
  }

  /** What is left of the result once `rows` are out: the rows and the
      outcome of csv_cut from `pos` on. */
  ghost predicate Pends(goal: CutResult, rows: seq<Row>, input: seq<char>, pos: nat, bufsiz: nat, lineno: nat,
                        delim: char, s: Sel, hflag: bool)
  {
    && '\0' !in input && pos <= |input| && bufsiz >= 2 && delim != '\0' && Indexable(s)
    && var r := CutStream(input, pos, bufsiz, lineno, delim, s, hflag);
    goal.rows == rows + r.rows && goal.overrun == r.overrun
  }

  /** A blank record ends the result where it stands. */
  lemma PendsBlank(goal: CutResult, rows: seq<Row>, input: seq<char>, pos: nat, bufsiz: nat, lineno: nat,
                   delim: char, s: Sel, hflag: bool)
    requires Pends(goal, rows, input, pos, bufsiz, lineno, delim, s, hflag)
    requires Blank(Assemble(input, pos, bufsiz).st.text)
    ensures goal == CutResult(rows, Some(lineno + 1))
  {
  }

  /** The last record adds its row and ends the result. */
  lemma PendsLast(goal: CutResult, rows: seq<Row>, input: seq<char>, pos: nat, bufsiz: nat, lineno: nat,
                  delim: char, s: Sel, hflag: bool)
    requires Pends(goal, rows, input, pos, bufsiz, lineno, delim, s, hflag)
    requires var a := Assemble(input, pos, bufsiz); !Blank(a.st.text) && a.eof
    ensures var a := Assemble(input, pos, bufsiz);
      goal == CutResult(rows + Here(a.st.text, lineno + 1, delim, s, hflag), None)
  {
  }

  /** Any other record adds its row and leaves the rest to come. */
  lemma PendsStep(goal: CutResult, rows: seq<Row>, input: seq<char>, pos: nat, bufsiz: nat, lineno: nat,
                  delim: char, s: Sel, hflag: bool)
    requires Pends(goal, rows, input, pos, bufsiz, lineno, delim, s, hflag)
    requires var a := Assemble(input, pos, bufsiz); !Blank(a.st.text) && !a.eof
    ensures var a := Assemble(input, pos, bufsiz);
      Pends(goal, rows + Here(a.st.text, lineno + 1, delim, s, hflag), input, a.st.pos, a.st.bufsiz, lineno + 1, delim, s, hflag)
  {
    var a := Assemble(input, pos, bufsiz);
    AssembleProgress(input, pos, bufsiz);
    var here := Here(a.st.text, lineno + 1, delim, s, hflag);
    var rest := CutStream(input, a.st.pos, a.st.bufsiz, lineno + 1, delim, s, hflag);
    assert rows + (here + rest.rows) == (rows + here) + rest.rows;
  }

  /** The three cases of one more record together. */
  lemma PendsNext(goal: CutResult, rows: seq<Row>, input: seq<char>, pos: nat, bufsiz: nat, lineno: nat,
                  delim: char, s: Sel, hflag: bool)
    requires Pends(goal, rows, input, pos, bufsiz, lineno, delim, s, hflag)
    ensures var a := Assemble(input, pos, bufsiz);
      && (Blank(a.st.text) ==> goal == CutResult(rows, Some(lineno + 1)))
      && (!Blank(a.st.text) && a.eof ==> goal == CutResult(rows + Here(a.st.text, lineno + 1, delim, s, hflag), None))
      && (!Blank(a.st.text) && !a.eof ==>
            Pends(goal, rows + Here(a.st.text, lineno + 1, delim, s, hflag), input, a.st.pos, a.st.bufsiz, lineno + 1, delim, s, hflag))
  {
    var a := Assemble(input, pos, bufsiz);
    if Blank(a.st.text) {
      PendsBlank(goal, rows, input, pos, bufsiz, lineno, delim, s, hflag);
    } else if a.eof {
      PendsLast(goal, rows, input, pos, bufsiz, lineno, delim, s, hflag);
    } else {
      PendsStep(goal, rows, input, pos, bufsiz, lineno, delim, s, hflag);
    }
  }

  /** One pass of the record loop, with the rows printed so far: the
      result of csv_cut is either reached or still pending. */
  method CutNext(cols: Columns, input: seq<char>, pos: nat, bufsiz: nat, lineno: nat, delim: char, hflag: bool,
                 rows: seq<Row>, ghost s: Sel, ghost goal: CutResult)
    returns (pos': nat, bufsiz': nat, lineno': nat, atEnd: bool, rows': seq<Row>, bad: bool)
    requires cols.State() == s && Pends(goal, rows, input, pos, bufsiz, lineno, delim, s, hflag)
    ensures pos <= pos' <= |input| && bufsiz' >= 2 && (!atEnd ==> pos < pos')
    ensures bad ==> rows' == rows && goal == CutResult(rows, Some(lineno'))
    ensures !bad && atEnd ==> goal == CutResult(rows', None)
    ensures !bad && !atEnd ==> Pends(goal, rows', input, pos', bufsiz', lineno', delim, s, hflag)
  {
    PendsNext(goal, rows, input, pos, bufsiz, lineno, delim, s, hflag);
    var here;
    pos', bufsiz', lineno', atEnd, here, bad := CutOne(cols, input, pos, bufsiz, lineno, delim, hflag, s);
    rows' := rows + here;
  }

  /** csv_cut(fp, fnam, dchar) (src/csvcut.c:320-416) on an input without
      NUL bytes: a buffer of BUFCHUNK bytes, records until fgets returns
      NULL, and positions freed at the end. */
  method CutFile(cols: Columns, input: seq<char>, delim: char, hflag: bool)
    returns (rows: seq<Row>, overrun: Option<nat>)
    requires '\0' !in input && delim != '\0'
    requires cols.positions != null ==> cols.maxval < cols.positions.Length
    modifies cols
    ensures Indexable(old(cols.State()))
    ensures CutResult(rows, overrun) == CutStream(input, 0, BUFCHUNK, 0, delim, old(cols.State()), hflag)
    ensures cols.State() == old(cols.State()).(positions := None)
  {
    ghost var s := cols.State();
    ghost var goal := CutStream(input, 0, BUFCHUNK, 0, delim, s, hflag);
    var pos, bufsiz, lineno, atEnd := 0, BUFCHUNK, 0, false;
    rows, overrun := [], None;
    while !atEnd
      invariant pos <= |input| && bufsiz >= 2 && cols.State() == s && Indexable(s)
      invariant !atEnd ==> Pends(goal, rows, input, pos, bufsiz, lineno, delim, s, hflag)
      invariant atEnd ==> goal == CutResult(rows, overrun)
      decreases |input| - pos, if atEnd then 0 else 1
    {
      var bad;
      pos, bufsiz, lineno, atEnd, rows, bad := CutNext(cols, input, pos, bufsiz, lineno, delim, hflag, rows, s, goal);
      if bad {
        overrun := Some(lineno);
        break;
      }
    }
    assert goal == CutResult(rows, overrun);
    cols.Release();
  }
}
