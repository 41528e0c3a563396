/**
 * What get_list and needpos of src/csvcut.c:90-168 promise about the
 * column list: the marks of every token and every call accumulate, the
 * three scalars are a maximum, a minimum and a capped maximum, and the
 * array grows by doubling.
 */
module FieldListLaws {

  import opened Ctype
  import opened Libc
  import opened FieldList

  /** Ranges as ParseToken produces them. */
  predicate ValidRanges(rs: seq<Range>)
  {
    forall k :: 0 <= k < |rs| ==> rs[k].start >= 1 && rs[k].stop >= 1
  }

  /** The accepted tokens applied in order. */
  function ApplyRanges(s: Sel, rs: seq<Range>): (r: Sel)
    requires Inv(s) && ValidRanges(rs)
    ensures Inv(r) && ((rs != [] || s.positions.Some?) ==> r.positions.Some?)
    decreases |rs|
  {
    if rs == [] then s else ApplyRanges(Apply(s, rs[0]), rs[1..])
  }

  predicate AllParse(toks: seq<seq<char>>)
  {
    forall k :: 0 <= k < |toks| ==> ParseToken(toks[k]).Parsed?
  }

  /** The ranges of a list whose tokens all parse. */
  function RangesOf(toks: seq<seq<char>>): (rs: seq<Range>)
    requires AllParse(toks)
    ensures |rs| == |toks| && ValidRanges(rs)
    ensures forall k :: 0 <= k < |toks| ==> ParseToken(toks[k]) == Parsed(rs[k])
  {
    seq(|toks|, k requires 0 <= k < |toks| => ParseToken(toks[k]).range)
  }

  /** The first token that does not parse. */
  function FirstFailure(toks: seq<seq<char>>): (k: nat)
    requires !AllParse(toks)
    ensures k < |toks| && ParseToken(toks[k]).Failed? && AllParse(toks[..k])
    decreases |toks|
  {
    if ParseToken(toks[0]).Failed? then 0
    else
      var k := FirstFailure(toks[1..]) + 1;
      assert forall j :: 1 <= j < k ==> toks[..k][j] == toks[1..][..k - 1][j - 1];
      k
  }

  lemma {:induction false} ApplyAllParsed(s: Sel, toks: seq<seq<char>>)
    requires Inv(s) && AllParse(toks)
    ensures ApplyAll(s, toks) == Compiled(ApplyRanges(s, RangesOf(toks)))
    decreases |toks|
  {
    if toks != [] {
      assert ParseToken(toks[0]) == Parsed(RangesOf(toks)[0]);
      assert RangesOf(toks[1..]) == RangesOf(toks)[1..];
      ApplyAllParsed(Apply(s, RangesOf(toks)[0]), toks[1..]);
    }
  }

  lemma {:induction false} ApplyAllRejected(s: Sel, toks: seq<seq<char>>, k: nat)
    requires Inv(s) && k < |toks| && ParseToken(toks[k]).Failed? && AllParse(toks[..k])
    ensures ApplyAll(s, toks) == Rejected(ParseToken(toks[k]).error)
    decreases k
  {
    if k > 0 {
      assert toks[..k][0] == toks[0];
      assert toks[1..][..k - 1] == toks[..k][1..];
      ApplyAllRejected(Apply(s, ParseToken(toks[0]).range), toks[1..], k - 1);
    }
  }

  /** get_list either takes every token, or stops at the first token that
      does not parse with that token's error (src/csvcut.c:122-168). */
  lemma CompileOutcome(s: Sel, list: seq<char>)
    requires Inv(s)
    ensures var toks := SplitList(list);
      && (AllParse(toks) ==> Compile(s, list) == Compiled(Finish(ApplyRanges(s, RangesOf(toks)))))
      && (!AllParse(toks) ==> Compile(s, list) == Rejected(ParseToken(toks[FirstFailure(toks)]).error))
  {
    var toks := SplitList(list);
    if AllParse(toks) {
      ApplyAllParsed(s, toks);
    } else {
      ApplyAllRejected(s, toks, FirstFailure(toks));
    }
  }

  /** Column `p` (1-based) is marked in the array. */
  predicate Marked(s: Sel, p: nat)
  {
    p < |Contents(s)| && Contents(s)[p] != 0
  }

  /** Some range of the list holds column `p`. */
  predicate Covers(rs: seq<Range>, p: nat)
  {
    exists k :: 0 <= k < |rs| && rs[k].start <= p <= rs[k].stop
  }

  /** needpos keeps the old bytes, zeroes the new ones, and leaves at
      least `n` bytes (src/csvcut.c:94-105). */
  lemma NeedPosKeeps(s: Sel, n: nat)
    requires s.positions.None? ==> s.npos == 0
    requires s.positions.Some? ==> |s.positions.value| == s.npos
    ensures var r := NeedPos(s, n);
      && |Contents(s)| <= |Contents(r)|
      && (n > s.npos ==> r.positions.Some? && n <= |Contents(r)|)
      && Contents(r)[..|Contents(s)|] == Contents(s)
      && (forall p :: |Contents(s)| <= p < |Contents(r)| ==> Contents(r)[p] == 0)
      && (forall p: nat :: Marked(r, p) <==> Marked(s, p))
      && r.autostart == s.autostart && r.autostop == s.autostop && r.maxval == s.maxval
  {
    var r := NeedPos(s, n);
    if n > s.npos {
      assert Contents(r) == Contents(s) + Zeros(r.npos - s.npos);
    }
  }

  /** One token adds exactly its range to the marks (src/csvcut.c:146-150). */
  lemma ApplyMarks(s: Sel, r: Range)
    requires Inv(s) && r.start >= 1 && r.stop >= 1
    ensures forall p: nat :: Marked(Apply(s, r), p) <==> Marked(s, p) || r.start <= p <= r.stop
  {
    var s1 := Bounds(s, r);
    if s1.maxval < r.stop {
      NeedPosKeeps(s1.(maxval := r.stop), r.stop + 1);
    }
    var s2 := Grow(s1, r.stop);
    assert forall p: nat :: Marked(s2, p) <==> Marked(s, p);
    var s3 := MarkRange(s2, r.start, r.stop);
    assert Contents(s3) == Mark(Contents(s2), r.start, r.stop);
  }

  /** The marks of all the tokens of all the lists accumulate as a union
      (src/csvcut.c:122-150). */
  lemma {:induction false} MarksUnion(s: Sel, rs: seq<Range>)
    requires Inv(s) && ValidRanges(rs)
    ensures forall p: nat :: Marked(ApplyRanges(s, rs), p) <==> Marked(s, p) || Covers(rs, p)
    decreases |rs|
  {
    if rs != [] {
      ApplyMarks(s, rs[0]);
      MarksUnion(Apply(s, rs[0]), rs[1..]);
      forall p: nat
        ensures Covers(rs, p) <==> (rs[0].start <= p <= rs[0].stop || Covers(rs[1..], p))
      {
        if Covers(rs, p) {
          var k :| 0 <= k < |rs| && rs[k].start <= p <= rs[k].stop;
          if k > 0 {
            assert rs[1..][k - 1] == rs[k];
          }
        }
        if Covers(rs[1..], p) {
          var k :| 0 <= k < |rs[1..]| && rs[1..][k].start <= p <= rs[1..][k].stop;
          assert rs[k + 1] == rs[1..][k];
        }
      }
    }
  }

  /** The final adjustments add exactly the columns 1..autostart to the
      marks, and keep `autostart` and `autostop` (src/csvcut.c:153-167). */
  lemma FinishMarks(s: Sel)
    requires Inv(s)
    ensures Finish(s).autostart == s.autostart && Finish(s).autostop == s.autostop
    ensures forall p: nat :: Marked(Finish(s), p) <==> Marked(s, p) || 1 <= p <= s.autostart
  {
    var s1 := CapAtAutostop(s);
    if s.autostop > 0 && s.maxval > s.autostop {
      NeedPosKeeps(s.(maxval := s.autostop), s.autostop + 1);
    }
    var s2 := RaiseToAuto(s1);
    if s1.maxval < s1.autostart {
      NeedPosKeeps(s1.(maxval := s1.autostart), s1.autostart + 1);
    }
    assert forall p: nat :: Marked(s2, p) <==> Marked(s, p);
    if s2.autostart > 0 {
      assert Contents(MarkAuto(s2)) == SetAuto(Contents(s2), s2.autostart);
    }
  }

  /** A call of get_list adds to the marks the earlier calls left its
      ranges and the columns 1..autostart, and removes none
      (src/csvcut.c:122-167). */
  lemma CompileMarks(s: Sel, list: seq<char>, p: nat)
    requires Inv(s) && Compile(s, list).Compiled?
    ensures AllParse(SplitList(list))
    ensures var s' := Compile(s, list).sel;
      Marked(s', p) <==> Marked(s, p) || Covers(RangesOf(SplitList(list)), p) || 1 <= p <= s'.autostart
  {
    CompileOutcome(s, list);
    var rs := RangesOf(SplitList(list));
    MarksUnion(s, rs);
    FinishMarks(ApplyRanges(s, rs));
  }

  /** `autostart` is the largest M of the `-M` tokens, or what it was
      (src/csvcut.c:130-131). */
  lemma {:induction false} AutostartIsMax(s: Sel, rs: seq<Range>)
    requires Inv(s) && ValidRanges(rs)
    ensures var a := ApplyRanges(s, rs).autostart;
      && s.autostart <= a
      && (forall k :: 0 <= k < |rs| && rs[k].lead ==> rs[k].start <= a)
      && (a == s.autostart || exists k :: 0 <= k < |rs| && rs[k].lead && rs[k].start == a)
    decreases |rs|
  {
    if rs != [] {
      AutostartIsMax(Apply(s, rs[0]), rs[1..]);
      var a := ApplyRanges(s, rs).autostart;
      forall k | 0 <= k < |rs| && rs[k].lead
        ensures rs[k].start <= a
      {
        if k > 0 {
          assert rs[1..][k - 1] == rs[k];
        }
      }
      if a != Apply(s, rs[0]).autostart {
        var k :| 0 <= k < |rs[1..]| && rs[1..][k].lead && rs[1..][k].start == a;
        assert rs[k + 1] == rs[1..][k];
      }
    }
  }

  /** `autostop` is the smallest bound of the tokens that end in `-`, or
      what it was; zero stands for none (src/csvcut.c:136-139). */
  lemma {:induction false} AutostopIsMin(s: Sel, rs: seq<Range>)
    requires Inv(s) && ValidRanges(rs)
    ensures var o := ApplyRanges(s, rs).autostop;
      && (o == 0 <==> s.autostop == 0 && forall k :: 0 <= k < |rs| ==> !rs[k].open)
      && (s.autostop > 0 ==> o <= s.autostop)
      && (forall k :: 0 <= k < |rs| && rs[k].open ==> o <= rs[k].stop)
      && (o == s.autostop || exists k :: 0 <= k < |rs| && rs[k].open && rs[k].stop == o)
    decreases |rs|
  {
    if rs != [] {
      AutostopIsMin(Apply(s, rs[0]), rs[1..]);
      var o := ApplyRanges(s, rs).autostop;
      forall k | 0 <= k < |rs| && rs[k].open
        ensures o <= rs[k].stop
      {
        if k > 0 {
          assert rs[1..][k - 1] == rs[k];
        }
      }
      if o == 0 {
        forall k | 0 <= k < |rs|
          ensures !rs[k].open
        {
          if k > 0 {
            assert rs[1..][k - 1] == rs[k];
          }
        }
      }
      if o != Apply(s, rs[0]).autostop {
        var k :| 0 <= k < |rs[1..]| && rs[1..][k].open && rs[1..][k].stop == o;
        assert rs[k + 1] == rs[1..][k];
      }
    }
  }

  /** Before the final adjustments, `maxval` is the largest stop, or what
      it was (src/csvcut.c:146-149). */
  lemma {:induction false} MaxvalIsMax(s: Sel, rs: seq<Range>)
    requires Inv(s) && ValidRanges(rs)
    ensures var m := ApplyRanges(s, rs).maxval;
      && s.maxval <= m
      && (forall k :: 0 <= k < |rs| ==> rs[k].stop <= m)
      && (m == s.maxval || exists k :: 0 <= k < |rs| && rs[k].stop == m)
    decreases |rs|
  {
    if rs != [] {
      MaxvalIsMax(Apply(s, rs[0]), rs[1..]);
      var m := ApplyRanges(s, rs).maxval;
      forall k | 0 <= k < |rs|
        ensures rs[k].stop <= m
      {
        if k > 0 {
          assert rs[1..][k - 1] == rs[k];
        }
      }
      if m != Apply(s, rs[0]).maxval {
        var k :| 0 <= k < |rs[1..]| && rs[1..][k].stop == m;
        assert rs[k + 1] == rs[1..][k];
      }
    }
  }

  /** The final `maxval` is the old one capped at `autostop`, then raised
      to `autostart`, and index `maxval` is inside the array
      (src/csvcut.c:153-163). */
  lemma FinishMaxval(s: Sel)
    requires Inv(s)
    ensures var m := Finish(s).maxval;
      && s.autostart <= m
      && (s.autostop == 0 || s.maxval <= s.autostop ==> s.maxval <= m)
      && (s.autostop > 0 && s.autostop > s.autostart ==> m <= s.autostop)
      && (s.autostop > 0 && s.maxval > s.autostop ==> s.autostop <= m)
      && (m <= s.maxval || m == s.autostart)
      && (m == s.maxval || m == s.autostop || m == s.autostart)
      && (s.positions.Some? ==> Finish(s).positions.Some? && m < |Contents(Finish(s))|)
  {
  }

  /** Doubling from below `n` overshoots `n` by less than a factor two. */
  lemma {:induction false} DoubledBelow(c: nat, n: nat)
    requires 0 < c < n
    ensures Doubled(c, n) < 2 * n
    decreases n - c
  {
    if 2 * c < n {
      DoubledBelow(2 * c, n);
    }
  }

  /** needpos(n) (src/csvcut.c:96-101): no change when the array is big
      enough; otherwise the first request is taken as it is, and later ones
      double the capacity until it holds `n`, staying below `2 * n`. */
  lemma GrowthBounds(npos: nat, n: nat)
    ensures n <= npos ==> GrownSize(npos, n) == npos
    ensures n > npos ==> n <= GrownSize(npos, n)
    ensures npos == 0 ==> GrownSize(npos, n) == n
    ensures 0 < npos < n ==> GrownSize(npos, n) < 2 * n
  {
    if 0 < npos < n {
      DoubledBelow(npos, n);
    }
  }

  /** The decimal digits of `n`, without leading zeros. */
  function Dec(n: nat): (d: seq<char>)
    ensures |d| >= 1 && forall i :: 0 <= i < |d| ==> IsDigit(d[i])
    decreases n
  {
    if n < 10 then [('0' as int + n) as char] else Dec(n / 10) + [('0' as int + n % 10) as char]
  }

  /** strtol reads back the digits of `n` when a non-digit or the end
      follows them. */
  lemma {:induction false} DecValue(t: seq<char>, i: nat, n: nat)
    requires i + |Dec(n)| <= |t| && t[i..i + |Dec(n)|] == Dec(n)
    ensures DigitsValue(t, i, i + |Dec(n)|) == n
    decreases n
  {
    var j := i + |Dec(n)|;
    var d := n % 10;
    assert Dec(n)[|Dec(n)| - 1] == ('0' as int + d) as char;
    assert t[j - 1] == Dec(n)[|Dec(n)| - 1];
    assert (t[j - 1] as int - '0' as int) % 10 == d;
    if n >= 10 {
      var h := Dec(n / 10);
      assert Dec(n) == h + [('0' as int + d) as char];
      assert t[i..j - 1] == Dec(n)[..|h|];
      assert Dec(n)[..|h|] == h;
      DecValue(t, i, n / 10);
      assert (n / 10) * 10 + d == n;
    }
  }

  lemma {:induction false} DigitsEndAt(t: seq<char>, i: nat, j: nat)
    requires i <= j <= |t| && (j < |t| ==> !IsDigit(t[j]))
    requires forall k :: i <= k < j ==> IsDigit(t[k])
    ensures DigitsEnd(t, i) == j
    decreases j - i
  {
    if i < j {
      DigitsEndAt(t, i + 1, j);
    }
  }

  lemma DecParse(t: seq<char>, i: nat, n: nat)
    requires i + |Dec(n)| <= |t| && t[i..i + |Dec(n)|] == Dec(n)
    requires i + |Dec(n)| < |t| ==> !IsDigit(t[i + |Dec(n)|])
    ensures IsDigit(t[i]) && StrToL(t, i) == (n, i + |Dec(n)|)
  {
    var j := i + |Dec(n)|;
    assert forall k :: i <= k < j ==> t[k] == Dec(n)[k - i];
    assert t[i] == Dec(n)[0];
    DigitsEndAt(t, i, j);
    DecValue(t, i, n);
  }

  /** A token that stands for range `r`: `N`, `N-M`, `-M`, `N-` or `N-M-`,
      with the leading `-` when `r` raises `autostart`. */
  function Render(r: Range): seq<char>
  {
    (if r.lead then "-" else "") + Dec(r.start)
      + (if r.stop != r.start then "-" + Dec(r.stop) else "")
      + (if r.open then "-" else "")
  }

  /** The digits of `n` at `i`, followed by a non-digit or the end. */
  lemma NumberDec(t: seq<char>, i: nat, n: nat, dflt: nat)
    requires i + |Dec(n)| <= |t| && t[i..i + |Dec(n)|] == Dec(n)
    requires i + |Dec(n)| < |t| ==> !IsDigit(t[i + |Dec(n)|])
    ensures Number(t, i, dflt) == (n, i + |Dec(n)|)
  {
    DecParse(t, i, n);
  }

  /** `-M` then an optional `-` after the first number. */
  lemma TailWithStop(t: seq<char>, p1: nat, start: nat, stop: nat, open: bool)
    requires p1 <= |t| && t[p1..] == "-" + Dec(stop) + (if open then "-" else "")
    ensures RangeTail(t, start, p1) == (stop, |t|, open)
  {
    var q := p1 + 1 + |Dec(stop)|;
    assert t[p1 + 1..q] == t[p1..][1..1 + |Dec(stop)|] == Dec(stop);
    assert At(t, p1) == t[p1..][0] == '-';
    assert q < |t| ==> t[q] == t[p1..][q - p1] == '-';
    DecParse(t, p1 + 1, stop);
  }

  /** Only an optional `-` after the first number. */
  lemma TailAlone(t: seq<char>, p1: nat, start: nat, open: bool)
    requires p1 <= |t| && t[p1..] == (if open then "-" else "")
    ensures RangeTail(t, start, p1) == (start, |t|, open)
  {
    if open {
      assert At(t, p1) == t[p1..][0] == '-';
      assert At(t, p1 + 1) == '\0';
    }
  }

  /** An optional leading `-`, then the first number. */
  lemma HeadParse(t: seq<char>, lead: bool, start: nat)
    requires var p1 := (if lead then 1 else 0) + |Dec(start)|;
      && p1 <= |t| && t[..p1] == (if lead then "-" else "") + Dec(start)
      && (p1 < |t| ==> t[p1] == '-')
    ensures var p0 := if lead then 1 else 0;
      && (At(t, 0) == '-' <==> lead)
      && IsDigit(At(t, p0))
      && Number(t, p0, 0) == (start, p0 + |Dec(start)|)
  {
    var p0 := if lead then 1 else 0;
    var p1 := p0 + |Dec(start)|;
    assert t[p0..p1] == t[..p1][p0..] == Dec(start);
    assert t[0] == t[..p1][0];
    NumberDec(t, p0, start, 0);
  }

  /** ParseToken in terms of its two parts. */
  lemma ParseParts(t: seq<char>, r: Range, p1: nat)
    requires r.start >= 1 && r.stop >= 1
    requires var p0 := if r.lead then 1 else 0;
      && (At(t, 0) == '-' <==> r.lead) && IsDigit(At(t, p0))
      && Number(t, p0, 0) == (r.start, p1)
      && RangeTail(t, r.start, p1) == (r.stop, |t|, r.open)
    ensures ParseToken(t) == Parsed(r)
  {
  }

  /** Every range get_list accepts is read back from its token
      (src/csvcut.c:123-145). */
  lemma RenderParse(r: Range)
    requires r.start >= 1 && r.stop >= 1
    ensures ParseToken(Render(r)) == Parsed(r)
  {
    var t := Render(r);
    var p1 := RenderSplit(r);
    HeadParse(t, r.lead, r.start);
    if r.stop != r.start {
      TailWithStop(t, p1, r.start, r.stop, r.open);
    } else {
      TailAlone(t, p1, r.start, r.open);
    }
    ParseParts(t, r, p1);
  }

  /** Where the start bound of a rendered token ends. */
  lemma RenderSplit(r: Range) returns (p1: nat)
    ensures var t := Render(r);
      && p1 <= |t|
      && t[..p1] == (if r.lead then "-" else "") + Dec(r.start)
      && t[p1..] == (if r.stop != r.start then "-" + Dec(r.stop) else "") + (if r.open then "-" else "")
  {
    var t := Render(r);
    var l: seq<char> := if r.lead then "-" else "";
    var m: seq<char> := if r.stop != r.start then "-" + Dec(r.stop) else "";
    var o: seq<char> := if r.open then "-" else "";
    p1 := |l| + |Dec(r.start)|;
    assert t == (l + Dec(r.start)) + (m + o);
  }

  /** The columns (1-based) one token asks for: `N-M` the range, `-M`
      also 1..M, and a trailing `-` everything after the stop. */
  predicate TokenSelects(r: Range, n: nat)
  {
    (r.start <= n <= r.stop) || (r.lead && 1 <= n <= r.start) || (r.open && n > r.stop)
  }

  /** The columns a list asks for: those some token asks for. */
  predicate Intended(rs: seq<Range>, n: nat)
  {
    exists k :: 0 <= k < |rs| && TokenSelects(rs[k], n)
  }

  /** After get_list, the columns 1..autostart are those some `-M` token
      asks for, and the columns past a nonzero autostop those some `N-`
      token asks for. */
  lemma AutoColumns(rs: seq<Range>, n: nat)
    requires ValidRanges(rs)
    ensures var s := ApplyRanges(Initial, rs);
      && (1 <= n <= s.autostart <==> exists k :: 0 <= k < |rs| && rs[k].lead && 1 <= n <= rs[k].start)
      && (s.autostop > 0 && n > s.autostop <==> exists k :: 0 <= k < |rs| && rs[k].open && n > rs[k].stop)
  {
    AutostartIsMax(Initial, rs);
    AutostopIsMin(Initial, rs);
  }

  /** The final state of get_list on a list whose tokens all parse. */
  function ListState(rs: seq<Range>): (s: Sel)
    requires ValidRanges(rs)
    ensures Inv(s)
  {
    Finish(ApplyRanges(Initial, rs))
  }

  /** Marks after one list: its ranges and 1..autostart. */
  lemma MarkedMeans(rs: seq<Range>, n: nat)
    requires ValidRanges(rs)
    ensures Marked(ListState(rs), n) <==> Covers(rs, n) || 1 <= n <= ListState(rs).autostart
  {
    var s0 := ApplyRanges(Initial, rs);
    MarksUnion(Initial, rs);
    FinishMarks(s0);
  }

  /** A marked column past `maxval` lies past a nonzero `autostop`. */
  lemma MarkedPastMaxval(rs: seq<Range>, n: nat)
    requires ValidRanges(rs) && rs != []
    ensures var s := ListState(rs);
      && s.positions.Some? && s.maxval < |s.positions.value|
      && (Marked(s, n) && n > s.maxval ==> s.autostop > 0 && n > s.autostop)
  {
    var s0 := ApplyRanges(Initial, rs);
    var s := ListState(rs);
    MarkedMeans(rs, n);
    MaxvalIsMax(Initial, rs);
    FinishMaxval(s0);
    FinishMarks(s0);
    if Marked(s, n) && n > s.maxval {
      var k :| 0 <= k < |rs| && rs[k].start <= n <= rs[k].stop;
    }
  }

  /** The corrected test reads: past a nonzero autostop, or marked. */
  lemma FixedIsMarkedOrPast(rs: seq<Range>, i: nat)
    requires ValidRanges(rs) && rs != []
    ensures var s := ListState(rs);
      && s.positions.Some? && s.maxval < |s.positions.value|
      && (EmitsFixed(s, i) <==> (s.autostop > 0 && i + 1 > s.autostop) || Marked(s, i + 1))
  {
    MarkedPastMaxval(rs, i + 1);
  }

  /** The columns a list of ranges asks for are those emitted. */
  lemma SelectionOfRanges(rs: seq<Range>, i: nat)
    requires ValidRanges(rs) && rs != []
    ensures var s := ListState(rs);
      && s.positions.Some? && s.maxval < |s.positions.value|
      && (EmitsFixed(s, i) <==> Intended(rs, i + 1))
  {
    var n := i + 1;
    var s0 := ApplyRanges(Initial, rs);
    FixedIsMarkedOrPast(rs, i);
    MarkedMeans(rs, n);
    FinishMarks(s0);
    AutoColumns(rs, n);
    if Intended(rs, n) {
      var k :| 0 <= k < |rs| && TokenSelects(rs[k], n);
      if rs[k].start <= n <= rs[k].stop {
        assert Covers(rs, n);
      }
    }
    if Covers(rs, n) {
      var k :| 0 <= k < |rs| && rs[k].start <= n <= rs[k].stop;
      assert TokenSelects(rs[k], n);
    }
  }

  /** With the corrected test, a field is emitted exactly when the list
      asks for its column (src/csvcut.c:110-168, 391). */
  lemma SelectionMeaning(list: seq<char>, i: nat)
    requires Compile(Initial, list).Compiled?
    ensures var s := Compile(Initial, list).sel;
      && AllParse(SplitList(list))
      && s.positions.Some? && s.maxval < |s.positions.value|
      && (EmitsFixed(s, i) <==> Intended(RangesOf(SplitList(list)), i + 1))
  {
    CompileOutcome(Initial, list);
    SelectionOfRanges(RangesOf(SplitList(list)), i);
  }

  /** A reversed `N-M` with N>M marks nothing, though its stop still
      raises `maxval` (src/csvcut.c:146-150). */
  lemma ReversedMarksNothing(s: Sel, r: Range)
    requires Inv(s) && r.start >= 1 && r.stop >= 1 && r.start > r.stop
    ensures forall p: nat :: Marked(Apply(s, r), p) <==> Marked(s, p)
    ensures r.stop <= Apply(s, r).maxval
  {
    ApplyMarks(s, r);
  }

  /** The errors of get_list for one token: trailing junk is an illegal
      value even when the number is zero, since that check comes first; a
      bare `-` and a zero are zero values (src/csvcut.c:142-145). */
  lemma TokenErrors()
    ensures ParseToken("0x") == Failed(IllegalValue)
    ensures ParseToken("5;") == Failed(IllegalValue)
    ensures ParseToken("-") == Failed(ZeroValue)
    ensures ParseToken("0") == Failed(ZeroValue)
  {
    NumberDec("0x", 0, 0, 0);
    NumberDec("0", 0, 0, 0);
    NumberDec("5;", 0, 5, 0);
  }

  /** strsep on ", \t" gives an empty token between two adjacent
      separators (src/csvcut.c:122). */
  lemma AdjacentSeparators()
    ensures SplitList("1, 2") == ["1", "", "2"]
  {
    assert SepIndex("1, 2", 0) == 1;
    assert SepIndex(" 2", 0) == 0;
    assert SepIndex("2", 0) == 1;
    assert "1, 2"[2..] == " 2" && " 2"[1..] == "2";
    assert SplitList("2") == ["2"];
    assert "1, 2"[..1] == "1";
    assert " 2"[..0] == "";
    assert SplitList(" 2") == [" 2"[..0]] + SplitList(" 2"[1..]);
    assert SplitList("1, 2") == ["1, 2"[..1]] + SplitList("1, 2"[2..]);
  }

  /** So the list `1, 2` aborts with the zero-value error. */
  lemma AdjacentSeparatorsRejected()
    ensures Compile(Initial, "1, 2") == Rejected(ZeroValue)
  {
    AdjacentSeparators();
    var toks := SplitList("1, 2");
    RenderParse(Range(1, 1, false, false));
    assert Render(Range(1, 1, false, false)) == "1";
    assert ParseToken(toks[1]).Failed?;
    assert FirstFailure(toks) == 1;
    CompileOutcome(Initial, "1, 2");
  }

  /** The list `1-` as the selection test of src/csvcut.c:391 reads it:
      field 0 is emitted and field 1 is not, though the list asks for
      every column from the first on. */
  lemma OneDashAsWritten()
    ensures Compile(Initial, "1-").Compiled?
    ensures var s := Compile(Initial, "1-").sel;
      && s.positions.Some? && s.maxval < |s.positions.value|
      && Emits(s, 0) && !Emits(s, 1)
      && EmitsFixed(s, 1)
      && RangesOf(SplitList("1-")) == [Range(1, 1, false, true)]
      && Intended(RangesOf(SplitList("1-")), 2)
  {
    var r := Range(1, 1, false, true);
    RenderParse(r);
    assert Render(r) == "1-";
    assert SepIndex("1-", 0) == 2;
    assert SplitList("1-") == ["1-"];
    assert AllParse(["1-"]);
    CompileOutcome(Initial, "1-");
    var s0 := ApplyRanges(Initial, [r]);
    assert [r][1..] == [];
    assert s0 == Apply(Initial, r);
    assert s0.autostop == 1 && s0.maxval == 1 && s0.autostart == 0;
    assert Contents(s0) == [0, 1];
    assert TokenSelects(r, 2);
  }

  /** The two tests differ only when `autostop` is 1. */
  lemma EmitsAgree(s: Sel, i: nat)
    requires s.positions.Some? ==> s.maxval < |s.positions.value|
    requires s.autostop != 1
    ensures Emits(s, i) <==> EmitsFixed(s, i)
  {
  }
}
