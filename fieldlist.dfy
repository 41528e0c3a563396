/**
 * The column-list compiler of src/csvcut.c:90-168 (needpos and get_list,
 * taken from FreeBSD cut): a `-f` list such as `-3,5,7-9,12-` becomes a
 * growable 1-based byte array `positions` and the scalars `autostart`,
 * `autostop` and `maxval`; and the per-field selection test of
 * src/csvcut.c:391 that reads them.
 */
module FieldList {

  import opened Ctype
  import opened Libc

  newtype byte = x: int | 0 <= x < 256

  /** The two messages get_list aborts with (src/csvcut.c:143, 145). */
  datatype ListError = IllegalValue | ZeroValue

  /** The static state get_list and needpos update: `positions` (NULL
      until the first needpos), the capacity `npos` that needpos keeps in
      a static, and the three scalars. */
  datatype Sel = Sel(positions: Option<seq<byte>>, npos: nat, autostart: nat, autostop: nat, maxval: nat)

  /** The state before any list has been read. */
  const Initial: Sel := Sel(None, 0, 0, 0, 0)

  /** What holds between calls: the array is NULL exactly while nothing was
      allocated, and index `maxval` is inside it. */
  predicate Inv(s: Sel)
  {
    && (s.positions.None? ==> s.npos == 0 && s.maxval == 0)
    && (s.positions.Some? ==> |s.positions.value| == s.npos && s.maxval < s.npos)
  }

  /** The bytes of the array, none while it is NULL. */
  function Contents(s: Sel): seq<byte>
  {
    if s.positions.Some? then s.positions.value else []
  }

  /** Doubling the capacity `c` until it reaches `n` (src/csvcut.c:100-101). */
  function Doubled(c: nat, n: nat): (r: nat)
    requires c > 0
    ensures r >= n && r >= c
    decreases if n > c then n - c else 0
  {
    if n > c then Doubled(2 * c, n) else c
  }

  /** The capacity after needpos(n) (src/csvcut.c:96-101): the first request
      is taken as it is, later ones double the old capacity. */
  function GrownSize(npos: nat, n: nat): (r: nat)
  {
    if n > npos then Doubled(if npos == 0 then n else npos, n) else npos
  }

  function Zeros(k: nat): (z: seq<byte>)
    ensures |z| == k && forall i :: 0 <= i < k ==> z[i] == 0
  {
    seq(k, i => 0)
  }

  /** needpos(n) (src/csvcut.c:90-106): grow the array to at least `n`
      bytes, keeping the old bytes and zeroing the new ones. */
  function NeedPos(s: Sel, n: nat): (r: Sel)
    requires s.positions.None? ==> s.npos == 0
    requires s.positions.Some? ==> |s.positions.value| == s.npos
    ensures r.positions.None? ==> r.npos == 0
    ensures r.positions.Some? ==> |r.positions.value| == r.npos
  {
    if n > s.npos then
      var m := GrownSize(s.npos, n);
      s.(positions := Some(Contents(s) + Zeros(m - s.npos)), npos := m)
    else s
  }

  /** One token of the list, once parsed: the range `start..stop`, whether
      it raises `autostart` (a leading `-` before the number) and whether it
      ends in `-` (it then bounds `autostop`). */
  datatype Range = Range(start: nat, stop: nat, lead: bool, open: bool)

  /** The byte at `i` of a C string held without its NUL. */
  function At(t: seq<char>, i: nat): char
  {
    if i < |t| then t[i] else '\0'
  }

  /** The body of get_list for one token (src/csvcut.c:123-145): the range
      it stands for, or the error it aborts with.  The illegal-value check
      comes before the zero check. */
  function ParseToken(t: seq<char>): (r: Parsed)
    ensures r.Parsed? ==> r.range.start >= 1 && r.range.stop >= 1
  {
    var lead := At(t, 0) == '-';
    var p0 := if lead then 1 else 0;
    var (start, p1) := Number(t, p0, 0);
    var (stop, p2, open) := RangeTail(t, start, p1);
    if At(t, p2) != '\0' then Failed(IllegalValue)
    else if stop == 0 || start == 0 then Failed(ZeroValue)
    else Parsed(Range(start, stop, lead && IsDigit(At(t, p0)), open))
  }

  /** strtol at `i` when a digit is there (src/csvcut.c:128-129);
      otherwise `dflt`, and the cursor does not move. */
  function Number(t: seq<char>, i: nat, dflt: nat): (r: (nat, nat))
    ensures r.1 >= i
  {
    if IsDigit(At(t, i)) then StrToL(t, i) else (dflt, i)
  }

  /** After the first number (src/csvcut.c:133-141): an optional `-M`
      giving the stop (the start when no digits follow the `-`), then an
      optional `-` that makes the range open. */
  function RangeTail(t: seq<char>, start: nat, p1: nat): (r: (nat, nat, bool))
  {
    if At(t, p1) == '-' then
      var (m, q) := if IsDigit(At(t, p1 + 1)) then StrToL(t, p1 + 1) else (start, p1);
      if At(t, q) == '-' then (m, q + 1, true) else (m, q, false)
    else (start, p1, false)
  }

  datatype Parsed = Parsed(range: Range) | Failed(error: ListError)

  /** A separator of strsep(&list, ", \t") (src/csvcut.c:122). */
  predicate IsListSep(c: char)
  {
    c == ',' || c == ' ' || c == '\t'
  }

  /** The first separator at or after `i`, or the end of the list. */
  function SepIndex(l: seq<char>, i: nat): (k: nat)
    requires i <= |l|
    ensures i <= k <= |l| && (k < |l| ==> IsListSep(l[k]))
    ensures forall j :: i <= j < k ==> !IsListSep(l[j])
    decreases |l| - i
  {
    if i == |l| || IsListSep(l[i]) then i else SepIndex(l, i + 1)
  }

  /** The tokens successive strsep calls return: every separator ends a
      token, so adjacent separators give an empty one. */
  function SplitList(l: seq<char>): (toks: seq<seq<char>>)
    ensures |toks| >= 1
    ensures forall k, j :: 0 <= k < |toks| && 0 <= j < |toks[k]| ==> !IsListSep(toks[k][j])
    decreases |l|
  {
    var k := SepIndex(l, 0);
    if k == |l| then [l] else [l[..k]] + SplitList(l[k + 1..])
  }

  /** Marking a range with 1 (src/csvcut.c:150); a reversed range marks
      nothing. */
  function Mark(pos: seq<byte>, start: nat, stop: nat): (r: seq<byte>)
    requires stop < |pos|
    ensures |r| == |pos|
    ensures forall p :: 0 <= p < |pos| ==> r[p] == if start <= p <= stop then 1 else pos[p]
  {
    seq(|pos|, p requires 0 <= p < |pos| => if start <= p <= stop then 1 else pos[p])
  }

  /** The memset of '1' over positions 1..autostart (src/csvcut.c:166-167). */
  function SetAuto(pos: seq<byte>, a: nat): (r: seq<byte>)
    requires a < |pos|
    ensures |r| == |pos|
    ensures forall p :: 0 <= p < |pos| ==> r[p] == if 1 <= p <= a then '1' as int as byte else pos[p]
  {
    seq(|pos|, p requires 0 <= p < |pos| => if 1 <= p <= a then '1' as int as byte else pos[p])
  }

  /** One accepted token (src/csvcut.c:130-150). */
  function Apply(s: Sel, r: Range): (s': Sel)
    requires Inv(s) && r.start >= 1 && r.stop >= 1
    ensures Inv(s') && s'.positions.Some?
  {
    MarkRange(Grow(Bounds(s, r), r.stop), r.start, r.stop)
  }

  /** A `-M` token raises `autostart` to M, a token ending in `-` lowers
      `autostop` to its stop (src/csvcut.c:130-131, 136-139). */
  function Bounds(s: Sel, r: Range): (s': Sel)
    requires Inv(s)
    ensures Inv(s')
  {
    s.(autostart := if r.lead && r.start > s.autostart then r.start else s.autostart,
       autostop := if r.open && (s.autostop == 0 || s.autostop > r.stop) then r.stop else s.autostop)
  }

  /** A stop past `maxval` becomes the new `maxval` and the array grows to
      hold it (src/csvcut.c:146-149). */
  function Grow(s: Sel, stop: nat): (s': Sel)
    requires Inv(s) && stop >= 1
    ensures Inv(s') && s'.positions.Some? && stop <= s'.maxval
  {
    if s.maxval < stop then NeedPos(s.(maxval := stop), stop + 1) else s
  }

  /** The marking loop (src/csvcut.c:150). */
  function MarkRange(s: Sel, start: nat, stop: nat): (s': Sel)
    requires Inv(s) && s.positions.Some? && stop <= s.maxval
    ensures Inv(s') && s'.positions.Some?
  {
    s.(positions := Some(Mark(s.positions.value, start, stop)))
  }

  /** The tokens in order, up to the first one that is rejected. */
  function ApplyAll(s: Sel, toks: seq<seq<char>>): (r: Compiled)
    requires Inv(s)
    ensures r.Compiled? ==> Inv(r.sel)
    decreases |toks|
  {
    if toks == [] then Compiled(s)
    else match ParseToken(toks[0])
      case Failed(e) => Rejected(e)
      case Parsed(r) => ApplyAll(Apply(s, r), toks[1..])
  }

  datatype Compiled = Compiled(sel: Sel) | Rejected(error: ListError)

  /** The end of get_list (src/csvcut.c:153-167): cap `maxval` at
      `autostop`, raise it to `autostart`, and mark 1..autostart. */
  function Finish(s: Sel): (s': Sel)
    requires Inv(s)
    ensures Inv(s')
  {
    MarkAuto(RaiseToAuto(CapAtAutostop(s)))
  }

  /** Overlapping ranges: `maxval` comes down to `autostop`
      (src/csvcut.c:153-157). */
  function CapAtAutostop(s: Sel): (s': Sel)
    requires Inv(s)
    ensures Inv(s')
  {
    if s.autostop > 0 && s.maxval > s.autostop then NeedPos(s.(maxval := s.autostop), s.autostop + 1) else s
  }

  /** A reversed range with autostart: `maxval` goes up to `autostart`
      (src/csvcut.c:159-163). */
  function RaiseToAuto(s: Sel): (s': Sel)
    requires Inv(s)
    ensures Inv(s') && s'.autostart <= s'.maxval
  {
    if s.maxval < s.autostart then NeedPos(s.(maxval := s.autostart), s.autostart + 1) else s
  }

  /** The memset of 1..autostart (src/csvcut.c:165-167). */
  function MarkAuto(s: Sel): (s': Sel)
    requires Inv(s) && s.autostart <= s.maxval
    ensures Inv(s')
  {
    if s.autostart > 0 then s.(positions := Some(SetAuto(s.positions.value, s.autostart))) else s
  }

  /** get_list(list) from state `s` (src/csvcut.c:110-168). */
  function Compile(s: Sel, list: seq<char>): (r: Compiled)
    requires Inv(s)
    ensures r.Compiled? ==> Inv(r.sel)
  {
    match ApplyAll(s, SplitList(list))
    case Rejected(e) => Rejected(e)
    case Compiled(s1) => Compiled(Finish(s1))
  }

  /** The selection test of src/csvcut.c:391 for 0-based field `i`. */
  predicate Emits(s: Sel, i: nat)
    requires s.positions.Some? ==> s.maxval < |s.positions.value|
  {
    s.positions.None? || (s.autostop > 1 && s.autostop < i + 1) || (s.maxval > i && s.positions.value[i + 1] != 0)
  }

  /** The selection test with `autostop>0` in place of `autostop>1`: a
      list ending in `1-` then keeps every column after the first. */
  predicate EmitsFixed(s: Sel, i: nat)
    requires s.positions.Some? ==> s.maxval < |s.positions.value|
  {
    s.positions.None? || (s.autostop > 0 && s.autostop < i + 1) || (s.maxval > i && s.positions.value[i + 1] != 0)
  }

  /** The static `positions`, its capacity and the three scalars, as
      get_list and needpos update them. */
  class Columns {
    var positions: array?<byte>
    var npos: nat
    var autostart: nat
    var autostop: nat
    var maxval: nat

    ghost function State(): Sel
      reads this, positions
    {
      Sel(if positions == null then None else Some(positions[..]), npos, autostart, autostop, maxval)
    }

    /** The statics before the first list is read. */
    constructor()
      ensures State() == Initial
    {
      positions := null;
      npos := 0;
      autostart := 0;
      autostop := 0;
      maxval := 0;
    }

    /** needpos(n) (src/csvcut.c:90-106), with realloc as a fresh array
        that the old bytes are copied into. */
    method NeedPosInPlace(n: nat)
      requires positions == null ==> npos == 0
      requires positions != null ==> positions.Length == npos
      modifies this`positions, this`npos
      ensures State() == NeedPos(old(State()), n)
      ensures positions == old(positions) || fresh(positions)
    {
      if n > npos {
        var oldnpos := npos;
        var m := npos;
        if m == 0 {
          m := n;
        }
        while n > m
          invariant oldnpos <= m && m > 0 && Doubled(m, n) == GrownSize(oldnpos, n)
          decreases n - m
        {
          m := m * 2;
        }
        var a := new byte[m];
        for i := 0 to oldnpos
          modifies a
          invariant a[..i] == Contents(State())[..i]
        {
          a[i] := positions[i];
        }
        for i := oldnpos to m
          modifies a
          invariant a[..oldnpos] == Contents(State())
          invariant forall j :: oldnpos <= j < i ==> a[j] == 0
        {
          a[i] := 0;
        }
        assert a[..] == Contents(State()) + Zeros(m - oldnpos);
        npos := m;
        positions := a;
      }
    }

    /** The body of get_list for an accepted token (src/csvcut.c:130-150):
        raise `autostart`, lower `autostop`, grow the array when the stop
        passes `maxval`, and mark start..stop. */
    method ApplyRange(r: Range)
      requires Inv(State()) && r.start >= 1 && r.stop >= 1
      modifies this, positions
      ensures State() == Apply(old(State()), r)
      ensures positions == old(positions) || fresh(positions)
    {
      if r.lead && r.start > autostart {
        autostart := r.start;
      }
      if r.open && (autostop == 0 || autostop > r.stop) {
        autostop := r.stop;
      }
      assert State() == Bounds(old(State()), r);
      GrowTo(r.stop);
      MarkFromTo(r.start, r.stop);
    }

    /** src/csvcut.c:146-149. */
    method GrowTo(stop: nat)
      requires Inv(State()) && stop >= 1
      modifies this`maxval, this`positions, this`npos
      ensures State() == Grow(old(State()), stop)
      ensures positions == old(positions) || fresh(positions)
    {
      if maxval < stop {
        maxval := stop;
        NeedPosInPlace(maxval + 1);
      }
    }

    /** src/csvcut.c:150; a reversed range leaves the loop at once. */
    method MarkFromTo(start: nat, stop: nat)
      requires Inv(State()) && positions != null && 1 <= start && stop <= maxval
      modifies positions
      ensures State() == MarkRange(old(State()), start, stop)
    {
      ghost var before := positions[..];
      var p := start;
      while p <= stop
        invariant start <= p && (p <= stop + 1 || p == start)
        invariant positions[..] == if p <= stop + 1 then Mark(before, start, p - 1) else before
        decreases stop + 1 - p
      {
        positions[p] := 1;
        p := p + 1;
      }
      assert positions[..] == Mark(before, start, stop);
    }

    /** The end of get_list (src/csvcut.c:153-167). */
    method FinishList()
      requires Inv(State())
      modifies this, positions
      ensures State() == Finish(old(State()))
      ensures positions == old(positions) || fresh(positions)
    {
      CapMaxval();
      RaiseMaxval();
      MarkAutostart();
    }

    /** src/csvcut.c:153-157. */
    method CapMaxval()
      requires Inv(State())
      modifies this`maxval, this`positions, this`npos
      ensures State() == CapAtAutostop(old(State()))
      ensures positions == old(positions) || fresh(positions)
    {
      if autostop > 0 && maxval > autostop {
        maxval := autostop;
        NeedPosInPlace(maxval + 1);
      }
    }

    /** src/csvcut.c:159-163. */
    method RaiseMaxval()
      requires Inv(State())
      modifies this`maxval, this`positions, this`npos
      ensures State() == RaiseToAuto(old(State()))
      ensures positions == old(positions) || fresh(positions)
    {
      if maxval < autostart {
        maxval := autostart;
        NeedPosInPlace(maxval + 1);
      }
    }

    /** src/csvcut.c:165-167. */
    method MarkAutostart()
      requires Inv(State()) && autostart <= maxval
      modifies positions
      ensures State() == MarkAuto(old(State()))
    {
      if autostart > 0 {
        ghost var before := positions[..];
        for p := 1 to autostart + 1
          invariant positions[..] == SetAuto(before, p - 1)
        {
          positions[p] := '1' as int as byte;
        }
      }
    }

    /** get_list(list) (src/csvcut.c:110-168): the tokens in the order
        strsep returns them, then the final adjustments; on a bad token the
        error get_list aborts the program with. */
    method GetList(list: seq<char>) returns (err: Option<ListError>)
      requires Inv(State())
      modifies this, positions
      ensures match Compile(old(State()), list)
        case Compiled(s) => err.None? && State() == s
        case Rejected(e) => err == Some(e)
    {
      var toks := SplitList(list);
      var k := 0;
      while k < |toks|
        invariant 0 <= k <= |toks| && Inv(State())
        invariant ApplyAll(State(), toks[k..]) == ApplyAll(old(State()), toks)
        invariant positions == old(positions) || fresh(positions)
      {
        assert toks[k..][0] == toks[k] && toks[k..][1..] == toks[k + 1..];
        var parsed := ParseToken(toks[k]);
        if parsed.Failed? {
          return Some(parsed.error);
        }
        ApplyRange(parsed.range);
        k := k + 1;
      }
      FinishList();
      return None;
    }

    /** The selection test of src/csvcut.c:391 on the statics in place,
        with `autostop>0` where the source has `autostop>1` (see
        OneDashAsWritten). */
    predicate Selects(i: nat)
      reads this, positions
      requires positions != null ==> maxval < positions.Length
      ensures Selects(i) == EmitsFixed(State(), i)
    {
      positions == null || (autostop > 0 && autostop < i + 1) || (maxval > i && positions[i + 1] != 0)
    }

    /** free(positions); positions=NULL at the end of each input
        (src/csvcut.c:412-413).  The capacity that needpos keeps and the
        three scalars stay as they were. */
    method Release()
      modifies this`positions
      ensures State() == old(State()).(positions := None)
    {
      positions := null;
    }
  }
}
