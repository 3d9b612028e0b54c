/** Line and column bookkeeping of the scanner. */
module Position {

  const LF: int := '\n' as int
  const CR: int := '\r' as int
  const TAB: int := '\t' as int
  /** A tab advances the column by this much. */
  const TabWidth: int := 4

  datatype Pos = Pos(line: int, column: int)

  /** The effect of one rune consumed by a successful transition: a line feed
      starts a new line, a line break of either kind returns to column 1, and
      any other rune moves the column on by its width. */
  function Advance(p: Pos, r: int): (q: Pos)
    ensures q.line == p.line + 1 <==> r == LF
    ensures r != LF ==> q.line == p.line
    ensures IsBreak(r) ==> q.column == 1
    ensures !IsBreak(r) ==> q.column == p.column + Width([r]) > p.column
  {
    if r == LF then Pos(p.line + 1, 1)
    else if r == CR then Pos(p.line, 1)
    else if r == TAB then Pos(p.line, p.column + TabWidth)
    else Pos(p.line, p.column + 1)
  }

  /** The effect of consuming the runes `rs` one after the other. */
  function AdvanceAll(p: Pos, rs: seq<int>): Pos
    decreases |rs|
  {
    if |rs| == 0 then p else Advance(AdvanceAll(p, rs[..|rs| - 1]), rs[|rs| - 1])
  }

  /** The number of occurrences of x in s. */
  function Count<T(==)>(s: seq<T>, x: T): nat
    decreases |s|
  {
    if |s| == 0 then 0 else Count(s[..|s| - 1], x) + (if s[|s| - 1] == x then 1 else 0)
  }

  /** The number of columns the runes `rs` occupy when none of them breaks the line. */
  function Width(rs: seq<int>): int
    decreases |rs|
  {
    if |rs| == 0 then 0 else Width(rs[..|rs| - 1]) + (if rs[|rs| - 1] == TAB then TabWidth else 1)
  }

  predicate IsBreak(r: int) {
    r == LF || r == CR
  }

  /** The index of the last line feed or carriage return in rs, -1 when there is none. */
  function LastBreak(rs: seq<int>): (i: int)
    ensures -1 <= i < |rs|
    ensures 0 <= i ==> IsBreak(rs[i])
    ensures forall j :: i < j < |rs| ==> !IsBreak(rs[j])
    decreases |rs|
  {
    if |rs| == 0 then -1
    else if IsBreak(rs[|rs| - 1]) then |rs| - 1
    else LastBreak(rs[..|rs| - 1])
  }

  lemma {:induction false} CountAppend<T>(a: seq<T>, b: seq<T>, x: T)
    ensures Count(a + b, x) == Count(a, x) + Count(b, x)
    decreases |b|
  {
    if |b| > 0 {
      assert (a + b)[..|a + b| - 1] == a + b[..|b| - 1];
      CountAppend(a, b[..|b| - 1], x);
    } else {
      assert a + b == a;
    }
  }

  lemma {:induction false} CountAbsent<T>(s: seq<T>, x: T)
    requires forall i :: 0 <= i < |s| ==> s[i] != x
    ensures Count(s, x) == 0
    decreases |s|
  {
    if |s| > 0 {
      CountAbsent(s[..|s| - 1], x);
    }
  }

  /** The line advances once per line feed, and only then. */
  lemma {:induction false} LinesCounted(p: Pos, rs: seq<int>)
    ensures AdvanceAll(p, rs).line == p.line + Count(rs, LF)
    decreases |rs|
  {
    if |rs| > 0 {
      LinesCounted(p, rs[..|rs| - 1]);
    }
  }

  /** The column is one plus the width of what follows the last line break,
      or the starting column plus the width of everything when there is no break. */
  lemma {:induction false} ColumnMeasured(p: Pos, rs: seq<int>)
    ensures var b := LastBreak(rs);
      AdvanceAll(p, rs).column == if b < 0 then p.column + Width(rs) else 1 + Width(rs[b + 1..])
    decreases |rs|
  {
    if |rs| > 0 {
      var init := rs[..|rs| - 1];
      var r := rs[|rs| - 1];
      ColumnMeasured(p, init);
      if !IsBreak(r) {
        var b := LastBreak(init);
        assert LastBreak(rs) == b;
        if 0 <= b {
          var tail := rs[b + 1..];
          assert tail[..|tail| - 1] == init[b + 1..];
          assert tail[|tail| - 1] == r;
          assert Width(tail) == Width(init[b + 1..]) + (if r == TAB then TabWidth else 1);
        }
      } else {
        assert rs[|rs|..] == [];
      }
    }
  }
}
