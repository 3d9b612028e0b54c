/** The scan described by the run of the automaton rather than by the loop.

    A run is the sequence of successful transitions the automaton takes from
    the lexer's position; it is maximal when the automaton dies right after
    it. `Outcome` says, from a run alone, which token the scanner reports and
    where it leaves the lexer; `ScanIsOutcomeOfMaximalRun` proves that the scan
    loop produces exactly that, and `MaximalRunUnique` that there is only one
    maximal run to speak of. */
module Runs {

  import opened Utf8
  import opened Tokens
  import opened Position
  import opened Dfa
  import opened Lexer

  /** Where the automaton stands between two transitions. */
  datatype Point = Point(offset: nat, at: Pos, state: int)

  /** Where a scan starts: the lexer's position, in the initial state 0. */
  function Origin(lx: Lexer): Point {
    Point(lx.pos, Pos(lx.line, lx.column), 0)
  }

  /** The state the scanner continues from after entering q: an ignore state
      restarts the automaton. */
  function Resumes(t: Tables, q: int): int {
    if Skips(t, q) then 0 else q
  }

  /** Where the automaton stands after the moves `ms` taken from o. */
  function After(t: Tables, o: Point, ms: seq<Move>): Point {
    if |ms| == 0 then o
    else var m := ms[|ms| - 1]; Point(m.after, m.at, Resumes(t, m.entered))
  }

  /** m is the transition the automaton takes from p. */
  predicate Extends(t: Tables, dec: Decoder, src: seq<byte>, p: Point, m: Move) {
    var d := Read(dec, src, p.offset);
    && m.rune == d.rune
    && m.after == p.offset + d.size
    && m.entered == Next(t, p.state, d.rune)
    && m.entered != NoState
    && m.at == Advance(p.at, d.rune)
  }

  /** The automaton has no transition at p: the input is exhausted or the rune
      there leads nowhere. */
  predicate Dies(t: Tables, dec: Decoder, src: seq<byte>, p: Point) {
    Next(t, p.state, Read(dec, src, p.offset).rune) == NoState
  }

  /** ms is a run of the automaton starting at o. */
  predicate IsRun(t: Tables, dec: Decoder, src: seq<byte>, o: Point, ms: seq<Move>)
    decreases |ms|
  {
    || |ms| == 0
    || (&& IsRun(t, dec, src, o, ms[..|ms| - 1])
        && Extends(t, dec, src, After(t, o, ms[..|ms| - 1]), ms[|ms| - 1]))
  }

  /** ms is a run from o after which the automaton dies. */
  predicate IsMaximalRun(t: Tables, dec: Decoder, src: seq<byte>, o: Point, ms: seq<Move>) {
    IsRun(t, dec, src, o, ms) && Dies(t, dec, src, After(t, o, ms))
  }

  datatype Kind = Marking | Skipping

  predicate Is(t: Tables, k: Kind, q: int) {
    match k
    case Marking => Marks(t, q)
    case Skipping => Skips(t, q)
  }

  /** The index of the last move entering a state of kind k, -1 when none does. */
  function LastOf(t: Tables, k: Kind, ms: seq<Move>): (i: int)
    ensures -1 <= i < |ms|
    ensures 0 <= i ==> Is(t, k, ms[i].entered)
    ensures forall j :: i < j < |ms| ==> !Is(t, k, ms[j].entered)
    decreases |ms|
  {
    if |ms| == 0 then -1
    else if Is(t, k, ms[|ms| - 1].entered) then |ms| - 1
    else LastOf(t, k, ms[..|ms| - 1])
  }

  /** Where the token starts: just after the last ignore state, or at o. */
  function Restart(t: Tables, o: Point, ms: seq<Move>): Point {
    var j := LastOf(t, Skipping, ms);
    if j < 0 then o else Point(ms[j].after, ms[j].at, 0)
  }

  /** The run ends by entering an ignore state at the end of the input. */
  predicate EndsInSkipAtEof(t: Tables, src: seq<byte>, ms: seq<Move>) {
    |ms| > 0 && Skips(t, ms[|ms| - 1].entered) && ms[|ms| - 1].after >= |src|
  }

  /** The token type a run yields: EOF when it ends by skipping to the end of
      the input, else the accept type of the last marking state, else INVALID. */
  function TypeOf(t: Tables, src: seq<byte>, ms: seq<Move>): int {
    if EndsInSkipAtEof(t, src, ms) then EOF
    else
      var i := LastOf(t, Marking, ms);
      if i < 0 then INVALID else t.accept(ms[i].entered)
  }

  /** The offset just after the rune that entered the last marking state, 0 when none did. */
  function MarkEnd(t: Tables, ms: seq<Move>): nat {
    var i := LastOf(t, Marking, ms);
    if i < 0 then 0 else ms[i].after
  }

  /** The offset after the read on which the automaton died. */
  function DeathOffset(dec: Decoder, src: seq<byte>, p: Point): int {
    p.offset + Read(dec, src, p.offset).size
  }

  /** The loop variables c are those reached by the run c.moves from o, with
      the automaton still alive. */
  ghost predicate Live(t: Tables, dec: Decoder, src: seq<byte>, o: Point, c: Cursor) {
    var p := After(t, o, c.moves);
    var s := Restart(t, o, c.moves);
    && IsRun(t, dec, src, o, c.moves)
    && c.state != NoState
    && c.state == p.state && c.pos == p.offset && c.at == p.at
    && c.start == s.offset && c.startAt == s.at
    && c.typ == TypeOf(t, src, c.moves)
    && c.end == MarkEnd(t, c.moves)
  }

  /** The loop variables c are those at loop exit after the maximal run c.moves from o. */
  ghost predicate Dead(t: Tables, dec: Decoder, src: seq<byte>, o: Point, c: Cursor) {
    var p := After(t, o, c.moves);
    var s := Restart(t, o, c.moves);
    && IsMaximalRun(t, dec, src, o, c.moves)
    && c.state == NoState
    && c.pos == DeathOffset(dec, src, p) && c.at == p.at
    && c.start == s.offset && c.startAt == s.at
    && c.typ == TypeOf(t, src, c.moves)
    && c.end == (if c.typ == INVALID then c.pos else MarkEnd(t, c.moves))
  }

  lemma LastOfAppend(t: Tables, k: Kind, ms: seq<Move>, m: Move)
    ensures LastOf(t, k, ms + [m]) == if Is(t, k, m.entered) then |ms| else LastOf(t, k, ms)
  {
    assert (ms + [m])[..|ms|] == ms;
  }

  /** A run followed by a transition from where it stands is a run. */
  lemma RunSnoc(t: Tables, dec: Decoder, src: seq<byte>, o: Point, ms: seq<Move>, m: Move)
    requires IsRun(t, dec, src, o, ms) && Extends(t, dec, src, After(t, o, ms), m)
    ensures IsRun(t, dec, src, o, ms + [m])
    ensures After(t, o, ms + [m]) == Point(m.after, m.at, Resumes(t, m.entered))
  {
    assert (ms + [m])[..|ms|] == ms;
  }

  /** What the start, type and end read off a run become when one more move
      is taken, the run not having skipped to the end of the input. */
  lemma SnocSummary(t: Tables, src: seq<byte>, o: Point, ms: seq<Move>, m: Move)
    requires !EndsInSkipAtEof(t, src, ms)
    ensures Restart(t, o, ms + [m]) == if Skips(t, m.entered) then Point(m.after, m.at, 0) else Restart(t, o, ms)
    ensures MarkEnd(t, ms + [m]) == if Marks(t, m.entered) then m.after else MarkEnd(t, ms)
    ensures TypeOf(t, src, ms + [m]) ==
      if Marks(t, m.entered) then t.accept(m.entered)
      else if Skips(t, m.entered) && m.after >= |src| then EOF
      else TypeOf(t, src, ms)
  {
    LastOfAppend(t, Marking, ms, m);
    LastOfAppend(t, Skipping, ms, m);
  }

  /** Taking one more transition along the run keeps the loop variables in
      step with it. */
  lemma LiveSnoc(t: Tables, dec: Decoder, src: seq<byte>, o: Point, c: Cursor, m: Move)
    requires Live(t, dec, src, o, c) && c.pos < |src|
    requires Extends(t, dec, src, After(t, o, c.moves), m)
    ensures Live(t, dec, src, o, Enter(t, src, c, m))
  {
    RunSnoc(t, dec, src, o, c.moves, m);
    assert !EndsInSkipAtEof(t, src, c.moves);
    SnocSummary(t, src, o, c.moves, m);
  }

  /** An iteration that takes a transition keeps the loop variables in step
      with the run, now one move longer. */
  lemma {:induction false} StepExtendsRun(t: Tables, dec: Decoder, src: seq<byte>, o: Point, c: Cursor)
    requires Dfa.Valid(t) && Utf8.Valid(dec) && Sane(src, c)
    requires Live(t, dec, src, o, c)
    requires Step(t, dec, src, c).state != NoState
    ensures Live(t, dec, src, o, Step(t, dec, src, c))
  {
    var d := Read(dec, src, c.pos);
    var m := Move(d.rune, Next(t, c.state, d.rune), c.pos + d.size, Advance(c.at, d.rune));
    assert c.pos < |src| && Step(t, dec, src, c) == Enter(t, src, c, m);
    LiveSnoc(t, dec, src, o, c, m);
  }

  /** An iteration on which the automaton dies leaves the loop variables of
      the maximal run. */
  lemma StepEndsRun(t: Tables, dec: Decoder, src: seq<byte>, o: Point, c: Cursor)
    requires Dfa.Valid(t) && Utf8.Valid(dec) && Sane(src, c)
    requires Live(t, dec, src, o, c)
    requires Step(t, dec, src, c).state == NoState
    ensures Dead(t, dec, src, o, Step(t, dec, src, c))
  {
  }

  /** The scan loop ends with the loop variables of the maximal run. */
  lemma {:induction false} LoopFollowsRun(t: Tables, dec: Decoder, src: seq<byte>, o: Point, c: Cursor)
    requires Dfa.Valid(t) && Utf8.Valid(dec) && Sane(src, c)
    requires Live(t, dec, src, o, c)
    ensures Dead(t, dec, src, o, Loop(t, dec, src, c))
    decreases Measure(src, c)
  {
    var next := Step(t, dec, src, c);
    if next.state != NoState {
      StepExtendsRun(t, dec, src, o, c);
      LoopFollowsRun(t, dec, src, o, next);
    } else {
      StepEndsRun(t, dec, src, o, c);
    }
  }

  /** Runs stay inside the input and every move consumes at least one byte. */
  lemma {:induction false} RunBounds(t: Tables, dec: Decoder, src: seq<byte>, o: Point, ms: seq<Move>)
    requires Utf8.Valid(dec) && o.offset <= |src|
    requires IsRun(t, dec, src, o, ms)
    ensures o.offset <= After(t, o, ms).offset <= |src|
    ensures forall k :: 0 <= k < |ms| ==> o.offset < ms[k].after <= After(t, o, ms).offset
    ensures forall k, l :: 0 <= k < l < |ms| ==> ms[k].after < ms[l].after
    decreases |ms|
  {
    if |ms| > 0 {
      var init := ms[..|ms| - 1];
      var m := ms[|ms| - 1];
      RunBounds(t, dec, src, o, init);
      MoveBounds(t, dec, src, After(t, o, init), m);
      forall k | 0 <= k < |ms|
        ensures o.offset < ms[k].after <= m.after
      {
        if k < |init| {
          assert ms[k] == init[k];
        }
      }
      forall k, l | 0 <= k < l < |ms|
        ensures ms[k].after < ms[l].after
      {
        assert ms[k] == init[k];
        if l < |init| {
          assert ms[l] == init[l];
        }
      }
    }
  }

  /** A transition consumes at least one byte and stays within the input. */
  lemma MoveBounds(t: Tables, dec: Decoder, src: seq<byte>, p: Point, m: Move)
    requires Utf8.Valid(dec) && p.offset <= |src|
    requires Extends(t, dec, src, p, m)
    ensures p.offset < m.after <= |src|
  {
    assert Read(dec, src, p.offset).rune != -1;
  }

  /** The token and lexer a scan along the run ms yields, read off the run:
      - the token starts where the last ignore state left off (or where the
        scan began), and has the type `TypeOf` gives;
      - an INVALID token ends after the rune the automaton died on, any other
        after the rune that entered the last marking state;
      - the lexeme is the input between start and end, and the lexer moves to
        the end when that is non-empty, otherwise past the rune it died on;
      - the lexer's line and column are those after the last successful move,
        even when its offset moves back to the token's end. */
  function Outcome(t: Tables, dec: Decoder, lx: Lexer, ms: seq<Move>): Scanned
    requires Utf8.Valid(dec) && lx.pos < |lx.src|
    requires IsRun(t, dec, lx.src, Origin(lx), ms)
  {
    RunBounds(t, dec, lx.src, Origin(lx), ms);
    var src := lx.src;
    var p := After(t, Origin(lx), ms);
    var s := Restart(t, Origin(lx), ms);
    var typ := TypeOf(t, src, ms);
    var die := DeathOffset(dec, src, p);
    var e := if typ == INVALID then die else MarkEnd(t, ms);
    if e > s.offset then
      Scanned(Token(typ, src[s.offset..e], s.offset, s.at.line, s.at.column),
              Lexer(src, e, p.at.line, p.at.column))
    else
      Scanned(Token(typ, [], s.offset, s.at.line, s.at.column),
              Lexer(src, die, p.at.line, p.at.column))
  }

  /** The moves the scan loop takes from the lexer's position. */
  function Trace(t: Tables, dec: Decoder, lx: Lexer): seq<Move>
    requires Dfa.Valid(t) && Utf8.Valid(dec) && lx.pos < |lx.src|
  {
    Loop(t, dec, lx.src, Init(lx)).moves
  }

  /** The scan takes the maximal run from the lexer's position and reports
      what `Outcome` reads off that run. */
  lemma ScanIsOutcomeOfMaximalRun(t: Tables, dec: Decoder, lx: Lexer)
    requires Dfa.Valid(t) && Utf8.Valid(dec) && lx.pos < |lx.src|
    ensures IsMaximalRun(t, dec, lx.src, Origin(lx), Trace(t, dec, lx))
    ensures ScanF(t, dec, lx) == Outcome(t, dec, lx, Trace(t, dec, lx))
  {
    LoopFollowsRun(t, dec, lx.src, Origin(lx), Init(lx));
  }

  lemma {:induction false} RunPrefix(t: Tables, dec: Decoder, src: seq<byte>, o: Point, ms: seq<Move>, k: nat)
    requires IsRun(t, dec, src, o, ms) && k <= |ms|
    ensures IsRun(t, dec, src, o, ms[..k])
    decreases |ms| - k
  {
    if k < |ms| {
      assert ms[..|ms| - 1][..k] == ms[..k];
      RunPrefix(t, dec, src, o, ms[..|ms| - 1], k);
    } else {
      assert ms[..k] == ms;
    }
  }

  /** From a given point the automaton has at most one transition. */
  lemma ExtendsUnique(t: Tables, dec: Decoder, src: seq<byte>, p: Point, m1: Move, m2: Move)
    requires Extends(t, dec, src, p, m1) && Extends(t, dec, src, p, m2)
    ensures m1 == m2
  {
  }

  /** The last move of a run's prefix of length k extends the prefix of length k - 1. */
  lemma RunMoveExtends(t: Tables, dec: Decoder, src: seq<byte>, o: Point, ms: seq<Move>, k: nat)
    requires IsRun(t, dec, src, o, ms) && 0 < k <= |ms|
    ensures Extends(t, dec, src, After(t, o, ms[..k - 1]), ms[k - 1])
  {
    RunPrefix(t, dec, src, o, ms, k);
    var a := ms[..k];
    assert a[..|a| - 1] == ms[..k - 1];
    assert a[|a| - 1] == ms[k - 1];
  }

  /** Two runs from the same point agree as far as both go: the automaton is deterministic. */
  lemma {:induction false} RunsAgree(t: Tables, dec: Decoder, src: seq<byte>, o: Point, ms1: seq<Move>, ms2: seq<Move>, k: nat)
    requires IsRun(t, dec, src, o, ms1) && IsRun(t, dec, src, o, ms2)
    requires k <= |ms1| && k <= |ms2|
    ensures ms1[..k] == ms2[..k]
    decreases k
  {
    if k > 0 {
      RunsAgree(t, dec, src, o, ms1, ms2, k - 1);
      RunMoveExtends(t, dec, src, o, ms1, k);
      RunMoveExtends(t, dec, src, o, ms2, k);
      ExtendsUnique(t, dec, src, After(t, o, ms1[..k - 1]), ms1[k - 1], ms2[k - 1]);
      assert ms1[..k] == ms1[..k - 1] + [ms1[k - 1]];
      assert ms2[..k] == ms2[..k - 1] + [ms2[k - 1]];
    }
  }

  /** A run cannot be extended past a point where the automaton dies. */
  lemma LongerRunOutlives(t: Tables, dec: Decoder, src: seq<byte>, o: Point, ms1: seq<Move>, ms2: seq<Move>)
    requires IsRun(t, dec, src, o, ms1) && IsRun(t, dec, src, o, ms2)
    requires |ms1| < |ms2|
    ensures !Dies(t, dec, src, After(t, o, ms1))
  {
    RunsAgree(t, dec, src, o, ms1, ms2, |ms1|);
    RunPrefix(t, dec, src, o, ms2, |ms1| + 1);
    assert ms2[..|ms1| + 1][..|ms1|] == ms2[..|ms1|];
    assert ms1[..|ms1|] == ms1;
  }

  /** There is exactly one maximal run from a point. */
  lemma MaximalRunUnique(t: Tables, dec: Decoder, src: seq<byte>, o: Point, ms1: seq<Move>, ms2: seq<Move>)
    requires IsMaximalRun(t, dec, src, o, ms1) && IsMaximalRun(t, dec, src, o, ms2)
    ensures ms1 == ms2
  {
    if |ms1| < |ms2| {
      LongerRunOutlives(t, dec, src, o, ms1, ms2);
      assert false;
    } else if |ms2| < |ms1| {
      LongerRunOutlives(t, dec, src, o, ms2, ms1);
      assert false;
    } else {
      RunsAgree(t, dec, src, o, ms1, ms2, |ms1|);
      assert ms1[..|ms1|] == ms1 && ms2[..|ms2|] == ms2;
    }
  }

  /** The runes read by the moves ms. */
  function Runes(ms: seq<Move>): (rs: seq<int>)
    ensures |rs| == |ms|
    decreases |ms|
  {
    if |ms| == 0 then [] else Runes(ms[..|ms| - 1]) + [ms[|ms| - 1].rune]
  }

  /** Along a run, line and column are exactly those reached by consuming the
      runes read, starting from the origin's. */
  lemma {:induction false} RunPosition(t: Tables, dec: Decoder, src: seq<byte>, o: Point, ms: seq<Move>)
    requires IsRun(t, dec, src, o, ms)
    ensures After(t, o, ms).at == AdvanceAll(o.at, Runes(ms))
    decreases |ms|
  {
    if |ms| > 0 {
      RunPosition(t, dec, src, o, ms[..|ms| - 1]);
      assert Runes(ms)[..|ms| - 1] == Runes(ms[..|ms| - 1]);
    }
  }

  /** A one-byte rune (below 0x80) covers a newline byte exactly when it is a line feed. */
  lemma AsciiNewline(src: seq<byte>, from: nat, rune: int)
    requires from < |src| && src[from] < 0x80 && rune == src[from] as int
    ensures Count(src[from..from + 1], LF as byte) == if rune == LF then 1 else 0
  {
    assert src[from..from + 1] == [] + [src[from]];
  }

  /** Bytes all at or above 0x80 hold no newline byte. */
  lemma HighBytesNoNewline(src: seq<byte>, from: nat, to: nat)
    requires from <= to <= |src|
    requires forall i :: from <= i < to ==> 0x80 <= src[i]
    ensures Count(src[from..to], LF as byte) == 0
  {
    var chunk := src[from..to];
    assert forall i :: 0 <= i < |chunk| ==> chunk[i] == src[from + i];
    CountAbsent(chunk, LF as byte);
  }

  /** The input one move covers holds a newline byte exactly when the rune
      read is a line feed: under RFC 3629 no byte of a multi-byte sequence is
      0x0A. */
  lemma MoveNewlines(t: Tables, dec: Decoder, src: seq<byte>, p: Point, m: Move)
    requires Utf8.Valid(dec) && p.offset <= |src|
    requires Extends(t, dec, src, p, m)
    ensures p.offset < m.after <= |src|
    ensures Count(src[p.offset..m.after], LF as byte) == if m.rune == LF then 1 else 0
  {
    var rest := src[p.offset..];
    assert Read(dec, src, p.offset).rune != -1;
    assert |rest| > 0 && rest[0] == src[p.offset];
    var d := dec(rest);
    assert m.rune == d.rune && m.after == p.offset + d.size;
    if rest[0] < 0x80 {
      assert d == Decoded(rest[0] as int, 1);
      AsciiNewline(src, p.offset, m.rune);
    } else {
      assert 0x80 <= d.rune && 1 <= d.size <= |rest|;
      assert forall i :: 0 <= i < |rest| && i < d.size ==> 0x80 <= rest[i];
      assert forall i :: p.offset <= i < m.after ==> src[i] == rest[i - p.offset];
      HighBytesNoNewline(src, p.offset, m.after);
    }
  }

  lemma CountSplit<T>(s: seq<T>, a: nat, b: nat, c: nat, x: T)
    requires a <= b <= c <= |s|
    ensures Count(s[a..c], x) == Count(s[a..b], x) + Count(s[b..c], x)
  {
    assert s[a..c] == s[a..b] + s[b..c];
    CountAppend(s[a..b], s[b..c], x);
  }

  /** The line feeds among the runes of a run are exactly the newline bytes
      of the input it covers. */
  lemma {:induction false} RunNewlines(t: Tables, dec: Decoder, src: seq<byte>, o: Point, ms: seq<Move>)
    requires Utf8.Valid(dec) && o.offset <= |src|
    requires IsRun(t, dec, src, o, ms)
    ensures o.offset <= After(t, o, ms).offset <= |src|
    ensures Count(src[o.offset..After(t, o, ms).offset], LF as byte) == Count(Runes(ms), LF)
    decreases |ms|
  {
    if |ms| > 0 {
      var init := ms[..|ms| - 1];
      var m := ms[|ms| - 1];
      var p := After(t, o, init);
      RunNewlines(t, dec, src, o, init);
      MoveNewlines(t, dec, src, p, m);
      CountSplit(src, o.offset, p.offset, m.after, LF as byte);
      assert Runes(ms) == Runes(init) + [m.rune];
      CountAppend(Runes(init), [m.rune], LF);
    }
  }
}
