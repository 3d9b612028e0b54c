/** The properties of a single scan, stated on the maximal run of the
    automaton from the lexer's position. */
module Munch {

  import opened Utf8
  import opened Tokens
  import opened Position
  import opened Dfa
  import opened Lexer
  import opened Runs

  /** A scan reports what its maximal run yields, whichever way the run is named. */
  lemma ScanOfRun(t: Tables, dec: Decoder, lx: Lexer, ms: seq<Move>)
    requires Dfa.Valid(t) && Utf8.Valid(dec) && lx.pos < |lx.src|
    requires IsMaximalRun(t, dec, lx.src, Origin(lx), ms)
    ensures ScanF(t, dec, lx) == Outcome(t, dec, lx, ms)
  {
    ScanIsOutcomeOfMaximalRun(t, dec, lx);
    MaximalRunUnique(t, dec, lx.src, Origin(lx), ms, Trace(t, dec, lx));
  }

  /** Longest match. When the run has a marking state and does not end by
      skipping to the end of the input (that gives EOF, see
      `TrailingIgnoreIsEof`), the token has the Accept of the last marking
      state as its type, whatever that value is. When that Accept is not
      INVALID: with no ignore state after it, the lexeme runs up to just after
      the rune that entered that state, and the lexer resumes there, whatever
      the automaton read after it; an ignore state after it leaves that type
      on an empty lexeme. (An INVALID Accept ends the token where the
      automaton died instead, see `InvalidTokenProgress`.) */
  lemma {:induction false} LongestMatch(t: Tables, dec: Decoder, lx: Lexer, ms: seq<Move>)
    requires Dfa.Valid(t) && Utf8.Valid(dec) && lx.pos < |lx.src|
    requires IsMaximalRun(t, dec, lx.src, Origin(lx), ms)
    requires !EndsInSkipAtEof(t, lx.src, ms)
    requires 0 <= LastOf(t, Marking, ms)
    ensures var i := LastOf(t, Marking, ms);
      var r := ScanF(t, dec, lx);
      var s := Restart(t, Origin(lx), ms).offset;
      && r.tok.typ == t.accept(ms[i].entered)
      && (r.tok.typ != INVALID && LastOf(t, Skipping, ms) < i ==>
            && s < ms[i].after <= |lx.src|
            && r.tok.lit == lx.src[s..ms[i].after]
            && r.lexer.pos == ms[i].after)
      && (r.tok.typ != INVALID && i < LastOf(t, Skipping, ms) ==>
            && r.tok.lit == []
            && r.lexer.pos == DeathOffset(dec, lx.src, After(t, Origin(lx), ms)))
  {
    ScanOfRun(t, dec, lx, ms);
    RunBounds(t, dec, lx.src, Origin(lx), ms);
  }

  /** Without a marking state the token is INVALID (unless the run skipped to
      the end of the input). An INVALID token always ends just after the rune
      the automaton died on, so its lexeme is never empty and the lexer always
      moves forward. */
  lemma {:induction false} InvalidTokenProgress(t: Tables, dec: Decoder, lx: Lexer, ms: seq<Move>)
    requires Dfa.Valid(t) && Utf8.Valid(dec) && lx.pos < |lx.src|
    requires IsMaximalRun(t, dec, lx.src, Origin(lx), ms)
    ensures var r := ScanF(t, dec, lx);
      && (LastOf(t, Marking, ms) < 0 && !EndsInSkipAtEof(t, lx.src, ms) ==> r.tok.typ == INVALID)
      && (r.tok.typ == INVALID ==>
            && |r.tok.lit| > 0
            && r.lexer.pos == DeathOffset(dec, lx.src, After(t, Origin(lx), ms))
            && lx.pos < r.lexer.pos)
  {
    ScanOfRun(t, dec, lx, ms);
    RunBounds(t, dec, lx.src, Origin(lx), ms);
    var o := Origin(lx);
    var p := After(t, o, ms);
    var s := Restart(t, o, ms);
    if TypeOf(t, lx.src, ms) == INVALID {
      var j := LastOf(t, Skipping, ms);
      if p.offset >= |lx.src| && 0 <= j {
        assert j < |ms| - 1;
        assert s.offset < p.offset;
      }
      assert s.offset < DeathOffset(dec, lx.src, p);
    }
  }

  /** A run that skips to the end of the input yields an EOF token with an
      empty lexeme at the end of the input, and the lexer stays there. */
  lemma {:induction false} TrailingIgnoreIsEof(t: Tables, dec: Decoder, lx: Lexer, ms: seq<Move>)
    requires Dfa.Valid(t) && Utf8.Valid(dec) && lx.pos < |lx.src|
    requires IsMaximalRun(t, dec, lx.src, Origin(lx), ms)
    requires EndsInSkipAtEof(t, lx.src, ms)
    ensures var at := ms[|ms| - 1].at;
      ScanF(t, dec, lx) ==
        Scanned(Token(EOF, [], |lx.src|, at.line, at.column), Lexer(lx.src, |lx.src|, at.line, at.column))
  {
    ScanOfRun(t, dec, lx, ms);
    RunBounds(t, dec, lx.src, Origin(lx), ms);
    LastOfAppend(t, Skipping, ms[..|ms| - 1], ms[|ms| - 1]);
    assert ms[..|ms| - 1] + [ms[|ms| - 1]] == ms;
  }

  /** The token is positioned where the last ignore state left off: after
      every byte the scan skipped, and at the line and column reached there. */
  lemma {:induction false} TokenStartsAfterSkipped(t: Tables, dec: Decoder, lx: Lexer, ms: seq<Move>)
    requires Dfa.Valid(t) && Utf8.Valid(dec) && lx.pos < |lx.src|
    requires IsMaximalRun(t, dec, lx.src, Origin(lx), ms)
    ensures var r := ScanF(t, dec, lx);
      && lx.pos <= r.tok.offset
      && (forall j :: 0 <= j < |ms| && Skips(t, ms[j].entered) ==> ms[j].after <= r.tok.offset)
      && (forall j :: 0 <= j < |ms| && Skips(t, ms[j].entered) && ms[j].after == r.tok.offset ==>
            r.tok.line == ms[j].at.line && r.tok.column == ms[j].at.column)
      && (var k := LastOf(t, Skipping, ms);
          0 <= k ==> r.tok.offset == ms[k].after && r.tok.line == ms[k].at.line && r.tok.column == ms[k].at.column)
      && ((forall j :: 0 <= j < |ms| ==> !Skips(t, ms[j].entered)) ==>
            r.tok.offset == lx.pos && r.tok.line == lx.line && r.tok.column == lx.column)
  {
    ScanOfRun(t, dec, lx, ms);
    RunBounds(t, dec, lx.src, Origin(lx), ms);
    var r := ScanF(t, dec, lx);
    var k := LastOf(t, Skipping, ms);
    var s := Restart(t, Origin(lx), ms);
    assert r.tok.offset == s.offset && r.tok.line == s.at.line && r.tok.column == s.at.column;
    forall j | 0 <= j < |ms| && Skips(t, ms[j].entered)
      ensures ms[j].after <= r.tok.offset
      ensures ms[j].after == r.tok.offset ==> j == k
    {
      assert Is(t, Skipping, ms[j].entered);
      assert j <= k;
    }
  }

  /** Line and column move only with successful transitions: the lexer ends
      at the line and column reached by the runes of the run, the rune the
      automaton died on not counted. They are not moved back when the lexer's
      offset is moved back to the token's end. */
  lemma {:induction false} LinesAndColumns(t: Tables, dec: Decoder, lx: Lexer, ms: seq<Move>)
    requires Dfa.Valid(t) && Utf8.Valid(dec) && lx.pos < |lx.src|
    requires IsMaximalRun(t, dec, lx.src, Origin(lx), ms)
    ensures var r := ScanF(t, dec, lx);
      Pos(r.lexer.line, r.lexer.column) == AdvanceAll(Pos(lx.line, lx.column), Runes(ms))
  {
    ScanOfRun(t, dec, lx, ms);
    RunPosition(t, dec, lx.src, Origin(lx), ms);
  }

  /** The line grows by the number of newline bytes the run covered, which
      may reach past the offset the lexer is moved back to. */
  lemma {:induction false} LinesCountNewlineBytes(t: Tables, dec: Decoder, lx: Lexer, ms: seq<Move>)
    requires Dfa.Valid(t) && Utf8.Valid(dec) && lx.pos < |lx.src|
    requires IsMaximalRun(t, dec, lx.src, Origin(lx), ms)
    ensures lx.pos <= After(t, Origin(lx), ms).offset <= |lx.src|
    ensures ScanF(t, dec, lx).lexer.line
         == lx.line + Count(lx.src[lx.pos..After(t, Origin(lx), ms).offset], LF as byte)
  {
    LinesAndColumns(t, dec, lx, ms);
    RunNewlines(t, dec, lx.src, Origin(lx), ms);
    LinesCounted(Pos(lx.line, lx.column), Runes(ms));
  }
}
