/** Scanning a whole input, and what Reset does to later scans. */
module Stream {

  import opened Utf8
  import opened Tokens
  import opened Dfa
  import opened Lexer

  /** The tokens a caller obtains by calling Scan until it reports EOF. Every
      scan that does not report EOF moves the lexer forward, so this ends;
      EOF is the last token and appears nowhere before. */
  function Tokenize(t: Tables, dec: Decoder, lx: Lexer): (ts: seq<Token>)
    requires Dfa.Valid(t) && Utf8.Valid(dec)
    ensures |ts| > 0 && ts[|ts| - 1].typ == EOF
    ensures forall i :: 0 <= i < |ts| - 1 ==> ts[i].typ != EOF
    ensures lx.pos >= |lx.src| ==> ts == [Token(EOF, [], lx.pos, lx.line, lx.column)]
    decreases |lx.src| - lx.pos
  {
    var r := ScanF(t, dec, lx);
    if r.tok.typ == EOF then [r.tok] else [r.tok] + Tokenize(t, dec, r.lexer)
  }

  /** c1 and c2 are the same loop variables except that c2 counts lines from
      d further on; columns may differ. */
  predicate Shifted(c1: Cursor, c2: Cursor, d: int) {
    && c1.state == c2.state && c1.pos == c2.pos
    && c1.start == c2.start && c1.end == c2.end && c1.typ == c2.typ
    && c2.at.line == c1.at.line + d
    && c2.startAt.line == c1.startAt.line + d
  }

  lemma StepShifted(t: Tables, dec: Decoder, src: seq<byte>, c1: Cursor, c2: Cursor, d: int)
    requires Dfa.Valid(t) && Utf8.Valid(dec)
    requires Sane(src, c1) && Sane(src, c2) && c1.state != NoState
    requires Shifted(c1, c2, d)
    ensures Shifted(Step(t, dec, src, c1), Step(t, dec, src, c2), d)
  {
  }

  /** The scan loop never looks at line or column: started from the same
      offset, it takes the same decisions, and lines stay d apart. */
  lemma {:induction false} LoopShifted(t: Tables, dec: Decoder, src: seq<byte>, c1: Cursor, c2: Cursor, d: int)
    requires Dfa.Valid(t) && Utf8.Valid(dec)
    requires Sane(src, c1) && Sane(src, c2)
    requires Shifted(c1, c2, d)
    ensures Shifted(Loop(t, dec, src, c1), Loop(t, dec, src, c2), d)
    decreases Measure(src, c1)
  {
    if c1.state != NoState {
      StepShifted(t, dec, src, c1, c2, d);
      LoopShifted(t, dec, src, Step(t, dec, src, c1), Step(t, dec, src, c2), d);
    }
  }

  /** Two lexers on the same input at the same offset scan a token of the same
      type, lexeme and offset, and move to the same offset; the reported lines
      are apart by the difference of their lines. Columns are not compared:
      until the first line break is read they differ by the difference of
      the lexers' columns. */
  lemma ScanIgnoresLineColumn(t: Tables, dec: Decoder, lx1: Lexer, lx2: Lexer)
    requires Dfa.Valid(t) && Utf8.Valid(dec)
    requires lx1.src == lx2.src && lx1.pos == lx2.pos
    ensures var r1 := ScanF(t, dec, lx1);
      var r2 := ScanF(t, dec, lx2);
      var d := lx2.line - lx1.line;
      && r1.tok.typ == r2.tok.typ && r1.tok.lit == r2.tok.lit && r1.tok.offset == r2.tok.offset
      && r1.lexer.pos == r2.lexer.pos
      && r2.tok.line == r1.tok.line + d
      && r2.lexer.line == r1.lexer.line + d
  {
    if lx1.pos < |lx1.src| {
      LoopShifted(t, dec, lx1.src, Init(lx1), Init(lx2), lx2.line - lx1.line);
    }
  }

  /** ts2 reports tokens of the same types, lexemes and offsets as ts1, with
      lines d further on; columns are not compared. */
  predicate SameTokens(ts1: seq<Token>, ts2: seq<Token>, d: int) {
    && |ts1| == |ts2|
    && forall i :: 0 <= i < |ts1| ==>
         && ts1[i].typ == ts2[i].typ && ts1[i].lit == ts2[i].lit && ts1[i].offset == ts2[i].offset
         && ts2[i].line == ts1[i].line + d
  }

  lemma SameTokensCons(a: Token, b: Token, ts1: seq<Token>, ts2: seq<Token>, d: int)
    requires SameTokens([a], [b], d) && SameTokens(ts1, ts2, d)
    ensures SameTokens([a] + ts1, [b] + ts2, d)
  {
    forall i | 1 <= i < 1 + |ts1|
      ensures ([a] + ts1)[i] == ts1[i - 1] && ([b] + ts2)[i] == ts2[i - 1]
    {
    }
  }

  /** Two lexers on the same input at the same offset produce token streams
      of the same length, with the same types, lexemes and offsets, and lines
      apart by the difference of their lines; columns are not compared. */
  lemma {:induction false} TokenizeIgnoresLineColumn(t: Tables, dec: Decoder, lx1: Lexer, lx2: Lexer)
    requires Dfa.Valid(t) && Utf8.Valid(dec)
    requires lx1.src == lx2.src && lx1.pos == lx2.pos
    ensures SameTokens(Tokenize(t, dec, lx1), Tokenize(t, dec, lx2), lx2.line - lx1.line)
    decreases |lx1.src| - lx1.pos
  {
    ScanIgnoresLineColumn(t, dec, lx1, lx2);
    var r1 := ScanF(t, dec, lx1);
    var r2 := ScanF(t, dec, lx2);
    var d := lx2.line - lx1.line;
    assert SameTokens([r1.tok], [r2.tok], d);
    if r1.tok.typ != EOF {
      TokenizeIgnoresLineColumn(t, dec, r1.lexer, r2.lexer);
      SameTokensCons(r1.tok, r2.tok, Tokenize(t, dec, r1.lexer), Tokenize(t, dec, r2.lexer), d);
    }
  }

  /** Reset rewinds the offset only: the first scan after it, and every scan
      that follows, yields tokens of the same types, lexemes and offsets as a
      fresh lexer on the same input, with every line number moved on by the
      lines counted before the reset. Columns are not compared: Reset keeps
      the column too, so tokens before the first line break are reported at
      columns shifted by the kept column minus one. */
  lemma ResetRescans(t: Tables, dec: Decoder, lx: Lexer)
    requires Dfa.Valid(t) && Utf8.Valid(dec)
    ensures var r := ScanF(t, dec, Reset(lx));
      var f := ScanF(t, dec, NewLexer(lx.src));
      && r.tok.typ == f.tok.typ && r.tok.lit == f.tok.lit && r.tok.offset == f.tok.offset
      && r.lexer.pos == f.lexer.pos
      && r.tok.line == f.tok.line + (lx.line - 1)
    ensures SameTokens(Tokenize(t, dec, NewLexer(lx.src)), Tokenize(t, dec, Reset(lx)), lx.line - 1)
  {
    ScanIgnoresLineColumn(t, dec, NewLexer(lx.src), Reset(lx));
    TokenizeIgnoresLineColumn(t, dec, NewLexer(lx.src), Reset(lx));
  }
}
