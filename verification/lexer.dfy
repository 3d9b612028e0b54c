/** The maximal-munch scanner driver of lexer/lexer.go. */
module Lexer {

  import opened Utf8
  import opened Tokens
  import opened Position
  import opened Dfa

  /** The scanner's state: the input, the byte offset of the next unread byte,
      and the line and column the scanner believes it is at. */
  datatype Lexer = Lexer(src: seq<byte>, pos: nat, line: int, column: int)

  /** A token together with the lexer state after scanning it. */
  datatype Scanned = Scanned(tok: Token, lexer: Lexer)

  /** One successful transition of the automaton: the rune read, the state
      entered, the offset just after the rune, and the line and column then. */
  datatype Move = Move(rune: int, entered: int, after: nat, at: Pos)

  /** The local variables of one run of the scan loop. `moves` logs every
      successful transition; the scanner never reads it. */
  datatype Cursor = Cursor(
    state: int, pos: nat, at: Pos,
    start: nat, startAt: Pos, end: nat, typ: int,
    moves: seq<Move>)

  function NewLexer(src: seq<byte>): (lx: Lexer)
    ensures lx.src == src && lx.pos == 0 && lx.line == 1 && lx.column == 1
  {
    Lexer(src, 0, 1, 1)
  }

  /** Rewinds to the start of the input; line and column are kept. */
  function Reset(lx: Lexer): (r: Lexer)
    ensures r.pos == 0 && r.src == lx.src && r.line == lx.line && r.column == lx.column
  {
    lx.(pos := 0)
  }

  /** The rune at `pos` and its size; at the end of the input the rune is -1
      and nothing is consumed. */
  function Read(dec: Decoder, src: seq<byte>, pos: nat): (d: Decoded)
    ensures pos >= |src| ==> d.rune == -1 && d.size == 0
    ensures Utf8.Valid(dec) && pos < |src| ==> 1 <= d.size <= |src| - pos
  {
    if pos >= |src| then Decoded(-1, 0) else dec(src[pos..])
  }

  /** The facts about the loop variables every iteration keeps. */
  predicate Sane(src: seq<byte>, c: Cursor) {
    && c.start <= c.pos <= |src|
    && c.end <= c.pos
    && NoState <= c.state < NumStates
  }

  /** What is left to do: the unread input, plus one for a live automaton. */
  function Measure(src: seq<byte>, c: Cursor): int {
    |src| - c.pos + (if c.state == NoState then 0 else 1)
  }

  /** The loop variables when the loop is first entered: the start state at
      the lexer's offset, line and column, nothing read and no token recorded,
      so that a loop stopping at once yields an empty lexeme. */
  function Init(lx: Lexer): (c: Cursor)
    ensures c.state == 0 && c.moves == [] && c.typ == INVALID
    ensures c.pos == c.start == lx.pos && c.end <= c.start
    ensures c.at == c.startAt == Pos(lx.line, lx.column)
  {
    Cursor(0, lx.pos, Pos(lx.line, lx.column), lx.pos, Pos(lx.line, lx.column), 0, INVALID, [])
  }

  /** One iteration of the scan loop. */
  function Step(t: Tables, dec: Decoder, src: seq<byte>, c: Cursor): (c': Cursor)
    requires Dfa.Valid(t) && Utf8.Valid(dec)
    requires Sane(src, c) && c.state != NoState
    ensures Sane(src, c')
    ensures 0 <= Measure(src, c') < Measure(src, c)
    ensures c.pos <= c'.pos && c.start <= c'.start
    ensures c.pos < |src| ==> c.pos < c'.pos
    ensures c.pos >= |src| ==> c'.state == NoState && c'.pos == c.pos && c'.at == c.at
    ensures c'.state == NoState ==> c'.at == c.at && c'.start == c.start && c'.typ == c.typ
  {
    var d := Read(dec, src, c.pos);
    var pos := if c.pos >= |src| then c.pos else c.pos + d.size;
    var next := Next(t, c.state, d.rune);
    if next != NoState then
      Enter(t, src, c, Move(d.rune, next, pos, Advance(c.at, d.rune)))
    else
      c.(state := NoState, pos := pos, end := if c.typ == INVALID then pos else c.end)
  }

  /** The loop variables after the transition m: entering a marking state
      records its type and the end; entering an ignore state restarts the
      automaton and the token there (EOF when that is the end of the input). */
  function Enter(t: Tables, src: seq<byte>, c: Cursor, m: Move): Cursor {
    var moves := c.moves + [m];
    if Marks(t, m.entered) then
      c.(state := m.entered, pos := m.after, at := m.at, typ := t.accept(m.entered), end := m.after, moves := moves)
    else if Skips(t, m.entered) then
      c.(state := 0, pos := m.after, at := m.at, start := m.after, startAt := m.at,
         typ := if m.after >= |src| then EOF else c.typ, moves := moves)
    else
      c.(state := m.entered, pos := m.after, at := m.at, moves := moves)
  }

  /** The scan loop, run until the automaton dies. */
  function Loop(t: Tables, dec: Decoder, src: seq<byte>, c: Cursor): (r: Cursor)
    requires Dfa.Valid(t) && Utf8.Valid(dec) && Sane(src, c)
    ensures Sane(src, r) && r.state == NoState
    ensures c.pos <= r.pos && c.start <= r.start
    decreases Measure(src, c)
  {
    if c.state == NoState then c else Loop(t, dec, src, Step(t, dec, src, c))
  }

  /** The scan as a function: the reference the method `Scan` is proved to
      compute. On a non-empty remainder of input it always moves forward, and a
      non-empty lexeme ends where the lexer now stands. */
  function ScanF(t: Tables, dec: Decoder, lx: Lexer): (r: Scanned)
    requires Dfa.Valid(t) && Utf8.Valid(dec)
    ensures r.lexer.src == lx.src
    ensures lx.pos < |lx.src| ==> lx.pos < r.lexer.pos <= |lx.src|
    ensures lx.pos < |lx.src| ==> lx.pos <= r.tok.offset <= |lx.src|
    ensures |r.tok.lit| > 0 ==> r.tok.offset + |r.tok.lit| == r.lexer.pos <= |lx.src|
  {
    if lx.pos >= |lx.src| then
      Scanned(Token(EOF, [], lx.pos, lx.line, lx.column), lx)
    else
      var c := Loop(t, dec, lx.src, Init(lx));
      if c.end > c.start then
        Scanned(Token(c.typ, lx.src[c.start..c.end], c.start, c.startAt.line, c.startAt.column),
                lx.(pos := c.end, line := c.at.line, column := c.at.column))
      else
        Scanned(Token(c.typ, [], c.start, c.startAt.line, c.startAt.column),
                lx.(line := c.at.line, column := c.at.column, pos := c.pos))
  }

  /** A non-empty lexeme is exactly the input from the token's offset to the
      lexer's new offset. */
  lemma LexemeIsInput(t: Tables, dec: Decoder, lx: Lexer)
    requires Dfa.Valid(t) && Utf8.Valid(dec)
    ensures var r := ScanF(t, dec, lx);
      |r.tok.lit| > 0 ==> r.tok.lit == lx.src[r.tok.offset..r.lexer.pos]
  {
  }

  /** Lexer.Scan: returns the next token and the lexer state after it. */
  method Scan(t: Tables, dec: Decoder, lx: Lexer) returns (tok: Token, next: Lexer)
    requires Dfa.Valid(t) && Utf8.Valid(dec)
    ensures Scanned(tok, next) == ScanF(t, dec, lx)
    ensures lx.pos >= |lx.src| ==> tok == Token(EOF, [], lx.pos, lx.line, lx.column) && next == lx
    ensures lx.pos < |lx.src| ==> lx.pos < next.pos <= |lx.src|
  {
    var src := lx.src;
    if lx.pos >= |src| {
      tok := Token(EOF, [], lx.pos, lx.line, lx.column);
      next := lx;
      return;
    }
    var pos: nat, at := lx.pos, Pos(lx.line, lx.column);
    var start: nat, startAt, end: nat := pos, at, 0;
    var typ := INVALID;
    var state, rune, size := 0, -1, 0;
    ghost var moves: seq<Move> := [];
    while state != NoState
      invariant Sane(src, Cursor(state, pos, at, start, startAt, end, typ, moves))
      invariant Loop(t, dec, src, Cursor(state, pos, at, start, startAt, end, typ, moves))
             == Loop(t, dec, src, Init(lx))
      decreases Measure(src, Cursor(state, pos, at, start, startAt, end, typ, moves))
    {
      ghost var before := Cursor(state, pos, at, start, startAt, end, typ, moves);
      if pos >= |src| {
        rune := -1;
      } else {
        var d := dec(src[pos..]);
        rune, size := d.rune, d.size;
        pos := pos + size;
      }
      var nextState := NoState;
      if rune != -1 {
        nextState := t.trans(state, rune);
      }
      state := nextState;
      if state != NoState {
        at := Advance(at, rune);
        moves := moves + [Move(rune, state, pos, at)];
        if t.accept(state) != NoState {
          typ := t.accept(state);
          end := pos;
        } else if t.ignore(state) != "" {
          start, startAt := pos, at;
          state := 0;
          if start >= |src| {
            typ := EOF;
          }
        }
      } else {
        if typ == INVALID {
          end := pos;
        }
      }
      assert Cursor(state, pos, at, start, startAt, end, typ, moves) == Step(t, dec, src, before);
    }
    if end > start {
      next := lx.(pos := end, line := at.line, column := at.column);
      tok := Token(typ, src[start..end], start, startAt.line, startAt.column);
    } else {
      next := lx.(pos := pos, line := at.line, column := at.column);
      tok := Token(typ, [], start, startAt.line, startAt.column);
    }
  }
}
