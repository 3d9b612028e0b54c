/** A small automaton, to show the scanner on concrete inputs: blanks are
    ignored, `a` is a token of type 2, and `a` followed by a line feed is a
    non-accepting prefix of something longer that never completes. */
module Demo {

  import opened Utf8
  import opened Tokens
  import opened Position
  import opened Dfa
  import opened Lexer
  import opened Stream

  const A: int := 'a' as int
  const Blank: int := ' ' as int
  const Ident: int := 2

  function Trans(q: int, r: int): int {
    if q == 0 && r == Blank then 3
    else if q == 0 && r == A then 1
    else if q == 1 && r == LF then 2
    else NoState
  }

  function Accept(q: int): int {
    if q == 1 then Ident else NoState
  }

  function Ignore(q: int): string {
    if q == 3 then "!whitespace" else ""
  }

  const T: Tables := Tables(Trans, Accept, Ignore)

  lemma TablesValid()
    ensures Dfa.Valid(T)
  {
  }

  /** On " a " the loop skips the blank, enters the accepting state on `a`
      and dies on the trailing blank. */
  lemma {:induction false} BlankThenA()
    ensures Dfa.Valid(T) && Utf8.Valid(AsciiDecode)
    ensures Loop(T, AsciiDecode, [32, 97, 32], Init(NewLexer([32, 97, 32])))
         == Cursor(NoState, 3, Pos(1, 3), 1, Pos(1, 2), 2, Ident,
                   [Move(Blank, 3, 1, Pos(1, 2)), Move(A, 1, 2, Pos(1, 3))])
  {
    TablesValid();
    AsciiDecodeValid();
    var src: seq<byte> := [32, 97, 32];
    var m1 := Move(Blank, 3, 1, Pos(1, 2));
    var m2 := Move(A, 1, 2, Pos(1, 3));
    var c0 := Cursor(0, 0, Pos(1, 1), 0, Pos(1, 1), 0, INVALID, []);
    var c1 := Cursor(0, 1, Pos(1, 2), 1, Pos(1, 2), 0, INVALID, [m1]);
    var c2 := Cursor(1, 2, Pos(1, 3), 1, Pos(1, 2), 2, Ident, [m1, m2]);
    var c3 := Cursor(NoState, 3, Pos(1, 3), 1, Pos(1, 2), 2, Ident, [m1, m2]);
    assert Init(NewLexer(src)) == c0;
    assert Step(T, AsciiDecode, src, c0) == c1;
    assert Step(T, AsciiDecode, src, c1) == c2;
    assert Step(T, AsciiDecode, src, c2) == c3;
    assert Loop(T, AsciiDecode, src, c0) == Loop(T, AsciiDecode, src, c1)
        == Loop(T, AsciiDecode, src, c2) == Loop(T, AsciiDecode, src, c3) == c3;
  }

  /** In " a " the leading blank is skipped and "a" is the token, at column 2;
      the automaton dies on the trailing blank, which is left unread. */
  lemma TokenAfterBlank()
    ensures ScanF(T, AsciiDecode, NewLexer([32, 97, 32]))
         == Scanned(Token(Ident, [97], 1, 1, 2), Lexer([32, 97, 32], 2, 1, 3))
  {
    BlankThenA();
    var src: seq<byte> := [32, 97, 32];
    assert src[1..2] == [97];
  }

  /** The trailing blank is skipped up to the end of the input: EOF. */
  lemma {:induction false} EofAfterTrailingBlank()
    ensures ScanF(T, AsciiDecode, Lexer([32, 97, 32], 2, 1, 3))
         == Scanned(Token(EOF, [], 3, 1, 4), Lexer([32, 97, 32], 3, 1, 4))
  {
    TablesValid();
    AsciiDecodeValid();
    var src: seq<byte> := [32, 97, 32];
    var d0 := Init(Lexer(src, 2, 1, 3));
    var d1 := Step(T, AsciiDecode, src, d0);
    assert d1.state == 0 && d1.start == 3 && d1.typ == EOF;
    var d2 := Step(T, AsciiDecode, src, d1);
    assert d2.state == NoState;
    assert Loop(T, AsciiDecode, src, d0) == Loop(T, AsciiDecode, src, d1)
        == Loop(T, AsciiDecode, src, d2) == d2;
  }

  /** " a " tokenizes as "a" followed by EOF. */
  lemma BlanksAroundToken()
    ensures Tokenize(T, AsciiDecode, NewLexer([32, 97, 32]))
         == [Token(Ident, [97], 1, 1, 2), Token(EOF, [], 3, 1, 4)]
  {
    TablesValid();
    AsciiDecodeValid();
    TokenAfterBlank();
    EofAfterTrailingBlank();
  }

  /** After "a" in "a\nx" the automaton reads the line feed before dying on
      `x`. The lexer is moved back to offset 1, just after "a", but it keeps
      line 2, column 1: the line feed at offset 1 will be reported as standing
      on line 2. */
  lemma {:induction false} LineNotRewound()
    ensures ScanF(T, AsciiDecode, NewLexer([97, 10, 120]))
         == Scanned(Token(Ident, [97], 0, 1, 1), Lexer([97, 10, 120], 1, 2, 1))
  {
    TablesValid();
    AsciiDecodeValid();
    var src: seq<byte> := [97, 10, 120];
    var c0 := Init(NewLexer(src));
    var c1 := Step(T, AsciiDecode, src, c0);
    assert c1.state == 1 && c1.end == 1 && c1.typ == Ident;
    var c2 := Step(T, AsciiDecode, src, c1);
    assert c2.state == 2 && c2.at == Pos(2, 1);
    var c3 := Step(T, AsciiDecode, src, c2);
    assert c3.state == NoState && c3.end == 1;
    assert Loop(T, AsciiDecode, src, c0) == Loop(T, AsciiDecode, src, c1)
        == Loop(T, AsciiDecode, src, c2) == Loop(T, AsciiDecode, src, c3) == c3;
    assert src[0..1] == [97];
  }
}
