/** The token record the scanner produces. The token package of the
    repository is not part of this model; only the two token types the
    scanner itself assigns are fixed here. */
module Tokens {

  import opened Utf8

  /** The type of a token no accepting state produced. */
  const INVALID: int := 0
  /** The type of the token reporting the end of the input. */
  const EOF: int := 1

  /** A token: its type, its lexeme, and the byte offset, line and column
      where it starts. */
  datatype Token = Token(typ: int, lit: seq<byte>, offset: nat, line: int, column: int)
}
