/** Bytes and the UTF-8 decoder the scanner reads runes with.

    The decoder itself (Go's utf8.DecodeRune) is not part of this model: it is a
    parameter, and `Valid` states the facts about it that RFC 3629 guarantees and
    that the scanner relies on. */
module Utf8 {

  newtype byte = b: int | 0 <= b < 0x100

  /** The rune utf8.DecodeRune returns for a malformed sequence (U+FFFD). */
  const RuneError: int := 0xFFFD

  /** The first rune of a byte sequence and the number of bytes it occupies. */
  datatype Decoded = Decoded(rune: int, size: int)

  type Decoder = seq<byte> -> Decoded

  /** What any decoder following RFC 3629 does with a non-empty input:
      - it consumes at least one byte and never more than there are;
      - a byte below 0x80 is a one-byte rune standing for itself (section 3);
      - a sequence led by a byte at or above 0x80 decodes to a rune at or above
        0x80 (or to RuneError), and every byte it consumes is at or above 0x80
        (lead and continuation bytes all have the high bit set). */
  ghost predicate Valid(dec: Decoder) {
    && (forall b: seq<byte> :: |b| > 0 ==> 1 <= dec(b).size <= |b|)
    && (forall b: seq<byte> :: |b| > 0 && b[0] < 0x80 ==> dec(b) == Decoded(b[0] as int, 1))
    && (forall b: seq<byte> :: |b| > 0 && 0x80 <= b[0] ==>
          && 0x80 <= dec(b).rune
          && forall i :: 0 <= i < |b| && i < dec(b).size ==> 0x80 <= b[i])
  }

  /** A decoder for inputs that are mostly ASCII: every byte at or above 0x80
      is reported as a one-byte RuneError, as utf8.DecodeRune does for a
      malformed sequence. */
  function AsciiDecode(b: seq<byte>): Decoded {
    if |b| == 0 then Decoded(RuneError, 0)
    else if b[0] < 0x80 then Decoded(b[0] as int, 1)
    else Decoded(RuneError, 1)
  }

  lemma AsciiDecodeValid()
    ensures Valid(AsciiDecode)
  {
  }
}
