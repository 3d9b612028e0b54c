# jsonql scanner driver, modelled in Dafny

This project models the tokenizer driver of jsonql, `lexer/lexer.go`: the
`Lexer` record, `NewLexer`, `Reset`, and `Scan`, the maximal-munch driver that
walks a generated finite-automaton table one rune at a time, remembers the last
accepting state, skips ignore states (whitespace), and returns one token with
its lexeme and start position while tracking the byte offset, line and column.

The generated tables `TransTab` and `ActTab` and the UTF-8 decoder are
parameters:

- `Dfa.Tables` holds the transition function (`TransTab[q](r)`), and each
  state's `Accept` and `Ignore` fields. `Dfa.Valid` demands only that every
  transition from one of the 78 states leads to a state or to `NoState` (-1).
- `Utf8.Decoder` stands for `utf8.DecodeRune`. `Utf8.Valid` demands what RFC
  3629 guarantees and the scanner relies on: at least one and at most the
  remaining bytes are consumed, a byte below 0x80 is a rune of its own (section
  3), and a sequence led by a byte at or above 0x80 consists only of such bytes
  and never decodes to a line feed.
- Token types come from a token package that is not part of this model: only
  `INVALID` (0) and `EOF` (1) are fixed, and only their being distinct matters.

Layout, one module per file:

- `utf8.dfy` (`Utf8`): bytes, the decoder parameter, an ASCII decoder.
- `tokens.dfy` (`Tokens`): the `Token` record and the two token types above.
- `dfa.dfy` (`Dfa`): the tables, `Marks` (Accept is not -1), `Skips` (Accept
  is -1 and Ignore is non-empty), and `Next`.
- `position.dfy` (`Position`): the line/column rule for one rune and what it
  adds up to over many.
- `lexer.dfy` (`Lexer`): the lexer, `NewLexer`, `Reset`, and the scan twice:
  `Scan` is the imperative loop of the source, `ScanF` the same loop as a
  function over the loop variables (`Step`, `Loop`); `Scan` is proved to compute
  `ScanF`.
- `runs.dfy` (`Runs`): the scan described from the automaton's run. A run is
  the list of successful transitions from the lexer's offset; it is maximal when
  the automaton dies right after it. `Outcome` reads the token and the new
  lexer off a run, without mentioning the loop, and
  `ScanIsOutcomeOfMaximalRun` proves that the loop yields exactly that. The
  automaton is deterministic, so there is only one maximal run
  (`MaximalRunUnique`).
- `munch.dfy` (`Munch`): the consequences a caller relies on: longest
  match, INVALID tokens always make progress, trailing ignored input is EOF,
  the token position is after the skipped input, line and column bookkeeping.
- `stream.dfy` (`Stream`): repeated scanning ends in EOF; scanning decisions
  do not depend on line or column, hence what `Reset` does.
- `demo.dfy` (`Demo`): a four-state automaton on concrete inputs.

Things the code does that a reader may not expect, all modelled as written:

- A state counts as accepting when its `Accept` is not -1, whatever the value.
  A state whose `Accept` is `INVALID` therefore records `INVALID` as the type
  and the current offset as the end. The properties are stated for arbitrary
  tables, so they hold whichever convention the generator follows.
- When the automaton reads past the last accepting state, the offset is moved
  back to the token's end (lines 99-101), but line and column are not: they
  stay where the last successful transition left them
  (`Munch.LinesAndColumns`, `Demo.LineNotRewound`). The next token is then
  reported at a line and column ahead of its real place, so a token's
  reported line and column depend on how far the previous scan read, not only
  on its offset. The model follows the code.
- An ignore state entered after the last marking state, when that state's
  Accept is not INVALID, keeps that type, but the token's start moves past the
  recorded end, so the lexeme is empty and the lexer stays past the rune the automaton died on
  (`Munch.LongestMatch`), unless the ignore state reaches the end of the
  input, which gives EOF. When the last marking state's Accept is INVALID,
  the end is instead set where the automaton died (lines 94-95), so the
  lexeme after the skip is the input up to there and is not empty
  (`Munch.InvalidTokenProgress`).

## Model

| member | source | states |
|---|---|---|
| `Lexer.NewLexer` | lexer/lexer.go:25-33 | a new lexer holds the input unchanged, at offset 0, line 1, column 1 |
| `Lexer.Reset` | lexer/lexer.go:110-112 | the offset returns to 0; input, line and column are kept |
| `Lexer.Read` | lexer/lexer.go:54-58 | at the end of the input the rune is -1 and nothing is consumed; otherwise one rune of 1 up to the remaining bytes is consumed |
| `Dfa.Next` | lexer/lexer.go:61-64 | the state entered is a state of the table or NoState |
| `Lexer.Init` | lexer/lexer.go:50-52 | the loop starts in state 0 at the lexer's offset, line and column, with nothing read, type INVALID and an end not past the start, so a loop that stops at once gives an empty lexeme |
| `Lexer.Step` | lexer/lexer.go:53-97 | one iteration, whose successful transitions go through `Lexer.Enter` with its two action cases guarded by `Dfa.Marks` (line 82) and `Dfa.Skips` (line 85), keeps start <= pos <= len(src) and end <= pos, strictly shrinks the work left, consumes input whenever input is left, and at the end of input kills the automaton without moving offset, line or column; a dying read changes neither line/column nor start nor type |
| `Lexer.Loop` | lexer/lexer.go:53-98 | the scan loop terminates with the automaton dead, never moving offset or token start backwards |
| `Lexer.ScanF` | lexer/lexer.go:43-108 | a scan with input left moves the lexer strictly forward and no further than the end; the token starts between the old offset and the end; a non-empty lexeme ends at the new offset |
| `Lexer.LexemeIsInput` | lexer/lexer.go:99-107 | a non-empty lexeme is exactly the input from the token's offset to the lexer's new offset |
| `Lexer.Scan` | lexer/lexer.go:43-108 | the imperative loop computes exactly the functional scan; at or past the end of input it returns EOF at the current offset, line and column and leaves the lexer unchanged |
| `Position.Advance` | lexer/lexer.go:67-80 | one rune moves to the next line exactly when it is a line feed; a line feed or carriage return returns to column 1; any other rune moves the column on by its width (4 for a tab, 1 otherwise) |
| `Position.LinesCounted` | lexer/lexer.go:67-80 | after a sequence of runes the line has grown by the number of line feeds among them |
| `Position.ColumnMeasured` | lexer/lexer.go:67-80 | the column is 1 plus the width (tab 4, other runes 1) of the runes after the last line feed or carriage return, or the old column plus the width of all runes when there is none |
| `Runs.RunBounds` | lexer/lexer.go:53-59 | every successful transition consumes at least one byte, so offsets along a run strictly increase and stay within the input |
| `Runs.StepExtendsRun` | lexer/lexer.go:53-92 | an iteration that takes a transition keeps the loop variables equal to what the run so far determines: the state resumed from, start after the last ignore state, the type of the last accepting state (EOF after skipping to the end), the end after it |
| `Runs.StepEndsRun` | lexer/lexer.go:93-97 | an iteration on which the automaton dies ends a maximal run, leaves line and column as they were, and sets the end to the offset after the read only when the type is still INVALID |
| `Runs.LoopFollowsRun` | lexer/lexer.go:53-98 | the loop ends after a maximal run, with the offset after the read that killed the automaton and the end set there only when the type is still INVALID |
| `Runs.ScanIsOutcomeOfMaximalRun` | lexer/lexer.go:43-108 | the scan follows the maximal run from the lexer's offset and returns the token and lexer that the run determines |
| `Runs.RunsAgree` | lexer/lexer.go:53-65 | two runs from the same point coincide as far as both go |
| `Runs.LongerRunOutlives` | lexer/lexer.go:53-65 | where a longer run exists the automaton does not die |
| `Runs.MaximalRunUnique` | lexer/lexer.go:53-65 | there is exactly one maximal run from a point |
| `Runs.RunPosition` | lexer/lexer.go:67-80 | line and column along a run are those reached by consuming exactly the runes of its successful transitions |
| `Runs.MoveNewlines` | lexer/lexer.go:54-72 | the bytes one successful transition consumes contain a newline byte exactly when the rune read is a line feed, and then only one |
| `Runs.RunNewlines` | lexer/lexer.go:57-72 | the line feeds read along a run are exactly the newline bytes of the input it covers |
| `Munch.ScanOfRun` | lexer/lexer.go:43-108 | any maximal run from the lexer's offset determines the scan's result |
| `Munch.LongestMatch` | lexer/lexer.go:81-84 | when the run has a marking state and does not end by skipping to the end of the input (which gives EOF), the token type is the Accept of the last marking state, whatever its value; when that Accept is not INVALID: with no ignore state after it, the lexeme ends just after the rune that entered it and the lexer resumes there; with one after it, the lexeme is empty |
| `Munch.InvalidTokenProgress` | lexer/lexer.go:93-101 | with no accepting state and no skip to the end the token is INVALID; an INVALID lexeme is non-empty, ends after the rune the automaton died on, and the lexer moves forward |
| `Munch.TrailingIgnoreIsEof` | lexer/lexer.go:85-91 | a run ending in an ignore state at the end of the input gives EOF with an empty lexeme at the end of the input, line and column of that point, and the lexer at the end |
| `Munch.TokenStartsAfterSkipped` | lexer/lexer.go:85-87 | the token starts after every skipped byte; when the run skipped, it starts exactly at the offset, line and column where the last ignore state was entered; when nothing was skipped, at the lexer's own offset, line and column |
| `Munch.LinesAndColumns` | lexer/lexer.go:67-80 | the lexer ends at the line and column reached by the runes of the successful transitions only, the rune the automaton died on not counted |
| `Munch.LinesCountNewlineBytes` | lexer/lexer.go:67-80 | the line grows by the newline bytes covered by the maximal run, even where the lexer's offset is moved back before some of them |
| `Stream.Tokenize` | lexer/lexer.go:43-108 | calling Scan until EOF terminates; EOF is the last token and no earlier one |
| `Stream.LoopShifted` | lexer/lexer.go:53-98 | the whole loop takes the same decisions whatever the line and column, and keeps line differences |
| `Stream.ScanIgnoresLineColumn` | lexer/lexer.go:43-108 | two lexers at the same offset scan tokens of the same type, lexeme and offset and move to the same offset, lines apart by their difference; columns are not compared (before the first line break they differ by the column difference) |
| `Stream.TokenizeIgnoresLineColumn` | lexer/lexer.go:43-108 | two lexers at the same offset produce token streams of the same length with the same types, lexemes and offsets, lines apart by their difference; columns are not compared |
| `Stream.ResetRescans` | lexer/lexer.go:110-112 | after Reset the first token, and every token of the stream, has the type, lexeme and offset of a fresh lexer's on the same input, with reported lines shifted by the lines counted before; columns are not compared, since Reset also keeps the column |
| `Demo.TokenAfterBlank` | lexer/lexer.go:85-87 | on a concrete automaton, a leading blank is skipped and the token's column is 2 |
| `Demo.EofAfterTrailingBlank` | lexer/lexer.go:88-90 | on a concrete automaton, a trailing blank gives EOF at the end of the input |
| `Demo.BlanksAroundToken` | lexer/lexer.go:43-108 | on a concrete automaton, " a " tokenizes as "a" and then EOF |
| `Demo.LineNotRewound` | lexer/lexer.go:99-101 | on a concrete automaton, "a\nx" yields "a" and leaves the lexer at offset 1 on line 2: line and column are not moved back with the offset |

## Left out

- `NewLexerFile` (lexer/lexer.go:35-41): reading a file is I/O; it only calls `NewLexer` on the bytes read.
- The contents of `TransTab` and `ActTab` and the symbol listing (lexer/lexer.go:114-182): generated data, taken as parameters constrained only by `Dfa.Valid`.
- `utf8.DecodeRune`: a library call, taken as a parameter constrained by `Utf8.Valid`.
- The token package: only the two types the scanner assigns itself are fixed; `Token` carries the fields the scanner fills in.
- The lexer as a mutable record: `Scan` updates `*Lexer` in place (lexer/lexer.go:43-108); the model returns the new lexer as a value together with the token, which is the same state change without aliasing.
- Sharing of the lexeme with the input: `tok.Lit = l.src[start:end]` (lexer/lexer.go:101) is a slice sharing the input's backing array, so writes through one show in the other; the model's lexeme is an immutable sequence equal to that part of the input.
- Stream.ScanIgnoresLineColumn: relates type, lexeme, offset, new offset and line only; the columns of two lexers at the same offset differ by their column difference until a line break is read, and no contract states that relation.
- Stream.TokenizeIgnoresLineColumn: likewise relates types, lexemes, offsets and lines of the two streams, not their columns.
- Stream.ResetRescans: likewise leaves columns out; after Reset the tokens before the first line break are reported at columns shifted by the kept column minus one.
- Machine integers: offsets, lines and columns are unbounded, so the model does not represent Go's `int` wrap-around. It can occur where `int` is 32 bits, for instance through `l.column += 4` (lexer/lexer.go:76) on a line of about 2^29 tabs. It can also occur after many rescans, because `Reset` (lexer/lexer.go:111) keeps line and column, which then grow without bound whatever the input size.
- The parser, evaluator and query façade exercised by jsonql_test.go: their source is not part of this model.
