/** The scanner's generated tables (TransTab and ActTab), taken as parameters. */
module Dfa {

  const NoState: int := -1
  const NumStates: int := 78

  /** `trans(q, r)` is TransTab[q](r); `accept(q)` and `ignore(q)` are the
      Accept and Ignore fields of ActTab[q]. */
  datatype Tables = Tables(trans: (int, int) -> int, accept: int -> int, ignore: int -> string)

  /** Every transition from a state leads to a state or to NoState. */
  ghost predicate Valid(t: Tables) {
    forall q, r :: 0 <= q < NumStates ==> NoState <= t.trans(q, r) < NumStates
  }

  /** The scanner records a token type and end offset on entering q. */
  predicate Marks(t: Tables, q: int) {
    t.accept(q) != NoState
  }

  /** The scanner discards what it has read and restarts on entering q; the
      Accept check comes first, so only a state that does not mark can skip. */
  predicate Skips(t: Tables, q: int) {
    t.accept(q) == NoState && t.ignore(q) != ""
  }

  /** The state entered on reading rune r in state q; the end of input
      (rune -1) has no transition. */
  function Next(t: Tables, q: int, r: int): (n: int)
    ensures Valid(t) && 0 <= q < NumStates ==> NoState <= n < NumStates
  {
    if r == -1 then NoState else t.trans(q, r)
  }
}
