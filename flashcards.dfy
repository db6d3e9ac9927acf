/** Flashcards and the deck viewer's card cursor. */
module Flashcards {

  /** One flashcard, `{ front, back }`; it has no identity beyond its position in its deck. */
  datatype Card = Card(front: string, back: string)

  /** The card modal's `data-mode`: anything other than "add" takes the edit branch. */
  datatype CardMode = AddMode | EditMode

  /** The viewer's cursor is 0 (what `openDeck` sets) or a position of the open deck. */
  predicate CursorFits(i: nat, len: nat) {
    i == 0 || i < len
  }

  /**
   * "next": `(i + 1) % len`. Both operands are non-negative, so JavaScript's
   * truncating `%` and Dafny's agree.
   */
  function NextIndex(i: nat, len: nat): (r: nat)
    requires len > 0
    ensures r < len
    ensures i + 1 < len ==> r == i + 1
    ensures i + 1 == len ==> r == 0
  {
    (i + 1) % len
  }

  /** "prev": `(i - 1 + len) % len`; non-negative for every cursor `i >= 0`. */
  function PrevIndex(i: nat, len: nat): (r: nat)
    requires len > 0
    ensures r < len
    ensures 0 < i <= len ==> r == i - 1
    ensures i == 0 ==> r == len - 1
  {
    (i - 1 + len) % len
  }

  /** "prev" undoes "next" on every position of the deck. */
  lemma PrevAfterNext(i: nat, len: nat)
    requires i < len
    ensures PrevIndex(NextIndex(i, len), len) == i
  {
  }

  /** "next" undoes "prev" on every position of the deck. */
  lemma NextAfterPrev(i: nat, len: nat)
    requires i < len
    ensures NextIndex(PrevIndex(i, len), len) == i
  {
  }

  /** The cursor after `k` presses of "next". */
  function Advance(i: nat, len: nat, k: nat): (r: nat)
    requires len > 0
  {
    if k == 0 then i else NextIndex(Advance(i, len, k - 1), len)
  }

  /** Pressing "next" `a` times and then `b` times is pressing it `a + b` times. */
  lemma {:induction false} AdvanceAdds(i: nat, len: nat, a: nat, b: nat)
    requires len > 0
    ensures Advance(Advance(i, len, a), len, b) == Advance(i, len, a + b)
  {
    if b > 0 {
      AdvanceAdds(i, len, a, b - 1);
    }
  }

  /** Before the end of the deck, `k` presses of "next" move exactly `k` cards on. */
  lemma {:induction false} AdvanceWithinDeck(i: nat, len: nat, k: nat)
    requires i + k < len
    ensures Advance(i, len, k) == i + k
  {
    if k > 0 {
      AdvanceWithinDeck(i, len, k - 1);
    }
  }

  /** `len` presses of "next" come back to the card one started from. */
  lemma FullCycle(i: nat, len: nat)
    requires i < len
    ensures Advance(i, len, len) == i
  {
    // len - i presses reach the last card and wrap to the first ...
    AdvanceWithinDeck(i, len, len - i - 1);
    assert Advance(i, len, len - i) == 0;
    // ... and i more presses walk back up to i
    AdvanceWithinDeck(0, len, i);
    AdvanceAdds(i, len, len - i, i);
  }
}
