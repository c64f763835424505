/**
 * Approximate global line numbers: a window that starts at `offset` numbers
 * its lines from `floor(offset / 50)`, as if every line were 50 units long.
 */
module LineIndex {

  /** The assumed average line length. */
  const AVG_LINE_LENGTH: nat := 50

  /** `Math.floor(offset / 50) + i` for the line at local index `i`. */
  function GlobalLine(offset: nat, i: nat): (n: nat)
    ensures n >= i
  {
    offset / AVG_LINE_LENGTH + i
  }

  /**
   * A window's first number is the count of whole 50-unit stretches before
   * its offset, and the line at local index `i` is numbered `i` past it.
   */
  lemma GlobalLineBounds(offset: nat, i: nat)
    ensures GlobalLine(offset, i) == GlobalLine(offset, 0) + i
    ensures GlobalLine(offset, 0) * AVG_LINE_LENGTH <= offset < (GlobalLine(offset, 0) + 1) * AVG_LINE_LENGTH
  {
  }

  /** Within one window, later lines get larger numbers, and distinct lines distinct numbers. */
  lemma GlobalLineStrictlyIncreasing(offset: nat, i: nat, j: nat)
    requires i < j
    ensures GlobalLine(offset, i) < GlobalLine(offset, j)
  {
  }

  /** A window read at a later offset never numbers its first line lower. */
  lemma GlobalLineMonotoneInOffset(offset1: nat, offset2: nat, i: nat)
    requires offset1 <= offset2
    ensures GlobalLine(offset1, i) <= GlobalLine(offset2, i)
  {
  }
}
