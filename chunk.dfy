/**
 * The chunk window of `readChunk`: the slice of the source read at an offset,
 * and the line list made of it by splitting on line feeds and dropping the
 * fragments cut by the window's two boundaries.
 */
module Chunk {
  import opened Text

  /** Size of one read window (50 KB). */
  const CHUNK_SIZE: nat := 50 * 1024

  function Min(a: int, b: int): int { if a <= b then a else b }
  function Max(a: int, b: int): int { if a <= b then b else a }

  /**
   * What the reader delivers for `file.slice(offset, offset + CHUNK_SIZE)`:
   * both ends are clamped to the source, so an offset at or past its end reads nothing.
   */
  function ChunkText(source: string, offset: nat): (text: string)
    ensures |text| == if offset >= |source| then 0 else Min(CHUNK_SIZE, |source| - offset)
    ensures forall i :: 0 <= i < |text| ==> text[i] == source[offset + i]
  {
    if offset >= |source| then "" else source[offset..Min(offset + CHUNK_SIZE, |source|)]
  }

  /** Two consecutive windows cover the source between them with no gap and no overlap. */
  lemma AdjacentChunksTile(source: string, offset: nat)
    requires offset <= |source|
    ensures ChunkText(source, offset) + ChunkText(source, offset + CHUNK_SIZE)
         == source[offset..Min(offset + 2 * CHUNK_SIZE, |source|)]
  {
  }

  /** Whether the window's first fragment is a continuation of an earlier line. */
  predicate DropsFirst(offset: nat) { offset > 0 }

  /** Whether the window's last fragment is cut by the right boundary. */
  predicate DropsLast(offset: nat, size: nat) { offset + CHUNK_SIZE < size }

  /**
   * The lines of a loaded window: the fragments of `text.split('\n')` without
   * the first when the window does not start the file and without the last
   * when bytes remain past the window (`shift` and `pop` on an empty list do nothing).
   */
  function WindowLines(text: string, offset: nat, size: nat): (lines: seq<string>)
    ensures var frags := Split(text, '\n');
            var lo := if DropsFirst(offset) then 1 else 0;
            var cut := if DropsLast(offset, size) then 1 else 0;
            && |lines| == Max(0, |frags| - lo - cut)
            && forall i :: 0 <= i < |lines| ==> lines[i] == frags[lo + i]
    ensures forall i :: 0 <= i < |lines| ==> '\n' !in lines[i]
  {
    var frags := Split(text, '\n');
    var shifted := if DropsFirst(offset) then frags[1..] else frags;
    if DropsLast(offset, size) && |shifted| > 0 then shifted[..|shifted| - 1] else shifted
  }

  /**
   * A window that keeps at least one line is the text minus exactly the
   * partial lines cut at its boundaries: the head up to and including the
   * first line feed when the window does not start the file, and the tail from
   * the last line feed on when bytes remain after it. The final window keeps
   * an unterminated last line.
   */
  lemma {:induction false} WindowBoundaries(text: string, offset: nat, size: nat)
    requires WindowLines(text, offset, size) != []
    ensures var frags := Split(text, '\n');
            var lines := WindowLines(text, offset, size);
            text == (if DropsFirst(offset) then frags[0] + "\n" else "")
                    + Join(lines, '\n')
                    + (if DropsLast(offset, size) then "\n" + frags[|frags| - 1] else "")
  {
    var frags := Split(text, '\n');
    var lines := WindowLines(text, offset, size);
    var n := |frags|;
    JoinSplit(text, '\n');
    if !DropsLast(offset, size) {
      if DropsFirst(offset) {
        assert lines == frags[1..];
        assert text == frags[0] + "\n" + Join(lines, '\n');
      } else {
        assert lines == frags;
      }
    } else {
      JoinAt(frags, n - 1, '\n');
      assert frags[n - 1..] == [frags[n - 1]];
      var init := frags[..n - 1];
      assert text == Join(init, '\n') + "\n" + frags[n - 1];
      if DropsFirst(offset) {
        assert lines == init[1..];
        assert Join(init, '\n') == frags[0] + "\n" + Join(lines, '\n');
      } else {
        assert lines == init;
      }
    }
  }
}
