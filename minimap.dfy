/**
 * The minimap strip: one mark per window line, a bookmarked line's mark
 * winning over its log level.
 */
module Minimap {
  import opened LogLevel
  import opened LineIndex
  import opened Bookmarks
  import Focus

  /** The colours of the strip, one per kind of mark. */
  datatype Mark = BookmarkMark | ErrorMark | WarnMark | InfoMark | PlainMark

  /** The colour chain of one line: bookmark first, then error, warn, info, and plain otherwise. */
  function MarkFor(line: string, bookmarked: bool): (mark: Mark)
    ensures mark == BookmarkMark <==> bookmarked
    ensures mark == ErrorMark <==> !bookmarked && GetLogLevel(line) == Error
    ensures mark == WarnMark <==> !bookmarked && GetLogLevel(line) == Warn
    ensures mark == InfoMark <==> !bookmarked && GetLogLevel(line) == Info
    ensures mark == PlainMark <==> !bookmarked && GetLogLevel(line) == Default
  {
    var level := GetLogLevel(line);
    if bookmarked then BookmarkMark
    else if level == Error then ErrorMark
    else if level == Warn then WarnMark
    else if level == Info then InfoMark
    else PlainMark
  }

  /** `lines.map(...)`: the mark of line `i` looks up the bookmark key `floor(offset / 50) + i`. */
  function Marks(lines: seq<string>, bookmarks: BookmarkMap, offset: nat): (marks: seq<Mark>)
    ensures |marks| == |lines|
    ensures forall i :: 0 <= i < |lines| ==> (marks[i] == BookmarkMark <==> GlobalLine(offset, i) in bookmarks)
    ensures forall i :: 0 <= i < |lines| && GlobalLine(offset, i) !in bookmarks ==>
              marks[i] == MarkFor(lines[i], false)
  {
    seq(|lines|, i requires 0 <= i < |lines| => MarkFor(lines[i], GlobalLine(offset, i) in bookmarks))
  }

  /**
   * The log pane's rows (numbered by window position) and the minimap agree:
   * a shown row is marked bookmarked exactly when its line's minimap mark is
   * the bookmark mark.
   */
  lemma RowsAgreeWithMinimap(lines: seq<string>, focusMode: bool, term: string, offset: nat, bookmarks: BookmarkMap, k: nat)
    requires k < |Focus.Rows(lines, focusMode, term, offset, bookmarks)|
    ensures var row := Focus.Rows(lines, focusMode, term, offset, bookmarks)[k];
            var i := row.number - GlobalLine(offset, 0);
            && 0 <= i < |lines|
            && lines[i] == row.text
            && (row.isBookmarked <==> Marks(lines, bookmarks, offset)[i] == BookmarkMark)
  {
    var row := Focus.Rows(lines, focusMode, term, offset, bookmarks)[k];
    var i := row.number - GlobalLine(offset, 0);
    GlobalLineBounds(offset, i);
  }
}
