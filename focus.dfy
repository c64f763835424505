/**
 * What the log pane shows: the focus-mode filter (`filteredLines`) and the
 * numbered rows made of it, each keyed by an approximate global line number
 * that also decides whether the row shows as bookmarked.
 */
module Focus {
  import opened Text
  import opened LineIndex
  import opened Bookmarks

  /** `l.toLowerCase().includes(term.toLowerCase())` */
  predicate LineMatches(line: string, term: string)
  {
    Contains(Lower(line), Lower(term))
  }

  /** The filter applies only when focus mode is on and the search term is not empty. */
  predicate Filtering(focusMode: bool, term: string)
  {
    focusMode && term != ""
  }

  /** `lines.filter(l => LineMatches(l, term))` */
  function KeepMatching(lines: seq<string>, term: string): (r: seq<string>)
    ensures |r| <= |lines|
    ensures forall i :: 0 <= i < |r| ==> LineMatches(r[i], term)
    decreases |lines|
  {
    if |lines| == 0 then []
    else (if LineMatches(lines[0], term) then [lines[0]] else []) + KeepMatching(lines[1..], term)
  }

  /** The positions, from `from` on, of the lines that match: all of them, ascending. */
  function MatchingIndices(lines: seq<string>, term: string, from: nat): (idx: seq<nat>)
    requires from <= |lines|
    ensures forall k :: 0 <= k < |idx| ==> from <= idx[k] < |lines| && LineMatches(lines[idx[k]], term)
    ensures forall k, l :: 0 <= k < l < |idx| ==> idx[k] < idx[l]
    ensures forall i :: from <= i < |lines| && LineMatches(lines[i], term) ==> i in idx
    decreases |lines| - from
  {
    if from == |lines| then []
    else (if LineMatches(lines[from], term) then [from] else []) + MatchingIndices(lines, term, from + 1)
  }

  /** The filter keeps exactly the matching lines, in their order. */
  lemma {:induction false} KeepMatchingSelects(lines: seq<string>, term: string, from: nat)
    requires from <= |lines|
    ensures var idx := MatchingIndices(lines, term, from);
            var kept := KeepMatching(lines[from..], term);
            |kept| == |idx| && forall k :: 0 <= k < |idx| ==> kept[k] == lines[idx[k]]
    decreases |lines| - from
  {
    if from < |lines| {
      KeepMatchingSelects(lines, term, from + 1);
      assert lines[from..][1..] == lines[from + 1..];
    }
  }

  /**
   * `filteredLines`: the whole window unless filtering, and otherwise the
   * lines whose lower-case holds the lower-cased term.
   */
  function FilteredLines(lines: seq<string>, focusMode: bool, term: string): (r: seq<string>)
    ensures |r| <= |lines|
    ensures !Filtering(focusMode, term) ==> r == lines
    ensures Filtering(focusMode, term) ==> forall i :: 0 <= i < |r| ==> LineMatches(r[i], term)
  {
    if Filtering(focusMode, term) then KeepMatching(lines, term) else lines
  }

  /** When filtering, the shown lines are exactly the matching lines of the window, in window order. */
  lemma FilteredLinesSelect(lines: seq<string>, focusMode: bool, term: string)
    requires Filtering(focusMode, term)
    ensures var idx := MatchingIndices(lines, term, 0);
            var r := FilteredLines(lines, focusMode, term);
            |r| == |idx| && forall k :: 0 <= k < |idx| ==> r[k] == lines[idx[k]]
  {
    KeepMatchingSelects(lines, term, 0);
    assert lines[0..] == lines;
  }

  /** One rendered line: its displayed number (also its element id and bookmark key), text and marker. */
  datatype Row = Row(number: nat, text: string, isBookmarked: bool)

  /**
   * The rows as the pane numbers them: the `i`-th shown line gets
   * `floor(offset / 50) + i`, counting `i` in the filtered list.
   */
  function RowsAsWritten(lines: seq<string>, focusMode: bool, term: string, offset: nat, bookmarks: BookmarkMap): (rows: seq<Row>)
    ensures |rows| == |FilteredLines(lines, focusMode, term)|
    ensures forall i :: 0 <= i < |rows| ==> rows[i].number == GlobalLine(offset, i)
    ensures forall i :: 0 <= i < |rows| ==> rows[i].text == FilteredLines(lines, focusMode, term)[i]
    ensures forall i :: 0 <= i < |rows| ==> (rows[i].isBookmarked <==> rows[i].number in bookmarks)
    ensures forall i, j :: 0 <= i < j < |rows| ==> rows[i].number < rows[j].number
  {
    var shown := FilteredLines(lines, focusMode, term);
    seq(|shown|, i requires 0 <= i < |shown| =>
      Row(GlobalLine(offset, i), shown[i], GlobalLine(offset, i) in bookmarks))
  }

  /** The window positions of the shown lines. */
  function ShownIndices(lines: seq<string>, focusMode: bool, term: string): (idx: seq<nat>)
    ensures forall k :: 0 <= k < |idx| ==> idx[k] < |lines|
    ensures forall k, l :: 0 <= k < l < |idx| ==> idx[k] < idx[l]
  {
    if Filtering(focusMode, term) then MatchingIndices(lines, term, 0)
    else seq(|lines|, i requires 0 <= i < |lines| => i)
  }

  /** Rows for the window positions `idx`, numbered from `base`. */
  function NumberRows(lines: seq<string>, idx: seq<nat>, base: nat, bookmarks: BookmarkMap): (rows: seq<Row>)
    requires forall k :: 0 <= k < |idx| ==> idx[k] < |lines|
    ensures |rows| == |idx|
    ensures forall k :: 0 <= k < |rows| ==>
              base <= rows[k].number < base + |lines| && lines[rows[k].number - base] == rows[k].text
    ensures forall k :: 0 <= k < |rows| ==> (rows[k].isBookmarked <==> rows[k].number in bookmarks)
    ensures forall k, l :: 0 <= k < l < |rows| && idx[k] < idx[l] ==> rows[k].number < rows[l].number
  {
    seq(|idx|, k requires 0 <= k < |idx| =>
      Row(base + idx[k], lines[idx[k]], base + idx[k] in bookmarks))
  }

  /**
   * The rows numbered by each line's own position in the window, so that a
   * row's number is the same whether or not the filter is on, and the same
   * key the minimap and the bookmark toggle use for that line.
   */
  function Rows(lines: seq<string>, focusMode: bool, term: string, offset: nat, bookmarks: BookmarkMap): (rows: seq<Row>)
    ensures forall k :: 0 <= k < |rows| ==>
              GlobalLine(offset, 0) <= rows[k].number < GlobalLine(offset, |lines|)
              && lines[rows[k].number - GlobalLine(offset, 0)] == rows[k].text
    ensures forall k :: 0 <= k < |rows| ==> (rows[k].isBookmarked <==> rows[k].number in bookmarks)
    ensures forall k, l :: 0 <= k < l < |rows| ==> rows[k].number < rows[l].number
  {
    GlobalLineBounds(offset, |lines|);
    NumberRows(lines, ShownIndices(lines, focusMode, term), GlobalLine(offset, 0), bookmarks)
  }

  /** The corrected rows show the same lines, in the same order, as the filtered list. */
  lemma RowsShowFilteredLines(lines: seq<string>, focusMode: bool, term: string, offset: nat, bookmarks: BookmarkMap)
    ensures var rows := Rows(lines, focusMode, term, offset, bookmarks);
            var shown := FilteredLines(lines, focusMode, term);
            |rows| == |shown| && forall k :: 0 <= k < |rows| ==> rows[k].text == shown[k]
  {
    if Filtering(focusMode, term) {
      FilteredLinesSelect(lines, focusMode, term);
    }
  }

  /** Without the filter the two numberings agree. */
  lemma RowsAgreeUnfiltered(lines: seq<string>, focusMode: bool, term: string, offset: nat, bookmarks: BookmarkMap)
    requires !Filtering(focusMode, term)
    ensures Rows(lines, focusMode, term, offset, bookmarks) == RowsAsWritten(lines, focusMode, term, offset, bookmarks)
  {
  }

  /**
   * With the filter on, the pane's numbering counts filtered rows: in the
   * window ["a", "x"] at offset 0 with line 1 bookmarked, a search for "x"
   * shows "x" as line 0, not bookmarked, while it is line 1 and bookmarked.
   */
  lemma AsWrittenMisnumbersFilteredRows()
    ensures var lines := ["a", "x"];
            var marks := map[1 := BookmarkData(1, "x", 0)];
            && RowsAsWritten(lines, true, "x", 0, marks) == [Row(0, "x", false)]
            && Rows(lines, true, "x", 0, marks) == [Row(1, "x", true)]
  {
    var lines := ["a", "x"];
    assert Lower("a") == "a" && Lower("x") == "x";
    assert !Contains("", "x");
    assert !LineMatches(lines[0], "x") by {
      assert Lower("a")[..1] == "a" && Lower("a")[1..] == "";
    }
    assert LineMatches(lines[1], "x") by {
      assert OccursAt(Lower(lines[1]), Lower("x"), 0);
    }
    assert MatchingIndices(lines, "x", 2) == [];
    assert MatchingIndices(lines, "x", 0) == [1];
    assert KeepMatching(lines, "x") == ["x"] by {
      assert lines[1..] == ["x"] && lines[1..][1..] == [];
    }
  }
}
