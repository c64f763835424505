/**
 * The viewer's state machine (`App`): the open file, the lines of the window
 * on screen, where that window starts, whether a read is in flight, the
 * bookmark store, the line waiting to be scrolled to after a warp, and the
 * recent-files list. A chunk read is split in two steps: `ReadChunk` starts it
 * and hands back the request, `OnLoad` is the reader's completion.
 */
module Viewer {
  import opened Wrappers
  import opened Text
  import opened Chunk
  import opened Bookmarks
  import opened History

  /** A `File`: its name and its decoded text (its size is the text's length). */
  datatype LogFile = LogFile(name: string, content: string)

  /** A read in flight: the window offset and the file it was started on. */
  datatype ReadRequest = ReadRequest(offset: nat, file: LogFile)

  /** `Math.floor((val / 100) * size)` for a slider value of `val` percent, passed as `tenths == 10 * val`. */
  function SliderOffset(tenths: nat, size: nat): (offset: nat)
    requires tenths <= 1000
    ensures offset <= size
    ensures tenths == 0 ==> offset == 0
    ensures tenths == 1000 ==> offset == size
    ensures tenths < 1000 && size > 0 ==> offset < size
    ensures offset * 1000 <= tenths * size < (offset + 1) * 1000
  {
    SliderOffsetBounds(tenths, size);
    tenths * size / 1000
  }

  lemma SliderOffsetBounds(tenths: nat, size: nat)
    requires tenths <= 1000
    ensures tenths * size / 1000 <= size
    ensures tenths < 1000 && size > 0 ==> tenths * size / 1000 < size
  {
    assert tenths * size <= 1000 * size;
    if tenths < 1000 && size > 0 {
      assert tenths * size < 1000 * size;
    }
  }

  class LogViewer {
    var file: Option<LogFile>
    var lines: seq<string>
    var currentOffset: nat
    var isLoading: bool
    var bookmarks: BookmarkMap
    var pendingScrollLine: Option<int>
    var history: seq<HistoryItem>

    /** Bookmarks sit under their own line numbers with short snippets; no shown line holds a line feed. */
    ghost predicate Valid()
      reads this
    {
      && KeyedByLine(bookmarks)
      && (forall k :: k in bookmarks ==> |bookmarks[k].content| <= SNIPPET_LENGTH + 3)
      && (forall i :: 0 <= i < |lines| ==> '\n' !in lines[i])
    }

    /** The screen shows the window of `f` that starts at `currentOffset`, and that window is not empty. */
    ghost predicate Displays(f: LogFile)
      reads this
    {
      && file == Some(f)
      && ChunkText(f.content, currentOffset) != ""
      && lines == WindowLines(ChunkText(f.content, currentOffset), currentOffset, |f.content|)
    }

    /** The state on mount: nothing open, nothing loading, no bookmarks, no history yet. */
    constructor ()
      ensures Valid()
      ensures file == None && lines == [] && currentOffset == 0 && !isLoading
      ensures bookmarks == map[] && pendingScrollLine == None && history == []
    {
      file := None;
      lines := [];
      currentOffset := 0;
      isLoading := false;
      bookmarks := map[];
      pendingScrollLine := None;
      history := [];
    }

    /** The mount effect: the saved recent-files list, when there is one, replaces the empty one. */
    method RestoreHistory(saved: Option<seq<HistoryItem>>)
      requires Valid()
      modifies this
      ensures Valid()
      ensures saved.Some? ==> history == saved.value
      ensures saved.None? ==> history == old(history)
      ensures file == old(file) && lines == old(lines) && currentOffset == old(currentOffset)
      ensures isLoading == old(isLoading) && bookmarks == old(bookmarks) && pendingScrollLine == old(pendingScrollLine)
    {
      if saved.Some? {
        history := saved.value;
      }
    }

    /**
     * `readChunk`: without a file it only clears the loading flag; otherwise
     * it raises the flag and starts reading the window at `offset`.
     */
    method ReadChunk(offset: nat, fileToRead: Option<LogFile>) returns (req: Option<ReadRequest>)
      requires Valid()
      modifies this
      ensures Valid()
      ensures fileToRead.None? ==> req == None && !isLoading
      ensures fileToRead.Some? ==> req == Some(ReadRequest(offset, fileToRead.value)) && isLoading
      ensures file == old(file) && lines == old(lines) && currentOffset == old(currentOffset)
      ensures bookmarks == old(bookmarks) && pendingScrollLine == old(pendingScrollLine) && history == old(history)
    {
      if fileToRead.None? {
        isLoading := false;
        return None;
      }
      isLoading := true;
      req := Some(ReadRequest(offset, fileToRead.value));
    }

    /**
     * The reader's `onload`: an empty read changes nothing (the loading flag
     * stays up); otherwise the fragments of the text, less the partial first
     * and last lines, become the shown lines and the window moves to the
     * request's offset.
     */
    method OnLoad(req: ReadRequest)
      requires Valid()
      modifies this
      ensures Valid()
      ensures ChunkText(req.file.content, req.offset) == "" ==>
                lines == old(lines) && currentOffset == old(currentOffset) && isLoading == old(isLoading)
      ensures ChunkText(req.file.content, req.offset) != "" ==>
                && lines == WindowLines(ChunkText(req.file.content, req.offset), req.offset, |req.file.content|)
                && currentOffset == req.offset && !isLoading
      ensures file == old(file) && bookmarks == old(bookmarks) && pendingScrollLine == old(pendingScrollLine) && history == old(history)
    {
      var text := ChunkText(req.file.content, req.offset);
      if text == "" {
        return;
      }
      var newLines := Split(text, '\n');
      if req.offset > 0 && |newLines| > 0 {
        newLines := newLines[1..];
      }
      if req.offset + CHUNK_SIZE < |req.file.content| && |newLines| > 0 {
        newLines := newLines[..|newLines| - 1];
      }
      lines := newLines;
      currentOffset := req.offset;
      isLoading := false;
    }

    /**
     * `handleFile`: the file becomes the open one, the bookmarks are cleared,
     * the file goes to the head of the recent list, and the first window is
     * requested.
     */
    method HandleFile(f: LogFile, sizeLabel: string, date: string) returns (req: Option<ReadRequest>)
      requires Valid()
      modifies this
      ensures Valid()
      ensures file == Some(f) && bookmarks == map[]
      ensures history == AddToHistory(old(history), HistoryItem(f.name, sizeLabel, date))
      ensures req == Some(ReadRequest(0, f)) && isLoading
      ensures lines == old(lines) && currentOffset == old(currentOffset) && pendingScrollLine == old(pendingScrollLine)
    {
      file := Some(f);
      bookmarks := map[];
      history := AddToHistory(history, HistoryItem(f.name, sizeLabel, date));
      req := ReadChunk(0, Some(f));
    }

    /** `handleSlider`: with a file open, requests the window at the slider's share of the file. */
    method HandleSlider(tenths: nat) returns (req: Option<ReadRequest>)
      requires tenths <= 1000
      requires Valid()
      modifies this
      ensures Valid()
      ensures file.None? ==> req == None && isLoading == old(isLoading)
      ensures file.Some? ==> req == Some(ReadRequest(SliderOffset(tenths, |file.value.content|), file.value)) && isLoading
      ensures file == old(file) && lines == old(lines) && currentOffset == old(currentOffset)
      ensures bookmarks == old(bookmarks) && pendingScrollLine == old(pendingScrollLine) && history == old(history)
    {
      if file.None? {
        return None;
      }
      var newOffset := SliderOffset(tenths, |file.value.content|);
      req := ReadChunk(newOffset, file);
    }

    /** `toggleBookmark`: flips the line's bookmark, remembering the current window. */
    method ToggleBookmark(lineNum: int, content: string)
      requires Valid()
      modifies this
      ensures Valid()
      ensures bookmarks == Toggle(old(bookmarks), lineNum, content, currentOffset)
      ensures file == old(file) && lines == old(lines) && currentOffset == old(currentOffset)
      ensures isLoading == old(isLoading) && pendingScrollLine == old(pendingScrollLine) && history == old(history)
    {
      bookmarks := Toggle(bookmarks, lineNum, content, currentOffset);
    }

    /** The trash button of the bookmarks bar. */
    method ClearBookmarks()
      requires Valid()
      modifies this
      ensures Valid()
      ensures bookmarks == map[]
      ensures file == old(file) && lines == old(lines) && currentOffset == old(currentOffset)
      ensures isLoading == old(isLoading) && pendingScrollLine == old(pendingScrollLine) && history == old(history)
    {
      bookmarks := map[];
    }

    /** The close button: only the open file is dropped; lines, bookmarks and offset stay. */
    method CloseFile()
      requires Valid()
      modifies this
      ensures Valid()
      ensures file == None
      ensures lines == old(lines) && currentOffset == old(currentOffset) && isLoading == old(isLoading)
      ensures bookmarks == old(bookmarks) && pendingScrollLine == old(pendingScrollLine) && history == old(history)
    {
      file := None;
    }

    /**
     * `jumpToBookmark`: a bookmark of the window on screen is scrolled to at
     * once; any other one starts a read of its window and waits as the
     * pending scroll line.
     */
    method JumpToBookmark(b: BookmarkData) returns (scrollNow: Option<int>, req: Option<ReadRequest>)
      requires Valid()
      modifies this
      ensures Valid()
      ensures b.chunkOffset == old(currentOffset) ==>
                && scrollNow == Some(b.lineNum) && req == None
                && isLoading == old(isLoading) && pendingScrollLine == old(pendingScrollLine)
      ensures b.chunkOffset != old(currentOffset) ==>
                && scrollNow == None && pendingScrollLine == Some(b.lineNum)
                && (file.None? ==> req == None && !isLoading)
                && (file.Some? ==> req == Some(ReadRequest(b.chunkOffset, file.value)) && isLoading)
      ensures file == old(file) && lines == old(lines) && currentOffset == old(currentOffset)
      ensures bookmarks == old(bookmarks) && history == old(history)
    {
      if b.chunkOffset == currentOffset {
        scrollNow := Some(b.lineNum);
        req := None;
      } else {
        scrollNow := None;
        req := ReadChunk(b.chunkOffset, file);
        pendingScrollLine := Some(b.lineNum);
      }
    }

    /** The pending-scroll effect: once nothing is loading, the waiting line is scrolled to and forgotten. */
    method ConsumePendingScroll() returns (scrollTo: Option<int>)
      requires Valid()
      modifies this
      ensures Valid()
      ensures !old(isLoading) && old(pendingScrollLine).Some? ==> scrollTo == old(pendingScrollLine) && pendingScrollLine == None
      ensures old(isLoading) || old(pendingScrollLine).None? ==> scrollTo == None && pendingScrollLine == old(pendingScrollLine)
      ensures file == old(file) && lines == old(lines) && currentOffset == old(currentOffset)
      ensures isLoading == old(isLoading) && bookmarks == old(bookmarks) && history == old(history)
    {
      if !isLoading && pendingScrollLine.Some? {
        scrollTo := pendingScrollLine;
        pendingScrollLine := None;
      } else {
        scrollTo := None;
      }
    }
  }

  /**
   * Opening a file, jumping to a bookmark record of another window and
   * letting that read complete scrolls to the record's line. The record is
   * any one passed in: opening the file has just emptied the store.
   */
  method WarpAfterOpen(f: LogFile, b: BookmarkData) returns (scrolled: Option<int>, offset: nat)
    requires 0 < b.chunkOffset < |f.content|
    ensures scrolled == Some(b.lineNum)
    ensures offset == b.chunkOffset
  {
    var v := new LogViewer();
    var first := v.HandleFile(f, "", "");
    v.OnLoad(first.value);
    assert v.currentOffset == 0;
    var now, req := v.JumpToBookmark(b);
    v.OnLoad(req.value);
    scrolled := v.ConsumePendingScroll();
    offset := v.currentOffset;
  }

  /**
   * A line marked in the window on screen can be warped back to from
   * wherever the slider went: the same window is shown again and its line is
   * scrolled to.
   */
  method MarkAndWarpBack(v: LogViewer, f: LogFile, lineNum: int, content: string, tenths: nat) returns (scrolled: Option<int>)
    requires v.Valid() && v.Displays(f) && v.pendingScrollLine == None && lineNum !in v.bookmarks
    requires tenths <= 1000
    modifies v
    ensures v.Valid() && v.Displays(f)
    ensures scrolled == Some(lineNum)
    ensures v.currentOffset == old(v.currentOffset) && v.lines == old(v.lines)
    ensures lineNum in v.bookmarks
    ensures tenths < 1000 ==> !v.isLoading
    ensures tenths == 1000 ==> v.isLoading
  {
    v.ToggleBookmark(lineNum, content);
    var b := v.bookmarks[lineNum];
    var moved := v.HandleSlider(tenths);
    v.OnLoad(moved.value);
    var now, back := v.JumpToBookmark(b);
    if now.Some? {
      scrolled := now;
    } else {
      v.OnLoad(back.value);
      scrolled := v.ConsumePendingScroll();
    }
  }

  /**
   * Dragging the slider to its end asks for the window at the file's size;
   * that read is empty, so the loading flag never comes down.
   */
  method SliderEndKeepsLoading(v: LogViewer, f: LogFile) returns (stillLoading: bool)
    requires v.Valid() && v.file == Some(f)
    modifies v
    ensures stillLoading
    ensures v.currentOffset == old(v.currentOffset) && v.lines == old(v.lines)
  {
    var req := v.HandleSlider(1000);
    v.OnLoad(req.value);
    stillLoading := v.isLoading;
  }
}
