# Log Voyager viewer core, in Dafny

Log Voyager opens log files too large to hold in memory by showing one window
of 50 KiB at a time. The model covers the following parts of the viewer:

- **Window reading** (`readChunk` and its reader callback). A window is
  the slice of the file at an offset. It is split on line feeds. The first
  fragment is dropped when the window does not start the file. The last
  fragment is dropped when bytes remain past the window. The result replaces
  the shown lines, the current offset and the loading flag, all together.
- **The viewer state machine** (`App`). It covers opening a file,
  which clears the bookmarks, records the file in the recent-files list
  and reads the first window. It also covers:
  - the slider
  - bookmark toggling
  - clearing the bookmarks and closing the file
  - the warp to a bookmark, which either scrolls at once or reads the
    bookmark's window and leaves a pending scroll line
  - the effect that performs that scroll once loading is done
- **The derived views, which are all pure.** These are:
  - the approximate global line number `floor(offset / 50) + i`
  - the focus-mode filter
  - the bookmark listing sorted by line number
  - the log-level classifier
  - the minimap marks, where a bookmark takes precedence over the log level
  - the search highlighting of one line: metacharacter escape,
    split that keeps the matches, per-part highlight flag, and the fallbacks
    for an empty term and an invalid pattern

Modules, one file each:

- `Text` (`text.dfy`): lower-casing, substring search, split and join.
- `Chunk` (`chunk.dfy`): the window slice and its trimming.
- `LineIndex` (`line_index.dfy`): global line numbers.
- `Bookmarks` (`bookmarks.dfy`): the bookmark store and its sorted listing.
- `History` (`history.dfy`): the recent-files list.
- `LogLevel` (`log_level.dfy`): the log-level classifier.
- `Focus` (`focus.dfy`): the focus filter and the numbered rows of the log pane.
- `Minimap` (`minimap.dfy`): the minimap marks.
- `Highlight` (`highlight.dfy`): the search highlighting.
- `Viewer` (`viewer.dfy`): the `LogViewer` class, plus three short client
  methods that play out whole interactions.

Three behaviours of the code that a reader might not expect:

- **Empty read.** A read that returns no text does not give an empty
  window: the reader callback returns early and the loading flag stays up.
  `Viewer.LogViewer.OnLoad` keeps that early return. Dragging the slider
  to 100% asks for the window at the file's size, which is empty, so the
  loading overlay stays up (`Viewer.SliderEndKeepsLoading`).
- **No stale-read handling.** The code has no request tokens, no
  suppression of stale reads and no next/previous match navigation; none
  are modelled.
- **Two copies of the line and minimap components.** `src/App.tsx`
  renders its own `LogLine` (line 235) and `Minimap` (line 220), not the
  ones under `src/components/`. Its `LogLine` splits on the raw term as a
  case-insensitive regular expression, with no escape and no error
  handling. The model follows `src/components/LogLine.tsx` and
  `src/components/Minimap.tsx`, where literal mode escapes the term and
  case sensitivity is a switch; the difference is listed under
  "Left out".

## Model

| member | source | states |
|---|---|---|
| Text.LowerChar | src/utils/helpers.ts:10 | an upper-case ASCII letter becomes the letter 32 code points above it, its lower-case partner; every other character is unchanged; no upper-case letter remains |
| Text.Lower | src/utils/helpers.ts:10 | lower-casing keeps the length and lower-cases every character in place |
| Text.LowerIdempotent | src/utils/helpers.ts:10 | lower-casing twice is lower-casing once |
| Text.Contains | src/utils/helpers.ts:11-13 | `includes` holds exactly when the term occurs at some position |
| Text.Split | src/App.tsx:352 | splitting on a separator gives at least one fragment, and no fragment holds the separator |
| Text.JoinSplit | src/App.tsx:352 | joining the fragments with the separator gives back the split text |
| Text.SplitJoin | src/App.tsx:352 | splitting a join of separator-free fragments gives back those fragments |
| Chunk.ChunkText | src/App.tsx:347 | the slice at `offset` is `min(51200, size - offset)` characters of the source from `offset` on, and empty at or past the end |
| Chunk.AdjacentChunksTile | src/App.tsx:347 | two consecutive windows together are the source from the first offset on, for `2 * 51200` characters or up to its end, with no gap and no overlap |
| Chunk.WindowLines | src/App.tsx:352-354 | the shown lines are the fragments less the first when `offset > 0` and less the last when `offset + 51200 < size`, in order, each free of line feeds |
| Chunk.WindowBoundaries | src/App.tsx:352-354 | a non-empty window's text is the dropped head fragment with its line feed, then the shown lines joined by line feeds, then the dropped tail fragment after its line feed; a window that starts the file keeps its first line and the final window keeps an unterminated last line |
| LineIndex.GlobalLine | src/App.tsx:424 | the number of the line at local index `i` is at least `i` |
| LineIndex.GlobalLineBounds | src/components/Minimap.tsx:14 | the first number of a window is the count of whole 50-unit stretches before its offset, and local index `i` adds exactly `i` |
| LineIndex.GlobalLineStrictlyIncreasing | src/App.tsx:424 | within a window, later lines get strictly larger numbers |
| LineIndex.GlobalLineMonotoneInOffset | src/App.tsx:424 | a window further into the file never numbers a local index lower |
| Bookmarks.Snippet | src/App.tsx:373 | the stored text is the line when it has at most 50 characters, and otherwise its first 50 characters followed by `...` |
| Bookmarks.Toggle | src/App.tsx:373 | the line's key flips between present and absent; a new entry holds the line, its snippet and the current offset; every other key and entry is unchanged; entries stay keyed by their line |
| Bookmarks.ToggleTwice | src/App.tsx:373 | marking an unmarked line and toggling it again restores the store |
| Bookmarks.UntoggleRetoggle | src/App.tsx:373 | unmarking a line and marking it again from the same window restores the store |
| Bookmarks.SortedList | src/App.tsx:419 | the listing holds every bookmark exactly once, each under its own line, in strictly ascending line order |
| History.WithoutName | src/App.tsx:302 | the filter keeps exactly the entries of other names, drops nothing when the name is absent, and never grows the list |
| History.WithoutNameSingle | src/App.tsx:302 | a lone entry is kept exactly when its name differs |
| History.WithoutNameAppend | src/App.tsx:302 | filtering a concatenation concatenates the filtered pieces, so the kept entries keep their order and multiplicity |
| History.WithoutNameDistinct | src/App.tsx:302 | filtering keeps the names distinct |
| History.AddToHistory | src/App.tsx:301-303 | the new list starts with the new entry, followed by the first entries of the old list with other names, up to 5 entries in all |
| History.AddToHistoryDistinct | src/App.tsx:302-303 | a list of distinct names stays so after a file is opened |
| History.ReopenFirst | src/App.tsx:302-303 | reopening the most recent file replaces its entry in place and keeps the rest |
| LogLevel.GetLogLevel | src/utils/helpers.ts:9-15 | `error` exactly when an error keyword occurs in the lower-cased line; `warn` exactly when none does and `warn` does; `info` exactly when neither does and `info` does; `default` otherwise |
| LogLevel.CaseInsensitive | src/utils/helpers.ts:10 | classifying a line and its lower-case give the same level |
| LogLevel.KeywordAnywhere | src/utils/helpers.ts:11-12 | an error keyword anywhere, in any case, makes the line an error; `warn` anywhere makes it at least a warning |
| Focus.KeepMatching | src/App.tsx:375 | the filter keeps only lines that hold the term, ignoring case |
| Focus.MatchingIndices | src/App.tsx:375 | the positions of all matching lines, in ascending order, and no other position |
| Focus.KeepMatchingSelects | src/App.tsx:375 | the filter's output is the lines at exactly the matching positions, in window order |
| Focus.FilteredLines | src/App.tsx:375 | without focus mode or with an empty term the lines are shown unchanged; otherwise every shown line matches |
| Focus.FilteredLinesSelect | src/App.tsx:375 | with the filter on, the shown lines are the in-order subsequence of matching lines |
| Focus.RowsAsWritten | src/App.tsx:424 | the pane shows the `i`-th filtered line as its `i`-th row and numbers it `floor(offset / 50) + i`, counted in the filtered list; the row is bookmarked exactly when that number is a key; numbers strictly increase |
| Focus.Rows | src/App.tsx:424 | each row's number lies in the window's range and is the number of the window line it shows; it is bookmarked exactly when that number is a key; numbers strictly increase |
| Focus.RowsShowFilteredLines | src/App.tsx:424 | the numbered rows show exactly the filtered lines, in order |
| Focus.RowsAgreeUnfiltered | src/App.tsx:424 | without the filter, the corrected and the as-written numbering agree |
| Focus.AsWrittenMisnumbersFilteredRows | src/App.tsx:424 | with the filter on, the pane numbers a row by its filtered position, which loses its bookmark |
| Minimap.MarkFor | src/components/Minimap.tsx:16-20 | a bookmarked line is marked as a bookmark; otherwise error, warn, info and default levels give their own marks |
| Minimap.Marks | src/components/Minimap.tsx:13-21 | one mark per line, in order, with the bookmark looked up at `floor(offset / 50) + i` and taking precedence over the level |
| Minimap.RowsAgreeWithMinimap | src/components/Minimap.tsx:14-17 | every row of the pane shows the window line its number names, and is bookmarked exactly when that line's minimap mark is the bookmark mark |
| Highlight.Escape | src/components/LogLine.tsx:28 | the escaped term is a literal pattern: every metacharacter has a backslash before it and every other character stands alone; it is never shorter than the term |
| Highlight.UnescapeEscape | src/components/LogLine.tsx:28 | reading the escaped pattern back gives the original term |
| Highlight.EscapePlain | src/components/LogLine.tsx:28 | a term without metacharacters is its own escape |
| Highlight.Parts | src/components/LogLine.tsx:29 | a split that keeps its matches always has an odd number of parts |
| Highlight.PartsConcat | src/components/LogLine.tsx:29 | the parts, concatenated, are the line |
| Highlight.PartsOddMatch | src/components/LogLine.tsx:29-34 | every odd-indexed part is an occurrence of the term |
| Highlight.PartsEvenNoMatch | src/components/LogLine.tsx:29-34 | no even-indexed part equals the term, so no stretch between matches is flagged |
| Highlight.PartsEvenFree | src/components/LogLine.tsx:29 | no even-indexed part holds an occurrence of the term anywhere, so the split skips no occurrence |
| Highlight.PartsLeftmost | src/components/LogLine.tsx:29 | no position inside an even-indexed part starts an occurrence, even one that would run on into the next part, so where occurrences overlap the split cuts at the leftmost one |
| Highlight.PartsFindIff | src/components/LogLine.tsx:29 | the split yields more than one part exactly when the term occurs in the line |
| Highlight.Render | src/components/LogLine.tsx:22-36 | an empty term, or in regex mode a term whose grouped pattern fails to compile, gives the whole line as one plain part; in regex mode, the parts are the pattern's split, each flagged by the pattern's test; in literal mode, the parts are the leftmost split of the line around the term, they concatenate to the line, there is an odd number of them, each is highlighted exactly when it is the term (up to case unless case-sensitive), and those are exactly the odd-indexed ones |
| Highlight.LiteralHighlightIffContains | src/components/LogLine.tsx:27-35 | in literal mode, the line is cut into more than one part (and so has a highlighted part) exactly when it contains the term, ignoring case unless the search is case-sensitive |
| Viewer.SliderOffset | src/App.tsx:372 | the slider's offset is the floor of its share of the size: 0 at the start, the size at the end, strictly inside a non-empty file below 100%, never past the end |
| Viewer.LogViewer.constructor | src/App.tsx:266-279 | the viewer starts with no file, no lines, offset 0, not loading, no bookmarks, no pending scroll and an empty history |
| Viewer.LogViewer.RestoreHistory | src/App.tsx:295-298 | a saved recent-files list replaces the current one; without one nothing changes |
| Viewer.LogViewer.ReadChunk | src/App.tsx:343-347 | without a file only the loading flag drops and no read starts; with one the flag rises and a read of that file at the offset starts; nothing else changes |
| Viewer.LogViewer.OnLoad | src/App.tsx:349-358 | an empty read changes nothing and leaves the loading flag as it was; otherwise the lines become the trimmed window, the offset becomes the read's, and loading ends |
| Viewer.LogViewer.HandleFile | src/App.tsx:364-370 | the file becomes the open one, bookmarks are emptied, the history gets the file at its head, and the first window is requested |
| Viewer.LogViewer.HandleSlider | src/App.tsx:372 | without a file nothing happens; otherwise the window at the slider's offset is requested |
| Viewer.LogViewer.ToggleBookmark | src/App.tsx:373 | the store becomes its toggle at the current offset; nothing else changes |
| Viewer.LogViewer.ClearBookmarks | src/App.tsx:414 | the store is emptied; nothing else changes |
| Viewer.LogViewer.CloseFile | src/App.tsx:393 | only the open file is dropped; lines, offset, bookmarks and history stay |
| Viewer.LogViewer.JumpToBookmark | src/App.tsx:374 | a bookmark of the current window scrolls at once, without a read, and leaves the pending line alone; any other starts a read of its window (or drops the loading flag when no file is open) and becomes the pending line |
| Viewer.LogViewer.ConsumePendingScroll | src/App.tsx:329-341 | once not loading, a pending line is handed out for scrolling and cleared; otherwise nothing is handed out and the pending line stays |
| Viewer.WarpAfterOpen | src/App.tsx:364-374 | after opening a file, warping to a bookmark record of another window and completing that read, the view is at the record's offset and scrolls to its line |
| Viewer.MarkAndWarpBack | src/App.tsx:372-374 | after marking a line in the shown window and any slider move, the warp back ends with the same lines at the same offset and hands out the line to scroll to; below 100% loading is over, while at 100% the empty read leaves the loading overlay up, so the line is handed out while the pane still shows the overlay |
| Viewer.SliderEndKeepsLoading | src/App.tsx:351 | with a file open, moving the slider to 100% and completing the read leaves the viewer loading, with its lines and offset unchanged |

## Left out

- `formatBytes` and the percentage display are floating point. The size label and the date of a history entry are parameters of `HandleFile`.
- Viewer.SliderOffset: the slider value is taken in tenths of a percent and converted exactly. JavaScript's floating-point rounding of `(val / 100) * size` is not modelled.
- File reading and decoding are not modelled: `FileReader`, `Blob` slicing and UTF-8 decoding. A file is its decoded text, and its size is the length of that text, so the difference between byte offsets and character offsets is not modelled.
- A reader error is not modelled. A read that never completes is a request on which `OnLoad` is never called.
- Completions that arrive out of order are not modelled. Each `OnLoad` applies the request it is given, whichever read it belongs to, as the callback does.
- Lower-casing covers the ASCII letters only. JavaScript's `toLowerCase` handles all of Unicode.
- Regex mode is not modelled. The outcome of compiling the pattern and its split and test are supplied as a `Pattern` value.
- JSON detection and pretty-printing in `LogLine` are not modelled. They depend on `JSON.parse`.
- The DOM side effects are not modelled: scrolling, the flash animation, `bottomRef` and the scroll reset after a load.
  - Viewer.LogViewer.JumpToBookmark and Viewer.LogViewer.ConsumePendingScroll return the line to scroll to. Whether that line's element exists on screen is not modelled.
- The timers are collapsed. `setTimeout` delays happen at once: the 100 ms before the first read in `handleFile`, and the 100 ms before the pending scroll.
- `localStorage` is not modelled. Its saved list is the parameter of `RestoreHistory`, and writing it back is not modelled.
- The clipboard paste path is not modelled. It builds a file from pasted text and then calls `handleFile`.
- The following are presentation only and are not modelled: the Tailwind script injection, the modals and the style-class selection.
- The `LogLine` and `Minimap` that `src/App.tsx` actually renders (lines 220-262) are not modelled; the model follows the versions in `src/components/`. The rendered `LogLine` builds its pattern from the raw term, always case-insensitive, with no escape and no error handling. So in the app as it runs, a term with metacharacters can miss its own literal occurrences: `a+` splits `xaa+y` into `x`, `aa` and `+y`, and no part equals `a+`, so nothing is highlighted. A term such as `(` makes rendering throw.
- Bookmarks.Snippet: lengths count characters, not UTF-16 code units as JavaScript's `length` and `substring` do, so for a line holding characters outside the Basic Multilingual Plane the cut at 50 falls elsewhere (30 emoji are 60 units: the code keeps 25 of them and adds `...`, the model keeps all 30).
- Highlight.Render: in regex mode the per-part test compiles the bare term again outside the `try` (src/components/LogLine.tsx:33). A term whose grouped pattern compiles but whose bare form does not, such as `a)(b`, makes rendering throw instead of falling back; the model's `Compiled` outcome carries a total test and does not show that failure.
- The regular-expression engine's reading of the escaped term is not modelled. `Highlight.Escape` is proved to yield a pattern of escaped metacharacters and plain characters, and literal mode is modelled directly as a leftmost, non-overlapping scan for the term.
- Search-term state, focus-mode state and the bookmark-panel toggle are not modelled as fields. They enter the derived views as parameters.

## Findings

| source | as written | input that shows it | evidently intended | confidence | as-written member | corrected member |
|---|---|---|---|---|---|---|
| src/App.tsx:424 | the `i`-th row of the filtered list is numbered `floor(offset / 50) + i`, so in focus mode a row's number, element id and bookmark key count filtered rows, not window lines | window `["a", "x"]` at offset 0 with line 1 bookmarked and focus on `x`: the one row shows `x` as line 0, not bookmarked, while the minimap marks line 1 as bookmarked | number each shown line by its position in the unfiltered window, as the minimap does | not executed; high | Focus.RowsAsWritten, Focus.AsWrittenMisnumbersFilteredRows | Focus.Rows, Minimap.RowsAgreeWithMinimap |
