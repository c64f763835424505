/**
 * The bookmark store: a map from global line number to what was remembered
 * about that line, with the toggle of `toggleBookmark` and the listing
 * sorted by line number shown in the bookmarks panel.
 */
module Bookmarks {
  /** `BookmarkData`: the line, a snippet of its text, and the offset of the window it was marked in. */
  datatype BookmarkData = BookmarkData(lineNum: int, content: string, chunkOffset: nat)

  type BookmarkMap = map<int, BookmarkData>

  const SNIPPET_LENGTH: nat := 50

  /** Every entry is stored under its own line number. */
  predicate KeyedByLine(m: BookmarkMap)
  {
    forall k :: k in m ==> m[k].lineNum == k
  }

  /** The remembered text: the first 50 characters followed by "..." when the line is longer. */
  function Snippet(content: string): (r: string)
    ensures |r| <= SNIPPET_LENGTH + 3
    ensures |content| <= SNIPPET_LENGTH ==> r == content
    ensures |content| > SNIPPET_LENGTH ==> r == content[..SNIPPET_LENGTH] + "..."
  {
    if |content| > SNIPPET_LENGTH then content[..SNIPPET_LENGTH] + "..." else content
  }

  /**
   * Toggling a line removes its bookmark if there is one and adds a fresh one
   * otherwise; no other line's bookmark changes.
   */
  function Toggle(m: BookmarkMap, lineNum: int, content: string, chunkOffset: nat): (r: BookmarkMap)
    ensures lineNum in r <==> lineNum !in m
    ensures lineNum in r ==> r[lineNum] == BookmarkData(lineNum, Snippet(content), chunkOffset)
    ensures forall k :: k != lineNum ==> (k in r <==> k in m)
    ensures forall k :: k != lineNum && k in m ==> r[k] == m[k]
    ensures KeyedByLine(m) ==> KeyedByLine(r)
  {
    if lineNum in m then m - {lineNum}
    else m[lineNum := BookmarkData(lineNum, Snippet(content), chunkOffset)]
  }

  /** Marking a line and unmarking it again leaves the store as it was. */
  lemma ToggleTwice(m: BookmarkMap, lineNum: int, content: string, chunkOffset: nat)
    requires lineNum !in m
    ensures Toggle(Toggle(m, lineNum, content, chunkOffset), lineNum, content, chunkOffset) == m
  {
  }

  /** Unmarking a line and marking it again in the window it was marked in restores the store. */
  lemma UntoggleRetoggle(m: BookmarkMap, lineNum: int, content: string, chunkOffset: nat)
    requires lineNum in m && m[lineNum] == BookmarkData(lineNum, Snippet(content), chunkOffset)
    ensures Toggle(Toggle(m, lineNum, content, chunkOffset), lineNum, content, chunkOffset) == m
  {
  }

  /** `k` is the smallest line number in `keys`. */
  predicate IsMin(k: int, keys: set<int>)
  {
    k in keys && forall j :: j in keys ==> k <= j
  }

  lemma {:induction false} MinExists(keys: set<int>)
    requires |keys| > 0
    ensures exists k :: IsMin(k, keys)
    decreases |keys|
  {
    if forall x :: x !in keys {
      assert false;
    }
    var x :| x in keys;
    var rest := keys - {x};
    if rest == {} {
      forall j | j in keys ensures j == x {
        assert j !in rest;
      }
      assert IsMin(x, keys);
    } else {
      MinExists(rest);
      var y :| IsMin(y, rest);
      var k := if x < y then x else y;
      assert IsMin(k, keys) by {
        forall j | j in keys ensures k <= j {
          if j != x { assert j in rest; }
        }
      }
    }
  }

  function MinKey(keys: set<int>): (k: int)
    requires |keys| > 0
    ensures IsMin(k, keys)
  {
    MinExists(keys);
    var k :| IsMin(k, keys);
    k
  }

  /**
   * The bookmarks panel listing, `Array.from(bookmarks.values()).sort(by lineNum)`:
   * every bookmark exactly once, in strictly ascending line order.
   */
  function SortedList(m: BookmarkMap): (r: seq<BookmarkData>)
    requires KeyedByLine(m)
    ensures |r| == |m|
    ensures forall i :: 0 <= i < |r| ==> r[i].lineNum in m && m[r[i].lineNum] == r[i]
    ensures forall k :: k in m ==> m[k] in r
    ensures forall i, j :: 0 <= i < j < |r| ==> r[i].lineNum < r[j].lineNum
    decreases |m|
  {
    if |m| == 0 then []
    else
      var k := MinKey(m.Keys);
      var rest := m - {k};
      assert |rest| == |m| - 1 by {
        assert rest.Keys == m.Keys - {k};
      }
      var tail := SortedList(rest);
      SortedListStep(m, k, rest, tail);
      [m[k]] + tail
  }

  /** One step of the listing: the smallest bookmark in front of the listing of the others. */
  lemma SortedListStep(m: BookmarkMap, k: int, rest: BookmarkMap, tail: seq<BookmarkData>)
    requires KeyedByLine(m) && IsMin(k, m.Keys) && rest == m - {k}
    requires forall i :: 0 <= i < |tail| ==> tail[i].lineNum in rest && rest[tail[i].lineNum] == tail[i]
    requires forall j :: j in rest ==> rest[j] in tail
    requires forall i, j :: 0 <= i < j < |tail| ==> tail[i].lineNum < tail[j].lineNum
    ensures var r := [m[k]] + tail;
            && (forall i :: 0 <= i < |r| ==> r[i].lineNum in m && m[r[i].lineNum] == r[i])
            && (forall j :: j in m ==> m[j] in r)
            && (forall i, j :: 0 <= i < j < |r| ==> r[i].lineNum < r[j].lineNum)
  {
    var r := [m[k]] + tail;
    forall i | 0 <= i < |tail| ensures k < tail[i].lineNum {
      assert tail[i].lineNum in rest;
    }
    forall j | j in m ensures m[j] in r {
      if j != k {
        assert j in rest && rest[j] == m[j];
      }
    }
    forall i, j | 0 <= i < j < |r| ensures r[i].lineNum < r[j].lineNum {
      if i > 0 {
        assert r[i] == tail[i - 1] && r[j] == tail[j - 1];
      } else {
        assert r[j] == tail[j - 1];
      }
    }
  }
}
