/**
 * The recent-files list of `addToHistory`: the newly opened file goes first,
 * older entries with the same name are dropped, and at most five are kept.
 */
module History {

  /** `HistoryItem`; `size` and `date` are display strings made outside this model. */
  datatype HistoryItem = HistoryItem(name: string, size: string, date: string)

  const MAX_HISTORY: nat := 5

  /** No two entries share a name. */
  predicate DistinctNames(h: seq<HistoryItem>)
  {
    forall i, j :: 0 <= i < j < |h| ==> h[i].name != h[j].name
  }

  /** `h.filter(x => x.name !== name)`, keeping the order of `h`. */
  function WithoutName(h: seq<HistoryItem>, name: string): (r: seq<HistoryItem>)
    ensures |r| <= |h|
    ensures forall i :: 0 <= i < |r| ==> r[i].name != name && r[i] in h
    ensures forall x :: x in h && x.name != name ==> x in r
    ensures name !in NamesOf(h) ==> r == h
    decreases |h|
  {
    if |h| == 0 then []
    else
      var rest := WithoutName(h[1..], name);
      assert forall x :: x in h[1..] ==> x in h;
      assert name !in NamesOf(h) ==> name !in NamesOf(h[1..]) by {
        assert forall i :: 0 <= i < |h| - 1 ==> h[1..][i].name == h[i + 1].name;
      }
      if h[0].name != name then [h[0]] + rest else rest
  }

  /** The filter keeps a lone entry exactly when its name differs. */
  lemma WithoutNameSingle(x: HistoryItem, name: string)
    ensures WithoutName([x], name) == if x.name == name then [] else [x]
  {
  }

  /**
   * The filter works entry by entry: filtering a concatenation is
   * concatenating the filtered pieces, so the kept entries keep their order
   * and their multiplicity.
   */
  lemma {:induction false} WithoutNameAppend(p: seq<HistoryItem>, q: seq<HistoryItem>, name: string)
    ensures WithoutName(p + q, name) == WithoutName(p, name) + WithoutName(q, name)
    decreases |p|
  {
    if |p| == 0 {
      assert p + q == q;
    } else {
      assert (p + q)[0] == p[0];
      assert (p + q)[1..] == p[1..] + q;
      WithoutNameAppend(p[1..], q, name);
    }
  }

  /** The set of names in a history list. */
  function NamesOf(h: seq<HistoryItem>): set<string>
  {
    set i | 0 <= i < |h| :: h[i].name
  }

  /** Filtering a list whose names are distinct keeps them distinct, and in order. */
  lemma {:induction false} WithoutNameDistinct(h: seq<HistoryItem>, name: string)
    requires DistinctNames(h)
    ensures DistinctNames(WithoutName(h, name))
    decreases |h|
  {
    if |h| > 0 {
      WithoutNameDistinct(h[1..], name);
      var rest := WithoutName(h[1..], name);
      forall i | 0 <= i < |rest| ensures rest[i].name != h[0].name {
        assert rest[i] in h[1..];
      }
    }
  }

  /** `[entry, ...h.filter(x => x.name !== entry.name)].slice(0, 5)` */
  function AddToHistory(h: seq<HistoryItem>, entry: HistoryItem): (r: seq<HistoryItem>)
    ensures 1 <= |r| <= MAX_HISTORY
    ensures r[0] == entry
    ensures forall i :: 1 <= i < |r| ==> r[i].name != entry.name && r[i] in h
    ensures |r| == if |WithoutName(h, entry.name)| < MAX_HISTORY then 1 + |WithoutName(h, entry.name)| else MAX_HISTORY
    ensures r[1..] == WithoutName(h, entry.name)[..|r| - 1]
  {
    var listed := [entry] + WithoutName(h, entry.name);
    if |listed| > MAX_HISTORY then listed[..MAX_HISTORY] else listed
  }

  /** Opening a file keeps every name in the list at most once. */
  lemma AddToHistoryDistinct(h: seq<HistoryItem>, entry: HistoryItem)
    requires DistinctNames(h)
    ensures DistinctNames(AddToHistory(h, entry))
  {
    WithoutNameDistinct(h, entry.name);
    var r := AddToHistory(h, entry);
    var rest := WithoutName(h, entry.name);
    forall i, j | 0 <= i < j < |r| ensures r[i].name != r[j].name {
      if i > 0 {
        assert r[i] == rest[i - 1] && r[j] == rest[j - 1];
      }
    }
  }

  /**
   * Reopening the file at the head of a list whose names are distinct moves
   * nothing: only its entry is replaced.
   */
  lemma ReopenFirst(h: seq<HistoryItem>, entry: HistoryItem)
    requires DistinctNames(h) && 0 < |h| <= MAX_HISTORY && h[0].name == entry.name
    ensures AddToHistory(h, entry) == [entry] + h[1..]
  {
    assert entry.name !in NamesOf(h[1..]) by {
      forall i | 0 <= i < |h[1..]| ensures h[1..][i].name != entry.name {
        assert h[1..][i] == h[i + 1];
      }
    }
    assert WithoutName(h, entry.name) == WithoutName(h[1..], entry.name);
  }
}
