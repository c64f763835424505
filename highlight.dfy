/**
 * Search-term highlighting of one log line (`renderContent`): the line is cut
 * into parts around the occurrences of the term and each part is flagged as
 * highlighted or not.
 */
module Highlight {
  import opened Text

  /** The characters a pattern escapes with a backslash: `.*+?^${}()|[]\`. */
  const META: set<char> := {'.', '*', '+', '?', '^', '$', '{', '}', '(', ')', '|', '[', ']', '\\'}

  /**
   * A pattern a regular-expression engine reads character for character:
   * each metacharacter comes with a backslash before it, and every other
   * character stands alone.
   */
  predicate LiteralPattern(r: string)
    decreases |r|
  {
    if |r| == 0 then true
    else if r[0] == '\\' then |r| >= 2 && r[1] in META && LiteralPattern(r[2..])
    else r[0] !in META && LiteralPattern(r[1..])
  }

  /** `term.replace(/[.*+?^${}()|[\]\\]/g, '\\$&')` */
  function Escape(s: string): (r: string)
    ensures |r| >= |s|
    ensures LiteralPattern(r)
    decreases |s|
  {
    if |s| == 0 then ""
    else
      var head := if s[0] in META then ['\\', s[0]] else [s[0]];
      var r := head + Escape(s[1..]);
      assert r[|head|..] == Escape(s[1..]);
      r
  }

  /** Reads an escaped pattern back: a backslash stands for the character after it. */
  function Unescape(s: string): string
    decreases |s|
  {
    if |s| == 0 then ""
    else if s[0] == '\\' && |s| >= 2 then [s[1]] + Unescape(s[2..])
    else [s[0]] + Unescape(s[1..])
  }

  /** Escaping loses nothing: unescaping gives the term back. */
  lemma {:induction false} UnescapeEscape(s: string)
    ensures Unescape(Escape(s)) == s
    decreases |s|
  {
    if |s| > 0 {
      UnescapeEscape(s[1..]);
      var e := Escape(s);
      if s[0] in META {
        assert e == ['\\', s[0]] + Escape(s[1..]);
        assert e[2..] == Escape(s[1..]);
      } else {
        assert e == [s[0]] + Escape(s[1..]);
        assert e[1..] == Escape(s[1..]);
      }
    }
  }

  /** A term without metacharacters is its own escape. */
  lemma {:induction false} EscapePlain(s: string)
    requires forall i :: 0 <= i < |s| ==> s[i] !in META
    ensures Escape(s) == s
    decreases |s|
  {
    if |s| > 0 {
      EscapePlain(s[1..]);
    }
  }

  /** The per-part test: the part is the term, exactly or ignoring case. */
  predicate IsMatch(part: string, term: string, caseSensitive: bool)
  {
    if caseSensitive then part == term else Lower(part) == Lower(term)
  }

  /** An occurrence of the term (up to case unless case-sensitive) starts at `k`. */
  predicate MatchesAt(c: string, t: string, caseSensitive: bool, k: nat)
  {
    k + |t| <= |c| && IsMatch(c[k..k + |t|], t, caseSensitive)
  }

  /**
   * `c.split(/(t)/g)` from position `i` on, the current unmatched stretch
   * starting at `g`: scanning left to right, each occurrence closes the
   * stretch before it and is kept as a part of its own.
   */
  function Parts(c: string, t: string, caseSensitive: bool, i: nat, g: nat): (parts: seq<string>)
    requires |t| > 0 && g <= i <= |c|
    ensures |parts| % 2 == 1
    decreases |c| - i
  {
    if i + |t| > |c| then [c[g..]]
    else if MatchesAt(c, t, caseSensitive, i) then [c[g..i], c[i..i + |t|]] + Parts(c, t, caseSensitive, i + |t|, i + |t|)
    else Parts(c, t, caseSensitive, i + 1, g)
  }

  function Concat(parts: seq<string>): string
    decreases |parts|
  {
    if |parts| == 0 then "" else parts[0] + Concat(parts[1..])
  }

  lemma ConcatPair(a: string, b: string, rest: seq<string>)
    ensures Concat([a, b] + rest) == a + b + Concat(rest)
  {
    var parts := [a, b] + rest;
    assert parts[1..] == [b] + rest;
    assert parts[1..][1..] == rest;
  }

  lemma SliceThree(c: string, a: nat, b: nat, e: nat)
    requires a <= b <= e <= |c|
    ensures c[a..] == c[a..b] + c[b..e] + c[e..]
  {
  }

  /** One step of the scan. */
  lemma PartsStep(c: string, t: string, caseSensitive: bool, i: nat, g: nat)
    requires |t| > 0 && g <= i <= |c|
    ensures i + |t| > |c| ==> Parts(c, t, caseSensitive, i, g) == [c[g..]]
    ensures i + |t| <= |c| && MatchesAt(c, t, caseSensitive, i) ==>
              Parts(c, t, caseSensitive, i, g) == [c[g..i], c[i..i + |t|]] + Parts(c, t, caseSensitive, i + |t|, i + |t|)
    ensures i + |t| <= |c| && !MatchesAt(c, t, caseSensitive, i) ==>
              Parts(c, t, caseSensitive, i, g) == Parts(c, t, caseSensitive, i + 1, g)
  {
  }

  /** The parts put back together are the text they were cut from. */
  lemma {:induction false} PartsConcat(c: string, t: string, caseSensitive: bool, i: nat, g: nat)
    requires |t| > 0 && g <= i <= |c|
    ensures Concat(Parts(c, t, caseSensitive, i, g)) == c[g..]
    decreases |c| - i
  {
    PartsStep(c, t, caseSensitive, i, g);
    if i + |t| > |c| {
      assert Concat([c[g..]]) == c[g..] + Concat([]);
    } else if MatchesAt(c, t, caseSensitive, i) {
      var rest := Parts(c, t, caseSensitive, i + |t|, i + |t|);
      PartsConcat(c, t, caseSensitive, i + |t|, i + |t|);
      ConcatPair(c[g..i], c[i..i + |t|], rest);
      calc {
        Concat(Parts(c, t, caseSensitive, i, g));
        Concat([c[g..i], c[i..i + |t|]] + rest);
        c[g..i] + c[i..i + |t|] + Concat(rest);
        c[g..i] + c[i..i + |t|] + c[i + |t|..];
        { SliceThree(c, g, i, i + |t|); }
        c[g..];
      }
    } else {
      PartsConcat(c, t, caseSensitive, i + 1, g);
      assert Concat(Parts(c, t, caseSensitive, i, g)) == Concat(Parts(c, t, caseSensitive, i + 1, g));
    }
  }

  /** Every odd-indexed part is an occurrence of the term. */
  predicate OddPartsMatch(parts: seq<string>, t: string, caseSensitive: bool)
  {
    forall j :: 0 <= j < |parts| && j % 2 == 1 ==> IsMatch(parts[j], t, caseSensitive)
  }

  /** No even-indexed part is an occurrence of the term. */
  predicate EvenPartsDiffer(parts: seq<string>, t: string, caseSensitive: bool)
  {
    forall j :: 0 <= j < |parts| && j % 2 == 0 ==> !IsMatch(parts[j], t, caseSensitive)
  }

  lemma {:induction false} PartsOddMatch(c: string, t: string, caseSensitive: bool, i: nat, g: nat)
    requires |t| > 0 && g <= i <= |c|
    ensures OddPartsMatch(Parts(c, t, caseSensitive, i, g), t, caseSensitive)
    decreases |c| - i
  {
    var parts := Parts(c, t, caseSensitive, i, g);
    if i + |t| > |c| {
      assert parts == [c[g..]];
    } else if MatchesAt(c, t, caseSensitive, i) {
      var rest := Parts(c, t, caseSensitive, i + |t|, i + |t|);
      assert parts == [c[g..i], c[i..i + |t|]] + rest;
      PartsOddMatch(c, t, caseSensitive, i + |t|, i + |t|);
      forall j | 0 <= j < |parts| && j % 2 == 1 ensures IsMatch(parts[j], t, caseSensitive) {
        if j > 1 {
          assert parts[j] == rest[j - 2] && (j - 2) % 2 == 1;
        } else {
          assert parts[j] == c[i..i + |t|];
        }
      }
    } else {
      assert parts == Parts(c, t, caseSensitive, i + 1, g);
      PartsOddMatch(c, t, caseSensitive, i + 1, g);
    }
  }

  /** A stretch that is the term makes the term occur where the stretch starts. */
  lemma StretchMatch(c: string, t: string, caseSensitive: bool, g: nat, e: nat)
    requires g <= e <= |c| && IsMatch(c[g..e], t, caseSensitive)
    ensures MatchesAt(c, t, caseSensitive, g)
  {
    assert |c[g..e]| == |t| by {
      if !caseSensitive { assert |Lower(c[g..e])| == |Lower(t)|; }
    }
    assert c[g..g + |t|] == c[g..e];
  }

  /**
   * No even-indexed part is an occurrence: the scan takes the leftmost
   * occurrence, so a stretch between occurrences never equals the term.
   */
  lemma {:induction false} PartsEvenNoMatch(c: string, t: string, caseSensitive: bool, i: nat, g: nat)
    requires |t| > 0 && g <= i <= |c|
    requires forall k: nat :: g <= k < i ==> !MatchesAt(c, t, caseSensitive, k)
    ensures EvenPartsDiffer(Parts(c, t, caseSensitive, i, g), t, caseSensitive)
    decreases |c| - i
  {
    PartsStep(c, t, caseSensitive, i, g);
    if i + |t| > |c| {
      if IsMatch(c[g..], t, caseSensitive) {
        StretchMatch(c, t, caseSensitive, g, |c|);
        assert false;
      }
    } else if MatchesAt(c, t, caseSensitive, i) {
      PartsEvenNoMatch(c, t, caseSensitive, i + |t|, i + |t|);
      if IsMatch(c[g..i], t, caseSensitive) {
        StretchMatch(c, t, caseSensitive, g, i);
        assert false;
      }
      DifferCons(c[g..i], c[i..i + |t|], Parts(c, t, caseSensitive, i + |t|, i + |t|), t, caseSensitive);
    } else {
      PartsEvenNoMatch(c, t, caseSensitive, i + 1, g);
    }
  }

  /** A stretch that is not the term and any occurrence put in front of differing parts keep them differing. */
  lemma DifferCons(a: string, b: string, rest: seq<string>, t: string, caseSensitive: bool)
    requires !IsMatch(a, t, caseSensitive)
    requires EvenPartsDiffer(rest, t, caseSensitive)
    ensures EvenPartsDiffer([a, b] + rest, t, caseSensitive)
  {
    var parts := [a, b] + rest;
    forall j | 0 <= j < |parts| && j % 2 == 0 ensures !IsMatch(parts[j], t, caseSensitive) {
      if j > 0 {
        assert parts[j] == rest[j - 2] && (j - 2) % 2 == 0;
      }
    }
  }

  /** No even-indexed part holds an occurrence of the term anywhere inside it. */
  ghost predicate EvenPartsFree(parts: seq<string>, t: string, caseSensitive: bool)
  {
    forall j, k: nat :: 0 <= j < |parts| && j % 2 == 0 ==> !MatchesAt(parts[j], t, caseSensitive, k)
  }

  /** An occurrence inside the stretch `c[a..b]` is an occurrence in `c` that ends within the stretch. */
  lemma SliceMatch(c: string, t: string, caseSensitive: bool, a: nat, b: nat, k: nat)
    requires a <= b <= |c| && MatchesAt(c[a..b], t, caseSensitive, k)
    ensures a + k + |t| <= b && MatchesAt(c, t, caseSensitive, a + k)
  {
    var s := c[a..b];
    assert k + |t| <= |s|;
    var x, y := s[k..k + |t|], c[a + k..a + k + |t|];
    assert x == y by {
      forall m | 0 <= m < |t| ensures x[m] == y[m] {
        assert s[k + m] == c[a + k + m];
      }
    }
  }

  /** A stretch none of whose positions starts an occurrence that fits in it holds no occurrence. */
  lemma StretchFree(c: string, t: string, caseSensitive: bool, a: nat, b: nat)
    requires a <= b <= |c|
    requires forall k: nat :: a <= k && k + |t| <= b ==> !MatchesAt(c, t, caseSensitive, k)
    ensures forall k: nat :: !MatchesAt(c[a..b], t, caseSensitive, k)
  {
    forall k: nat ensures !MatchesAt(c[a..b], t, caseSensitive, k) {
      if MatchesAt(c[a..b], t, caseSensitive, k) {
        SliceMatch(c, t, caseSensitive, a, b, k);
      }
    }
  }

  /** A single free stretch has free even parts. */
  lemma EvenFreeSingle(a: string, t: string, caseSensitive: bool)
    requires forall k: nat :: !MatchesAt(a, t, caseSensitive, k)
    ensures EvenPartsFree([a], t, caseSensitive)
  {
  }

  /** A free stretch and any occurrence put in front of free parts keep the even parts free. */
  lemma EvenFreeCons(a: string, b: string, rest: seq<string>, t: string, caseSensitive: bool)
    requires forall k: nat :: !MatchesAt(a, t, caseSensitive, k)
    requires EvenPartsFree(rest, t, caseSensitive)
    ensures EvenPartsFree([a, b] + rest, t, caseSensitive)
  {
    var parts := [a, b] + rest;
    forall j, k: nat | 0 <= j < |parts| && j % 2 == 0 ensures !MatchesAt(parts[j], t, caseSensitive, k) {
      if j > 0 {
        assert parts[j] == rest[j - 2] && (j - 2) % 2 == 0;
      }
    }
  }

  /**
   * The stretches the scan leaves between occurrences hold no occurrence at
   * all: the split is leftmost, so it skips none.
   */
  lemma {:induction false} PartsEvenFree(c: string, t: string, caseSensitive: bool, i: nat, g: nat)
    requires |t| > 0 && g <= i <= |c|
    requires forall k: nat :: g <= k < i ==> !MatchesAt(c, t, caseSensitive, k)
    ensures EvenPartsFree(Parts(c, t, caseSensitive, i, g), t, caseSensitive)
    decreases |c| - i
  {
    PartsStep(c, t, caseSensitive, i, g);
    if i + |t| > |c| {
      StretchFree(c, t, caseSensitive, g, |c|);
      assert c[g..] == c[g..|c|];
      EvenFreeSingle(c[g..], t, caseSensitive);
    } else if MatchesAt(c, t, caseSensitive, i) {
      PartsEvenFree(c, t, caseSensitive, i + |t|, i + |t|);
      StretchFree(c, t, caseSensitive, g, i);
      EvenFreeCons(c[g..i], c[i..i + |t|], Parts(c, t, caseSensitive, i + |t|, i + |t|), t, caseSensitive);
    } else {
      PartsEvenFree(c, t, caseSensitive, i + 1, g);
    }
  }

  /**
   * No occurrence starts inside an even-indexed part: reading the text on
   * from the start of such a part, none of the part's own positions begins
   * the term, even where that occurrence would run into the next part.
   */
  ghost predicate EvenPartsLeftmost(parts: seq<string>, t: string, caseSensitive: bool)
  {
    forall j, k: nat :: 0 <= j < |parts| && j % 2 == 0 && k < |parts[j]| ==> !MatchesAt(Concat(parts[j..]), t, caseSensitive, k)
  }

  /** Positions of `c` from `g` up to `i` that start no occurrence start none in `c[g..]` either. */
  lemma SuffixFree(c: string, t: string, caseSensitive: bool, g: nat, i: nat)
    requires g <= i <= |c|
    requires forall k: nat :: g <= k < i ==> !MatchesAt(c, t, caseSensitive, k)
    ensures forall k: nat :: k < i - g ==> !MatchesAt(c[g..], t, caseSensitive, k)
  {
    forall k: nat | k < i - g ensures !MatchesAt(c[g..], t, caseSensitive, k) {
      if MatchesAt(c[g..], t, caseSensitive, k) {
        assert c[g..] == c[g..|c|];
        SliceMatch(c, t, caseSensitive, g, |c|, k);
      }
    }
  }

  /** A last part none of whose positions starts an occurrence keeps the split leftmost. */
  lemma LeftmostSingle(a: string, t: string, caseSensitive: bool)
    requires forall k: nat :: k < |a| ==> !MatchesAt(a, t, caseSensitive, k)
    ensures EvenPartsLeftmost([a], t, caseSensitive)
  {
    var parts := [a];
    assert parts[1..] == [];
    assert Concat(parts) == a;
    forall j, k: nat | 0 <= j < |parts| && j % 2 == 0 && k < |parts[j]|
      ensures !MatchesAt(Concat(parts[j..]), t, caseSensitive, k)
    {
      assert j == 0 && parts[j..] == parts;
    }
  }

  /** A stretch starting no occurrence and an occurrence put in front of leftmost parts keep them leftmost. */
  lemma LeftmostCons(a: string, b: string, rest: seq<string>, t: string, caseSensitive: bool)
    requires forall k: nat :: k < |a| ==> !MatchesAt(Concat([a, b] + rest), t, caseSensitive, k)
    requires EvenPartsLeftmost(rest, t, caseSensitive)
    ensures EvenPartsLeftmost([a, b] + rest, t, caseSensitive)
  {
    var parts := [a, b] + rest;
    forall j, k: nat | 0 <= j < |parts| && j % 2 == 0 && k < |parts[j]|
      ensures !MatchesAt(Concat(parts[j..]), t, caseSensitive, k)
    {
      if j > 0 {
        assert parts[j..] == rest[j - 2..];
        assert parts[j] == rest[j - 2] && (j - 2) % 2 == 0;
      } else {
        assert parts[j..] == parts;
      }
    }
  }

  /**
   * The scan cuts at the leftmost occurrence: no position inside a stretch it
   * leaves between occurrences starts one, so where occurrences overlap the
   * earlier one is the one kept, as `split` does.
   */
  lemma {:induction false} PartsLeftmost(c: string, t: string, caseSensitive: bool, i: nat, g: nat)
    requires |t| > 0 && g <= i <= |c|
    requires forall k: nat :: g <= k < i ==> !MatchesAt(c, t, caseSensitive, k)
    ensures EvenPartsLeftmost(Parts(c, t, caseSensitive, i, g), t, caseSensitive)
    decreases |c| - i
  {
    PartsStep(c, t, caseSensitive, i, g);
    if i + |t| > |c| {
      LeftmostTail(c, t, caseSensitive, i, g);
    } else if MatchesAt(c, t, caseSensitive, i) {
      PartsLeftmost(c, t, caseSensitive, i + |t|, i + |t|);
      LeftmostAtMatch(c, t, caseSensitive, i, g);
    } else {
      PartsLeftmost(c, t, caseSensitive, i + 1, g);
    }
  }

  /** The scan's last stretch, once the term no longer fits, starts no occurrence. */
  lemma LeftmostTail(c: string, t: string, caseSensitive: bool, i: nat, g: nat)
    requires g <= i <= |c| && i + |t| > |c|
    requires forall k: nat :: g <= k < i ==> !MatchesAt(c, t, caseSensitive, k)
    ensures EvenPartsLeftmost([c[g..]], t, caseSensitive)
  {
    assert forall k: nat :: i <= k < |c| ==> !MatchesAt(c, t, caseSensitive, k);
    SuffixFree(c, t, caseSensitive, g, |c|);
    LeftmostSingle(c[g..], t, caseSensitive);
  }

  /** The stretch the scan closes at an occurrence starts none, so the cut keeps the rest leftmost. */
  lemma LeftmostAtMatch(c: string, t: string, caseSensitive: bool, i: nat, g: nat)
    requires |t| > 0 && g <= i && i + |t| <= |c|
    requires forall k: nat :: g <= k < i ==> !MatchesAt(c, t, caseSensitive, k)
    requires Parts(c, t, caseSensitive, i, g) == [c[g..i], c[i..i + |t|]] + Parts(c, t, caseSensitive, i + |t|, i + |t|)
    requires EvenPartsLeftmost(Parts(c, t, caseSensitive, i + |t|, i + |t|), t, caseSensitive)
    ensures EvenPartsLeftmost(Parts(c, t, caseSensitive, i, g), t, caseSensitive)
  {
    PartsConcat(c, t, caseSensitive, i, g);
    SuffixFree(c, t, caseSensitive, g, i);
    LeftmostCons(c[g..i], c[i..i + |t|], Parts(c, t, caseSensitive, i + |t|, i + |t|), t, caseSensitive);
  }


  /** The scan cuts the text exactly when an occurrence starts at or after `i`. */
  lemma {:induction false} PartsFindIff(c: string, t: string, caseSensitive: bool, i: nat, g: nat)
    requires |t| > 0 && g <= i <= |c|
    ensures |Parts(c, t, caseSensitive, i, g)| > 1 <==> exists k: nat :: i <= k && MatchesAt(c, t, caseSensitive, k)
    decreases |c| - i
  {
    if i + |t| > |c| {
      assert forall k: nat :: i <= k ==> !MatchesAt(c, t, caseSensitive, k);
    } else if MatchesAt(c, t, caseSensitive, i) {
    } else {
      PartsFindIff(c, t, caseSensitive, i + 1, g);
      assert forall k: nat :: i <= k && MatchesAt(c, t, caseSensitive, k) ==> i + 1 <= k;
    }
  }

  /** One displayed part: its text and whether it is drawn highlighted. */
  datatype Segment = Segment(text: string, highlighted: bool)

  /**
   * The outcome of compiling the grouped term as a pattern, which this model
   * does not evaluate: a compile error, or the parts the pattern split the
   * line into together with the bare term's test on one part.
   */
  datatype Pattern = CompileFailed | Compiled(parts: seq<string>, test: string -> bool)

  function Texts(segments: seq<Segment>): (texts: seq<string>)
    ensures |texts| == |segments|
    ensures forall j :: 0 <= j < |segments| ==> texts[j] == segments[j].text
  {
    seq(|segments|, j requires 0 <= j < |segments| => segments[j].text)
  }

  /**
   * `renderContent`: an empty term leaves the line as one plain part; in
   * pattern mode a grouped pattern that does not compile does the same; in literal
   * mode the line is cut around the term's occurrences and a part is
   * highlighted when it is the term (up to case unless case-sensitive).
   */
  function Render(content: string, highlight: string, useRegex: bool, caseSensitive: bool, pattern: Pattern): (segments: seq<Segment>)
    ensures highlight == "" ==> segments == [Segment(content, false)]
    ensures highlight != "" && useRegex && pattern.CompileFailed? ==> segments == [Segment(content, false)]
    ensures highlight != "" && useRegex && pattern.Compiled? ==>
              Texts(segments) == pattern.parts
              && forall j :: 0 <= j < |segments| ==> segments[j].highlighted == pattern.test(segments[j].text)
    ensures highlight != "" && !useRegex ==>
              && Texts(segments) == Parts(content, highlight, caseSensitive, 0, 0)
              && Concat(Texts(segments)) == content
              && |segments| % 2 == 1
              && (forall j :: 0 <= j < |segments| ==> segments[j].highlighted == IsMatch(segments[j].text, highlight, caseSensitive))
              && (forall j :: 0 <= j < |segments| ==> (segments[j].highlighted <==> j % 2 == 1))
  {
    if highlight == "" then [Segment(content, false)]
    else if useRegex then
      match pattern
      case CompileFailed => [Segment(content, false)]
      case Compiled(parts, test) => seq(|parts|, j requires 0 <= j < |parts| => Segment(parts[j], test(parts[j])))
    else
      var parts := Parts(content, highlight, caseSensitive, 0, 0);
      PartsConcat(content, highlight, caseSensitive, 0, 0);
      PartsOddMatch(content, highlight, caseSensitive, 0, 0);
      PartsEvenNoMatch(content, highlight, caseSensitive, 0, 0);
      var segments := seq(|parts|, j requires 0 <= j < |parts| => Segment(parts[j], IsMatch(parts[j], highlight, caseSensitive)));
      assert Texts(segments) == parts;
      segments
  }

  /**
   * In literal mode a line shows a highlight exactly when it contains the
   * term: as is when case-sensitive, and lower-cased on both sides otherwise
   * (the same test the focus filter applies).
   */
  lemma LiteralHighlightIffContains(content: string, highlight: string, caseSensitive: bool, pattern: Pattern)
    requires highlight != ""
    ensures var segments := Render(content, highlight, false, caseSensitive, pattern);
            (|segments| > 1) <==>
            (if caseSensitive then Contains(content, highlight) else Contains(Lower(content), Lower(highlight)))
  {
    PartsFindIff(content, highlight, caseSensitive, 0, 0);
    var target := if caseSensitive then content else Lower(content);
    var term := if caseSensitive then highlight else Lower(highlight);
    forall k: nat | k + |highlight| <= |content|
      ensures MatchesAt(content, highlight, caseSensitive, k) <==> OccursAt(target, term, k)
    {
      LowerSlice(content, k, k + |highlight|);
    }
    if Contains(target, term) {
      var k: nat :| OccursAt(target, term, k);
      assert MatchesAt(content, highlight, caseSensitive, k);
    }
  }
}
