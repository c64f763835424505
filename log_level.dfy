/** `getLogLevel`: the severity a line is shown with, from keywords in its lower-cased text. */
module LogLevel {
  import opened Text

  datatype Level = Error | Warn | Info | Default

  /** The keywords that make a line an error. */
  predicate HasErrorKeyword(lower: string)
  {
    Contains(lower, "error") || Contains(lower, "fail") || Contains(lower, "fatal") || Contains(lower, "exception")
  }

  /**
   * The first test of the chain that holds decides: an error keyword, then
   * "warn", then "info"; a line with none of them is `Default`.
   */
  function GetLogLevel(line: string): (level: Level)
    ensures level == Error <==> HasErrorKeyword(Lower(line))
    ensures level == Warn <==> !HasErrorKeyword(Lower(line)) && Contains(Lower(line), "warn")
    ensures level == Info <==> !HasErrorKeyword(Lower(line)) && !Contains(Lower(line), "warn") && Contains(Lower(line), "info")
    ensures level == Default <==> !HasErrorKeyword(Lower(line)) && !Contains(Lower(line), "warn") && !Contains(Lower(line), "info")
  {
    var lower := Lower(line);
    if HasErrorKeyword(lower) then Error
    else if Contains(lower, "warn") then Warn
    else if Contains(lower, "info") then Info
    else Default
  }

  /** The classification does not depend on letter case. */
  lemma CaseInsensitive(line: string)
    ensures GetLogLevel(line) == GetLogLevel(Lower(line))
  {
    LowerIdempotent(line);
  }

  /**
   * A keyword written in any mix of cases anywhere in the line decides the
   * level: "error" (or "FATAL", "Exception", ...) makes it an error line, and
   * "warn" makes it a warning line unless an error keyword is present too.
   */
  lemma {:induction false} KeywordAnywhere(line: string, k: nat, keyword: string)
    requires keyword in {"error", "fail", "fatal", "exception", "warn"}
    requires k + |keyword| <= |line| && Lower(line[k..k + |keyword|]) == keyword
    ensures keyword != "warn" ==> GetLogLevel(line) == Error
    ensures keyword == "warn" ==> GetLogLevel(line) in {Error, Warn}
  {
    LowerSlice(line, k, k + |keyword|);
    assert OccursAt(Lower(line), keyword, k);
  }
}
