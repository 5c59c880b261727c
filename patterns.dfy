/**
  Regular-expression search, seen from outside.  The regex engine is not
  modelled: a search is a given total function from a pattern, the flags
  and a text to the text captured by group 1 of the leftmost match (None
  when the pattern does not match).  What is modelled is how the parser
  combines searches: ordered pattern lists where the first pattern that
  matches wins.
*/
module Patterns {
  import opened Wrappers
  import opened Text

  /** The flag combinations the parser passes to `re.search`. */
  datatype Flags =
    | IgnoreCase                  // re.IGNORECASE
    | IgnoreCaseDotAllMultiline   // re.IGNORECASE | re.DOTALL | re.MULTILINE

  /** `re.search(pattern, text, flags)`, reduced to the capture of group 1. */
  type Search = (string, Flags, string) -> Option<string>

  /** Pattern `k` is the first of `patterns` that matches `text`. */
  ghost predicate IsFirstMatching(search: Search, patterns: seq<string>, flags: Flags, text: string, k: int) {
    && 0 <= k < |patterns|
    && search(patterns[k], flags, text).Some?
    && forall j :: 0 <= j < k ==> search(patterns[j], flags, text).None?
  }

  /** Patterns are tried in order; the capture of the first one that matches is the answer. */
  function FirstCapture(search: Search, patterns: seq<string>, flags: Flags, text: string): (r: Option<string>)
    ensures r.Some? <==> exists k :: IsFirstMatching(search, patterns, flags, text, k)
    ensures forall k :: IsFirstMatching(search, patterns, flags, text, k) ==> r == search(patterns[k], flags, text)
    decreases |patterns|
  {
    if patterns == [] then None
    else
      var c := search(patterns[0], flags, text);
      if c.Some? then
        assert IsFirstMatching(search, patterns, flags, text, 0);
        c
      else
        var r := FirstCapture(search, patterns[1..], flags, text);
        ShiftFirstMatching(search, patterns, flags, text);
        r
  }

  /** Skipping a first pattern that does not match shifts the index of the first match by one. */
  lemma ShiftFirstMatching(search: Search, patterns: seq<string>, flags: Flags, text: string)
    requires patterns != [] && search(patterns[0], flags, text).None?
    ensures forall k :: IsFirstMatching(search, patterns, flags, text, k) <==>
      k >= 1 && IsFirstMatching(search, patterns[1..], flags, text, k - 1)
    ensures (exists k :: IsFirstMatching(search, patterns, flags, text, k)) <==>
      (exists k :: IsFirstMatching(search, patterns[1..], flags, text, k))
  {
    forall k | IsFirstMatching(search, patterns, flags, text, k)
      ensures k >= 1 && IsFirstMatching(search, patterns[1..], flags, text, k - 1)
    {
      forall j | 0 <= j < k - 1 ensures search(patterns[1..][j], flags, text).None? {
        assert patterns[1..][j] == patterns[j + 1];
      }
    }
    forall k | k >= 1 && IsFirstMatching(search, patterns[1..], flags, text, k - 1)
      ensures IsFirstMatching(search, patterns, flags, text, k)
    {
      forall j | 0 < j < k ensures search(patterns[j], flags, text).None? {
        assert patterns[1..][j - 1] == patterns[j];
      }
    }
    if k :| IsFirstMatching(search, patterns[1..], flags, text, k) {
      assert IsFirstMatching(search, patterns, flags, text, k + 1);
    }
  }

  /**
    `_extract_first_match(text, patterns)`: group 1 of the first pattern that
    matches (with IGNORECASE, DOTALL and MULTILINE), stripped of surrounding
    whitespace; the empty string when none matches.
  */
  function ExtractFirstMatch(search: Search, text: string, patterns: seq<string>): (r: string)
    ensures forall k :: IsFirstMatching(search, patterns, IgnoreCaseDotAllMultiline, text, k) ==>
      r == Strip(search(patterns[k], IgnoreCaseDotAllMultiline, text).value)
    ensures (forall k :: 0 <= k < |patterns| ==> search(patterns[k], IgnoreCaseDotAllMultiline, text).None?) ==> r == ""
  {
    match FirstCapture(search, patterns, IgnoreCaseDotAllMultiline, text)
    case Some(c) => Strip(c)
    case None =>
      assert forall k :: !IsFirstMatching(search, patterns, IgnoreCaseDotAllMultiline, text, k);
      ""
  }

  /** A pattern that matches shadows every pattern after it. */
  lemma LaterPatternsShadowed(search: Search, patterns: seq<string>, more: seq<string>, flags: Flags, text: string)
    requires FirstCapture(search, patterns, flags, text).Some?
    ensures FirstCapture(search, patterns + more, flags, text) == FirstCapture(search, patterns, flags, text)
  {
    var k :| IsFirstMatching(search, patterns, flags, text, k);
    assert (patterns + more)[k] == patterns[k];
    forall j | 0 <= j < k ensures search((patterns + more)[j], flags, text).None? {
      assert (patterns + more)[j] == patterns[j];
    }
    assert IsFirstMatching(search, patterns + more, flags, text, k);
  }
}
