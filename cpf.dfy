/**
  `_extract_top_client_fields`: the client's CPF (the Brazilian taxpayer
  number) from the header of a note.  The regular expression
  `\d{3}[\.\s]?\d{3}[\.\s]?\d{3}[-\s]?\d{2}` is small enough to be matched
  here by hand, with the backtracking order of Python's engine: an optional
  separator is first tried present, then absent, and the leftmost starting
  position wins.
*/
module ClientFields {
  import opened Wrappers
  import opened Text
  import opened Numeric

  /** One element of the CPF pattern: a fixed run of digits, or an optional separator. */
  datatype Piece =
    | Digits(count: nat)
    | OptionalSeparator(dash: bool)   // `[-\s]?` when dash, `[\.\s]?` otherwise

  const CpfPattern: seq<Piece> := [
    Digits(3), OptionalSeparator(false), Digits(3), OptionalSeparator(false),
    Digits(3), OptionalSeparator(true), Digits(2)
  ]

  /** The characters an optional separator accepts: whitespace, and '.' or '-'. */
  predicate IsSeparator(c: char, dash: bool) {
    IsSpace(c) || c == (if dash then '-' else '.')
  }

  /** `n` digits start at position `i`. */
  predicate DigitsAt(s: string, i: nat, n: nat) {
    i + n <= |s| && forall k | i <= k < i + n :: IsDigit(s[k])
  }

  /** The language of a pattern: `w` is, in full, one of the strings the pattern describes. */
  ghost predicate Matches(pat: seq<Piece>, w: string)
    decreases |pat|
  {
    if pat == [] then w == []
    else
      match pat[0]
      case Digits(n) => |w| >= n && AllDigits(w[..n]) && Matches(pat[1..], w[n..])
      case OptionalSeparator(d) =>
        || (w != [] && IsSeparator(w[0], d) && Matches(pat[1..], w[1..]))
        || Matches(pat[1..], w)
  }

  /**
    The end of the match the engine finds when it tries the pattern at
    position `i`: an optional separator is taken when it can be and dropped
    only when the rest of the pattern then fails.
  */
  function MatchAt(pat: seq<Piece>, s: string, i: nat): (r: Option<nat>)
    requires i <= |s|
    ensures r.Some? ==> i <= r.value <= |s|
    decreases |pat|
  {
    if pat == [] then Some(i)
    else
      match pat[0]
      case Digits(n) => if DigitsAt(s, i, n) then MatchAt(pat[1..], s, i + n) else None
      case OptionalSeparator(d) =>
        var taken := if i < |s| && IsSeparator(s[i], d) then MatchAt(pat[1..], s, i + 1) else None;
        if taken.Some? then taken else MatchAt(pat[1..], s, i)
  }

  lemma DigitsAtSlice(s: string, i: nat, e: nat, n: nat)
    requires i + n <= e <= |s|
    ensures DigitsAt(s, i, n) <==> AllDigits(s[i..e][..n])
  {
    assert forall k :: 0 <= k < n ==> s[i..e][..n][k] == s[i + k];
  }

  /** What the engine finds is a match of the pattern. */
  lemma {:induction false} MatchAtSound(pat: seq<Piece>, s: string, i: nat)
    requires i <= |s| && MatchAt(pat, s, i).Some?
    ensures Matches(pat, s[i..MatchAt(pat, s, i).value])
    decreases |pat|
  {
    var e := MatchAt(pat, s, i).value;
    if pat != [] {
      match pat[0]
      case Digits(n) =>
        MatchAtSound(pat[1..], s, i + n);
        DigitsAtSlice(s, i, e, n);
        assert s[i..e][n..] == s[i + n..e];
      case OptionalSeparator(d) =>
        if i < |s| && IsSeparator(s[i], d) && MatchAt(pat[1..], s, i + 1).Some? {
          MatchAtSound(pat[1..], s, i + 1);
          assert s[i..e][1..] == s[i + 1..e];
        } else {
          MatchAtSound(pat[1..], s, i);
        }
    }
  }

  /** Whenever some match starts at `i`, the engine finds one there. */
  lemma {:induction false} MatchAtComplete(pat: seq<Piece>, s: string, i: nat, e: nat)
    requires i <= e <= |s| && Matches(pat, s[i..e])
    ensures MatchAt(pat, s, i).Some?
    decreases |pat|
  {
    var w := s[i..e];
    if pat != [] {
      match pat[0]
      case Digits(n) =>
        DigitsAtSlice(s, i, e, n);
        assert w[n..] == s[i + n..e];
        MatchAtComplete(pat[1..], s, i + n, e);
      case OptionalSeparator(d) =>
        if w != [] && IsSeparator(w[0], d) && Matches(pat[1..], w[1..]) {
          assert w[1..] == s[i + 1..e];
          MatchAtComplete(pat[1..], s, i + 1, e);
        } else {
          MatchAtComplete(pat[1..], s, i, e);
        }
    }
  }

  /** `re.search` from position `i`: the leftmost start where the pattern matches, with the end found there. */
  function SearchFrom(pat: seq<Piece>, s: string, i: nat): (r: Option<(nat, nat)>)
    requires i <= |s|
    ensures r.Some? ==> i <= r.value.0 <= |s| && MatchAt(pat, s, r.value.0) == Some(r.value.1)
    ensures r.Some? ==> forall j :: i <= j < r.value.0 ==> MatchAt(pat, s, j).None?
    ensures r.None? ==> forall j :: i <= j <= |s| ==> MatchAt(pat, s, j).None?
    decreases |s| - i
  {
    match MatchAt(pat, s, i)
    case Some(e) => Some((i, e))
    case None => if i == |s| then None else SearchFrom(pat, s, i + 1)
  }

  /**
    `re.search(pattern, line)` and its group 1, which is the whole match: the
    text found is a match of the pattern, taken at the leftmost position
    where the pattern matches and ending where the engine's match there
    ends, and nothing is found only when no stretch of the line matches.
  */
  function Search(pat: seq<Piece>, line: string): (r: Option<string>)
    ensures r.Some? ==> Matches(pat, r.value) && exists b :: OccursAt(line, r.value, b)
    ensures r.Some? ==> exists b, e ::
      && 0 <= b <= e <= |line| && r.value == line[b..e] && MatchAt(pat, line, b) == Some(e)
      && forall b' :: 0 <= b' < b ==> MatchAt(pat, line, b').None?
    ensures r.None? <==> forall b, e :: 0 <= b <= e <= |line| ==> !Matches(pat, line[b..e])
  {
    match SearchFrom(pat, line, 0)
    case Some((b, e)) =>
      MatchAtSound(pat, line, b);
      assert OccursAt(line, line[b..e], b);
      assert Matches(pat, line[b..e]);
      Some(line[b..e])
    case None =>
      forall b, e | 0 <= b <= e <= |line| ensures !Matches(pat, line[b..e]) {
        if Matches(pat, line[b..e]) {
          MatchAtComplete(pat, line, b, e);
        }
      }
      None
  }

  function CpfSearch(line: string): Option<string> {
    Search(CpfPattern, line)
  }

  // ---------------------------------------------------------------------------
  // What a match looks like

  /** The number of ASCII digits in a string. */
  function DigitCount(s: string): nat
    decreases |s|
  {
    if s == [] then 0 else (if IsDigit(s[0]) then 1 else 0) + DigitCount(s[1..])
  }

  lemma {:induction false} DigitCountSplit(s: string, n: nat)
    requires n <= |s|
    ensures DigitCount(s) == DigitCount(s[..n]) + DigitCount(s[n..])
    decreases n
  {
    if n > 0 {
      DigitCountSplit(s[1..], n - 1);
      assert s[1..][..n - 1] == s[..n][1..];
      assert s[1..][n - 1..] == s[n..];
    }
  }

  lemma {:induction false} DigitCountOfDigits(s: string)
    requires AllDigits(s)
    ensures DigitCount(s) == |s|
    decreases |s|
  {
    if s != [] {
      DigitCountOfDigits(s[1..]);
    }
  }

  function PatternDigits(pat: seq<Piece>): nat
    decreases |pat|
  {
    if pat == [] then 0 else (if pat[0].Digits? then pat[0].count else 0) + PatternDigits(pat[1..])
  }

  function PatternMaxLength(pat: seq<Piece>): nat
    decreases |pat|
  {
    if pat == [] then 0 else (if pat[0].Digits? then pat[0].count else 1) + PatternMaxLength(pat[1..])
  }

  /** A match holds exactly the pattern's digits, and its length lies between the pattern's bounds. */
  lemma {:induction false} MatchCounts(pat: seq<Piece>, w: string)
    requires Matches(pat, w)
    ensures DigitCount(w) == PatternDigits(pat)
    ensures PatternDigits(pat) <= |w| <= PatternMaxLength(pat)
    decreases |pat|
  {
    if pat != [] {
      match pat[0]
      case Digits(n) =>
        MatchCounts(pat[1..], w[n..]);
        DigitCountSplit(w, n);
        DigitCountOfDigits(w[..n]);
      case OptionalSeparator(d) =>
        if w != [] && IsSeparator(w[0], d) && Matches(pat[1..], w[1..]) {
          MatchCounts(pat[1..], w[1..]);
          assert !IsDigit(w[0]);
        } else {
          MatchCounts(pat[1..], w);
        }
    }
  }

  /** A match of a pattern that ends in digits ends in a digit. */
  lemma {:induction false} MatchEndsInDigit(pat: seq<Piece>, w: string)
    requires Matches(pat, w)
    requires pat != [] && pat[|pat| - 1].Digits? && pat[|pat| - 1].count > 0
    ensures w != [] && IsDigit(w[|w| - 1])
    decreases |pat|
  {
    if |pat| == 1 {
      assert pat[0].Digits?;
      assert pat[1..] == [];
      assert w[pat[0].count..] == [];
      assert w == w[..pat[0].count];
    } else {
      assert pat[1..][|pat[1..]| - 1] == pat[|pat| - 1];
      match pat[0]
      case Digits(n) =>
        MatchEndsInDigit(pat[1..], w[n..]);
      case OptionalSeparator(d) =>
        if w != [] && IsSeparator(w[0], d) && Matches(pat[1..], w[1..]) {
          MatchEndsInDigit(pat[1..], w[1..]);
        } else {
          MatchEndsInDigit(pat[1..], w);
        }
    }
  }

  /**
    The shape of a CPF as found: eleven digits, from eleven to fourteen
    characters, a digit at either end.
  */
  ghost predicate CpfShaped(w: string) {
    && DigitCount(w) == 11
    && 11 <= |w| <= 14
    && IsDigit(w[0]) && IsDigit(w[|w| - 1])
  }

  lemma CpfMatchShape(w: string)
    requires Matches(CpfPattern, w)
    ensures CpfShaped(w)
  {
    MatchCounts(CpfPattern, w);
    MatchEndsInDigit(CpfPattern, w);
    assert AllDigits(w[..3]) && w[..3][0] == w[0];
  }

  lemma {:induction false} DigitCountRemove(s: string, c: char)
    requires !IsDigit(c)
    ensures DigitCount(RemoveChar(s, c)) == DigitCount(s)
    decreases |s|
  {
    if s != [] {
      DigitCountRemove(s[1..], c);
      assert RemoveChar(s, c) == (if s[0] == c then [] else [s[0]]) + RemoveChar(s[1..], c);
      var rest := RemoveChar(s[1..], c);
      if s[0] != c {
        assert ([s[0]] + rest)[1..] == rest;
      } else {
        assert [] + rest == rest;
      }
    }
  }

  /** Removing a character other than the first and last keeps both ends. */
  lemma RemoveCharKeepsEnds(s: string, c: char)
    requires s != [] && s[0] != c && s[|s| - 1] != c
    ensures var r := RemoveChar(s, c); r != [] && r[0] == s[0] && r[|r| - 1] == s[|s| - 1]
  {
    var n := |s| - 1;
    assert s == s[..n] + [s[n]];
    RemoveCharConcat(s[..n], [s[n]], c);
    assert RemoveChar([s[n]], c) == [s[n]] by {
      assert [s[n]][1..] == [];
    }
    assert RemoveChar(s, c) == [s[0]] + RemoveChar(s[1..], c);
  }

  /** `cpf_match.group(1).replace(" ", "").strip()`. */
  function CpfText(m: string): string {
    Strip(RemoveChar(m, ' '))
  }

  /**
    The CPF text of a match is the match with its spaces removed (the strip
    finds nothing left to remove): eleven digits, at most fourteen characters,
    a digit at either end and no space.
  */
  lemma CpfTextOfMatch(m: string)
    requires Matches(CpfPattern, m)
    ensures CpfText(m) == RemoveChar(m, ' ')
    ensures var r := CpfText(m);
      && r != [] && DigitCount(r) == 11 && |r| <= 14
      && IsDigit(r[0]) && IsDigit(r[|r| - 1])
      && forall k :: 0 <= k < |r| ==> r[k] != ' '
  {
    CpfMatchShape(m);
    RemoveCharKeepsEnds(m, ' ');
    DigitCountRemove(m, ' ');
    StripTrimmed(RemoveChar(m, ' '));
  }

  // ---------------------------------------------------------------------------
  // The scan over the header lines

  /**
    What line `i` yields, `find` being the search for the CPF pattern:
    nothing unless the line mentions "cpf" in any case; then the match in the
    line itself or, failing that, in the next line.
  */
  function LineMatch(find: string -> Option<string>, lines: seq<string>, i: nat): Option<string>
    requires i < |lines|
  {
    if !Contains(LowerAscii(lines[i]), "cpf") then None
    else
      var own := find(lines[i]);
      if own.None? && i + 1 < |lines| then find(lines[i + 1]) else own
  }

  /** The match yielded by the first line from `i` on that yields one. */
  function ScanLines(find: string -> Option<string>, lines: seq<string>, i: nat): Option<string>
    requires i <= |lines|
    decreases |lines| - i
  {
    if i == |lines| then None
    else
      match LineMatch(find, lines, i)
      case Some(m) => Some(m)
      case None => ScanLines(find, lines, i + 1)
  }

  /** Line `j` is the first from `i` on that yields a match. */
  ghost predicate IsFirstMatchingLine(find: string -> Option<string>, lines: seq<string>, i: nat, j: nat) {
    && i <= j < |lines| && LineMatch(find, lines, j).Some?
    && forall k :: i <= k < j ==> LineMatch(find, lines, k).None?
  }

  /** The scan finds nothing exactly when no line yields a match, and otherwise the match of the first that does. */
  lemma {:induction false} ScanLinesFirst(find: string -> Option<string>, lines: seq<string>, i: nat)
    requires i <= |lines|
    ensures ScanLines(find, lines, i).None? <==> forall j :: i <= j < |lines| ==> LineMatch(find, lines, j).None?
    ensures forall j :: IsFirstMatchingLine(find, lines, i, j) ==> ScanLines(find, lines, i) == LineMatch(find, lines, j)
    decreases |lines| - i
  {
    if i < |lines| {
      if LineMatch(find, lines, i).Some? {
        assert forall j :: IsFirstMatchingLine(find, lines, i, j) ==> j == i;
      } else {
        ScanLinesFirst(find, lines, i + 1);
        assert forall j :: IsFirstMatchingLine(find, lines, i, j) ==> IsFirstMatchingLine(find, lines, i + 1, j);
      }
    }
  }

  /** Whatever the scan finds is what `find` found in one of the lines. */
  lemma {:induction false} ScanLinesFound(find: string -> Option<string>, lines: seq<string>, i: nat)
    requires i <= |lines| && ScanLines(find, lines, i).Some?
    ensures exists j :: i <= j < |lines| && find(lines[j]) == ScanLines(find, lines, i)
    decreases |lines| - i
  {
    if LineMatch(find, lines, i).Some? {
      if find(lines[i]) != LineMatch(find, lines, i) {
        assert find(lines[i + 1]) == ScanLines(find, lines, i);
      }
    } else {
      ScanLinesFound(find, lines, i + 1);
    }
  }

  /** The client CPF of the header lines: the CPF text of the first match, or "" when there is none. */
  function ClientCpf(lines: seq<string>): string {
    match ScanLines(CpfSearch, lines, 0)
    case Some(m) => CpfText(m)
    case None => ""
  }

  /**
    The client CPF is "" exactly when no line yields a match; otherwise it has
    eleven digits, at most fourteen characters, digits at both ends and no space.
  */
  lemma ClientCpfShape(lines: seq<string>)
    ensures var r := ClientCpf(lines);
      && (r == "" <==> forall j :: 0 <= j < |lines| ==> LineMatch(CpfSearch, lines, j).None?)
      && (r != "" ==>
        && DigitCount(r) == 11 && |r| <= 14 && IsDigit(r[0]) && IsDigit(r[|r| - 1])
        && forall k :: 0 <= k < |r| ==> r[k] != ' ')
  {
    ScanLinesFirst(CpfSearch, lines, 0);
    var found := ScanLines(CpfSearch, lines, 0);
    if found.Some? {
      ScanLinesFound(CpfSearch, lines, 0);
      var j :| 0 <= j < |lines| && CpfSearch(lines[j]) == found;
      assert Matches(CpfPattern, found.value);
      CpfTextOfMatch(found.value);
    }
  }

  /** `_extract_top_client_fields(text)`: the scan over `text.splitlines()`, returning at the first match. */
  method ExtractTopClientFields(text: string) returns (cpf: string)
    ensures cpf == ClientCpf(SplitLines(text))
  {
    var lines := SplitLines(text);
    var i := 0;
    while i < |lines|
      invariant 0 <= i <= |lines|
      invariant ScanLines(CpfSearch, lines, i) == ScanLines(CpfSearch, lines, 0)
    {
      if Contains(LowerAscii(lines[i]), "cpf") {
        var found := CpfSearch(lines[i]);
        if found.None? && i + 1 < |lines| {
          found := CpfSearch(lines[i + 1]);
        }
        if found.Some? {
          return CpfText(found.value);
        }
      }
      i := i + 1;
    }
    return "";
  }
}
