/**
  The Python string built-ins the invoice parser relies on: whitespace, line
  splitting (`str.splitlines`), token splitting (`str.split` with no
  separator), stripping, substring containment, joining and single-character
  replacement.  Strings are sequences of Unicode code points.
*/
module Text {

  /** `c.isspace()` for a Python `str`: the characters Python treats as whitespace. */
  predicate IsSpace(c: char) {
    || c == ' '
    || ('\t' <= c <= '\r')
    || ('\U{1C}' <= c <= '\U{1F}')
    || c == '\U{85}' || c == '\U{A0}' || c == '\U{1680}'
    || ('\U{2000}' <= c <= '\U{200A}')
    || c == '\U{2028}' || c == '\U{2029}' || c == '\U{202F}' || c == '\U{205F}' || c == '\U{3000}'
  }

  /** The characters at which `str.splitlines` ends a line. */
  predicate IsLineBoundary(c: char) {
    || c == '\n' || c == '\r' || c == '\U{0B}' || c == '\U{0C}'
    || ('\U{1C}' <= c <= '\U{1E}')
    || c == '\U{85}' || c == '\U{2028}' || c == '\U{2029}'
  }

  lemma LineBoundaryIsSpace(c: char)
    requires IsLineBoundary(c)
    ensures IsSpace(c)
  {
  }

  ghost predicate NoSpace(s: string) {
    forall k :: 0 <= k < |s| ==> !IsSpace(s[k])
  }

  lemma NoSpaceConcat(a: string, b: string)
    requires NoSpace(a) && NoSpace(b)
    ensures NoSpace(a + b)
  {
    forall k | 0 <= k < |a + b| ensures !IsSpace((a + b)[k]) {
      if k >= |a| { assert (a + b)[k] == b[k - |a|]; }
    }
  }

  ghost predicate NoLineBoundary(s: string) {
    forall k :: 0 <= k < |s| ==> !IsLineBoundary(s[k])
  }

  // ---------------------------------------------------------------------------
  // Containment: Python's `pat in text`

  ghost predicate OccursAt(text: string, pat: string, i: int) {
    0 <= i && i + |pat| <= |text| && text[i..i + |pat|] == pat
  }

  /** `pat in text`: some position of `text` starts a copy of `pat`. */
  function Contains(text: string, pat: string): (r: bool)
    ensures r <==> exists i :: OccursAt(text, pat, i)
    decreases |text|
  {
    if |pat| > |text| then
      false
    else if pat <= text then
      assert OccursAt(text, pat, 0);
      true
    else
      OccursShift(text, pat);
      Contains(text[1..], pat)
  }

  /** The occurrences in `text[1..]` are those in `text` after position 0, shifted by one. */
  lemma OccursShift(text: string, pat: string)
    requires text != []
    ensures (exists i :: OccursAt(text[1..], pat, i)) <==> (exists i :: 1 <= i && OccursAt(text, pat, i))
  {
    if i :| OccursAt(text[1..], pat, i) {
      assert text[1..][i..i + |pat|] == text[i + 1..i + 1 + |pat|];
      assert OccursAt(text, pat, i + 1);
    }
    if i :| 1 <= i && OccursAt(text, pat, i) {
      assert text[1..][i - 1..i - 1 + |pat|] == text[i..i + |pat|];
      assert OccursAt(text[1..], pat, i - 1);
    }
  }

  /** An occurrence inside one part is an occurrence inside a longer text. */
  lemma ContainsInConcat(a: string, b: string, pat: string)
    ensures Contains(a, pat) ==> Contains(a + b, pat)
    ensures Contains(b, pat) ==> Contains(a + b, pat)
  {
    if Contains(a, pat) {
      var i :| OccursAt(a, pat, i);
      assert (a + b)[i..i + |pat|] == a[i..i + |pat|];
      assert OccursAt(a + b, pat, i);
    }
    if Contains(b, pat) {
      var i :| OccursAt(b, pat, i);
      assert (a + b)[|a| + i..|a| + i + |pat|] == b[i..i + |pat|];
      assert OccursAt(a + b, pat, |a| + i);
    }
  }

  // ---------------------------------------------------------------------------
  // Stripping: Python's `s.strip()` with no argument

  /** `s.lstrip()`: the suffix left after dropping leading whitespace. */
  function LStrip(s: string): (r: string)
    ensures |r| <= |s| && r == s[|s| - |r|..]
    ensures r == [] || !IsSpace(r[0])
    ensures forall k :: 0 <= k < |s| - |r| ==> IsSpace(s[k])
    decreases |s|
  {
    if s != [] && IsSpace(s[0]) then LStrip(s[1..]) else s
  }

  /** `s.rstrip()`: the prefix left after dropping trailing whitespace. */
  function RStrip(s: string): (r: string)
    ensures |r| <= |s| && r == s[..|r|]
    ensures r == [] || !IsSpace(r[|r| - 1])
    ensures forall k :: |r| <= k < |s| ==> IsSpace(s[k])
    decreases |s|
  {
    if s != [] && IsSpace(s[|s| - 1]) then RStrip(s[..|s| - 1]) else s
  }

  /** `s.strip()`. */
  function Strip(s: string): (r: string)
    ensures |r| <= |s|
    ensures r == [] || (!IsSpace(r[0]) && !IsSpace(r[|r| - 1]))
    ensures NoSpace(s) ==> r == s
  {
    var l := LStrip(s);
    var r := RStrip(l);
    assert r != [] ==> r[0] == l[0];
    assert NoSpace(s) ==> l == s && (s != [] ==> !IsSpace(s[|s| - 1]));
    r
  }

  lemma StripNoSpace(s: string)
    requires NoSpace(s)
    ensures Strip(s) == s
  {
  }

  /** Text that starts and ends with a non-whitespace character is its own strip. */
  lemma StripTrimmed(s: string)
    requires s != [] && !IsSpace(s[0]) && !IsSpace(s[|s| - 1])
    ensures Strip(s) == s
  {
    assert LStrip(s) == s;
    assert RStrip(s) == s;
  }

  // ---------------------------------------------------------------------------
  // Token splitting: Python's `s.split()` with no separator

  /** The length of the leading run of non-whitespace characters. */
  function WordLen(s: string): (n: nat)
    ensures n <= |s|
    ensures forall k :: 0 <= k < n ==> !IsSpace(s[k])
    ensures n < |s| ==> IsSpace(s[n])
    decreases |s|
  {
    if s == [] || IsSpace(s[0]) then 0 else 1 + WordLen(s[1..])
  }

  /**
    `s.split()`: the maximal runs of non-whitespace characters, in order;
    leading, trailing and repeated whitespace produce no empty tokens.
  */
  function Tokens(s: string): (ts: seq<string>)
    ensures forall j :: 0 <= j < |ts| ==> ts[j] != [] && NoSpace(ts[j])
    decreases |s|
  {
    if s == [] then
      []
    else if IsSpace(s[0]) then
      Tokens(s[1..])
    else
      var n := WordLen(s);
      [s[..n]] + Tokens(s[n..])
  }

  /** `sep.join(parts)`. */
  function Join(parts: seq<string>, sep: string): string
    decreases |parts|
  {
    if |parts| == 0 then ""
    else if |parts| == 1 then parts[0]
    else parts[0] + sep + Join(parts[1..], sep)
  }

  lemma {:induction false} WordLenOfWord(w: string, rest: string)
    requires NoSpace(w)
    requires rest == [] || IsSpace(rest[0])
    ensures WordLen(w + rest) == |w|
    decreases |w|
  {
    if w == [] {
      assert w + rest == rest;
    } else {
      assert (w + rest)[0] == w[0];
      assert (w + rest)[1..] == w[1..] + rest;
      assert NoSpace(w[1..]) by {
        forall k | 0 <= k < |w[1..]| ensures !IsSpace(w[1..][k]) {
          assert w[1..][k] == w[k + 1];
        }
      }
      WordLenOfWord(w[1..], rest);
    }
  }

  /** Leading whitespace does not change the tokens. */
  lemma {:induction false} TokensSkipSpace(sp: string, s: string)
    requires forall k :: 0 <= k < |sp| ==> IsSpace(sp[k])
    ensures Tokens(sp + s) == Tokens(s)
    decreases |sp|
  {
    if sp == [] {
      assert sp + s == s;
    } else {
      assert (sp + s)[0] == sp[0] && (sp + s)[1..] == sp[1..] + s;
      TokensSkipSpace(sp[1..], s);
    }
  }

  /**
    Splitting on whitespace undoes joining with one space, for tokens that are
    non-empty and free of whitespace.
  */
  lemma {:induction false} TokensOfJoin(ts: seq<string>)
    requires forall j :: 0 <= j < |ts| ==> ts[j] != [] && NoSpace(ts[j])
    ensures Tokens(Join(ts, " ")) == ts
    decreases |ts|
  {
    if |ts| == 0 {
    } else if |ts| == 1 {
      var w := ts[0];
      WordLenOfWord(w, []);
      assert w + [] == w;
      assert w[..|w|] == w && w[|w|..] == [];
    } else {
      var w := ts[0];
      var rest := " " + Join(ts[1..], " ");
      assert Join(ts, " ") == w + rest;
      WordLenOfWord(w, rest);
      assert (w + rest)[..|w|] == w;
      assert (w + rest)[|w|..] == rest;
      TokensSkipSpace(" ", Join(ts[1..], " "));
      TokensOfJoin(ts[1..]);
      assert ts == [w] + ts[1..];
    }
  }

  /** A join of non-empty tokens starts with the first token's first character and ends with the last token's last. */
  lemma {:induction false} JoinEnds(ts: seq<string>, sep: string)
    requires ts != [] && forall j :: 0 <= j < |ts| ==> ts[j] != []
    ensures var s := Join(ts, sep); s != [] && s[0] == ts[0][0] && s[|s| - 1] == ts[|ts| - 1][|ts[|ts| - 1]| - 1]
    decreases |ts|
  {
    if |ts| > 1 {
      JoinEnds(ts[1..], sep);
      var rest := Join(ts[1..], sep);
      assert Join(ts, sep) == ts[0] + sep + rest;
      assert (ts[0] + sep + rest)[|ts[0] + sep + rest| - 1] == rest[|rest| - 1];
    }
  }

  /** A non-empty whitespace-free token neither starts nor ends with whitespace. */
  lemma TokenEnds(w: string)
    requires w != [] && NoSpace(w)
    ensures !IsSpace(w[0]) && !IsSpace(w[|w| - 1])
  {
  }

  /** A join of non-empty whitespace-free tokens neither starts nor ends with whitespace. */
  lemma JoinTrimmed(ts: seq<string>)
    requires ts != [] && forall j :: 0 <= j < |ts| ==> ts[j] != [] && NoSpace(ts[j])
    ensures var s := Join(ts, " "); s != [] && !IsSpace(s[0]) && !IsSpace(s[|s| - 1])
  {
    TokenEnds(ts[0]);
    TokenEnds(ts[|ts| - 1]);
    JoinEnds(ts, " ");
  }

  /** Joining non-empty whitespace-free tokens with spaces leaves nothing to strip. */
  lemma StripOfJoin(ts: seq<string>)
    requires forall j :: 0 <= j < |ts| ==> ts[j] != [] && NoSpace(ts[j])
    ensures Strip(Join(ts, " ")) == Join(ts, " ")
  {
    if ts != [] {
      JoinTrimmed(ts);
      StripTrimmed(Join(ts, " "));
    }
  }

  // ---------------------------------------------------------------------------
  // Line splitting: Python's `s.splitlines()`

  /** The length of the leading stretch that holds no line boundary. */
  function LineLen(s: string): (n: nat)
    ensures n <= |s|
    ensures forall k :: 0 <= k < n ==> !IsLineBoundary(s[k])
    ensures n < |s| ==> IsLineBoundary(s[n])
    decreases |s|
  {
    if s == [] || IsLineBoundary(s[0]) then 0 else 1 + LineLen(s[1..])
  }

  /**
    `s.splitlines()`: lines end at any line boundary character, "\r\n" is
    one boundary, the boundaries themselves are dropped and a final boundary
    does not start an empty last line.
  */
  function SplitLines(s: string): (lines: seq<string>)
    ensures forall j :: 0 <= j < |lines| ==> NoLineBoundary(lines[j])
    ensures s == [] <==> lines == []
    decreases |s|
  {
    if s == [] then
      []
    else
      var n := LineLen(s);
      if n == |s| then
        [s]
      else
        var rest := if s[n] == '\r' && n + 1 < |s| && s[n + 1] == '\n' then s[n + 2..] else s[n + 1..];
        [s[..n]] + SplitLines(rest)
  }

  lemma LineLenOfLine(l: string, rest: string)
    requires NoLineBoundary(l)
    requires rest == [] || IsLineBoundary(rest[0])
    ensures LineLen(l + rest) == |l|
    decreases |l|
  {
    if l != [] {
      assert (l + rest)[1..] == l[1..] + rest;
      LineLenOfLine(l[1..], rest);
    }
  }

  /**
    Splitting into lines undoes joining with "\n", for lines that hold no
    boundary character and a last line that is not empty.
  */
  lemma {:induction false} SplitLinesOfJoin(lines: seq<string>)
    requires forall j :: 0 <= j < |lines| ==> NoLineBoundary(lines[j])
    requires lines != [] ==> lines[|lines| - 1] != []
    ensures SplitLines(Join(lines, "\n")) == lines
    decreases |lines|
  {
    if |lines| == 0 {
    } else if |lines| == 1 {
      var l := lines[0];
      LineLenOfLine(l, []);
      assert l + [] == l;
    } else {
      var l := lines[0];
      var tail := Join(lines[1..], "\n");
      var rest := "\n" + tail;
      assert Join(lines, "\n") == l + rest;
      LineLenOfLine(l, rest);
      assert (l + rest)[..|l|] == l;
      assert (l + rest)[|l| + 1..] == tail;
      SplitLinesOfJoin(lines[1..]);
      assert lines == [l] + lines[1..];
    }
  }

  // ---------------------------------------------------------------------------
  // Single-character rewriting: `s.replace(a, b)` and `s.replace(c, '')`

  /** `s.replace(a, b)` for one-character `a` and `b`. */
  function ReplaceChar(s: string, a: char, b: char): string
  {
    seq(|s|, k requires 0 <= k < |s| => if s[k] == a then b else s[k])
  }

  /**
    Replacing `a` by a `b` the text did not hold loses nothing: no `a` is
    left, and replacing `b` back by `a` restores the text.
  */
  lemma ReplaceCharInvertible(s: string, a: char, b: char)
    requires forall k :: 0 <= k < |s| ==> s[k] != b
    requires a != b
    ensures forall k :: 0 <= k < |ReplaceChar(s, a, b)| ==> ReplaceChar(s, a, b)[k] != a
    ensures ReplaceChar(ReplaceChar(s, a, b), b, a) == s
  {
    var r := ReplaceChar(s, a, b);
    assert forall k :: 0 <= k < |s| ==> ReplaceChar(r, b, a)[k] == s[k];
  }

  /** `s.replace(c, '')`: every `c` removed, the other characters kept in order. */
  function RemoveChar(s: string, c: char): (r: string)
    ensures forall k :: 0 <= k < |r| ==> r[k] != c
    ensures |r| <= |s|
    decreases |s|
  {
    if s == [] then [] else (if s[0] == c then [] else [s[0]]) + RemoveChar(s[1..], c)
  }

  /** Removing a character distributes over concatenation. */
  lemma {:induction false} RemoveCharConcat(a: string, b: string, c: char)
    ensures RemoveChar(a + b, c) == RemoveChar(a, c) + RemoveChar(b, c)
    decreases |a|
  {
    if a == [] {
      assert a + b == b;
    } else {
      assert (a + b)[0] == a[0] && (a + b)[1..] == a[1..] + b;
      RemoveCharConcat(a[1..], b, c);
    }
  }

  /** A first character other than `c` survives the removal. */
  lemma RemoveCharKeepsFirst(s: string, c: char)
    requires s != [] && s[0] != c
    ensures RemoveChar(s, c) != []
  {
  }

  /** A string without `c` is left unchanged. */
  lemma {:induction false} RemoveCharAbsent(s: string, c: char)
    requires forall k :: 0 <= k < |s| ==> s[k] != c
    ensures RemoveChar(s, c) == s
    decreases |s|
  {
    if s != [] {
      RemoveCharAbsent(s[1..], c);
    }
  }

  // ---------------------------------------------------------------------------
  // ASCII case folding

  /** The lower-case form of an ASCII capital; every other character is unchanged. */
  function AsciiLower(c: char): char {
    if 'A' <= c <= 'Z' then (c as int + 32) as char else c
  }

  function LowerAscii(s: string): string
  {
    seq(|s|, k requires 0 <= k < |s| => AsciiLower(s[k]))
  }

  /** No ASCII capital has a lower-case form of its own. */
  predicate NoCapitals(s: string) {
    forall k :: 0 <= k < |s| ==> !('A' <= s[k] <= 'Z')
  }

  /** `s` and `t` differ at most in the ASCII case of their letters. */
  predicate SameUpToCase(s: string, t: string) {
    |s| == |t| && forall k :: 0 <= k < |s| ==> s[k] == t[k] || AsciiLower(s[k]) == t[k] || s[k] == AsciiLower(t[k])
  }

  /**
    Lowering is a normal form: it leaves no capital, text without capitals is
    its own lower-case form, so lowering twice is lowering once, and two texts
    that differ only in the case of their letters lower to the same text.
  */
  lemma LowerAsciiNormalForm(s: string, t: string)
    requires SameUpToCase(s, t)
    ensures NoCapitals(LowerAscii(s))
    ensures NoCapitals(s) ==> LowerAscii(s) == s
    ensures LowerAscii(LowerAscii(s)) == LowerAscii(s)
    ensures LowerAscii(s) == LowerAscii(t)
  {
    assert forall k :: 0 <= k < |s| ==> LowerAscii(LowerAscii(s))[k] == LowerAscii(s)[k];
    assert forall k :: 0 <= k < |s| ==> LowerAscii(s)[k] == LowerAscii(t)[k];
  }
}
