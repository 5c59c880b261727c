/**
  Numbers as the parser reads them.  Python's `int(str)` and `float(str)` are
  modelled over ASCII digits; a parsed float is kept as an exact decimal
  (`Decimal`) rather than a binary floating-point value.  `CleanNumeric` is
  `GenericParser._clean_numeric` (trade_parser.py:339-344), and
  `RoundHundredths` is pandas' `round(2)`.
*/
module Numeric {
  import opened Wrappers
  import opened Text

  /** An ASCII decimal digit; Python also accepts the other Unicode decimal digits, which the model does not. */
  predicate IsDigit(c: char) {
    '0' <= c <= '9'
  }

  ghost predicate AllDigits(s: string) {
    forall k :: 0 <= k < |s| ==> IsDigit(s[k])
  }

  function Pow10(n: nat): (r: nat)
    ensures r >= 1
  {
    if n == 0 then 1 else 10 * Pow10(n - 1)
  }

  /** The number a string of decimal digits spells, most significant digit first. */
  function DigitsValue(ds: string): nat
    requires AllDigits(ds)
    decreases |ds|
  {
    if ds == [] then 0 else DigitsValue(ds[..|ds| - 1]) * 10 + (ds[|ds| - 1] as int - '0' as int)
  }

  lemma {:induction false} DigitsValueConcat(a: string, b: string)
    requires AllDigits(a) && AllDigits(b)
    ensures DigitsValue(a + b) == DigitsValue(a) * Pow10(|b|) + DigitsValue(b)
    decreases |b|
  {
    if b == [] {
      assert a + b == a;
    } else {
      var b' := b[..|b| - 1];
      var ab := a + b;
      var d := b[|b| - 1] as int - '0' as int;
      assert ab[..|ab| - 1] == a + b';
      assert ab[|ab| - 1] == b[|b| - 1];
      DigitsValueConcat(a, b');
      ShiftDigit(DigitsValue(a), Pow10(|b'|), DigitsValue(b'), d);
    }
  }

  lemma ShiftDigit(x: int, p: int, y: int, d: int)
    ensures (x * p + y) * 10 + d == x * (10 * p) + (y * 10 + d)
  {
  }

  // ---------------------------------------------------------------------------
  // Python's digit parts: digitpart ::= digit (["_"] digit)*

  /** A digit part matched at the start of a string: the digits it spells, and what follows. */
  datatype Scan = Scan(digits: string, rest: string)

  /**
    `r` is a digit part read from the start of `s`: its digits, and a rest
    that is a strict suffix of `s` and cannot continue the digit part.
  */
  ghost predicate IsScanOf(s: string, r: Scan) {
    && r.digits != [] && AllDigits(r.digits)
    && |r.rest| < |s| && r.rest == s[|s| - |r.rest|..]
    && (forall k :: 0 <= k < |s| - |r.rest| ==> IsDigit(s[k]) || s[k] == '_')
    && IsDigit(s[|s| - |r.rest| - 1])
    && (r.rest == [] || !IsDigit(r.rest[0]))
    && (r.rest != [] && r.rest[0] == '_' ==> |r.rest| == 1 || !IsDigit(r.rest[1]))
  }

  /**
    The longest digit part at the start of `s`: digits, each pair possibly
    separated by one underscore.  The underscores are dropped from `digits`.
  */
  function DigitPart(s: string): (r: Scan)
    requires s != [] && IsDigit(s[0])
    ensures IsScanOf(s, r)
    decreases |s|
  {
    var tail := s[1..];
    if tail != [] && IsDigit(tail[0]) then
      var r := DigitPart(tail);
      ScanExtend(s, 1, r);
      Scan([s[0]] + r.digits, r.rest)
    else if |tail| >= 2 && tail[0] == '_' && IsDigit(tail[1]) then
      var r := DigitPart(tail[1..]);
      assert tail[1..] == s[2..];
      ScanExtend(s, 2, r);
      Scan([s[0]] + r.digits, r.rest)
    else
      ScanStop(s);
      Scan([s[0]], tail)
  }

  /** A digit, or a digit and an underscore, in front of a digit part extend it. */
  lemma ScanExtend(s: string, skip: nat, r: Scan)
    requires 1 <= skip <= 2 && skip < |s| && IsDigit(s[0]) && (skip == 2 ==> s[1] == '_')
    requires IsScanOf(s[skip..], r)
    ensures IsScanOf(s, Scan([s[0]] + r.digits, r.rest))
  {
    var t := s[skip..];
    var n := |s| - |r.rest|;
    assert n == skip + (|t| - |r.rest|);
    assert r.rest == s[n..] by {
      assert t[|t| - |r.rest|..] == s[n..];
    }
    forall k | 0 <= k < n ensures IsDigit(s[k]) || s[k] == '_' {
      if k >= skip { assert s[k] == t[k - skip]; }
    }
    assert s[n - 1] == t[|t| - |r.rest| - 1];
    var ds := [s[0]] + r.digits;
    forall k | 0 <= k < |ds| ensures IsDigit(ds[k]) {
      if k > 0 { assert ds[k] == r.digits[k - 1]; }
    }
  }

  /** A digit not followed by a digit or by an underscore and a digit is a digit part alone. */
  lemma ScanStop(s: string)
    requires s != [] && IsDigit(s[0])
    requires !(s[1..] != [] && IsDigit(s[1..][0]))
    requires !(|s[1..]| >= 2 && s[1..][0] == '_' && IsDigit(s[1..][1]))
    ensures IsScanOf(s, Scan([s[0]], s[1..]))
  {
  }

  /** A run of plain digits followed by something that cannot extend it is read back as it is. */
  lemma {:induction false} DigitPartOfDigits(ds: string, rest: string)
    requires ds != [] && AllDigits(ds)
    requires rest == [] || (!IsDigit(rest[0]) && rest[0] != '_')
    ensures DigitPart(ds + rest) == Scan(ds, rest)
    decreases |ds|
  {
    var s := ds + rest;
    assert s[1..] == ds[1..] + rest;
    if |ds| > 1 {
      DigitPartOfDigits(ds[1..], rest);
      assert ds == [ds[0]] + ds[1..];
    } else {
      assert ds[1..] == [];
    }
  }

  // ---------------------------------------------------------------------------
  // int(str)

  /**
    Python's `int(s)` in base 10: surrounding whitespace, an optional sign and
    one digit part, nothing else; None stands for the `ValueError` it raises.
  */
  function ParseInt(s: string): (r: Option<int>)
    ensures r.Some? ==> IntLiteralChars(Strip(s))
  {
    ParseIntBody(Strip(s))
  }

  predicate IsSign(c: char) {
    c == '+' || c == '-'
  }

  /** Every character is a digit or an underscore, except perhaps a leading sign, and the last is a digit. */
  ghost predicate IntLiteralChars(body: string) {
    && body != [] && IsDigit(body[|body| - 1])
    && forall k :: 0 <= k < |body| ==> IsDigit(body[k]) || body[k] == '_' || (k == 0 && IsSign(body[k]))
  }

  /** `int` on text already stripped of surrounding whitespace. */
  function ParseIntBody(body: string): (r: Option<int>)
    ensures r.Some? ==> IntLiteralChars(body)
  {
    if body != [] && IsSign(body[0]) then
      match ParseUnsigned(body[1..])
      case None => None
      case Some(v) =>
        assert forall k :: 1 <= k < |body| ==> body[k] == body[1..][k - 1];
        Some(if body[0] == '-' then -(v as int) else v as int)
    else
      match ParseUnsigned(body)
      case None => None
      case Some(v) => Some(v as int)
  }

  /** One digit part and nothing after it. */
  function ParseUnsigned(u: string): (r: Option<nat>)
    ensures r.Some? ==> u != [] && IsDigit(u[|u| - 1])
    ensures r.Some? ==> forall k :: 0 <= k < |u| ==> IsDigit(u[k]) || u[k] == '_'
  {
    if u != [] && IsDigit(u[0]) then
      var p := DigitPart(u);
      if p.rest == [] then Some(DigitsValue(p.digits)) else None
    else
      None
  }

  /** The decimal representation of a natural number, without leading zeros. */
  function NatDigits(n: nat): (s: string)
    ensures s != [] && AllDigits(s) && DigitsValue(s) == n
    ensures n > 0 ==> s[0] != '0'
    decreases n
  {
    if n < 10 then
      [('0' as int + n) as char]
    else
      var s := NatDigits(n / 10) + [('0' as int + n % 10) as char];
      assert s[..|s| - 1] == NatDigits(n / 10);
      s
  }

  /** `str(n)` for an integer. */
  function IntToString(n: int): string {
    if n < 0 then "-" + NatDigits(-n) else NatDigits(n)
  }

  /** `int(str(n)) == n`. */
  lemma IntRoundTrip(n: int)
    ensures ParseInt(IntToString(n)) == Some(n)
  {
    var ds := NatDigits(if n < 0 then -n else n);
    var s := IntToString(n);
    DigitsNoSpace(ds);
    ParseIntBodyOfDigits(ds);
    if n < 0 {
      assert s == "-" + ds;
      assert NoSpace(s) by {
        forall k | 0 <= k < |s| ensures !IsSpace(s[k]) {
          if k > 0 { assert s[k] == ds[k - 1]; }
        }
      }
    }
    assert Strip(s) == s;
  }

  /** `str(n)` is one whitespace-free token. */
  lemma IntToStringToken(n: int)
    ensures IntToString(n) != [] && NoSpace(IntToString(n))
  {
    var ds := NatDigits(if n < 0 then -n else n);
    var s := IntToString(n);
    DigitsNoSpace(ds);
    if n < 0 {
      assert s == "-" + ds;
      forall k | 0 <= k < |s| ensures !IsSpace(s[k]) {
        if k > 0 { assert s[k] == ds[k - 1]; }
      }
    }
  }

  /** `int` reads a plain digit string, with or without a minus sign, as its value. */
  lemma ParseIntBodyOfDigits(ds: string)
    requires ds != [] && AllDigits(ds)
    ensures ParseIntBody(ds) == Some(DigitsValue(ds) as int)
    ensures ParseIntBody("-" + ds) == Some(-(DigitsValue(ds) as int))
  {
    UnsignedOfDigits(ds);
    assert !IsSign(ds[0]);
    NegativeBody(ds, "-" + ds, DigitsValue(ds));
  }

  /** A plain run of digits is one digit part and reads as the number it spells. */
  lemma UnsignedOfDigits(ds: string)
    requires ds != [] && AllDigits(ds)
    ensures ParseUnsigned(ds) == Some(DigitsValue(ds))
  {
    DigitPartOfDigits(ds, []);
    assert ds + [] == ds;
  }

  lemma NegativeBody(ds: string, m: string, v: nat)
    requires ParseUnsigned(ds) == Some(v) && m == "-" + ds
    ensures ParseIntBody(m) == Some(-(v as int))
  {
    assert m[0] == '-' && m[1..] == ds;
  }

  lemma DigitsNoSpace(ds: string)
    requires AllDigits(ds)
    ensures NoSpace(ds)
  {
  }

  // ---------------------------------------------------------------------------
  // float(str), kept exact

  /** `mantissa * 10^(-scale)`, exactly. */
  datatype Decimal = Decimal(mantissa: int, scale: nat) {
    function Value(): real {
      mantissa as real / Pow10(scale) as real
    }
  }

  /** The digits before and after the decimal point of a float literal, and what follows them. */
  datatype Number = Number(intDigits: string, fracDigits: string, rest: string)

  /** number ::= [digitpart] "." digitpart | digitpart ["."] */
  function ParseNumber(u: string): (r: Option<Number>)
    ensures r.Some? ==> AllDigits(r.value.intDigits) && AllDigits(r.value.fracDigits)
    ensures r.Some? ==> r.value.intDigits != [] || r.value.fracDigits != []
  {
    if u != [] && IsDigit(u[0]) then
      var ip := DigitPart(u);
      if ip.rest != [] && ip.rest[0] == '.' then
        var after := ip.rest[1..];
        if after != [] && IsDigit(after[0]) then
          var fp := DigitPart(after);
          Some(Number(ip.digits, fp.digits, fp.rest))
        else
          Some(Number(ip.digits, "", after))
      else
        Some(Number(ip.digits, "", ip.rest))
    else if |u| >= 2 && u[0] == '.' && IsDigit(u[1]) then
      var fp := DigitPart(u[1..]);
      Some(Number("", fp.digits, fp.rest))
    else
      None
  }

  /** exponent ::= ("e" | "E") [sign] digitpart, or nothing at all; it must end the literal. */
  function ParseExponent(rest: string): Option<int> {
    if rest == [] then
      Some(0)
    else if rest[0] == 'e' || rest[0] == 'E' then
      var t := rest[1..];
      var neg := t != [] && t[0] == '-';
      var u := if t != [] && IsSign(t[0]) then t[1..] else t;
      if u != [] && IsDigit(u[0]) then
        var ep := DigitPart(u);
        var v: int := DigitsValue(ep.digits);
        if ep.rest == [] then Some(if neg then -v else v) else None
      else
        None
    else
      None
  }

  /** The exact value `digits * 10^(exponent - fracLen)`. */
  function MakeDecimal(digits: string, fracLen: nat, exponent: int): (d: Decimal)
    requires AllDigits(digits)
    ensures d.mantissa >= 0
  {
    var m := DigitsValue(digits);
    if exponent >= fracLen then Decimal(m * Pow10(exponent - fracLen), 0)
    else Decimal(m, fracLen - exponent)
  }

  /**
    Python's `float(s)` on finite decimal literals: surrounding whitespace, an
    optional sign, a number and an optional exponent.  None stands for the
    `ValueError` it raises; the `inf` and `nan` spellings `float` also
    accepts are not modelled and come out as None.
  */
  function ParseFloat(s: string): Option<Decimal> {
    ParseFloatBody(Strip(s))
  }

  /** `float` on text already stripped of surrounding whitespace. */
  function ParseFloatBody(body: string): Option<Decimal> {
    if body != [] && IsSign(body[0]) then ApplySign(body[0], ParseUnsignedFloat(body[1..]))
    else ParseUnsignedFloat(body)
  }

  /** A sign applied to a parsed number: '-' negates it, '+' keeps it. */
  function ApplySign(sign: char, d: Option<Decimal>): Option<Decimal> {
    match d
    case None => None
    case Some(d) => Some(if sign == '-' then Decimal(-d.mantissa, d.scale) else d)
  }

  /** A number followed by an optional exponent, with nothing after it. */
  function ParseUnsignedFloat(u: string): (r: Option<Decimal>)
    ensures r.Some? ==> r.value.mantissa >= 0
  {
    match ParseNumber(u)
    case None => None
    case Some(num) =>
      match ParseExponent(num.rest)
      case None => None
      case Some(e) => Some(MakeDecimal(num.intDigits + num.fracDigits, |num.fracDigits|, e))
  }

  // ---------------------------------------------------------------------------
  // _clean_numeric

  /** `value.replace('.', '').replace(',', '.')`: drop thousands separators, make the comma the decimal point. */
  function CleanNumericText(s: string): (r: string)
    ensures forall k :: 0 <= k < |r| ==> r[k] != ','
    ensures |r| <= |s|
  {
    ReplaceChar(RemoveChar(s, '.'), ',', '.')
  }

  /** `_clean_numeric(value)`: the locale-formatted string read as a number, or 0 when `float` refuses it. */
  function CleanNumeric(s: string): (r: real) {
    match ParseFloat(CleanNumericText(s))
    case Some(d) => d.Value()
    case None => 0.0
  }

  /** Thousands separators are ignored: a '.' anywhere in the input changes nothing. */
  lemma CleanNumericIgnoresDots(a: string, b: string)
    ensures CleanNumeric(a + "." + b) == CleanNumeric(a + b)
  {
    RemoveCharConcat(a + ".", b, '.');
    RemoveCharConcat(a, ".", '.');
    RemoveCharConcat(a, b, '.');
    assert RemoveChar(".", '.') == [];
    assert RemoveChar(a, '.') + [] == RemoveChar(a, '.');
  }

  // ---------------------------------------------------------------------------
  // The Brazilian amount format, and the round trip through _clean_numeric

  function DigitChar(d: nat): (c: char)
    requires d < 10
    ensures IsDigit(c) && c as int - '0' as int == d
  {
    ('0' as int + d) as char
  }

  lemma DigitsValueSingle(c: char)
    requires IsDigit(c)
    ensures DigitsValue([c]) == c as int - '0' as int
  {
    assert [c][..0] == [];
  }

  /** Three digits with leading zeros. */
  function Pad3(m: nat): (s: string)
    requires m < 1000
    ensures |s| == 3 && AllDigits(s) && DigitsValue(s) == m
  {
    var s := [DigitChar(m / 100), DigitChar(m / 10 % 10), DigitChar(m % 10)];
    DigitsValueSingle(s[0]);
    assert s[..2][..1] == [s[0]];
    assert DigitsValue(s[..2]) == m / 100 * 10 + m / 10 % 10;
    s
  }

  /** Two digits with a leading zero. */
  function Pad2(m: nat): (s: string)
    requires m < 100
    ensures |s| == 2 && AllDigits(s) && DigitsValue(s) == m
  {
    var s := [DigitChar(m / 10), DigitChar(m % 10)];
    DigitsValueSingle(s[0]);
    assert s[..1] == [s[0]];
    s
  }

  /** A natural number with '.' between groups of three digits: 2850 as "2.850". */
  function Grouped(n: nat): (s: string)
    ensures GroupedSpelling(s, n)
    decreases n
  {
    if n < 1000 then
      var s := NatDigits(n);
      RemoveCharAbsent(s, '.');
      s
    else
      var hi := Grouped(n / 1000);
      var lo := Pad3(n % 1000);
      GroupedStep(hi, n / 1000, lo, n % 1000);
      hi + "." + lo
  }

  /**
    `s` starts and ends with a digit, holds only digits and '.', and once the
    dots are dropped spells `n`.
  */
  ghost predicate GroupedSpelling(s: string, n: nat) {
    && s != [] && IsDigit(s[0]) && IsDigit(s[|s| - 1])
    && (forall k :: 0 <= k < |s| ==> IsDigit(s[k]) || s[k] == '.')
    && AllDigits(RemoveChar(s, '.')) && DigitsValue(RemoveChar(s, '.')) == n
  }

  lemma GroupedStep(hi: string, h: nat, lo: string, l: nat)
    requires GroupedSpelling(hi, h)
    requires |lo| == 3 && AllDigits(lo) && DigitsValue(lo) == l && l < 1000
    ensures GroupedSpelling(hi + "." + lo, h * 1000 + l)
  {
    var s := hi + "." + lo;
    RemoveCharConcat(hi + ".", lo, '.');
    RemoveCharConcat(hi, ".", '.');
    RemoveCharAbsent(lo, '.');
    assert RemoveChar(".", '.') == [];
    assert RemoveChar(hi, '.') + [] == RemoveChar(hi, '.');
    assert RemoveChar(s, '.') == RemoveChar(hi, '.') + lo;
    DigitsValueConcat(RemoveChar(hi, '.'), lo);
    assert s[0] == hi[0] && s[|s| - 1] == lo[2];
    forall k | 0 <= k < |s| ensures IsDigit(s[k]) || s[k] == '.' {
      if k > |hi| { assert s[k] == lo[k - |hi| - 1]; }
    }
  }

  /** An amount of `cents` hundredths formatted the way the invoices print it: "2.850,00", "-28,50". */
  function FormatBr(cents: int): string {
    var a := if cents < 0 then -cents else cents;
    (if cents < 0 then "-" else "") + Grouped(a / 100) + "," + Pad2(a % 100)
  }

  /** A formatted amount is one whitespace-free token. */
  lemma FormatBrToken(cents: int)
    ensures FormatBr(cents) != [] && NoSpace(FormatBr(cents))
  {
    var a := if cents < 0 then -cents else cents;
    var sign: string := if cents < 0 then "-" else "";
    var grouped := Grouped(a / 100);
    var pad := Pad2(a % 100);
    assert NoSpace(grouped) by {
      forall k | 0 <= k < |grouped| ensures !IsSpace(grouped[k]) {
        assert IsDigit(grouped[k]) || grouped[k] == '.';
      }
    }
    DigitsNoSpace(pad);
    assert NoSpace(sign) && NoSpace(",");
    NoSpaceConcat(sign, grouped);
    NoSpaceConcat(sign + grouped, ",");
    NoSpaceConcat(sign + grouped + ",", pad);
  }

  lemma RemoveDotsOfFormat(sign: string, grouped: string, pad: string)
    requires sign == "" || sign == "-"
    requires AllDigits(pad)
    ensures RemoveChar(sign + grouped + "," + pad, '.') == sign + RemoveChar(grouped, '.') + "," + pad
  {
    RemoveCharConcat(sign + grouped + ",", pad, '.');
    RemoveCharConcat(sign + grouped, ",", '.');
    RemoveCharConcat(sign, grouped, '.');
    RemoveCharAbsent(sign, '.');
    RemoveCharAbsent(",", '.');
    RemoveCharAbsent(pad, '.');
  }

  lemma ReplaceCommaOfFormat(sign: string, g: string, pad: string)
    requires sign == "" || sign == "-"
    requires AllDigits(g) && AllDigits(pad)
    ensures ReplaceChar(sign + g + "," + pad, ',', '.') == sign + g + "." + pad
  {
    var removed := sign + g + "," + pad;
    var expected := sign + g + "." + pad;
    forall k | 0 <= k < |removed|
      ensures (if removed[k] == ',' then '.' else removed[k]) == expected[k]
    {
      if k < |sign| {
      } else if k < |sign| + |g| {
        assert removed[k] == g[k - |sign|];
      } else if k == |sign| + |g| {
      } else {
        assert removed[k] == pad[k - |sign| - |g| - 1];
      }
    }
  }

  /** What `_clean_numeric` hands to `float` for a formatted amount. */
  lemma CleanTextOfFormat(cents: int)
    ensures var a := if cents < 0 then -cents else cents;
            var body := RemoveChar(Grouped(a / 100), '.') + "." + Pad2(a % 100);
            CleanNumericText(FormatBr(cents)) == (if cents < 0 then "-" + body else body)
  {
    var a := if cents < 0 then -cents else cents;
    var sign: string := if cents < 0 then "-" else "";
    var grouped := Grouped(a / 100);
    var g := RemoveChar(grouped, '.');
    var pad := Pad2(a % 100);
    RemoveDotsOfFormat(sign, grouped, pad);
    ReplaceCommaOfFormat(sign, g, pad);
    SignedPointedAssoc(sign, g, pad);
  }

  lemma SignedPointedAssoc(sign: string, g: string, p: string)
    requires sign == "" || sign == "-"
    ensures sign + g + "." + p == (if sign == "-" then "-" + (g + "." + p) else g + "." + p)
  {
    if sign == "" {
      assert sign + g == g;
    }
  }

  /** `float` reads "<digits>.<digits>" as the exact decimal they spell. */
  lemma ParsePointedDigits(g: string, p: string)
    requires g != [] && AllDigits(g) && p != [] && AllDigits(p)
    ensures AllDigits(g + p)
    ensures ParseUnsignedFloat(g + "." + p) == Some(Decimal(DigitsValue(g + p), |p|))
  {
    var u := g + "." + p;
    assert u == g + ("." + p);
    DigitPartOfDigits(g, "." + p);
    DigitPartOfDigits(p, []);
    assert p + [] == p;
    ParseNumberPointed(u, g, p);
    assert ParseExponent([]) == Some(0);
    var ds := g + p;
    assert AllDigits(ds);
    MakeDecimalNoExponent(ds, |p|);
  }

  lemma MakeDecimalNoExponent(digits: string, fracLen: nat)
    requires AllDigits(digits) && fracLen > 0
    ensures MakeDecimal(digits, fracLen, 0) == Decimal(DigitsValue(digits), fracLen)
  {
  }

  lemma ParseNumberPointed(u: string, g: string, p: string)
    requires g != [] && AllDigits(g) && p != [] && AllDigits(p)
    requires u == g + ("." + p)
    requires DigitPart(u) == Scan(g, "." + p)
    requires DigitPart(p) == Scan(p, [])
    ensures ParseNumber(u) == Some(Number(g, p, []))
  {
    assert IsDigit(u[0]);
    var ip := DigitPart(u);
    assert ip.rest[0] == '.';
    assert ip.rest[1..] == p;
  }

  /** `float` reads "<digits>.<digits>", whitespace and all, as the decimal they spell. */
  lemma ParseUnsignedPointedDigits(g: string, p: string)
    requires g != [] && AllDigits(g) && p != [] && AllDigits(p)
    ensures AllDigits(g + p)
    ensures ParseFloat(g + "." + p) == Some(Decimal(DigitsValue(g + p), |p|))
    ensures g + "." + p != [] && IsDigit((g + "." + p)[0])
  {
    ParsePointedDigits(g, p);
    PointedStripped(g, p);
    ParseFloatUnsigned(g + "." + p, Decimal(DigitsValue(g + p), |p|));
  }

  lemma PointedStripped(g: string, p: string)
    requires g != [] && AllDigits(g) && AllDigits(p)
    ensures g + "." + p != [] && IsDigit((g + "." + p)[0])
    ensures Strip(g + "." + p) == g + "." + p
  {
    PointedNoSpace(g, p);
    StripNoSpace(g + "." + p);
  }

  lemma PointedNoSpace(g: string, p: string)
    requires AllDigits(g) && AllDigits(p)
    ensures NoSpace(g + "." + p)
  {
    DigitsNoSpace(g);
    DigitsNoSpace(p);
    assert NoSpace(".");
    NoSpaceConcat(g, ".");
    NoSpaceConcat(g + ".", p);
  }

  /** `float("-" + u)` is the negation of `float(u)` when `u` starts with a digit. */
  lemma ParseFloatNegative(u: string, m: nat, k: nat)
    requires u != [] && IsDigit(u[0]) && NoSpace(u) && ParseFloat(u) == Some(Decimal(m, k))
    ensures ParseFloat("-" + u) == Some(Decimal(-(m as int), k))
  {
    assert NoSpace("-");
    NoSpaceConcat("-", u);
    StripNoSpace("-" + u);
    StripNoSpace(u);
    FloatBodyUnsignedBack(u, Decimal(m, k));
    FloatBodyNegative("-" + u, u, m, k);
  }

  lemma ParseFloatUnsigned(t: string, d: Decimal)
    requires t != [] && IsDigit(t[0]) && Strip(t) == t && ParseUnsignedFloat(t) == Some(d)
    ensures ParseFloat(t) == Some(d)
  {
    FloatBodyUnsigned(t, d);
  }

  lemma FloatBodyNegative(t: string, u: string, m: nat, k: nat)
    requires t == "-" + u && ParseUnsignedFloat(u) == Some(Decimal(m, k))
    ensures ParseFloatBody(t) == Some(Decimal(-(m as int), k))
  {
    assert t != [] && t[0] == '-';
    assert ParseFloatBody(t) == ApplySign('-', ParseUnsignedFloat(t[1..]));
    assert t[1..] == u;
  }

  lemma FloatBodyUnsigned(t: string, d: Decimal)
    requires t != [] && IsDigit(t[0]) && ParseUnsignedFloat(t) == Some(d)
    ensures ParseFloatBody(t) == Some(d)
  {
  }

  lemma FloatBodyUnsignedBack(t: string, d: Decimal)
    requires t != [] && IsDigit(t[0]) && ParseFloatBody(t) == Some(d)
    ensures ParseUnsignedFloat(t) == Some(d)
  {
  }

  /** Reading a formatted amount back through `_clean_numeric` gives the amount. */
  lemma CleanNumericOfFormat(cents: int)
    ensures CleanNumeric(FormatBr(cents)) == cents as real / 100.0
  {
    var a := if cents < 0 then -cents else cents;
    var g := RemoveChar(Grouped(a / 100), '.');
    var p := Pad2(a % 100);
    CleanTextOfFormat(cents);
    FormatDigits(a);
    if cents < 0 {
      ParseUnsignedPointedDigits(g, p);
      PointedNoSpace(g, p);
      ParseFloatNegative(g + "." + p, a, 2);
      CleanNumericOfParsed(FormatBr(cents), Decimal(-a, 2));
      HundredthsValue(-a);
    } else {
      ParseUnsignedPointedDigits(g, p);
      CleanNumericOfParsed(FormatBr(cents), Decimal(a, 2));
      HundredthsValue(a);
    }
  }

  /** The digits of a formatted amount, with the separators dropped, spell the amount. */
  lemma FormatDigits(a: nat)
    ensures var g := RemoveChar(Grouped(a / 100), '.');
            g != [] && AllDigits(g) && DigitsValue(g + Pad2(a % 100)) == a
  {
    var grouped := Grouped(a / 100);
    var g := RemoveChar(grouped, '.');
    var p := Pad2(a % 100);
    RemoveCharKeepsFirst(grouped, '.');
    DigitsValueConcat(g, p);
    HundredsSplit(a, DigitsValue(g), DigitsValue(p));
  }

  lemma HundredsSplit(a: nat, h: nat, l: nat)
    requires h == a / 100 && l == a % 100
    ensures h * Pow10(2) + l == a
  {
    assert Pow10(2) == 100;
  }

  lemma CleanNumericOfParsedText(s: string, t: string, d: Decimal)
    requires CleanNumericText(s) == t && ParseFloat(t) == Some(d)
    ensures CleanNumeric(s) == d.Value()
  {
  }

  lemma CleanTextOfDigits(ds: string)
    requires AllDigits(ds)
    ensures CleanNumericText(ds) == ds
  {
    CleanTextPlain(ds);
  }

  lemma CleanNumericOfParsed(s: string, d: Decimal)
    requires ParseFloat(CleanNumericText(s)) == Some(d)
    ensures CleanNumeric(s) == d.Value()
  {
  }

  lemma WholeValue(m: int)
    ensures Decimal(m, 0).Value() == m as real
  {
    assert Pow10(0) == 1;
  }

  lemma HundredthsValue(m: int)
    ensures Decimal(m, 2).Value() == m as real / 100.0
  {
    assert Pow10(2) == 100;
  }

  /** "28,50" is read as 28.5. */
  lemma CleanNumericExampleCents()
    ensures CleanNumeric("28,50") == 28.5
  {
    assert NatDigits(28) == "28";
    assert Grouped(28) == "28";
    assert Pad2(50) == "50";
    assert FormatBr(2850) == "28,50";
    CleanNumericOfFormat(2850);
  }

  /** "2.850,00" is read as 2850. */
  lemma CleanNumericExampleThousands()
    ensures CleanNumeric("2.850,00") == 2850.0
  {
    assert NatDigits(2) == "2";
    assert Grouped(2) == "2";
    assert Pad3(850) == "850";
    assert Grouped(2850) == "2.850";
    assert Pad2(0) == "00";
    assert FormatBr(285000) == "2.850,00";
    CleanNumericOfFormat(285000);
  }

  /** "1.234", with no decimal comma, is read as 1234. */
  lemma CleanNumericExampleInteger()
    ensures CleanNumeric("1.234") == 1234.0
  {
    CleanNumericOfDottedDigits("1", "234");
    SpellOneThousand();
  }

  lemma SpellOneThousand()
    ensures "1" + "." + "234" == "1.234" && DigitsValue("1" + "234") == 1234
  {
    assert "1" + "234" == "1234";
    assert "1234"[..3] == "123" && "123"[..2] == "12" && "12"[..1] == "1" && "1"[..0] == "";
    assert DigitsValue("12") == 12;
    assert DigitsValue("1234") == 1234;
  }

  /** Digits with a thousands separator and no comma are read as the whole number. */
  lemma CleanNumericOfDottedDigits(a: string, b: string)
    requires a != [] && AllDigits(a) && AllDigits(b)
    ensures AllDigits(a + b)
    ensures CleanNumeric(a + "." + b) == DigitsValue(a + b) as real
  {
    CleanNumericIgnoresDots(a, b);
    AllDigitsConcat(a, b);
    CleanNumericOfDigits(a + b);
  }

  lemma AllDigitsConcat(a: string, b: string)
    requires AllDigits(a) && AllDigits(b)
    ensures AllDigits(a + b)
  {
  }

  /** A plain run of digits is read as the whole number it spells. */
  lemma CleanNumericOfDigits(ds: string)
    requires ds != [] && AllDigits(ds)
    ensures CleanNumeric(ds) == DigitsValue(ds) as real
  {
    CleanTextOfDigits(ds);
    ParseDigits(ds);
    CleanNumericOfParsedText(ds, ds, Decimal(DigitsValue(ds), 0));
    WholeValue(DigitsValue(ds));
  }

  /** `_clean_numeric` leaves text with neither '.' nor ',' as it is before handing it to `float`. */
  lemma CleanTextPlain(s: string)
    requires forall k :: 0 <= k < |s| ==> s[k] != '.' && s[k] != ','
    ensures CleanNumericText(s) == s
  {
    RemoveCharAbsent(s, '.');
  }

  /** `float` reads a plain run of digits as the whole number it spells. */
  lemma ParseDigits(ds: string)
    requires ds != [] && AllDigits(ds)
    ensures ParseFloat(ds) == Some(Decimal(DigitsValue(ds), 0))
  {
    DigitsNoSpace(ds);
    StripNoSpace(ds);
    DigitPartOfDigits(ds, []);
    assert ds + [] == ds;
    assert ParseNumber(ds) == Some(Number(ds, "", []));
    assert ds + "" == ds;
    ParseFloatUnsigned(ds, Decimal(DigitsValue(ds), 0));
  }

  /** Text that `float` refuses yields 0 rather than an error. */
  lemma CleanNumericRefusesWord()
    ensures CleanNumeric("abc") == 0.0
  {
    CleanTextPlain("abc");
    assert NoSpace("abc");
    StripNoSpace("abc");
    assert ParseNumber("abc") == None;
  }

  lemma CleanNumericRefusesEmpty()
    ensures CleanNumeric("") == 0.0
  {
  }

  /** Two decimal commas, as in "1,2,3", make `float` refuse the text, so the amount is 0. */
  lemma CleanNumericRefusesTwoCommas(a: string, b: string, c: string)
    requires a != [] && AllDigits(a) && b != [] && AllDigits(b) && AllDigits(c)
    ensures CleanNumeric(a + "," + b + "," + c) == 0.0
  {
    var t := a + "." + b + "." + c;
    TwoCommasText(a, b, c);
    TwoPointsNoSpace(a, b, c);
    StripNoSpace(t);
    TwoPointsRefused(t, a, b, c);
    CleanNumericOfRefused(a + "," + b + "," + c, t);
  }

  lemma CleanNumericOfRefused(s: string, t: string)
    requires CleanNumericText(s) == t && ParseFloat(t) == None
    ensures CleanNumeric(s) == 0.0
  {
  }

  lemma TwoCommasText(a: string, b: string, c: string)
    requires AllDigits(a) && AllDigits(b) && AllDigits(c)
    ensures CleanNumericText(a + "," + b + "," + c) == a + "." + b + "." + c
  {
    var s := a + "," + b + "," + c;
    var t := a + "." + b + "." + c;
    assert forall k :: 0 <= k < |s| ==> s[k] != '.' by {
      forall k | 0 <= k < |s| ensures s[k] != '.' {
        if k < |a| { assert s[k] == a[k]; }
        else if k == |a| { }
        else if k < |a| + 1 + |b| { assert s[k] == b[k - |a| - 1]; }
        else if k == |a| + 1 + |b| { }
        else { assert s[k] == c[k - |a| - |b| - 2]; }
      }
    }
    RemoveCharAbsent(s, '.');
    forall k | 0 <= k < |s| ensures (if s[k] == ',' then '.' else s[k]) == t[k] {
      if k < |a| { assert s[k] == a[k] && t[k] == a[k]; }
      else if k == |a| { }
      else if k < |a| + 1 + |b| { assert s[k] == b[k - |a| - 1] && t[k] == b[k - |a| - 1]; }
      else if k == |a| + 1 + |b| { }
      else { assert s[k] == c[k - |a| - |b| - 2] && t[k] == c[k - |a| - |b| - 2]; }
    }
  }

  lemma TwoPointsNoSpace(a: string, b: string, c: string)
    requires AllDigits(a) && AllDigits(b) && AllDigits(c)
    ensures NoSpace(a + "." + b + "." + c)
  {
    PointedNoSpace(a, b);
    assert NoSpace(".");
    NoSpaceConcat(a + "." + b, ".");
    DigitsNoSpace(c);
    NoSpaceConcat(a + "." + b + ".", c);
  }

  lemma TwoPointsRefused(t: string, a: string, b: string, c: string)
    requires a != [] && AllDigits(a) && b != [] && AllDigits(b)
    requires t == a + "." + b + "." + c && Strip(t) == t
    ensures ParseFloat(t) == None
  {
    TwoPointsUnsignedRefused(t, a, b, c);
    StrippedRefused(t);
  }

  lemma TwoPointsUnsignedRefused(t: string, a: string, b: string, c: string)
    requires a != [] && AllDigits(a) && b != [] && AllDigits(b)
    requires t == a + "." + b + "." + c
    ensures t != [] && IsDigit(t[0]) && ParseUnsignedFloat(t) == None
  {
    TwoPointsAssoc(a, b, c);
    NumberBeforeSecondPoint(t, a, b, c);
    NoExponentAtPoint(c);
    UnsignedRefused(t, Number(a, b, "." + c));
  }

  lemma TwoPointsAssoc(a: string, b: string, c: string)
    ensures a + "." + b + "." + c == a + ("." + (b + ("." + c)))
  {
  }

  lemma NoExponentAtPoint(c: string)
    ensures ParseExponent("." + c) == None
  {
  }

  lemma UnsignedRefused(u: string, n: Number)
    requires ParseNumber(u) == Some(n) && ParseExponent(n.rest) == None
    ensures ParseUnsignedFloat(u) == None
  {
  }

  lemma StrippedRefused(t: string)
    requires t != [] && IsDigit(t[0]) && Strip(t) == t && ParseUnsignedFloat(t) == None
    ensures ParseFloat(t) == None
  {
    assert !IsSign(t[0]);
  }

  /** The number in "<digits>.<digits>.<rest>" ends at the second point. */
  lemma NumberBeforeSecondPoint(u: string, a: string, b: string, rest: string)
    requires a != [] && AllDigits(a) && b != [] && AllDigits(b)
    requires u == a + ("." + (b + ("." + rest)))
    ensures u != [] && IsDigit(u[0])
    ensures ParseNumber(u) == Some(Number(a, b, "." + rest))
  {
    var after := b + ("." + rest);
    DigitPartOfDigits(a, "." + after);
    assert ("." + after)[1..] == after;
    DigitPartOfDigits(b, "." + rest);
    NumberOfScans(u, Scan(a, "." + after), Scan(b, "." + rest));
  }

  /** How `ParseNumber` puts together the digit parts before and after the point. */
  lemma NumberOfScans(u: string, ip: Scan, fp: Scan)
    requires u != [] && IsDigit(u[0]) && DigitPart(u) == ip
    requires ip.rest != [] && ip.rest[0] == '.'
    requires ip.rest[1..] != [] && IsDigit(ip.rest[1..][0]) && DigitPart(ip.rest[1..]) == fp
    ensures ParseNumber(u) == Some(Number(ip.digits, fp.digits, fp.rest))
  {
  }

  // ---------------------------------------------------------------------------
  // round(2)

  /**
    `round(x, 2)` as a count of hundredths: the integer nearest to `100 x`,
    an exact half going to the even neighbour (numpy's rule).
  */
  function RoundHundredths(x: real): (n: int)
    ensures -0.5 <= n as real - x * 100.0 <= 0.5
    ensures (n as real - x * 100.0 == 0.5 || x * 100.0 - n as real == 0.5) ==> n % 2 == 0
  {
    var y := x * 100.0;
    var f := y.Floor;
    var frac := y - f as real;
    if frac < 0.5 then f
    else if frac > 0.5 then f + 1
    else if f % 2 == 0 then f
    else f + 1
  }

  /** `abs(x) < 0.01` applied to an amount already rounded to `n` hundredths. */
  predicate WithinTolerance(n: int) {
    (if n < 0 then -n else n) as real / 100.0 < 0.01
  }

  /** Once rounded to hundredths, only an exact zero is within the tolerance. */
  lemma WithinToleranceIffZero(n: int)
    ensures WithinTolerance(n) <==> n == 0
  {
    var a := if n < 0 then -n else n;
    if a >= 1 {
      assert a as real / 100.0 >= 0.01;
    }
  }

  /**
    A difference rounds to zero hundredths exactly when its size is at most
    half a hundredth: 0.005 itself rounds to 0.00 (0 is even), anything beyond
    rounds away from zero.
  */
  lemma RoundsToZeroIff(x: real)
    ensures RoundHundredths(x) == 0 <==> -0.005 <= x <= 0.005
  {
    var y := x * 100.0;
    if -0.005 <= x <= 0.005 {
      assert -0.5 <= y <= 0.5;
    }
  }
}
