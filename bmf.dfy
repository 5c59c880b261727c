/**
  `BMFParser._extract_trades`: the futures trade lines of a BM&F note.  Each
  line of the note text is split on whitespace; a line whose tokens have the
  shape of a trade becomes one record, read positionally from its first nine
  tokens, and a line whose quantity is not an integer is skipped without
  ending the scan.
*/
module BmfExtraction {
  import opened Wrappers
  import opened Text
  import opened Numeric

  /** One futures trade, with the amounts already read by `_clean_numeric` and the quantity by `int`. */
  datatype BmfTrade = BmfTrade(
    tipo: string,
    side: string,            // "C/V"
    mercadoria: string,
    vencimento: string,
    quantidade: int,
    preco: real,             // "Preço / Ajuste"
    tipoNegocio: string,
    valorOperacao: real,
    dc: string,              // "D/C"
    taxaOperacional: real)

  /** The `Tipo` every futures trade carries. */
  const BmfTipo: string := "BM&F"

  /** `re.match(r"\d{2}/\d{2}/\d{4}", t)`: the token begins with a dd/dd/dddd date. */
  predicate StartsWithDate(t: string) {
    && |t| >= 10
    && IsDigit(t[0]) && IsDigit(t[1]) && t[2] == '/'
    && IsDigit(t[3]) && IsDigit(t[4]) && t[5] == '/'
    && IsDigit(t[6]) && IsDigit(t[7]) && IsDigit(t[8]) && IsDigit(t[9])
  }

  /** The guard of a trade line: nine tokens or more, a side of exactly "C" or "V", a date as the third token. */
  predicate HasTradeShape(ts: seq<string>) {
    |ts| >= 9 && (ts[0] == "C" || ts[0] == "V") && StartsWithDate(ts[2])
  }

  /**
    The record the tokens of one line make.  None when the guard fails or
    when `int(tokens[3])` raises (the exception is caught and the line
    dropped); `_clean_numeric` never raises, so nothing else can drop a
    guarded line.
  */
  function ParseBmfTokens(ts: seq<string>): (r: Option<BmfTrade>)
    ensures r.Some? <==> HasTradeShape(ts) && ParseInt(ts[3]).Some?
  {
    if HasTradeShape(ts) then
      match ParseInt(ts[3])
      case None => None
      case Some(q) =>
        Some(BmfTrade(BmfTipo, ts[0], ts[1], ts[2], q, CleanNumeric(ts[4]), ts[5],
                      CleanNumeric(ts[6]), ts[7], CleanNumeric(ts[8])))
    else
      None
  }

  /** The fields of a trade are the line's tokens in order, the quantity read by `int`, the amounts by `_clean_numeric`. */
  lemma TradeFieldsArePositional(ts: seq<string>)
    requires ParseBmfTokens(ts).Some?
    ensures var t := ParseBmfTokens(ts).value;
      && t.tipo == BmfTipo
      && t.side == ts[0] && t.mercadoria == ts[1] && t.vencimento == ts[2]
      && t.quantidade == ParseInt(ts[3]).value && t.preco == CleanNumeric(ts[4])
      && t.tipoNegocio == ts[5] && t.valorOperacao == CleanNumeric(ts[6])
      && t.dc == ts[7] && t.taxaOperacional == CleanNumeric(ts[8])
  {
  }

  /** The record one line contributes: `line.strip().split()`, then the guard and the fields. */
  function ParseBmfLine(line: string): Option<BmfTrade> {
    ParseBmfTokens(Tokens(Strip(line)))
  }

  /**
    The values a scan keeps from a sequence of lines, in line order: the line
    is offered to `parse`, and a line it refuses contributes nothing.
  */
  function Gather<T>(parse: string -> Option<T>, lines: seq<string>): (r: seq<T>)
    ensures |r| <= |lines|
    decreases |lines|
  {
    if lines == [] then []
    else
      var last := parse(lines[|lines| - 1]);
      Gather(parse, lines[..|lines| - 1]) + (if last.Some? then [last.value] else [])
  }

  /** Every value kept comes from one of the lines. */
  lemma {:induction false} GatherFromLines<T>(parse: string -> Option<T>, lines: seq<string>)
    ensures var r := Gather(parse, lines);
      forall k :: 0 <= k < |r| ==> exists i :: 0 <= i < |lines| && parse(lines[i]) == Some(r[k])
    decreases |lines|
  {
    if lines != [] {
      var init := lines[..|lines| - 1];
      GatherFromLines(parse, init);
      var r := Gather(parse, lines);
      forall k | 0 <= k < |r| ensures exists i :: 0 <= i < |lines| && parse(lines[i]) == Some(r[k]) {
        if k < |Gather(parse, init)| {
          assert r[k] == Gather(parse, init)[k];
          var i :| 0 <= i < |init| && parse(init[i]) == Some(Gather(parse, init)[k]);
          assert lines[i] == init[i];
        } else {
          assert parse(lines[|lines| - 1]) == Some(r[k]);
        }
      }
    }
  }

  /** The scan is line by line: the values of two stretches of lines are the values of each, in order. */
  lemma {:induction false} GatherConcat<T>(parse: string -> Option<T>, a: seq<string>, b: seq<string>)
    ensures Gather(parse, a + b) == Gather(parse, a) + Gather(parse, b)
    decreases |b|
  {
    if b == [] {
      assert a + b == a;
    } else {
      var b' := b[..|b| - 1];
      GatherConcat(parse, a, b');
      assert (a + b)[..|a + b| - 1] == a + b';
      assert (a + b)[|a + b| - 1] == b[|b| - 1];
    }
  }

  /** The trades of the lines of a note. */
  function BmfTradesOf(lines: seq<string>): seq<BmfTrade> {
    Gather(ParseBmfLine, lines)
  }

  /** A property every parsed line has holds of every gathered value. */
  lemma {:induction false} GatherKeeps<T>(parse: string -> Option<T>, lines: seq<string>, p: T -> bool)
    requires forall line :: parse(line).Some? ==> p(parse(line).value)
    ensures forall k :: 0 <= k < |Gather(parse, lines)| ==> p(Gather(parse, lines)[k])
  {
    var r := Gather(parse, lines);
    GatherFromLines(parse, lines);
    forall k | 0 <= k < |r| ensures p(r[k]) {
      var i :| 0 <= i < |lines| && parse(lines[i]) == Some(r[k]);
    }
  }

  /** The record of a line is a BM&F trade. */
  lemma ParsedLineIsBmf(line: string)
    requires ParseBmfLine(line).Some?
    ensures ParseBmfLine(line).value.tipo == BmfTipo
  {
    TradeFieldsArePositional(Tokens(Strip(line)));
  }

  /** Every extracted trade has `Tipo` "BM&F". */
  lemma TradesAreBmf(lines: seq<string>)
    ensures forall k :: 0 <= k < |BmfTradesOf(lines)| ==> BmfTradesOf(lines)[k].tipo == BmfTipo
  {
    forall line | ParseBmfLine(line).Some? ensures ParseBmfLine(line).value.tipo == BmfTipo {
      ParsedLineIsBmf(line);
    }
    GatherKeeps(ParseBmfLine, lines, (t: BmfTrade) => t.tipo == BmfTipo);
  }

  /**
    `_extract_trades(text)`: one pass over `text.splitlines()`, appending the
    record of every line that parses.
  */
  method ExtractBmfTrades(text: string) returns (trades: seq<BmfTrade>)
    ensures trades == BmfTradesOf(SplitLines(text))
  {
    var lines := SplitLines(text);
    trades := [];
    for i := 0 to |lines|
      invariant trades == Gather(ParseBmfLine, lines[..i])
    {
      assert lines[..i + 1][..i] == lines[..i];
      var t := ParseBmfLine(lines[i]);
      if t.Some? {
        trades := trades + [t.value];
      }
    }
    assert lines[..|lines|] == lines;
  }

  /** A line the parser refuses contributes nothing, and the lines after it are still read. */
  lemma GatherSkips<T>(parse: string -> Option<T>, before: seq<string>, line: string, after: seq<string>)
    requires parse(line).None?
    ensures Gather(parse, before + [line] + after) == Gather(parse, before) + Gather(parse, after)
  {
    assert Gather(parse, [line]) == [] by {
      assert [line][..0] == [];
    }
    GatherConcat(parse, before, [line]);
    GatherConcat(parse, before + [line], after);
  }

  /** A guarded line whose quantity token is not an integer yields no trade. */
  lemma BadQuantityRefused(ts: seq<string>)
    requires HasTradeShape(ts) && ParseInt(ts[3]).None?
    ensures ParseBmfTokens(ts) == None
  {
  }

  /** A trade line as a note prints it, with the amounts as integral hundredths. */
  datatype NoteLine = NoteLine(
    side: string, mercadoria: string, vencimento: string, quantidade: int, precoCents: int,
    tipoNegocio: string, valorCents: int, dc: string, taxaCents: int)

  ghost predicate IsToken(t: string) {
    t != [] && NoSpace(t)
  }

  /** The printed fields are single tokens, the side is "C" or "V" and the maturity starts with a date. */
  ghost predicate WellFormedLine(l: NoteLine) {
    && (l.side == "C" || l.side == "V")
    && IsToken(l.mercadoria) && IsToken(l.vencimento) && StartsWithDate(l.vencimento)
    && IsToken(l.tipoNegocio) && IsToken(l.dc)
  }

  function LineTokens(l: NoteLine): seq<string> {
    [ l.side, l.mercadoria, l.vencimento, IntToString(l.quantidade), FormatBr(l.precoCents),
      l.tipoNegocio, FormatBr(l.valorCents), l.dc, FormatBr(l.taxaCents) ]
  }

  /** The line's fields separated by single spaces, amounts formatted as "2.850,00". */
  function FormatNoteLine(l: NoteLine): string {
    Join(LineTokens(l), " ")
  }

  /** Every printed field is one whitespace-free token. */
  lemma LineTokensAreTokens(l: NoteLine)
    requires WellFormedLine(l)
    ensures forall j :: 0 <= j < |LineTokens(l)| ==> LineTokens(l)[j] != [] && NoSpace(LineTokens(l)[j])
  {
    PrintedNumberFields(l, IntToString(l.quantidade), FormatBr(l.precoCents), FormatBr(l.valorCents), FormatBr(l.taxaCents));
    PrintedTextFields(l);
    IntToStringToken(l.quantidade);
    FormatBrToken(l.precoCents);
    FormatBrToken(l.valorCents);
    FormatBrToken(l.taxaCents);
    assert IsToken(l.side);
  }

  /** The tokens of a printed line are its fields. */
  lemma TokensOfFormattedLine(l: NoteLine)
    requires WellFormedLine(l)
    ensures Tokens(Strip(FormatNoteLine(l))) == LineTokens(l)
  {
    LineTokensAreTokens(l);
    StripOfJoin(LineTokens(l));
    TokensOfJoin(LineTokens(l));
  }

  /** The trade a printed line stands for: its fields, with the amounts as exact hundredths. */
  function PrintedTrade(l: NoteLine): BmfTrade {
    BmfTrade(BmfTipo, l.side, l.mercadoria, l.vencimento, l.quantidade, l.precoCents as real / 100.0,
             l.tipoNegocio, l.valorCents as real / 100.0, l.dc, l.taxaCents as real / 100.0)
  }

  /** The printed text fields sit at their positions, and the tokens pass the guard. */
  lemma PrintedTextFields(l: NoteLine)
    requires WellFormedLine(l)
    ensures var ts := LineTokens(l);
      && HasTradeShape(ts)
      && ts[0] == l.side && ts[1] == l.mercadoria && ts[2] == l.vencimento && ts[5] == l.tipoNegocio && ts[7] == l.dc
  {
  }

  /** The printed numeric fields sit at their positions. */
  lemma PrintedNumberFields(l: NoteLine, q: string, p: string, v: string, x: string)
    requires q == IntToString(l.quantidade) && p == FormatBr(l.precoCents)
    requires v == FormatBr(l.valorCents) && x == FormatBr(l.taxaCents)
    ensures var ts := LineTokens(l); ts[3] == q && ts[4] == p && ts[6] == v && ts[8] == x
  {
  }

  /** A trade whose every field is the line's field is the trade the line stands for. */
  lemma PrintedTradeOfFields(t: BmfTrade, l: NoteLine)
    requires t.tipo == BmfTipo && t.side == l.side && t.mercadoria == l.mercadoria && t.vencimento == l.vencimento
    requires t.quantidade == l.quantidade && t.preco == l.precoCents as real / 100.0 && t.tipoNegocio == l.tipoNegocio
    requires t.valorOperacao == l.valorCents as real / 100.0 && t.dc == l.dc
    requires t.taxaOperacional == l.taxaCents as real / 100.0
    ensures t == PrintedTrade(l)
  {
  }

  /** The tokens of a printed line make the trade it stands for. */
  lemma ParsePrintedTokens(l: NoteLine)
    requires WellFormedLine(l)
    ensures ParseBmfTokens(LineTokens(l)) == Some(PrintedTrade(l))
  {
    var ts := LineTokens(l);
    PrintedTextFields(l);
    PrintedNumberFields(l, IntToString(l.quantidade), FormatBr(l.precoCents), FormatBr(l.valorCents), FormatBr(l.taxaCents));
    IntRoundTrip(l.quantidade);
    CleanNumericOfFormat(l.precoCents);
    CleanNumericOfFormat(l.valorCents);
    CleanNumericOfFormat(l.taxaCents);
    var r := ParseBmfTokens(ts);
    TradeFieldsArePositional(ts);
    PrintedTradeOfFields(r.value, l);
  }

  /** Reading a printed trade line gives back every field, with the amounts as exact hundredths. */
  lemma ParseFormattedLine(l: NoteLine)
    requires WellFormedLine(l)
    ensures ParseBmfLine(FormatNoteLine(l)) == Some(PrintedTrade(l))
  {
    TokensOfFormattedLine(l);
    ParsePrintedTokens(l);
  }

  function PrintLines(ls: seq<NoteLine>): seq<string>
  {
    seq(|ls|, k requires 0 <= k < |ls| => FormatNoteLine(ls[k]))
  }

  function PrintedTrades(ls: seq<NoteLine>): seq<BmfTrade>
  {
    seq(|ls|, k requires 0 <= k < |ls| => PrintedTrade(ls[k]))
  }

  /** A scan over lines that each parse keeps every value, in line order. */
  lemma {:induction false} GatherAllParsed<T>(parse: string -> Option<T>, lines: seq<string>, vals: seq<T>)
    requires |lines| == |vals|
    requires forall k :: 0 <= k < |lines| ==> parse(lines[k]) == Some(vals[k])
    ensures Gather(parse, lines) == vals
    decreases |lines|
  {
    if lines != [] {
      var n := |lines| - 1;
      GatherAllParsed(parse, lines[..n], vals[..n]);
      assert vals == vals[..n] + [vals[n]];
    }
  }

  /** A note whose lines are printed trades yields exactly those trades, one per line, in order. */
  lemma TradesOfPrintedLines(ls: seq<NoteLine>)
    requires forall k :: 0 <= k < |ls| ==> WellFormedLine(ls[k])
    ensures BmfTradesOf(PrintLines(ls)) == PrintedTrades(ls)
  {
    var lines := PrintLines(ls);
    var trades := PrintedTrades(ls);
    forall k | 0 <= k < |lines| ensures ParseBmfLine(lines[k]) == Some(trades[k]) {
      ParseFormattedLine(ls[k]);
    }
    GatherAllParsed(ParseBmfLine, lines, trades);
  }
}
