/**
  `TradeProcessor.process_pdfs`: every note is matched to the first broker
  whose signature occurs in its text, classified, parsed by the cash-market,
  BM&F or generic parser, and turned into trade rows (each trade enriched
  with the note's broker, date, invoice and client CPF) and one summary row.

  What is not modelled is passed in as `Oracles`: the regular-expression
  search, `_extract_top_table_fields` (only the invoice it finds is read) and
  the accent-stripping lower-casing `remove_accents(text.lower())`.
*/
module Processor {
  import opened Wrappers
  import opened Text
  import opened Patterns
  import opened Classifier
  import opened Brokers
  import opened Splitter
  import opened BmfExtraction
  import opened ClientFields
  import opened Summary

  /** The parts of the parser given as functions. */
  datatype Oracles = Oracles(
    search: Search,                        // re.search, reduced to group 1
    topInvoice: string -> Option<string>,  // _extract_top_table_fields(text).get("invoice")
    normalize: string -> string)           // remove_accents(text.lower())

  /** The page texts of a PDF joined by newlines. */
  function PdfText(pdf: Pdf): string {
    Join(pdf, "\n")
  }

  /** What `parse_pdf` returns. */
  datatype ParseResult = ParseResult(
    broker: string,
    invoice: string,
    date: string,
    clientCpf: string,
    trades: seq<BmfTrade>,
    summary: map<string, real>)

  /**
    The invoice number: the one the header table yields, unless it is missing
    or empty; then the broker's invoice patterns.  What this means for the
    rows of a processed file is stated by `ClaimedFileRows`.
  */
  function Invoice(o: Oracles, config: BrokerConfig, text: string): string
  {
    match o.topInvoice(text)
    case Some(inv) => if inv != "" then inv else ExtractFirstMatch(o.search, text, config.invoicePatterns)
    case None => ExtractFirstMatch(o.search, text, config.invoicePatterns)
  }

  /**
    `parse_pdf` of the parser chosen for the note's kind: the three parsers
    differ only in their trades, which the BM&F parser alone extracts.
  */
  function ParsedNote(o: Oracles, config: BrokerConfig, kind: InvoiceType, text: string): ParseResult {
    ParseResult(
      config.name,
      Invoice(o, config, text),
      ExtractFirstMatch(o.search, text, config.datePatterns),
      ClientCpf(SplitLines(text)),
      if kind == Bmf then BmfTradesOf(SplitLines(text)) else [],
      BaseSummary())
  }

  /** A row of the trade table: a trade with the metadata of its note. */
  datatype TradeRow = TradeRow(trade: BmfTrade, broker: string, date: string, invoice: string, clientCpf: string)

  /** A row of the summary table. */
  datatype SummaryRow = SummaryRow(invoice: string, broker: string, tipo: string, values: map<string, real>)

  /** The two tables `process_pdfs` returns. */
  datatype Batch = Batch(trades: seq<TradeRow>, summaries: seq<SummaryRow>)

  /**
    The note's trades, each updated with the note's broker, date, invoice and
    client CPF; `ClaimedFileRows` and `TradeRowFromFile` carry this to the
    whole batch.
  */
  function Enrich(r: ParseResult): seq<TradeRow>
  {
    seq(|r.trades|, k requires 0 <= k < |r.trades| => TradeRow(r.trades[k], r.broker, r.date, r.invoice, r.clientCpf))
  }

  /**
    The `Tipo` of the note's summary row: the first trade's, or "Unknown" when
    there is none; `ClaimedFileRows` states the `Tipo` a processed file's
    summary row carries.
  */
  function TipoOf(trades: seq<BmfTrade>): string
  {
    if trades != [] then trades[0].tipo else "Unknown"
  }

  /** The note's summary row, present when its summary is not empty. */
  function SummaryRows(r: ParseResult): seq<SummaryRow> {
    if |r.summary| > 0 then [SummaryRow(r.invoice, r.broker, TipoOf(r.trades), r.summary)] else []
  }

  /**
    The parse of the file at `path`: nothing when it cannot be opened (the
    error is caught and reported) or when no broker claims its text.
  */
  function FileResult(o: Oracles, brokers: seq<BrokerConfig>, disk: Disk, path: string): Option<ParseResult> {
    if path !in disk then None
    else
      var text := PdfText(disk[path]);
      match SelectBroker(o.search, brokers, text)
      case None => None
      case Some(k) => Some(ParsedNote(o, brokers[k], Classify(o.normalize(text)), text))
  }

  /** The rows the file at `path` contributes. */
  function FileBatch(o: Oracles, brokers: seq<BrokerConfig>, disk: Disk, path: string): Batch {
    match FileResult(o, brokers, disk, path)
    case None => Batch([], [])
    case Some(r) => Batch(Enrich(r), SummaryRows(r))
  }

  /** Both tables side by side. */
  function Append(a: Batch, b: Batch): Batch {
    Batch(a.trades + b.trades, a.summaries + b.summaries)
  }

  /** The rows of the files in order, `rows` giving those of one file. */
  function Accumulate(rows: string -> Batch, files: seq<string>): Batch
    decreases |files|
  {
    if files == [] then Batch([], [])
    else Append(Accumulate(rows, files[..|files| - 1]), rows(files[|files| - 1]))
  }

  /** The rows of the files in order, as `process_pdfs` builds them. */
  function Processed(o: Oracles, brokers: seq<BrokerConfig>, disk: Disk, files: seq<string>): Batch {
    Accumulate(path => FileBatch(o, brokers, disk, path), files)
  }

  // ---------------------------------------------------------------------------
  // Properties

  /** Accumulating two lists of files one after the other gives both tables concatenated. */
  lemma {:induction false} AccumulateConcat(rows: string -> Batch, a: seq<string>, b: seq<string>)
    ensures Accumulate(rows, a + b) == Append(Accumulate(rows, a), Accumulate(rows, b))
    decreases |b|
  {
    if b == [] {
      assert a + b == a;
    } else {
      var init := b[..|b| - 1];
      assert (a + b)[..|a + b| - 1] == a + init;
      AccumulateConcat(rows, a, init);
    }
  }

  /** Processing two lists of files one after the other gives both tables concatenated. */
  lemma ProcessedConcat(o: Oracles, brokers: seq<BrokerConfig>, disk: Disk, a: seq<string>, b: seq<string>)
    ensures Processed(o, brokers, disk, a + b) == Append(Processed(o, brokers, disk, a), Processed(o, brokers, disk, b))
  {
    AccumulateConcat(path => FileBatch(o, brokers, disk, path), a, b);
  }

  /** A file that cannot be opened, or whose text no broker claims, contributes no row. */
  lemma UnclaimedFileContributesNothing(o: Oracles, brokers: seq<BrokerConfig>, disk: Disk, path: string)
    requires path in disk ==>
      forall k :: 0 <= k < |brokers| ==> !MatchBrokerBySignature(o.search, PdfText(disk[path]), brokers[k])
    ensures FileBatch(o, brokers, disk, path) == Batch([], [])
  {
    if path in disk {
      assert SelectBroker(o.search, brokers, PdfText(disk[path])).None?;
    }
  }

  /**
    A claimed file is parsed with the first broker whose signature occurs in
    it, and contributes exactly one summary row, which carries the note's
    invoice and broker, `Tipo` "BM&F" when the note has trades and "Unknown"
    otherwise, and every summary label valued zero.  Each trade row is one
    of the note's BM&F trades, in line order, with the note's broker, date,
    invoice and client CPF; only a BM&F note has trades.
  */
  lemma ClaimedFileRows(o: Oracles, brokers: seq<BrokerConfig>, disk: Disk, path: string, k: nat)
    requires path in disk && IsFirstBroker(o.search, brokers, PdfText(disk[path]), k)
    ensures var text := PdfText(disk[path]);
      var config := brokers[k];
      var kind := Classify(o.normalize(text));
      var trades := if kind == Bmf then BmfTradesOf(SplitLines(text)) else [];
      var b := FileBatch(o, brokers, disk, path);
      && |b.trades| == |trades|
      && (forall j :: 0 <= j < |trades| ==>
          b.trades[j] == TradeRow(trades[j], config.name, ExtractFirstMatch(o.search, text, config.datePatterns),
            Invoice(o, config, text), ClientCpf(SplitLines(text))))
      && |b.summaries| == 1
      && b.summaries[0].invoice == Invoice(o, config, text)
      && b.summaries[0].broker == config.name
      && b.summaries[0].tipo == (if trades != [] then BmfTipo else "Unknown")
      && b.summaries[0].values == BaseSummary()
  {
    var text := PdfText(disk[path]);
    assert SelectBroker(o.search, brokers, text) == Some(k);
    BaseSummaryDeclaresZero();
    TradesAreBmf(SplitLines(text));
  }

  /** The file could be opened and a broker claims it. */
  predicate Claimed(o: Oracles, brokers: seq<BrokerConfig>, disk: Disk, path: string) {
    path in disk && SelectBroker(o.search, brokers, PdfText(disk[path])).Some?
  }

  /** A file contributes one summary row if it is claimed and none otherwise. */
  lemma FileSummaryCount(o: Oracles, brokers: seq<BrokerConfig>, disk: Disk, path: string)
    ensures |FileBatch(o, brokers, disk, path).summaries| == if Claimed(o, brokers, disk, path) then 1 else 0
  {
    BaseSummaryDeclaresZero();
  }

  /** The number of claimed files. */
  function ClaimedCount(o: Oracles, brokers: seq<BrokerConfig>, disk: Disk, files: seq<string>): nat
    decreases |files|
  {
    if files == [] then 0
    else
      ClaimedCount(o, brokers, disk, files[..|files| - 1])
        + if Claimed(o, brokers, disk, files[|files| - 1]) then 1 else 0
  }

  /** There is one summary row per file that could be opened and was claimed by a broker. */
  lemma {:induction false} OneSummaryPerClaimedFile(o: Oracles, brokers: seq<BrokerConfig>, disk: Disk, files: seq<string>)
    ensures |Processed(o, brokers, disk, files).summaries| == ClaimedCount(o, brokers, disk, files)
    decreases |files|
  {
    if files != [] {
      var rows := path => FileBatch(o, brokers, disk, path);
      var init := files[..|files| - 1];
      OneSummaryPerClaimedFile(o, brokers, disk, init);
      FileSummaryCount(o, brokers, disk, files[|files| - 1]);
      assert Accumulate(rows, files).summaries
        == Accumulate(rows, init).summaries + FileBatch(o, brokers, disk, files[|files| - 1]).summaries;
    }
  }

  /** Every row comes from one of the files. */
  lemma {:induction false} AccumulateFrom(rows: string -> Batch, files: seq<string>, j: nat)
    requires j < |Accumulate(rows, files).trades|
    ensures exists i :: 0 <= i < |files| && Accumulate(rows, files).trades[j] in rows(files[i]).trades
    decreases |files|
  {
    var init := files[..|files| - 1];
    var prev := Accumulate(rows, init);
    if j < |prev.trades| {
      AccumulateFrom(rows, init, j);
      var i :| 0 <= i < |init| && prev.trades[j] in rows(init[i]).trades;
      assert init[i] == files[i];
    } else {
      assert Accumulate(rows, files).trades[j] == rows(files[|files| - 1]).trades[j - |prev.trades|];
    }
  }

  /** Every trade row is one of the rows of one of the files. */
  lemma TradeRowFromFile(o: Oracles, brokers: seq<BrokerConfig>, disk: Disk, files: seq<string>, j: nat)
    requires j < |Processed(o, brokers, disk, files).trades|
    ensures exists i :: 0 <= i < |files| && Processed(o, brokers, disk, files).trades[j] in FileBatch(o, brokers, disk, files[i]).trades
  {
    AccumulateFrom(path => FileBatch(o, brokers, disk, path), files, j);
  }

  /** A property of every summary row of every file holds of every accumulated summary row. */
  lemma {:induction false} AccumulateKeeps(rows: string -> Batch, files: seq<string>, p: SummaryRow -> bool)
    requires forall path, s :: s in rows(path).summaries ==> p(s)
    ensures forall s :: s in Accumulate(rows, files).summaries ==> p(s)
    decreases |files|
  {
    if files != [] {
      AccumulateKeeps(rows, files[..|files| - 1], p);
    }
  }

  /** When every file with trade rows has a summary row, so has the whole batch. */
  lemma {:induction false} AccumulateTradesHaveSummaries(rows: string -> Batch, files: seq<string>)
    requires forall path :: rows(path).trades != [] ==> rows(path).summaries != []
    ensures Accumulate(rows, files).trades != [] ==> Accumulate(rows, files).summaries != []
    decreases |files|
  {
    if files != [] {
      AccumulateTradesHaveSummaries(rows, files[..|files| - 1]);
    }
  }

  /** A file's summary rows value every label zero, and a file with trades has a summary row. */
  lemma FileRowsShape(o: Oracles, brokers: seq<BrokerConfig>, disk: Disk, path: string)
    ensures forall s :: s in FileBatch(o, brokers, disk, path).summaries ==> ZeroSummary(s.values)
    ensures FileBatch(o, brokers, disk, path).trades != [] ==> FileBatch(o, brokers, disk, path).summaries != []
  {
    FileSummaryCount(o, brokers, disk, path);
    BaseSummaryDeclaresZero();
  }

  /**
    Every summary row of a batch declares a traded value and values every
    label zero, and a batch with trade rows has summary rows.
  */
  lemma ProcessedShape(o: Oracles, brokers: seq<BrokerConfig>, disk: Disk, files: seq<string>)
    ensures forall s :: s in Processed(o, brokers, disk, files).summaries ==> ZeroSummary(s.values)
    ensures Processed(o, brokers, disk, files).trades != [] ==> Processed(o, brokers, disk, files).summaries != []
  {
    var rows := path => FileBatch(o, brokers, disk, path);
    forall path ensures forall s :: s in rows(path).summaries ==> ZeroSummary(s.values)
      ensures rows(path).trades != [] ==> rows(path).summaries != []
    {
      FileRowsShape(o, brokers, disk, path);
    }
    AccumulateKeeps(rows, files, (s: SummaryRow) => ZeroSummary(s.values));
    AccumulateTradesHaveSummaries(rows, files);
  }

  // ---------------------------------------------------------------------------
  // The processor

  /** `TradeProcessor`: the registered parsers are class state that `register_parsers` resets. */
  class TradeProcessor {
    var parsers: seq<BrokerConfig>

    constructor()
      ensures parsers == []
    {
      parsers := [];
    }

    /** `register_parsers`: a generic parser for each broker of the table, in order. */
    method RegisterParsers()
      modifies this
      ensures parsers == Registered
    {
      parsers := Registered;
    }

    /** The loop over the parsers: the first whose broker's signature occurs in the text. */
    method MatchParser(search: Search, text: string) returns (matched: Option<nat>)
      ensures matched == SelectBroker(search, parsers, text)
    {
      matched := None;
      var j := 0;
      while j < |parsers|
        invariant 0 <= j <= |parsers|
        invariant forall i :: 0 <= i < j ==> !MatchBrokerBySignature(search, text, parsers[i])
      {
        if MatchBrokerBySignature(search, text, parsers[j]) {
          matched := Some(j);
          assert IsFirstBroker(search, parsers, text, j);
          return;
        }
        j := j + 1;
      }
    }

    /** One iteration of `process_pdfs`: the rows of the file at `path`. */
    method ProcessFile(o: Oracles, disk: Disk, path: string) returns (rows: Batch)
      ensures rows == FileBatch(o, parsers, disk, path)
    {
      rows := Batch([], []);
      if path in disk {
        var text := PdfText(disk[path]);
        var matched := MatchParser(o.search, text);
        if matched.Some? {
          var config := parsers[matched.value];
          var result := ParseNote(o, config, Classify(o.normalize(text)), text);
          var trades := EnrichTrades(result);
          var summaries := [];
          if |result.summary| > 0 {
            summaries := [SummaryRow(result.invoice, result.broker, TipoOf(result.trades), result.summary)];
          }
          rows := Batch(trades, summaries);
        }
      }
    }

    /** `process_pdfs(file_paths)`: both tables, built file by file. */
    method ProcessPdfs(o: Oracles, disk: Disk, files: seq<string>) returns (trades: seq<TradeRow>, summaries: seq<SummaryRow>)
      modifies this
      ensures parsers == Registered
      ensures Batch(trades, summaries) == Processed(o, Registered, disk, files)
    {
      RegisterParsers();
      trades, summaries := [], [];
      ghost var rowsOf := path => FileBatch(o, Registered, disk, path);
      for i := 0 to |files|
        invariant parsers == Registered
        invariant Batch(trades, summaries) == Accumulate(rowsOf, files[..i])
      {
        assert files[..i + 1][..i] == files[..i];
        var rows := ProcessFile(o, disk, files[i]);
        trades := trades + rows.trades;
        summaries := summaries + rows.summaries;
      }
      assert files[..|files|] == files;
    }
  }

  /** `parse_pdf` of the chosen parser, running the client-field and trade scans. */
  method ParseNote(o: Oracles, config: BrokerConfig, kind: InvoiceType, text: string) returns (r: ParseResult)
    ensures r == ParsedNote(o, config, kind, text)
  {
    var cpf := ExtractTopClientFields(text);
    var trades := [];
    if kind == Bmf {
      trades := ExtractBmfTrades(text);
    }
    r := ParseResult(config.name, Invoice(o, config, text), ExtractFirstMatch(o.search, text, config.datePatterns),
      cpf, trades, BaseSummary());
  }

  /** The loop that updates each trade with the note's metadata and appends it. */
  method EnrichTrades(r: ParseResult) returns (rows: seq<TradeRow>)
    ensures rows == Enrich(r)
  {
    rows := [];
    for k := 0 to |r.trades|
      invariant rows == Enrich(r)[..k]
    {
      rows := rows + [TradeRow(r.trades[k], r.broker, r.date, r.invoice, r.clientCpf)];
      assert Enrich(r)[..k + 1] == Enrich(r)[..k] + [Enrich(r)[k]];
    }
  }
}
