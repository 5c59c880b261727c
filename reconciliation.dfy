/**
  The consistency block of `process_directory`: the trade values are summed
  per (invoice, broker, Tipo), the declared value of each summary row is
  read from the first candidate column present, the two sides are joined on
  the key (a missing side counting as zero) and every row gets the
  difference rounded to hundredths and a status.

  Tables are sequences of records; a cell a row does not have (NaN in the
  frame) is `None`.
*/
module Reconciliation {
  import opened Wrappers
  import opened Text
  import opened Numeric
  import opened Summary
  import opened BmfExtraction
  import opened Brokers
  import opened Splitter
  import opened Processor

  /** The key both sides are grouped and joined on. */
  datatype Key = Key(invoice: string, broker: string, tipo: string)

  // ---------------------------------------------------------------------------
  // The order `groupby` sorts its keys in

  /** Python's `<` on strings: code-point lexicographic order, a proper prefix first. */
  predicate StrLess(a: string, b: string)
    decreases |a|
  {
    0 < |b| && (|a| == 0 || a[0] < b[0] || (a[0] == b[0] && StrLess(a[1..], b[1..])))
  }

  lemma {:induction false} StrLessIrreflexive(a: string)
    ensures !StrLess(a, a)
    decreases |a|
  {
    if 0 < |a| {
      StrLessIrreflexive(a[1..]);
    }
  }

  lemma {:induction false} StrLessTransitive(a: string, b: string, c: string)
    requires StrLess(a, b) && StrLess(b, c)
    ensures StrLess(a, c)
    decreases |a|
  {
    if 0 < |a| && a[0] == b[0] && b[0] == c[0] {
      StrLessTransitive(a[1..], b[1..], c[1..]);
    }
  }

  lemma {:induction false} StrLessTotal(a: string, b: string)
    ensures a == b || StrLess(a, b) || StrLess(b, a)
    decreases |a|
  {
    if 0 < |a| && 0 < |b| && a[0] == b[0] {
      StrLessTotal(a[1..], b[1..]);
      if a[1..] == b[1..] {
        assert a == [a[0]] + a[1..] && b == [b[0]] + b[1..];
      }
    }
  }

  /** Python's `<` on (invoice, broker, Tipo) tuples. */
  predicate KeyLess(x: Key, y: Key) {
    || StrLess(x.invoice, y.invoice)
    || (x.invoice == y.invoice && StrLess(x.broker, y.broker))
    || (x.invoice == y.invoice && x.broker == y.broker && StrLess(x.tipo, y.tipo))
  }

  lemma KeyLessIrreflexive(x: Key)
    ensures !KeyLess(x, x)
  {
    StrLessIrreflexive(x.invoice);
    StrLessIrreflexive(x.broker);
    StrLessIrreflexive(x.tipo);
  }

  lemma KeyLessTransitive(x: Key, y: Key, z: Key)
    requires KeyLess(x, y) && KeyLess(y, z)
    ensures KeyLess(x, z)
  {
    if StrLess(x.invoice, y.invoice) && StrLess(y.invoice, z.invoice) {
      StrLessTransitive(x.invoice, y.invoice, z.invoice);
    }
    if x.invoice == y.invoice == z.invoice {
      if StrLess(x.broker, y.broker) && StrLess(y.broker, z.broker) {
        StrLessTransitive(x.broker, y.broker, z.broker);
      }
      if x.broker == y.broker == z.broker && StrLess(x.tipo, y.tipo) && StrLess(y.tipo, z.tipo) {
        StrLessTransitive(x.tipo, y.tipo, z.tipo);
      }
    }
  }

  lemma KeyLessTotal(x: Key, y: Key)
    ensures x == y || KeyLess(x, y) || KeyLess(y, x)
  {
    StrLessTotal(x.invoice, y.invoice);
    StrLessTotal(x.broker, y.broker);
    StrLessTotal(x.tipo, y.tipo);
  }

  /** Keys in strictly increasing order, hence without repetition. */
  ghost predicate StrictlySorted(ks: seq<Key>) {
    forall i, j :: 0 <= i < j < |ks| ==> KeyLess(ks[i], ks[j])
  }

  /** No key occurs twice. */
  ghost predicate Distinct(ks: seq<Key>) {
    forall i, j :: 0 <= i < j < |ks| ==> ks[i] != ks[j]
  }

  lemma SortedDistinct(ks: seq<Key>)
    requires StrictlySorted(ks)
    ensures Distinct(ks)
  {
    forall i, j | 0 <= i < j < |ks| ensures ks[i] != ks[j] {
      KeyLessIrreflexive(ks[i]);
    }
  }

  /** A key put into its place in a sorted sequence, unless it is there already. */
  function Insert(k: Key, ks: seq<Key>): seq<Key>
    decreases |ks|
  {
    if ks == [] then [k]
    else if k == ks[0] then ks
    else if KeyLess(k, ks[0]) then [k] + ks
    else [ks[0]] + Insert(k, ks[1..])
  }

  lemma {:induction false} InsertSorted(k: Key, ks: seq<Key>)
    requires StrictlySorted(ks)
    ensures StrictlySorted(Insert(k, ks))
    ensures forall x :: x in Insert(k, ks) <==> x == k || x in ks
    decreases |ks|
  {
    if ks == [] {
    } else if k == ks[0] {
    } else if KeyLess(k, ks[0]) {
      forall j | 0 < j < |ks| ensures KeyLess(k, ks[j]) {
        KeyLessTransitive(k, ks[0], ks[j]);
      }
    } else {
      KeyLessTotal(k, ks[0]);
      var rest := Insert(k, ks[1..]);
      InsertSorted(k, ks[1..]);
      var r := [ks[0]] + rest;
      forall j | 0 < j < |r| ensures KeyLess(r[0], r[j]) {
        assert r[j] in rest;
      }
    }
  }

  // ---------------------------------------------------------------------------
  // The trade side

  /** A row of the trade table as the consistency block reads it: its key and its two candidate value cells. */
  datatype TradeEntry = TradeEntry(key: Key, operacao: Option<real>, ajuste: Option<real>)

  /** A key with the value of one cell. */
  datatype Valued = Valued(key: Key, value: Option<real>)

  /** The frame has the column when some row has a value in it. */
  predicate HasOperacao(ts: seq<TradeEntry>) {
    exists i :: 0 <= i < |ts| && ts[i].operacao.Some?
  }

  predicate HasAjuste(ts: seq<TradeEntry>) {
    exists i :: 0 <= i < |ts| && ts[i].ajuste.Some?
  }

  /**
    The `valor_trades` cell of a row: with both value columns present, the
    operation value for a BM&F row (`Tipo` stripped and lower-cased) and the
    adjustment value otherwise; with one column, that column; with neither, 0.
  */
  function ValorTrades(hasOperacao: bool, hasAjuste: bool, e: TradeEntry): Option<real> {
    if hasOperacao && hasAjuste then
      if LowerAscii(Strip(e.key.tipo)) == "bm&f" then e.operacao else e.ajuste
    else if hasOperacao then e.operacao
    else if hasAjuste then e.ajuste
    else Some(0.0)
  }

  /**
    The `valor_trades` column, keyed.  For the rows `process_pdfs` returns,
    `ProcessedValorTrades` shows it is the operation value, and
    `ConsistencySheetRows` what the sheet makes of it.
  */
  function TradeValues(ts: seq<TradeEntry>): seq<Valued>
  {
    seq(|ts|, i requires 0 <= i < |ts| => Valued(ts[i].key, ValorTrades(HasOperacao(ts), HasAjuste(ts), ts[i])))
  }

  /** Some row has the key. */
  ghost predicate KeyOccurs(vs: seq<Valued>, k: Key) {
    exists i :: 0 <= i < |vs| && vs[i].key == k
  }

  /** The distinct keys in `groupby` order. */
  function SortedKeys(vs: seq<Valued>): seq<Key>
    decreases |vs|
  {
    if vs == [] then [] else Insert(vs[|vs| - 1].key, SortedKeys(vs[..|vs| - 1]))
  }

  /** `groupby` yields every key of the rows once, in increasing order, and no other. */
  lemma {:induction false} SortedKeysSpec(vs: seq<Valued>)
    ensures StrictlySorted(SortedKeys(vs))
    ensures forall k :: k in SortedKeys(vs) <==> KeyOccurs(vs, k)
    decreases |vs|
  {
    if vs != [] {
      var init := vs[..|vs| - 1];
      SortedKeysSpec(init);
      InsertSorted(vs[|vs| - 1].key, SortedKeys(init));
      forall k ensures KeyOccurs(vs, k) <==> k == vs[|vs| - 1].key || KeyOccurs(init, k) {
        if i :| 0 <= i < |vs| && vs[i].key == k {
          if i < |init| {
            assert init[i].key == k;
          }
        }
        if i :| 0 <= i < |init| && init[i].key == k {
          assert vs[i].key == k;
        }
      }
    }
  }

  /** The sum of the key's cells, a missing cell counting as nothing. */
  function GroupSum(vs: seq<Valued>, k: Key): real
    decreases |vs|
  {
    if vs == [] then 0.0
    else
      var last := vs[|vs| - 1];
      GroupSum(vs[..|vs| - 1], k) + if last.key == k then last.value.GetOr(0.0) else 0.0
  }

  /** `groupby([...])[valor_trades].sum().reset_index()`: one row per key, in key order, with its sum. */
  function TradeTotals(vs: seq<Valued>): seq<Valued>
  {
    var ks := SortedKeys(vs);
    seq(|ks|, i requires 0 <= i < |ks| => Valued(ks[i], Some(GroupSum(vs, ks[i]))))
  }

  /**
    The group totals hold each key of the trade rows once, in increasing
    order, and no other key, each with the NaN-skipping sum of that key's
    values.
  */
  lemma TradeTotalsSpec(vs: seq<Valued>)
    ensures var totals := TradeTotals(vs);
      && (forall i, j :: 0 <= i < j < |totals| ==> KeyLess(totals[i].key, totals[j].key))
      && (forall k :: KeyOccurs(totals, k) <==> KeyOccurs(vs, k))
      && (forall i :: 0 <= i < |totals| ==> totals[i].value == Some(GroupSum(vs, totals[i].key)))
  {
    var totals := TradeTotals(vs);
    var ks := SortedKeys(vs);
    SortedKeysSpec(vs);
    forall k ensures KeyOccurs(totals, k) <==> k in ks {
      if k in ks {
        var i :| 0 <= i < |ks| && ks[i] == k;
        assert totals[i].key == k;
      }
    }
  }

  /** The keys of a keyed column. */
  function KeysOf(vs: seq<Valued>): (ks: seq<Key>)
  {
    seq(|vs|, i requires 0 <= i < |vs| => vs[i].key)
  }

  // ---------------------------------------------------------------------------
  // The summary side

  /** A row of the summary table: its key and its labelled values. */
  datatype SummaryEntry = SummaryEntry(key: Key, values: map<string, real>)

  /** The declared-value columns, in order of preference. */
  const Candidates: seq<string> := [DeclaredValueKey, BusinessValueKey]

  /** Some summary row has the column. */
  predicate HasColumn(ss: seq<SummaryEntry>, col: string) {
    exists i :: 0 <= i < |ss| && col in ss[i].values
  }

  /** The first of the column names that the summary table has. */
  function FirstPresent(cols: seq<string>, ss: seq<SummaryEntry>): (r: Option<nat>)
    ensures r.Some? ==>
      && r.value < |cols| && HasColumn(ss, cols[r.value])
      && forall j :: 0 <= j < r.value ==> !HasColumn(ss, cols[j])
    ensures r.None? ==> forall j :: 0 <= j < |cols| ==> !HasColumn(ss, cols[j])
    decreases |cols|
  {
    if cols == [] then None
    else if HasColumn(ss, cols[0]) then Some(0)
    else
      match FirstPresent(cols[1..], ss)
      case None =>
        assert forall j :: 1 <= j < |cols| ==> cols[j] == cols[1..][j - 1];
        None
      case Some(j) =>
        assert forall i :: 1 <= i <= j ==> cols[i] == cols[1..][i - 1];
        Some(j + 1)
  }

  /** A summary table in which some row declares "Valor das operações" reconciles against that column. */
  lemma DeclaredColumnChosen(ss: seq<SummaryEntry>, i: nat)
    requires i < |ss| && DeclaredValueKey in ss[i].values
    ensures FirstPresent(Candidates, ss) == Some(0)
  {
    assert Candidates[0] == DeclaredValueKey;
    assert HasColumn(ss, Candidates[0]);
  }

  /**
    `df_summary[[invoice, broker, Tipo, col]]`, the column renamed; which
    column is chosen and where its values land in the sheet is stated by
    `DeclaredColumnChosen` and `ConsistencySheetRows`.
  */
  function DeclaredValues(ss: seq<SummaryEntry>, col: string): seq<Valued>
  {
    seq(|ss|, i requires 0 <= i < |ss| => Valued(ss[i].key, if col in ss[i].values then Some(ss[i].values[col]) else None))
  }

  // ---------------------------------------------------------------------------
  // The join

  /** `concat([...]).drop_duplicates()` on the keys: each key once, where it first occurs. */
  function Dedup(ks: seq<Key>): seq<Key>
    decreases |ks|
  {
    if ks == [] then []
    else
      var init := ks[..|ks| - 1];
      if ks[|ks| - 1] in init then Dedup(init) else Dedup(init) + [ks[|ks| - 1]]
  }

  /** The deduplicated keys are the same keys, none twice. */
  lemma {:induction false} DedupSpec(ks: seq<Key>)
    ensures Distinct(Dedup(ks))
    ensures forall k :: k in Dedup(ks) <==> k in ks
    decreases |ks|
  {
    if ks != [] {
      var init := ks[..|ks| - 1];
      DedupSpec(init);
      assert ks == init + [ks[|ks| - 1]];
    }
  }

  /** The cells of the rows with the key, in row order. */
  function Matching(vs: seq<Valued>, k: Key): seq<Option<real>>
    decreases |vs|
  {
    if vs == [] then []
    else
      var last := vs[|vs| - 1];
      Matching(vs[..|vs| - 1], k) + if last.key == k then [last.value] else []
  }

  /** A key absent from the rows matches nothing. */
  lemma {:induction false} MatchingAbsent(vs: seq<Valued>, k: Key)
    requires !KeyOccurs(vs, k)
    ensures Matching(vs, k) == []
    decreases |vs|
  {
    if vs != [] {
      MatchingAbsent(vs[..|vs| - 1], k);
    }
  }

  /** A key that occurs once matches its one cell. */
  lemma {:induction false} MatchingUnique(vs: seq<Valued>, k: Key, i: nat)
    requires Distinct(KeysOf(vs)) && i < |vs| && vs[i].key == k
    ensures Matching(vs, k) == [vs[i].value]
    decreases |vs|
  {
    var init := vs[..|vs| - 1];
    forall a, b | 0 <= a < b < |init| ensures KeysOf(init)[a] != KeysOf(init)[b] {
      assert KeysOf(vs)[a] != KeysOf(vs)[b];
    }
    if i < |init| {
      MatchingUnique(init, k, i);
      assert KeysOf(vs)[i] != KeysOf(vs)[|vs| - 1];
    } else {
      forall j | 0 <= j < |init| ensures init[j].key != k {
        assert KeysOf(vs)[j] != KeysOf(vs)[i];
      }
      MatchingAbsent(init, k);
    }
  }

  /** Every matched cell is the cell of a row with the key. */
  lemma {:induction false} MatchingFrom(vs: seq<Valued>, k: Key)
    ensures forall x :: x in Matching(vs, k) ==> exists i :: 0 <= i < |vs| && vs[i] == Valued(k, x)
    decreases |vs|
  {
    if vs != [] {
      var init := vs[..|vs| - 1];
      MatchingFrom(init, k);
      forall x | x in Matching(vs, k) ensures exists i :: 0 <= i < |vs| && vs[i] == Valued(k, x) {
        if x in Matching(init, k) {
          var i :| 0 <= i < |init| && init[i] == Valued(k, x);
          assert vs[i] == init[i];
        } else {
          assert vs[|vs| - 1] == Valued(k, x);
        }
      }
    }
  }

  /** A left join: the matching cells, or one missing cell when nothing matches. */
  function LeftSide(vs: seq<Valued>, k: Key): (r: seq<Option<real>>)
    ensures r != []
  {
    var m := Matching(vs, k);
    if m == [] then [None] else m
  }

  /** The outcome of the consistency check of one row. */
  datatype Status = Ok | Inconsistencia

  /** A row of the consistency sheet. */
  datatype ConsistencyRow = ConsistencyRow(
    key: Key, valorTrades: real, valorDasOperacoes: real, diferenca: real, status: Status)

  /** The absolute value. */
  function Abs(x: real): real {
    if x < 0.0 then -x else x
  }

  /** A joined row, both values already filled with 0 where missing: the difference rounded to hundredths, and its status. */
  function Compare(k: Key, valorTrades: real, valorDasOperacoes: real): ConsistencyRow {
    var d := RoundHundredths(valorTrades - valorDasOperacoes) as real / 100.0;
    ConsistencyRow(k, valorTrades, valorDasOperacoes, d, if Abs(d) < 0.01 then Ok else Inconsistencia)
  }

  /**
    The difference is the trade value less the declared value, rounded to
    hundredths; the row is OK exactly when that rounds to zero, that is when
    the two values are at most half a hundredth apart.
  */
  lemma CompareStatus(k: Key, valorTrades: real, valorDasOperacoes: real)
    ensures var r := Compare(k, valorTrades, valorDasOperacoes);
      && r.key == k && r.valorTrades == valorTrades && r.valorDasOperacoes == valorDasOperacoes
      && -0.005 <= r.diferenca - (valorTrades - valorDasOperacoes) <= 0.005
      && (r.status == Ok <==> -0.005 <= valorTrades - valorDasOperacoes <= 0.005)
  {
    var n := RoundHundredths(valorTrades - valorDasOperacoes);
    assert Abs(n as real / 100.0) == (if n < 0 then -n else n) as real / 100.0;
    WithinToleranceIffZero(n);
    RoundsToZeroIff(valorTrades - valorDasOperacoes);
  }

  /**
    At the boundary: a trade total of 100.00 against a declared 100.009
    differs by -0.01 once rounded, which is not below the tolerance, and a
    difference of exactly one hundredth is an inconsistency too.
  */
  lemma ToleranceBoundary(k: Key)
    ensures Compare(k, 100.0, 100.009).diferenca == -0.01
    ensures Compare(k, 100.0, 100.009).status == Inconsistencia
    ensures Compare(k, 500.0, 499.99).status == Inconsistencia
  {
    CompareStatus(k, 100.0, 100.009);
    CompareStatus(k, 500.0, 499.99);
    var n := RoundHundredths(100.0 - 100.009);
    assert -0.5 <= n as real + 0.9 <= 0.5;
    assert n == -1;
  }

  /** Both left joins for one key: each trade cell with each declared cell. */
  function JoinRows(k: Key, xs: seq<Option<real>>, ys: seq<Option<real>>): (rows: seq<ConsistencyRow>)
    decreases |xs|
  {
    if xs == [] then []
    else
      var x := xs[|xs| - 1].GetOr(0.0);
      JoinRows(k, xs[..|xs| - 1], ys) + seq(|ys|, j requires 0 <= j < |ys| => Compare(k, x, ys[j].GetOr(0.0)))
  }

  /** The rows of one key. */
  function RowsFor(totals: seq<Valued>, declared: seq<Valued>, k: Key): seq<ConsistencyRow> {
    JoinRows(k, LeftSide(totals, k), LeftSide(declared, k))
  }

  /** The rows of each key, in key order, concatenated. */
  function FlatMap<T>(f: Key -> seq<T>, ks: seq<Key>): seq<T>
    decreases |ks|
  {
    if ks == [] then [] else FlatMap(f, ks[..|ks| - 1]) + f(ks[|ks| - 1])
  }

  /** The rows of the keys, in key order. */
  function Rows(totals: seq<Valued>, declared: seq<Valued>, ks: seq<Key>): seq<ConsistencyRow> {
    FlatMap(k => RowsFor(totals, declared, k), ks)
  }

  // ---------------------------------------------------------------------------
  // The consistency sheet

  /** What the consistency block produces: no sheet, an error, or the sheet. */
  datatype ConsistencySheet = NoSheet | KeyError(column: string) | Sheet(rows: seq<ConsistencyRow>)

  /** The keys of the consistency sheet: the trade keys in `groupby` order, then the summary keys not among them. */
  function SheetKeys(totals: seq<Valued>, declared: seq<Valued>): seq<Key> {
    Dedup(KeysOf(totals) + KeysOf(declared))
  }

  /** The block from the `groupby` on, with a trade table that has the key columns. */
  function Joined(ts: seq<TradeEntry>, ss: seq<SummaryEntry>): ConsistencySheet {
    var totals := TradeTotals(TradeValues(ts));
    match FirstPresent(Candidates, ss)
    case None => NoSheet
    case Some(c) =>
      var declared := DeclaredValues(ss, Candidates[c]);
      Sheet(Rows(totals, declared, SheetKeys(totals, declared)))
  }

  /**
    The block as written: there is a sheet to build when either table has an
    `invoice` column, which an empty trade table does not, so that a batch
    with summaries but no trades reaches the `groupby` without its key
    columns and raises.
  */
  function ConsistencyAsWritten(ts: seq<TradeEntry>, ss: seq<SummaryEntry>): ConsistencySheet {
    if ts == [] && ss == [] then NoSheet
    else if ts == [] then KeyError("invoice")
    else Joined(ts, ss)
  }

  /** The block as its comment describes it: a missing trade side counts as no trade rows. */
  function ConsistencyOf(ts: seq<TradeEntry>, ss: seq<SummaryEntry>): ConsistencySheet {
    if ts == [] && ss == [] then NoSheet
    else Joined(ts, ss)
  }

  // ---------------------------------------------------------------------------
  // Properties of the sheet

  /** A key without rows sums to zero. */
  lemma {:induction false} GroupSumAbsent(vs: seq<Valued>, k: Key)
    requires !KeyOccurs(vs, k)
    ensures GroupSum(vs, k) == 0.0
    decreases |vs|
  {
    if vs != [] {
      GroupSumAbsent(vs[..|vs| - 1], k);
    }
  }

  /** The trade side of every key is its one sum, zero for a key without trades, as `fillna(0)` leaves it. */
  lemma TotalSide(vs: seq<Valued>, k: Key)
    ensures LeftSide(TradeTotals(vs), k) == [Some(GroupSum(vs, k))] || LeftSide(TradeTotals(vs), k) == [None]
    ensures LeftSide(TradeTotals(vs), k)[0].GetOr(0.0) == GroupSum(vs, k)
  {
    var totals := TradeTotals(vs);
    var ks := SortedKeys(vs);
    SortedKeysSpec(vs);
    SortedDistinct(ks);
    assert KeysOf(totals) == ks;
    if k in ks {
      var i :| 0 <= i < |ks| && ks[i] == k;
      MatchingUnique(totals, k, i);
    } else {
      assert !KeyOccurs(totals, k);
      MatchingAbsent(totals, k);
      GroupSumAbsent(vs, k);
    }
  }

  /** One key with a single trade cell: one row per declared cell. */
  lemma JoinRowsSingle(k: Key, x: Option<real>, ys: seq<Option<real>>)
    ensures JoinRows(k, [x], ys) == seq(|ys|, j requires 0 <= j < |ys| => Compare(k, x.GetOr(0.0), ys[j].GetOr(0.0)))
  {
    assert [x][..0] == [];
  }

  /**
    The rows of a key: one per summary row with the key (one when there is
    none), each comparing the key's trade sum with that row's declared value.
  */
  lemma RowsForKey(vs: seq<Valued>, declared: seq<Valued>, k: Key)
    ensures var rows := RowsFor(TradeTotals(vs), declared, k);
      && |rows| == |LeftSide(declared, k)|
      && forall j :: 0 <= j < |rows| ==> rows[j] == Compare(k, GroupSum(vs, k), LeftSide(declared, k)[j].GetOr(0.0))
  {
    TotalSide(vs, k);
    JoinRowsSingle(k, LeftSide(TradeTotals(vs), k)[0], LeftSide(declared, k));
  }

  /** Every element comes from one of the keys. */
  lemma {:induction false} FlatMapFrom<T>(f: Key -> seq<T>, ks: seq<Key>, j: nat)
    requires j < |FlatMap(f, ks)|
    ensures exists i, m :: 0 <= i < |ks| && 0 <= m < |f(ks[i])| && FlatMap(f, ks)[j] == f(ks[i])[m]
    decreases |ks|
  {
    var init := ks[..|ks| - 1];
    var prev := FlatMap(f, init);
    if j < |prev| {
      FlatMapFrom(f, init, j);
      var i, m :| 0 <= i < |init| && 0 <= m < |f(init[i])| && prev[j] == f(init[i])[m];
      assert init[i] == ks[i];
    } else {
      assert FlatMap(f, ks)[j] == f(ks[|ks| - 1])[j - |prev|];
    }
  }

  /** The first element of every key is there. */
  lemma {:induction false} FlatMapHas<T>(f: Key -> seq<T>, ks: seq<Key>, i: nat)
    requires i < |ks| && f(ks[i]) != []
    ensures exists j :: 0 <= j < |FlatMap(f, ks)| && FlatMap(f, ks)[j] == f(ks[i])[0]
    decreases |ks|
  {
    var init := ks[..|ks| - 1];
    var prev := FlatMap(f, init);
    if i < |init| {
      assert init[i] == ks[i];
      FlatMapHas(f, init, i);
      var j :| 0 <= j < |prev| && prev[j] == f(init[i])[0];
      assert FlatMap(f, ks)[j] == prev[j];
    } else {
      assert FlatMap(f, ks)[|prev|] == f(ks[i])[0];
    }
  }

  /** When every key has exactly one element, the result is those elements in key order. */
  lemma {:induction false} FlatMapSingletons<T>(f: Key -> seq<T>, ks: seq<Key>)
    requires forall i :: 0 <= i < |ks| ==> |f(ks[i])| == 1
    ensures |FlatMap(f, ks)| == |ks|
    ensures forall i :: 0 <= i < |ks| ==> FlatMap(f, ks)[i] == f(ks[i])[0]
    decreases |ks|
  {
    if ks != [] {
      var init := ks[..|ks| - 1];
      forall i | 0 <= i < |init| ensures |f(init[i])| == 1 {
        assert init[i] == ks[i];
      }
      FlatMapSingletons(f, init);
    }
  }

  /** The sheet's keys are the keys of either side, none twice. */
  lemma SheetKeysSpec(vs: seq<Valued>, declared: seq<Valued>)
    ensures Distinct(SheetKeys(TradeTotals(vs), declared))
    ensures forall k :: k in SheetKeys(TradeTotals(vs), declared) <==> KeyOccurs(vs, k) || KeyOccurs(declared, k)
  {
    var totals := TradeTotals(vs);
    SortedKeysSpec(vs);
    assert KeysOf(totals) == SortedKeys(vs);
    DedupSpec(KeysOf(totals) + KeysOf(declared));
    forall k ensures k in KeysOf(declared) <==> KeyOccurs(declared, k) {
      if KeyOccurs(declared, k) {
        var i :| 0 <= i < |declared| && declared[i].key == k;
        assert KeysOf(declared)[i] == k;
      }
    }
  }

  /** Some trade row has the key. */
  ghost predicate HasTradeKey(ts: seq<TradeEntry>, k: Key) {
    exists i :: 0 <= i < |ts| && ts[i].key == k
  }

  /** Some summary row has the key. */
  ghost predicate HasSummaryKey(ss: seq<SummaryEntry>, k: Key) {
    exists i :: 0 <= i < |ss| && ss[i].key == k
  }

  /** `v` is the declared value of a summary row with the key in the column, or the 0 that fills a missing one. */
  ghost predicate DeclaredIn(ss: seq<SummaryEntry>, col: string, k: Key, v: real) {
    v == 0.0 || exists i :: 0 <= i < |ss| && ss[i].key == k && col in ss[i].values && ss[i].values[col] == v
  }

  lemma TradeKeys(ts: seq<TradeEntry>, k: Key)
    ensures KeyOccurs(TradeValues(ts), k) <==> HasTradeKey(ts, k)
  {
    var vs := TradeValues(ts);
    if HasTradeKey(ts, k) {
      var i :| 0 <= i < |ts| && ts[i].key == k;
      assert vs[i].key == k;
    }
  }

  lemma SummaryKeys(ss: seq<SummaryEntry>, col: string, k: Key)
    ensures KeyOccurs(DeclaredValues(ss, col), k) <==> HasSummaryKey(ss, k)
  {
    var vs := DeclaredValues(ss, col);
    if HasSummaryKey(ss, k) {
      var i :| 0 <= i < |ss| && ss[i].key == k;
      assert vs[i].key == k;
    }
  }

  /** A declared cell of a key comes from a summary row with the key. */
  lemma DeclaredCell(ss: seq<SummaryEntry>, col: string, k: Key, y: Option<real>)
    requires y in LeftSide(DeclaredValues(ss, col), k)
    ensures DeclaredIn(ss, col, k, y.GetOr(0.0))
  {
    var declared := DeclaredValues(ss, col);
    if y.Some? {
      MatchingFrom(declared, k);
      var i :| 0 <= i < |declared| && declared[i] == Valued(k, y);
      assert ss[i].key == k && col in ss[i].values && ss[i].values[col] == y.value;
    }
  }

  /**
    `ConsistencyOf`: there is a sheet exactly when some table has rows and
    the summary table has one of the candidate columns, and then with the
    first candidate it has: one or more rows for each key of either side
    and for no other key, each row holding the key's trade sum (zero when it
    has no trades), a declared value of that key (zero when missing), and the
    rounded difference with its status.
  */
  lemma ConsistencySheetRows(ts: seq<TradeEntry>, ss: seq<SummaryEntry>)
    ensures ConsistencyOf(ts, ss).Sheet? <==> exists c :: 0 <= c < |Candidates| && HasColumn(ss, Candidates[c])
    ensures ConsistencyOf(ts, ss).Sheet? ==>
      var col := Candidates[FirstPresent(Candidates, ss).value];
      var rows := ConsistencyOf(ts, ss).rows;
      && (forall k :: HasTradeKey(ts, k) || HasSummaryKey(ss, k) ==> exists j :: 0 <= j < |rows| && rows[j].key == k)
      && forall j :: 0 <= j < |rows| ==>
        && (HasTradeKey(ts, rows[j].key) || HasSummaryKey(ss, rows[j].key))
        && rows[j].valorTrades == GroupSum(TradeValues(ts), rows[j].key)
        && DeclaredIn(ss, col, rows[j].key, rows[j].valorDasOperacoes)
        && rows[j] == Compare(rows[j].key, rows[j].valorTrades, rows[j].valorDasOperacoes)
  {
    if ss == [] {
      assert forall c :: 0 <= c < |Candidates| ==> !HasColumn(ss, Candidates[c]);
    }
    match FirstPresent(Candidates, ss)
    case None =>
    case Some(c) =>
      var col := Candidates[c];
      var vs := TradeValues(ts);
      var totals := TradeTotals(vs);
      var declared := DeclaredValues(ss, col);
      var ks := SheetKeys(totals, declared);
      var rows := Rows(totals, declared, ks);
      assert ConsistencyOf(ts, ss) == Sheet(rows);
      SheetKeysSpec(vs, declared);
      var f := k => RowsFor(totals, declared, k);
      forall k | HasTradeKey(ts, k) || HasSummaryKey(ss, k) ensures exists j :: 0 <= j < |rows| && rows[j].key == k {
        TradeKeys(ts, k);
        SummaryKeys(ss, col, k);
        var i :| 0 <= i < |ks| && ks[i] == k;
        RowsForKey(vs, declared, k);
        FlatMapHas(f, ks, i);
      }
      forall j | 0 <= j < |rows|
        ensures && (HasTradeKey(ts, rows[j].key) || HasSummaryKey(ss, rows[j].key))
          && rows[j].valorTrades == GroupSum(vs, rows[j].key)
          && DeclaredIn(ss, col, rows[j].key, rows[j].valorDasOperacoes)
          && rows[j] == Compare(rows[j].key, rows[j].valorTrades, rows[j].valorDasOperacoes)
      {
        FlatMapFrom(f, ks, j);
        var i, m :| 0 <= i < |ks| && 0 <= m < |f(ks[i])| && rows[j] == f(ks[i])[m];
        var k := ks[i];
        RowsForKey(vs, declared, k);
        var y := LeftSide(declared, k)[m];
        CompareStatus(k, GroupSum(vs, k), y.GetOr(0.0));
        DeclaredCell(ss, col, k, y);
        TradeKeys(ts, k);
        SummaryKeys(ss, col, k);
      }
  }

  /** No two summary rows share a key. */
  ghost predicate DistinctSummaryKeys(ss: seq<SummaryEntry>) {
    forall i, j :: 0 <= i < j < |ss| ==> ss[i].key != ss[j].key
  }

  /** The declared value of the first summary row with the key, 0 when it lacks the column or there is none. */
  function DeclaredOf(ss: seq<SummaryEntry>, col: string, k: Key): real
    decreases |ss|
  {
    if ss == [] then 0.0
    else if ss[0].key == k then (if col in ss[0].values then ss[0].values[col] else 0.0)
    else DeclaredOf(ss[1..], col, k)
  }

  lemma {:induction false} DeclaredOfAt(ss: seq<SummaryEntry>, col: string, k: Key, i: nat)
    requires i < |ss| && ss[i].key == k && forall j :: 0 <= j < i ==> ss[j].key != k
    ensures DeclaredOf(ss, col, k) == if col in ss[i].values then ss[i].values[col] else 0.0
    decreases |ss|
  {
    if i > 0 {
      assert ss[1..][i - 1] == ss[i];
      DeclaredOfAt(ss[1..], col, k, i - 1);
    }
  }

  lemma {:induction false} DeclaredOfAbsent(ss: seq<SummaryEntry>, col: string, k: Key)
    requires !HasSummaryKey(ss, k)
    ensures DeclaredOf(ss, col, k) == 0.0
    decreases |ss|
  {
    if ss != [] {
      assert forall j :: 0 <= j < |ss[1..]| ==> ss[1..][j] == ss[j + 1];
      DeclaredOfAbsent(ss[1..], col, k);
    }
  }

  /** With distinct summary keys, a key has its one row: its trade sum against its declared value. */
  lemma RowForDistinctKey(vs: seq<Valued>, ss: seq<SummaryEntry>, col: string, k: Key)
    requires DistinctSummaryKeys(ss)
    ensures RowsFor(TradeTotals(vs), DeclaredValues(ss, col), k) == [Compare(k, GroupSum(vs, k), DeclaredOf(ss, col, k))]
  {
    var declared := DeclaredValues(ss, col);
    forall a, b | 0 <= a < b < |declared| ensures KeysOf(declared)[a] != KeysOf(declared)[b] {
      assert ss[a].key != ss[b].key;
    }
    RowsForKey(vs, declared, k);
    if HasSummaryKey(ss, k) {
      var i :| 0 <= i < |ss| && ss[i].key == k;
      MatchingUnique(declared, k, i);
      DeclaredOfAt(ss, col, k, i);
    } else {
      SummaryKeys(ss, col, k);
      MatchingAbsent(declared, k);
      DeclaredOfAbsent(ss, col, k);
    }
  }

  /**
    With distinct summary keys the sheet has exactly one row per key of
    either side, and each row compares the key's trade sum with the declared
    value of its summary row.
  */
  lemma ConsistencySheetDistinct(ts: seq<TradeEntry>, ss: seq<SummaryEntry>)
    requires DistinctSummaryKeys(ss)
    ensures ConsistencyOf(ts, ss).Sheet? ==>
      var col := Candidates[FirstPresent(Candidates, ss).value];
      var rows := ConsistencyOf(ts, ss).rows;
      && (forall i, j :: 0 <= i < j < |rows| ==> rows[i].key != rows[j].key)
      && forall j :: 0 <= j < |rows| ==>
        rows[j] == Compare(rows[j].key, GroupSum(TradeValues(ts), rows[j].key), DeclaredOf(ss, col, rows[j].key))
  {
    match FirstPresent(Candidates, ss)
    case None =>
    case Some(c) =>
      if !(ts == [] && ss == []) {
        var col := Candidates[c];
        var vs := TradeValues(ts);
        var totals := TradeTotals(vs);
        var declared := DeclaredValues(ss, col);
        var ks := SheetKeys(totals, declared);
        var f := k => RowsFor(totals, declared, k);
        forall i | 0 <= i < |ks| ensures |f(ks[i])| == 1 {
          RowForDistinctKey(vs, ss, col, ks[i]);
        }
        FlatMapSingletons(f, ks);
        SheetKeysSpec(vs, declared);
        var rows := Rows(totals, declared, ks);
        forall j | 0 <= j < |rows| ensures rows[j].key == ks[j]
          && rows[j] == Compare(rows[j].key, GroupSum(vs, rows[j].key), DeclaredOf(ss, col, rows[j].key))
        {
          RowForDistinctKey(vs, ss, col, ks[j]);
        }
      }
  }

  /** The block as written and as its comment describes it differ only on a batch with summaries and no trades. */
  lemma AsWrittenAgreesWithTrades(ts: seq<TradeEntry>, ss: seq<SummaryEntry>)
    ensures ts != [] || ss == [] ==> ConsistencyAsWritten(ts, ss) == ConsistencyOf(ts, ss)
    ensures ts == [] && ss != [] ==> ConsistencyAsWritten(ts, ss) == KeyError("invoice")
  {
  }

  /**
    A batch of one cash-market note: its summary row and no trade rows.  As
    written the block raises; as intended the sheet compares the note's
    declared value with a trade sum of zero.
  */
  lemma CashOnlyBatch(k: Key, values: map<string, real>)
    requires DeclaredValueKey in values
    ensures ConsistencyAsWritten([], [SummaryEntry(k, values)]) == KeyError("invoice")
    ensures ConsistencyOf([], [SummaryEntry(k, values)]) == Sheet([Compare(k, 0.0, values[DeclaredValueKey])])
  {
    var ss := [SummaryEntry(k, values)];
    DeclaredColumnChosen(ss, 0);
    var totals := TradeTotals(TradeValues([]));
    var declared := DeclaredValues(ss, DeclaredValueKey);
    var v := Some(values[DeclaredValueKey]);
    assert totals == [];
    assert declared == [Valued(k, v)];
    OneKeySheet(declared, k, v);
    JoinRowsSingle(k, None, [v]);
  }

  /** A single declared row and no trade totals: one key and its one row. */
  lemma OneKeySheet(declared: seq<Valued>, k: Key, v: Option<real>)
    requires declared == [Valued(k, v)]
    ensures SheetKeys([], declared) == [k]
    ensures Rows([], declared, [k]) == JoinRows(k, [None], [v])
  {
    var keys := KeysOf([]) + KeysOf(declared);
    assert keys == [k];
    assert keys[..0] == [];
    assert Dedup(keys) == Dedup([]) + [k];
    assert declared[..0] == [];
    assert Matching(declared, k) == Matching([], k) + [v];
    assert LeftSide(declared, k) == [v];
    var f := k' => RowsFor([], declared, k');
    assert FlatMap(f, [k]) == FlatMap(f, [k][..0]) + f(k);
  }

  // ---------------------------------------------------------------------------
  // The tables of `process_pdfs`

  /** A trade row as the consistency block reads it: it has an operation value and no adjustment value. */
  function TradeEntryOf(r: TradeRow): TradeEntry {
    TradeEntry(Key(r.invoice, r.broker, r.trade.tipo), Some(r.trade.valorOperacao), None)
  }

  function TradeEntries(rows: seq<TradeRow>): (ts: seq<TradeEntry>)
  {
    seq(|rows|, i requires 0 <= i < |rows| => TradeEntryOf(rows[i]))
  }

  function SummaryEntries(rows: seq<SummaryRow>): (ss: seq<SummaryEntry>)
  {
    seq(|rows|, i requires 0 <= i < |rows| => SummaryEntry(Key(rows[i].invoice, rows[i].broker, rows[i].tipo), rows[i].values))
  }

  /** The sum of the operation values of the trade rows with the key. */
  function OperacaoSum(rows: seq<TradeRow>, k: Key): real
    decreases |rows|
  {
    if rows == [] then 0.0
    else
      var last := rows[|rows| - 1];
      OperacaoSum(rows[..|rows| - 1], k) + if TradeEntryOf(last).key == k then last.trade.valorOperacao else 0.0
  }

  /**
    The `valor_trades` of a trade row of `process_pdfs` is its operation
    value, whatever its D/C column says: the table has no adjustment column.
  */
  lemma ProcessedValorTrades(rows: seq<TradeRow>)
    ensures forall i :: 0 <= i < |rows| ==>
      TradeValues(TradeEntries(rows))[i] == Valued(TradeEntryOf(rows[i]).key, Some(rows[i].trade.valorOperacao))
  {
    var ts := TradeEntries(rows);
    if rows != [] {
      assert ts[0].operacao.Some?;
    }
  }

  lemma {:induction false} GroupSumOfOperacao(vs: seq<Valued>, rows: seq<TradeRow>, k: Key)
    requires |vs| == |rows|
    requires forall i :: 0 <= i < |rows| ==> vs[i] == Valued(TradeEntryOf(rows[i]).key, Some(rows[i].trade.valorOperacao))
    ensures GroupSum(vs, k) == OperacaoSum(rows, k)
    decreases |rows|
  {
    if rows != [] {
      var n := |rows| - 1;
      assert forall i :: 0 <= i < n ==> vs[..n][i] == vs[i] && rows[..n][i] == rows[i];
      GroupSumOfOperacao(vs[..n], rows[..n], k);
    }
  }

  /**
    Reconciling what `process_pdfs` returns.  As its comment intends, the
    block builds a sheet exactly when some note was processed, and since
    every summary declares zero, each row's declared value is 0 and its trade
    value the sum of the operation values of the key's trades; a row is OK
    only when those sum to at most half a hundredth.  As written, the block
    raises KeyError 'invoice' exactly when notes were processed but none of
    them had trades, and otherwise builds that same sheet.
  */
  lemma ProcessedSheet(o: Oracles, brokers: seq<BrokerConfig>, disk: Disk, files: seq<string>)
    ensures var b := Processed(o, brokers, disk, files);
      var sheet := ConsistencyOf(TradeEntries(b.trades), SummaryEntries(b.summaries));
      var asWritten := ConsistencyAsWritten(TradeEntries(b.trades), SummaryEntries(b.summaries));
      && (sheet.Sheet? <==> b.summaries != [])
      && (sheet.Sheet? ==> forall j :: 0 <= j < |sheet.rows| ==>
        && sheet.rows[j].valorDasOperacoes == 0.0
        && sheet.rows[j].valorTrades == OperacaoSum(b.trades, sheet.rows[j].key)
        && (sheet.rows[j].status == Ok <==> -0.005 <= sheet.rows[j].valorTrades <= 0.005))
      && (asWritten == KeyError("invoice") <==> b.trades == [] && b.summaries != [])
      && (asWritten != KeyError("invoice") ==> asWritten == sheet)
  {
    var b := Processed(o, brokers, disk, files);
    ProcessedShape(o, brokers, disk, files);
    ZeroBatchSheet(b.trades, b.summaries);
  }

  /**
    The sheet of any batch whose summaries all declare zero and which has
    summaries whenever it has trades, built by the block as intended and as
    written.
  */
  lemma ZeroBatchSheet(trades: seq<TradeRow>, summaries: seq<SummaryRow>)
    requires forall s :: s in summaries ==> ZeroSummary(s.values)
    requires trades != [] ==> summaries != []
    ensures var sheet := ConsistencyOf(TradeEntries(trades), SummaryEntries(summaries));
      var asWritten := ConsistencyAsWritten(TradeEntries(trades), SummaryEntries(summaries));
      && (asWritten == KeyError("invoice") <==> trades == [] && summaries != [])
      && (asWritten != KeyError("invoice") ==> asWritten == sheet)
      && (sheet.Sheet? <==> summaries != [])
      && (sheet.Sheet? ==> forall j :: 0 <= j < |sheet.rows| ==>
        && sheet.rows[j].valorDasOperacoes == 0.0
        && sheet.rows[j].valorTrades == OperacaoSum(trades, sheet.rows[j].key)
        && (sheet.rows[j].status == Ok <==> -0.005 <= sheet.rows[j].valorTrades <= 0.005))
  {
    var ts := TradeEntries(trades);
    var ss := SummaryEntries(summaries);
    forall i | 0 <= i < |ss| ensures ZeroSummary(ss[i].values) {
      assert summaries[i] in summaries;
    }
    if summaries != [] {
      DeclaredColumnChosen(ss, 0);
    }
    ConsistencySheetRows(ts, ss);
    AsWrittenAgreesWithTrades(ts, ss);
    var sheet := ConsistencyOf(ts, ss);
    if sheet.Sheet? {
      ProcessedValorTrades(trades);
      forall j | 0 <= j < |sheet.rows|
        ensures && sheet.rows[j].valorDasOperacoes == 0.0
          && sheet.rows[j].valorTrades == OperacaoSum(trades, sheet.rows[j].key)
          && (sheet.rows[j].status == Ok <==> -0.005 <= sheet.rows[j].valorTrades <= 0.005)
      {
        var r := sheet.rows[j];
        GroupSumOfOperacao(TradeValues(ts), trades, r.key);
        CompareStatus(r.key, r.valorTrades, r.valorDasOperacoes);
      }
    }
  }

  // ---------------------------------------------------------------------------
  // The directory listing

  /** `f.lower().endswith(".pdf")`. */
  predicate IsPdfName(f: string) {
    var l := LowerAscii(f);
    |l| >= 4 && l[|l| - 4..] == ".pdf"
  }

  /** The filter ignores case: names that differ only in the case of their letters are kept alike, so "nota.PDF" is kept. */
  lemma PdfNameIgnoresCase(f: string, g: string, stem: string)
    requires SameUpToCase(f, g)
    ensures IsPdfName(f) <==> IsPdfName(g)
    ensures IsPdfName(stem + ".PDF") && IsPdfName(stem + ".Pdf")
    ensures !IsPdfName(stem + ".pdf ")
  {
    LowerAsciiNormalForm(f, g);
    var u := LowerAscii(stem + ".PDF");
    assert u[|u| - 4..] == ".pdf" by {
      assert forall k :: 0 <= k < 4 ==> u[|stem| + k] == ".pdf"[k];
    }
    var v := LowerAscii(stem + ".Pdf");
    assert v[|v| - 4..] == ".pdf" by {
      assert forall k :: 0 <= k < 4 ==> v[|stem| + k] == ".pdf"[k];
    }
    var w := LowerAscii(stem + ".pdf ");
    assert w[|w| - 1] == ' ';
  }

  /** The PDF files of a directory listing, joined to the directory, in listing order. */
  function PdfFiles(directory: string, names: seq<string>): seq<string>
    decreases |names|
  {
    if names == [] then []
    else
      var rest := PdfFiles(directory, names[..|names| - 1]);
      var f := names[|names| - 1];
      if IsPdfName(f) then rest + [PosixJoin(directory, f)] else rest
  }

  /**
    The listing keeps exactly the names ending in ".pdf" in any case, each
    joined to the directory; it is empty, and the run stops, exactly when
    there is no such name.
  */
  lemma {:induction false} PdfFilesSpec(directory: string, names: seq<string>)
    ensures PdfFiles(directory, names) == [] <==> forall i :: 0 <= i < |names| ==> !IsPdfName(names[i])
    ensures forall p :: p in PdfFiles(directory, names) <==>
      exists i :: 0 <= i < |names| && IsPdfName(names[i]) && p == PosixJoin(directory, names[i])
    decreases |names|
  {
    if names != [] {
      var init := names[..|names| - 1];
      PdfFilesSpec(directory, init);
      assert forall i :: 0 <= i < |init| ==> init[i] == names[i];
    }
  }
}
