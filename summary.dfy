/**
  The summary block of a note: the normalised summary labels and the
  summary every parser returns, each label mapped to zero.
*/
module Summary {

  /** The normalised labels, the keys of `RESUMO_KEY_MAP`, in table order. */
  const ResumoKeys: seq<string> := [
    "Deb\U{EA}ntures",
    "Vendas \U{E0} Vista",
    "Compras \U{E0} Vista",
    "Op\U{E7}\U{F5}es - compras",
    "Op\U{E7}\U{F5}es - vendas",
    "Opera\U{E7}\U{F5}es \U{E0} termo",
    "Valor das oper. c/ t\U{ED}tulos p\U{FA}bl. (v. nom.)",
    "Valor das opera\U{E7}\U{F5}es",
    "Valor l\U{ED}quido das opera\U{E7}\U{F5}es",
    "Taxa de liquida\U{E7}\U{E3}o",
    "Taxa de Registro",
    "Total CBLC",
    "Taxa de termo/op\U{E7}\U{F5}es",
    "Taxa A.N.A.",
    "Emolumentos",
    "Total Bovespa / Soma",
    "Clearing",
    "Execu\U{E7}\U{E3}o",
    "Execu\U{E7}\U{E3}o casa",
    "Corretagem",
    "ISS",
    "IRRF sobre opera\U{E7}\U{F5}es",
    "Outras",
    "Total corretagem / Despesas",
    "Valor a ser Liquidado"
  ]

  /** The summary label that carries a note's declared traded value. */
  const DeclaredValueKey: string := "Valor das opera\U{E7}\U{F5}es"

  /** The alternative declared-value label, which no parser produces. */
  const BusinessValueKey: string := "Valor dos neg\U{F3}cios"

  /** `_extract_summary_values(text)` of the base parser: every label, valued zero, whatever the text. */
  function BaseSummary(): map<string, real>
  {
    map k | k in ResumoKeys :: 0.0
  }

  /** A summary that declares a traded value and values every label zero. */
  ghost predicate ZeroSummary(m: map<string, real>) {
    DeclaredValueKey in m && forall k :: k in m ==> m[k] == 0.0
  }

  /** The base summary declares a traded value of zero and is never empty, so every parsed note gets a summary row. */
  lemma BaseSummaryDeclaresZero()
    ensures ZeroSummary(BaseSummary())
    ensures |BaseSummary()| > 0
  {
    assert ResumoKeys[7] == DeclaredValueKey;
  }

  /** The alternative declared-value label is not a summary label. */
  lemma BusinessValueAbsent()
    ensures BusinessValueKey !in BaseSummary()
  {
    forall k | k in ResumoKeys ensures k != BusinessValueKey {
      if |k| == |BusinessValueKey| {
        assert k == ResumoKeys[9];
        assert k[0] != BusinessValueKey[0];
      }
    }
  }
}
