/**
  `classify_invoice_type`: an ordered keyword rule over the invoice text
  after it has been lower-cased and stripped of accents.  The
  normalisation itself (Unicode decomposition) is an input here: the rule
  is stated over the normalised text.
*/
module Classifier {
  import opened Text

  /** The three answers of the classifier: "avista", "bmf" and "unknown". */
  datatype InvoiceType = AVista | Bmf | Unknown

  /** The phrases of a cash-market ("à vista") note, any one of which suffices. */
  const AVistaPhrases: seq<string> := ["negocios realizados", "resumo dos negocios", "negocios efetuados"]

  /** The two phrases that together mark a BM&F (futures) note. */
  const BmfGoodsPhrase: string := "c/v mercadoria vencimento"
  const BmfAdjustPhrase: string := "ajuste de posicao"

  /** `pat` occurs somewhere in `text`, stated by position. */
  ghost predicate Mentions(text: string, pat: string) {
    exists i :: OccursAt(text, pat, i)
  }

  ghost predicate MentionsAVista(text: string) {
    Mentions(text, AVistaPhrases[0]) || Mentions(text, AVistaPhrases[1]) || Mentions(text, AVistaPhrases[2])
  }

  ghost predicate MentionsBmf(text: string) {
    Mentions(text, BmfGoodsPhrase) && Mentions(text, BmfAdjustPhrase)
  }

  /**
    The classification of a normalised text: a cash-market phrase wins even
    when both BM&F phrases are present; BM&F needs both of its phrases;
    anything else is unknown.
  */
  function Classify(normalized: string): (r: InvoiceType)
    ensures r == AVista <==> MentionsAVista(normalized)
    ensures r == Bmf <==> !MentionsAVista(normalized) && MentionsBmf(normalized)
    ensures r == Unknown <==> !MentionsAVista(normalized) && !MentionsBmf(normalized)
  {
    if Contains(normalized, AVistaPhrases[0]) || Contains(normalized, AVistaPhrases[1])
      || Contains(normalized, AVistaPhrases[2])
    then AVista
    else if Contains(normalized, BmfGoodsPhrase) && Contains(normalized, BmfAdjustPhrase) then Bmf
    else Unknown
  }

  /** An occurrence survives putting text before and after. */
  lemma MentionsInContext(a: string, t: string, b: string, pat: string)
    requires Mentions(t, pat)
    ensures Mentions(a + t + b, pat)
  {
    assert Contains(t, pat);
    ContainsInConcat(a, t, pat);
    ContainsInConcat(a + t, b, pat);
    assert Contains(a + t + b, pat);
  }

  /** A cash-market note stays one whatever text surrounds it. */
  lemma AVistaInContext(a: string, t: string, b: string)
    requires Classify(t) == AVista
    ensures Classify(a + t + b) == AVista
  {
    if Mentions(t, AVistaPhrases[0]) {
      MentionsInContext(a, t, b, AVistaPhrases[0]);
    } else if Mentions(t, AVistaPhrases[1]) {
      MentionsInContext(a, t, b, AVistaPhrases[1]);
    } else {
      MentionsInContext(a, t, b, AVistaPhrases[2]);
    }
  }

  /**
    A BM&F note with surrounding text is never unknown: it stays BM&F unless
    the added text mentions a cash-market phrase, which then takes precedence.
  */
  lemma BmfInContext(a: string, t: string, b: string)
    requires Classify(t) == Bmf
    ensures Classify(a + t + b) != Unknown
  {
    MentionsInContext(a, t, b, BmfGoodsPhrase);
    MentionsInContext(a, t, b, BmfAdjustPhrase);
  }

  /** Any text holding "negocios realizados" is a cash-market note, BM&F phrases or not. */
  lemma CashPhraseWins(a: string, b: string)
    ensures Classify(a + AVistaPhrases[0] + b) == AVista
  {
    var p := AVistaPhrases[0];
    assert OccursAt(p, p, 0);
    MentionsInContext(a, p, b, p);
  }

  /** Both BM&F phrases and no cash-market phrase give a BM&F note. */
  lemma BmfPhrasesGiveBmf(text: string, i: nat, j: nat)
    requires OccursAt(text, BmfGoodsPhrase, i) && OccursAt(text, BmfAdjustPhrase, j)
    requires !MentionsAVista(text)
    ensures Classify(text) == Bmf
  {
  }

  /** The empty text is unknown. */
  lemma EmptyIsUnknown()
    ensures Classify("") == Unknown
  {
    assert !Mentions("", BmfGoodsPhrase);
    assert forall p: string :: p != [] ==> !Mentions("", p);
  }
}
