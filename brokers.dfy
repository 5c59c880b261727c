/**
  The broker table and broker recognition: each supported broker is a
  configuration of regular expressions, and a note belongs to the first
  broker in table order one of whose signature patterns occurs in its text.
*/
module Brokers {
  import opened Wrappers
  import opened Patterns

  /** `BrokerConfig`, without its client patterns, which every broker leaves empty and nothing reads. */
  datatype BrokerConfig = BrokerConfig(
    name: string,
    invoicePatterns: seq<string>,
    datePatterns: seq<string>,
    tradeStartMarker: string,
    tradeEndMarker: string,
    signaturePatterns: seq<string>)

  /** The trading-date patterns of BTG, AGORA and XP; ITAU differs only in the capital P. */
  const DatePatterns: seq<string> := [
    "Data\\s+preg[a\U{E3}]o\\s*(?:\\n|\\r|\\s)*(\\d{2}/\\d{2}/\\d{4})",
    "(\\d{2}/\\d{2}/\\d{4})"
  ]

  const Btg := BrokerConfig(
    "BTG",
    [ "Nota\\s+de\\s+Negocia\U{E7}\U{E3}o\\s+N(?:\U{BA}|o|\\u00b0)?\\s*[:\\-]?\\s*(\\d+)",
      "Nr\\.?\\s*nota\\s*[:\\-]?\\s*(\\d+)",
      "Nota\\s*[:\\-]?\\s*(\\d+)" ],
    DatePatterns,
    "Neg\U{F3}cios realizados",
    "Resumo dos Neg\U{F3}cios",
    ["BTG\\s+Pactual", "BTG\\s+Corretora"])

  const Itau := BrokerConfig(
    "ITAU",
    ["Nr\\.?\\s*Nota\\s*(?:Folha)?\\s*(?:\\d+\\s+)?(\\d+)"],
    ["Data\\s+Preg[a\U{E3}]o\\s*(?:\\n|\\r|\\s)*(\\d{2}/\\d{2}/\\d{4})", "(\\d{2}/\\d{2}/\\d{4})"],
    "Neg\U{F3}cios Realizados",
    "Resumo de neg\U{F3}cios",
    ["Ita[\U{FA}u]\\s+Corretora", "ITA[\U{DA}U] UNIBANCO"])

  const Agora := BrokerConfig(
    "AGORA",
    [ "Nota\\s+de\\s+Corretagem\\s*Nr\\.?\\s*Nota\\s*(?:Folha)?\\s*(?:\\d+\\s+)?(\\d+)",
      "Nr\\.?\\s*Nota\\s*(?:\\d+\\s+)?(\\d+)" ],
    DatePatterns,
    "Negocios Realizados",
    "Resumo dos Neg\U{F3}cios",
    ["AGORA\\s+CORRETORA", "agorainvestimentos\\.com\\.br"])

  const Xp := BrokerConfig(
    "XP",
    [ "NOTA\\s+DE\\s+NEGOCIA[\U{C7}C][A\U{C3}]O\\s*Nr\\.?\\s*nota\\s*(\\d+)",
      "Nr\\.?\\s*nota\\s*(\\d+)" ],
    DatePatterns,
    "Neg\U{F3}cios realizados",
    "Resumo dos Neg\U{F3}cios",
    ["XP\\s+INVESTIMENTOS\\s+CORRETORA", "xpi\\.com\\.br"])

  /** `register_parsers`: the brokers in the order they are tried. */
  const Registered: seq<BrokerConfig> := [Btg, Itau, Agora, Xp]

  /** Some pattern of the list occurs in the text. */
  function AnyMatches(search: Search, patterns: seq<string>, flags: Flags, text: string): (r: bool)
    ensures r <==> exists k :: 0 <= k < |patterns| && search(patterns[k], flags, text).Some?
    decreases |patterns|
  {
    if patterns == [] then false
    else if search(patterns[0], flags, text).Some? then true
    else
      var r := AnyMatches(search, patterns[1..], flags, text);
      assert forall k :: 1 <= k < |patterns| ==> patterns[k] == patterns[1..][k - 1];
      r
  }

  /** Some pattern matches exactly when there is a first matching one. */
  lemma AnyMatchesIffFirstCapture(search: Search, patterns: seq<string>, flags: Flags, text: string)
    ensures AnyMatches(search, patterns, flags, text) <==> FirstCapture(search, patterns, flags, text).Some?
    decreases |patterns|
  {
    if patterns != [] && search(patterns[0], flags, text).None? {
      AnyMatchesIffFirstCapture(search, patterns[1..], flags, text);
      ShiftFirstMatching(search, patterns, flags, text);
      assert AnyMatches(search, patterns, flags, text) == AnyMatches(search, patterns[1..], flags, text);
    }
  }

  /** `_match_broker_by_signature(text, parser)`: one of the broker's signatures occurs, case-insensitively. */
  function MatchBrokerBySignature(search: Search, text: string, config: BrokerConfig): (r: bool)
    ensures r <==> exists k ::
      0 <= k < |config.signaturePatterns| && search(config.signaturePatterns[k], IgnoreCase, text).Some?
  {
    AnyMatches(search, config.signaturePatterns, IgnoreCase, text)
  }

  /** Broker `k` is the first of `brokers` whose signature occurs in the text. */
  ghost predicate IsFirstBroker(search: Search, brokers: seq<BrokerConfig>, text: string, k: int) {
    && 0 <= k < |brokers|
    && MatchBrokerBySignature(search, text, brokers[k])
    && forall j :: 0 <= j < k ==> !MatchBrokerBySignature(search, text, brokers[j])
  }

  /** The position of the broker that claims the note: the first whose signature matches. */
  function SelectBroker(search: Search, brokers: seq<BrokerConfig>, text: string): (r: Option<nat>)
    ensures r.Some? ==> IsFirstBroker(search, brokers, text, r.value)
    ensures r.None? ==> forall k :: 0 <= k < |brokers| ==> !MatchBrokerBySignature(search, text, brokers[k])
    decreases |brokers|
  {
    if brokers == [] then None
    else if MatchBrokerBySignature(search, text, brokers[0]) then Some(0)
    else
      match SelectBroker(search, brokers[1..], text)
      case None =>
        assert forall k :: 1 <= k < |brokers| ==> brokers[k] == brokers[1..][k - 1];
        None
      case Some(k) =>
        assert forall j :: 1 <= j < k + 1 ==> brokers[j] == brokers[1..][j - 1];
        Some(k + 1)
  }

  /** The selected broker is unique: no other position is the first to match. */
  lemma FirstBrokerUnique(search: Search, brokers: seq<BrokerConfig>, text: string, k: int, k': int)
    requires IsFirstBroker(search, brokers, text, k) && IsFirstBroker(search, brokers, text, k')
    ensures k == k'
  {
  }

  /** A note carrying a BTG signature is claimed by BTG, whatever other signatures it carries. */
  lemma BtgClaimsFirst(search: Search, text: string)
    requires search(Btg.signaturePatterns[0], IgnoreCase, text).Some?
    ensures SelectBroker(search, Registered, text) == Some(0)
  {
    assert MatchBrokerBySignature(search, text, Registered[0]);
  }
}
