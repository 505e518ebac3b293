/**
 * The two-tier resolution of one search: the local knowledge base first,
 * then, only on a local miss and with an API key, the generative model,
 * whose reply is read by the parser. The model call is a parameter that
 * either returns the reply's text or fails with an error message.
 */
module Resolver {
  import opened Wrappers
  import opened Text
  import opened KnowledgeBase
  import opened AiParser

  /** Where a shown record came from. */
  datatype Origin = Local | Ai

  /** What one run of the search shows. */
  datatype Outcome =
    | Idle                              // the search box is empty: nothing happens
    | Shown(record: Record, origin: Origin)
    | NeedsApiKey                       // local miss and no key: the "connect your API key" warning
    | AiError(message: string)          // the model call failed: the connection error

  /** The model call: the prompt in, the reply's text or an error message out. */
  type Generator = string -> Result<string, string>

  const Indent := "                "
  const PromptIntro := "\n" + Indent + "Actúa como experto DevOps. Usuario quiere: "
  const RulesHead := ".\n" + Indent + "Responde EXCLUSIVAMENTE con este formato exacto:\n" + Indent
  const MacHint := " [comando zsh]\n" + Indent
  const WinHint := " [comando powershell]\n" + Indent
  const DescHint := " [explicación muy breve]\n" + Indent + "WARN: [Si es peligroso pon 'SI', si no 'NO']\n" + Indent
  /** Everything after the quoted query: the format rules, one line per field. */
  const FormatRules := RulesHead + MacLabel + MacHint + WinLabel + WinHint + DescLabel + DescHint

  /**
   * The prompt sent to the model: the quoted query as typed, not
   * normalized, then one line per field of the requested reply.
   */
  function Prompt(query: string): (r: string)
    ensures |r| == |PromptIntro| + |query| + 2 + |FormatRules|
    ensures r[|PromptIntro| + 1..|PromptIntro| + 1 + |query|] == query
  {
    PromptIntro + "'" + query + "'" + FormatRules
  }

  /** The prompt carries the raw query between quotes. */
  lemma PromptQuotesQuery(query: string, prompt: string)
    requires prompt == Prompt(query)
    ensures Contains(prompt, "'" + query + "'")
  {
    QuoteIn(prompt, PromptIntro, query, FormatRules);
  }

  lemma QuoteIn(t: string, intro: string, q: string, rest: string)
    requires t == intro + "'" + q + "'" + rest
    ensures Contains(t, "'" + q + "'")
  {
    ContainsMiddle(t, intro, "'" + q + "'", rest);
  }

  /** The prompt asks for each marker the parser reads. */
  lemma PromptAsksForEveryMarker(query: string, prompt: string)
    requires prompt == Prompt(query)
    ensures Contains(prompt, MacLabel) && Contains(prompt, WinLabel) && Contains(prompt, DescLabel)
  {
    var quoted := PromptIntro + "'" + query + "'";
    MarkersInOrder(FormatRules, RulesHead, MacLabel, MacHint, WinLabel, WinHint, DescLabel, DescHint);
    assert prompt == quoted + FormatRules + [];
    ContainsMiddle(prompt, quoted, FormatRules, []);
    ContainsTransitive(prompt, FormatRules, MacLabel);
    ContainsTransitive(prompt, FormatRules, WinLabel);
    ContainsTransitive(prompt, FormatRules, DescLabel);
  }

  lemma MarkersInOrder(t: string, head: string, m: string, mh: string, w: string, wh: string, d: string, dh: string)
    requires t == head + m + mh + w + wh + d + dh
    ensures Contains(t, m) && Contains(t, w) && Contains(t, d)
  {
    assert t == head + m + (mh + w + wh + d + dh);
    ContainsMiddle(t, head, m, mh + w + wh + d + dh);
    assert t == (head + m + mh) + w + (wh + d + dh);
    ContainsMiddle(t, head + m + mh, w, wh + d + dh);
    ContainsMiddle(t, head + m + mh + w + wh, d, dh);
  }

  /** The model tier runs only for a non-empty query that misses locally, with a non-empty key. */
  predicate ConsultsAi(table: Table, query: string, apiKey: string) {
    query != "" && Find(table, Normalize(query)).None? && apiKey != ""
  }

  /** The record built from a model reply: named after the query as typed. */
  function AiRecord(query: string, reply: string): Record {
    var p := Parse(reply);
    Record(query, p.mac, p.win, p.desc)
  }

  /** What a search shows, as a function of its inputs. */
  function Answer(table: Table, query: string, apiKey: string, generate: Generator): (r: Outcome)
    ensures r == Idle <==> query == ""
    ensures r.Shown? && r.origin == Local <==> query != "" && Find(table, Normalize(query)).Some?
    ensures r.Shown? && r.origin == Local ==> Find(table, Normalize(query)) == Some(r.record)
    ensures r.Shown? && r.origin == Ai ==> r.record.nombre == query
  {
    if query == "" then Idle
    else match Find(table, Normalize(query))
      case Some(r) => Shown(r, Local)
      case None =>
        if apiKey == "" then NeedsApiKey
        else match generate(Prompt(query))
          case Ok(text) => Shown(AiRecord(query, text), Ai)
          case Err(e) => AiError(e)
  }

  /**
   * One run of the search: normalize and look up locally; on a miss with a
   * key, call the model once and parse its reply; then decide what to show.
   * `aiCalls` counts the model calls made.
   */
  method Resolve(table: Table, query: string, apiKey: string, generate: Generator)
    returns (outcome: Outcome, aiCalls: nat)
    ensures outcome == Answer(table, query, apiKey, generate)
    ensures aiCalls == if ConsultsAi(table, query, apiKey) then 1 else 0
  {
    outcome := Idle;
    aiCalls := 0;
    if query == "" {
      return;
    }
    var q := Normalize(query);
    var result := Lookup(table, q);
    var origin := Local;
    var failure: Option<string> := None;
    if result.None? && apiKey != "" {
      aiCalls := aiCalls + 1;
      match generate(Prompt(query))
      case Ok(text) =>
        var p := Parse(text);
        result := Some(Record(query, p.mac, p.win, p.desc));
        origin := Ai;
      case Err(e) =>
        failure := Some(e);
    }
    if result.Some? {
      outcome := Shown(result.value, origin);
    } else if apiKey == "" {
      outcome := NeedsApiKey;
    } else if failure.Some? {
      outcome := AiError(failure.value);
    }
  }

  // ---------------------------------------------------------------------------
  // Properties of the resolution
  // ---------------------------------------------------------------------------

  /** A local hit is shown as local, whatever the key and whatever the model would say. */
  lemma LocalHitIgnoresAi(table: Table, query: string, apiKey: string, g1: Generator, g2: Generator)
    requires query != "" && Find(table, Normalize(query)).Some?
    ensures Answer(table, query, apiKey, g1) == Answer(table, query, "", g2)
    ensures Answer(table, query, apiKey, g1) == Shown(Find(table, Normalize(query)).value, Local)
  {
  }

  /** A local record is the first table entry whose phrase contains the normalized query. */
  lemma LocalRecordIsFirstMatch(table: Table, query: string, apiKey: string, generate: Generator, r: Record)
    requires Answer(table, query, apiKey, generate) == Shown(r, Local)
    ensures exists i :: IsFirstMatch(table, Normalize(query), i) && r == RecordAt(table, i)
  {
    var q := Normalize(query);
    assert Find(table, q) == Some(r);
    var i := FirstContaining(Keys(table), q).value;
    assert IsFirstMatch(table, q, i);
    assert r == RecordAt(table, i);
  }

  /**
   * The model's reply matters only when the model is consulted, and then
   * only through what the parser reads from it.
   */
  lemma AiMattersOnlyWhenConsulted(table: Table, query: string, apiKey: string, g1: Generator, g2: Generator)
    ensures !ConsultsAi(table, query, apiKey) ==> Answer(table, query, apiKey, g1) == Answer(table, query, apiKey, g2)
    ensures g1(Prompt(query)).Ok? && g2(Prompt(query)).Ok? &&
            Parse(g1(Prompt(query)).value) == Parse(g2(Prompt(query)).value) ==>
              Answer(table, query, apiKey, g1) == Answer(table, query, apiKey, g2)
  {
  }

  /** The key warning is shown exactly for a non-empty query that no phrase contains, without a key. */
  lemma WarningIff(table: Table, query: string, apiKey: string, generate: Generator)
    ensures Answer(table, query, apiKey, generate) == NeedsApiKey <==>
              query != "" && apiKey == "" &&
              forall j :: 0 <= j < |table| ==> !Contains(table[j].0, Normalize(query))
  {
    if query != "" {
      var q := Normalize(query);
      assert Find(table, q).None? <==> forall j :: 0 <= j < |table| ==> !Contains(table[j].0, q);
    }
  }

  /** A record from the model is named after the raw query and carries the parsed reply. */
  lemma AiShownIff(table: Table, query: string, apiKey: string, generate: Generator, r: Record)
    ensures Answer(table, query, apiKey, generate) == Shown(r, Ai) <==>
              ConsultsAi(table, query, apiKey) && generate(Prompt(query)).Ok? &&
              r.nombre == query && Parsed(r.mac, r.win, r.desc) == Parse(generate(Prompt(query)).value)
  {
  }

  /** A failed model call shows its error and no record. */
  lemma AiErrorIff(table: Table, query: string, apiKey: string, generate: Generator, e: string)
    ensures Answer(table, query, apiKey, generate) == AiError(e) <==>
              ConsultsAi(table, query, apiKey) && generate(Prompt(query)) == Err(e)
  {
  }

  /** A blank-only query is not empty, so it runs, and it shows the first entry from the local table. */
  lemma BlankQueryShowsFirstEntry(query: string, apiKey: string, generate: Generator)
    requires query != [] && AllSpace(query)
    ensures Answer(Commands, query, apiKey, generate) ==
            Shown(Record("listar archivos", "ls -la", "dir /a", "Lista todos los archivos, incluyendo los ocultos."), Local)
  {
    WhitespaceQueryHitsFirstEntry(query);
  }

  /** " Archivo" shows "listar archivos" locally, the first of the phrases that contain it. */
  lemma ArchivoQueryShowsFirstEntry(query: string, apiKey: string, generate: Generator)
    requires Normalize(query) == "archivo"
    ensures Answer(Commands, query, apiKey, generate) ==
            Shown(Record("listar archivos", "ls -la", "dir /a", "Lista todos los archivos, incluyendo los ocultos."), Local)
  {
    ArchivoQueryFindsFirstOfSeveral(query);
  }

  /** "IP" shows "mi ip" locally: a substring of a phrase is enough for a hit. */
  lemma IpQueryShowsMiIp(query: string, apiKey: string, generate: Generator)
    requires Normalize(query) == "ip"
    ensures Answer(Commands, query, apiKey, generate) ==
            Shown(Record("mi ip", "ifconfig | grep inet", "ipconfig", "Muestra tu configuración de red y dirección IP."), Local)
  {
    IpQueryFindsMiIp(query);
  }

  /** A reply in the requested shape round-trips into the shown record. */
  lemma WellFormedReplyIsShown(table: Table, query: string, apiKey: string, generate: Generator, p: Parsed, warn: string)
    requires ConsultsAi(table, query, apiKey)
    requires generate(Prompt(query)) == Ok(Reply(p, warn))
    requires Trimmed(p.mac) && Trimmed(p.win) && Trimmed(p.desc)
    requires MarkerFree(p.mac) && MarkerFree(p.win) && MarkerFree(p.desc) && MarkerFree(warn)
    requires '\n' !in p.mac && '\n' !in p.win && '\n' !in p.desc && '\n' !in warn
    ensures Answer(table, query, apiKey, generate) == Shown(Record(query, p.mac, p.win, p.desc), Ai)
  {
    ParseReply(p, warn);
  }

  /** A reply with no markers at all still shows a record, made of the fallbacks. */
  lemma MarkerlessReplyIsShown(table: Table, query: string, apiKey: string, generate: Generator, text: string)
    requires ConsultsAi(table, query, apiKey)
    requires generate(Prompt(query)) == Ok(text) && MarkerFree(text)
    ensures Answer(table, query, apiKey, generate) == Shown(Record(query, NotFound, NotFound, AiDescription), Ai)
  {
    MissingLabelsFallBack(text);
  }
}
