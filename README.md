# CoreShell command lookup: a verified model

CoreShell is a small Streamlit app that maps a question written in Spanish
("listar archivos", "mi ip") to the matching macOS/Linux and Windows shell
commands. This project models its decision logic in Dafny and proves
properties of it:

- **Local knowledge base** (`knowledge_base.dfy`). The app holds a 20-entry
  table of phrases, kept in insertion order. A query is lower-cased and
  stripped. The first phrase that contains it as a substring gives the
  record, and the record is named after that phrase. `Lookup` is the loop.
  It is proved equal to the specification function `Find`.
- **Reply parser** (`ai_parser.dfy`). The reply is split on `'\n'`. For
  each marker `MAC:`, `WIN:` and `DESC:`, the first line that carries the
  marker gives the field. The field is the stripped text after the marker,
  up to the marker's next occurrence on that line. A missing marker gives
  `"No encontrado"` for the two commands and `"Comando generado por IA"`
  for the description. `WARN:` is never read.
- **Two-tier resolution** (`resolver.dfy`):
  - An empty query does nothing.
  - A local hit is shown as local.
  - On a miss with a non-empty API key, the model is called once with a
    prompt that quotes the raw query, and its parsed reply is shown under
    the raw query's name.
  - A failed call shows its error.
  - A miss without a key shows the "connect your API key" warning.
  
  `Resolve` is the imperative flow. It is proved equal to the function
  `Answer` and counts its model calls.
- **Favorites toolbox** (`favorites.dfy`). The class `Toolbox` holds the
  session list (`items`) and the list last written to browser storage
  (`saved`).
  - Saving appends a record unless a favorite already has its name, then
    writes the list out.
  - Deleting pops position `i` and writes the list out.
  - Each run's restore adopts the stored list only when that list is
    non-empty and the session list is empty.
- **Python string operations** (`text.dfy`). `str.lower`, `str.strip`,
  `sub in s` and `find`, `str.split(sep)` and `sep.join`, each with its own
  lemmas. The parser's `split(marker)[1]` idiom is `AiParser.AfterLabel`
  in `ai_parser.dfy`. `wrappers.dfy` holds `Option` and `Result`.

These inputs become parameters:
- The model call (`generate_content`) is a function
  `string -> Result<string, string>`. An `Err` stands for any exception the
  call raises.
- The API key is a string.
- The value the storage bridge returns on a run is a list of records.

## Model

| member | source | states |
|---|---|---|
| KnowledgeBase.CommandsLayout | app.py:69-97 | the table `Commands` holds the dict literal's 20 entries verbatim and in insertion order, as four sections of 6, 5, 6 and 3 entries; the network section starts right after the file section |
| KnowledgeBase.CommandsUniqueKeys | app.py:69-97 | no phrase of the built-in table appears twice, as a dict literal requires |
| KnowledgeBase.PhraseListsApart | app.py:69-97 | the four sections' phrases repeat nothing within a section or across sections |
| KnowledgeBase.UniqueConcat | app.py:69-97 | tables with distinct phrases and none in common join into one with distinct phrases |
| KnowledgeBase.Normalize | app.py:166 | the normalized query has no whitespace at either end |
| KnowledgeBase.NormalizeExample | app.py:166 | "  IP " normalizes to "ip": case and surrounding blanks are ignored |
| KnowledgeBase.RecordAt | app.py:173 | the record built for entry `i`: named after the entry's phrase, with its three fields (no contract of its own; its meaning is fixed by `Find`) |
| KnowledgeBase.Find | app.py:171-174 | the answer is the record of the first entry, in table order, whose phrase contains the query; it is absent exactly when no phrase contains it |
| KnowledgeBase.FindAt | app.py:171-174 | when entry `i` contains the query and no earlier one does, entry `i` answers |
| KnowledgeBase.Lookup | app.py:167-174 | the loop with `break` returns exactly the first-match record (or none), named after the matching phrase |
| KnowledgeBase.WhitespaceQueryHitsFirstEntry | app.py:165-174 | a query of blanks strips to "", which every phrase contains, so it answers with "listar archivos" |
| KnowledgeBase.IpQueryFindsMiIp | app.py:166-174 | a query normalizing to "ip" is in no file-section phrase and is in "mi ip", so "mi ip" answers: a substring of a phrase is a hit |
| KnowledgeBase.IpNotInFilePhrases | app.py:71-76 | no phrase of the file section contains "ip" |
| KnowledgeBase.FirstMatchInSecondPart | app.py:171-174 | in a table made of `a` then `b`, when no phrase of `a` matches and the head of `b` does, the head of `b` answers |
| KnowledgeBase.ArchivoQueryFindsFirstOfSeveral | app.py:166-174 | a query normalizing to "archivo" is in several phrases, and the first of them, "listar archivos", answers under its own name |
| Text.Trim | app.py:166 | `str.strip()` leaves no whitespace at either end |
| Text.TrimUnique | app.py:166 | stripping `pad + core + pad` yields exactly `core` when the pads are whitespace and `core` is stripped |
| Text.TrimIdempotent | app.py:166 | stripping twice equals stripping once |
| Text.TrimAllSpace | app.py:166 | a string of whitespace strips to the empty string |
| Text.Lower | app.py:166 | lower-casing keeps the length and maps every character through the one-character rule |
| Text.LowerIdempotent | app.py:166 | lower-casing leaves no upper-case letter and is idempotent |
| Text.IndexOf | app.py:193-195 | the found position is an occurrence and no earlier position is; none means no occurrence at all |
| Text.ContainsIff | app.py:172 | `sub in s` holds exactly when `s.find(sub)` finds a position |
| Text.ContainsMiddle | app.py:181-188 | a string contains every piece it is built from |
| Text.FirstContaining | app.py:193-195 | `next(... for l in lines if m in l)` picks the first line that contains the marker, or none when no line does |
| Text.FirstContainingUnique | app.py:193-195 | any index whose line is the first to contain the marker is the one `next(...)` picks |
| Text.FirstContainingIsHead | app.py:193-195 | that first line is the head of the lines that contain the marker |
| Text.SplitOn | app.py:192 | `split('\n')` gives at least one piece and no piece contains the separator |
| Text.SplitWithoutSeparator | app.py:192 | a text without the separator splits into itself alone |
| Text.JoinSplit | app.py:192 | joining the pieces of a split gives back the text |
| Text.SplitJoin | app.py:192 | splitting a join of separator-free pieces gives back the pieces |
| AiParser.AfterLabel | app.py:193-195 | `line.split(m)[1]` is the text after the first marker, ends at the line end or at the next marker, and contains no marker |
| AiParser.CutBeforeNextLabel | app.py:193-195 | the text before the marker's next occurrence holds no marker, and the marker occurs where it is cut |
| AiParser.Field | app.py:193-195 | one `next(..., fallback)`: the fallback when no line carries the marker; otherwise the stripped text after the marker on the first line that carries it; so always the fallback or a stripped string |
| AiParser.Parse | app.py:192-195 | the reply's three fields after splitting on `'\n'`; each is its fallback or a stripped string |
| AiParser.FieldFromLabelLines | app.py:193-195 | a field is the fallback when no line carries the marker, otherwise it is read from the first line that does |
| AiParser.ParseIgnoresLineOrder | app.py:192-195 | two replies whose marker lines come in the same relative order parse alike, wherever those lines sit |
| AiParser.LabelInSomeLine | app.py:192-195 | some line carries a marker exactly when the whole reply contains it |
| AiParser.MissingLabelsFallBack | app.py:193-195 | a reply without `MAC:`/`WIN:`/`DESC:` gets "No encontrado"/"No encontrado"/"Comando generado por IA" |
| AiParser.PresentLabelIsRead | app.py:193-195 | a reply that contains a marker takes the field from the first line that carries it |
| AiParser.AfterLabelLine | app.py:193-195 | the line `m value` reads back as `value` when the value is stripped and marker-free |
| AiParser.FieldOfSoleLabelLine | app.py:193-195 | when the only lines carrying a marker are that marker's line for `value`, the field is `value` |
| AiParser.ParseWellFormed | app.py:183-195 | the three marker lines of `p`, in any order among marker-free lines, parse back to `p` |
| AiParser.LabelLinesCarryOwnLabelOnly | app.py:193-195 | a marker line carries no other marker when its value carries none |
| AiParser.WarnLineCarriesNoMarker | app.py:187-195 | the `WARN:` line never feeds a field when its value carries no marker |
| AiParser.ReplyLinesFit | app.py:183-195 | every line of a reply in the requested shape carries at most its own marker |
| AiParser.ParseReply | app.py:183-197 | a reply in the requested four-line shape parses back to the values it was built from, whatever `WARN:` says |
| AiParser.SampleReply | app.py:183-197 | the reply for "kubectl apply -f pod.yaml"/"Deploys a pod"/"NO" parses to those values |
| AiParser.MacOnlyReply | app.py:193-195 | a reply with only a `MAC:` line yields that command and both fallbacks |
| AiParser.EmptyValueReply | app.py:193 | a bare "MAC:" yields the empty string, not the fallback |
| Resolver.Prompt | app.py:181-188 | the f-string prompt: the raw query sits verbatim right after the opening text and its quote, and the prompt's length is that of its parts |
| Resolver.PromptQuotesQuery | app.py:181-182 | the prompt carries the raw query between single quotes |
| Resolver.PromptAsksForEveryMarker | app.py:181-188 | the prompt asks for each marker the parser reads |
| Resolver.ConsultsAi | app.py:165-177 | the model tier runs for a non-empty query with a local miss and a non-empty key (a predicate with no contract; `Resolve` counts its calls against it) |
| Resolver.AiRecord | app.py:197 | the model record: named after the query as typed, with the parsed fields (no contract of its own; `AiShownIff` states it) |
| Resolver.Answer | app.py:165-200 | what a search shows: nothing exactly for an empty query; a local record exactly for a non-empty query with a local hit, and then the first-match record; a model record is named after the raw query |
| Resolver.Resolve | app.py:165-200 | the run's outcome is `Answer`, and the model is called once exactly when the query is non-empty, misses locally and a key is set |
| Resolver.LocalHitIgnoresAi | app.py:170-177 | a local hit is shown as local whatever the key and the model |
| Resolver.LocalRecordIsFirstMatch | app.py:171-174 | a local record is the first table entry whose phrase contains the normalized query |
| Resolver.AiMattersOnlyWhenConsulted | app.py:177-198 | the model's reply changes nothing unless it is consulted, and then only through its parse |
| Resolver.WarningIff | app.py:233-234 | the key warning appears exactly for a non-empty query that no phrase contains, with no key |
| Resolver.AiShownIff | app.py:177-198 | a model record is shown exactly when the model is consulted and answers; it is named after the raw query and holds the parsed fields |
| Resolver.AiErrorIff | app.py:199-200 | an error is shown exactly when the model is consulted and fails |
| Resolver.BlankQueryShowsFirstEntry | app.py:165-174 | a non-empty blank query shows "listar archivos" locally |
| Resolver.ArchivoQueryShowsFirstEntry | app.py:165-174 | " Archivo" shows "listar archivos" locally, whatever the key and the model |
| Resolver.IpQueryShowsMiIp | app.py:165-174 | "IP" shows "mi ip" locally, whatever the key and the model |
| Resolver.WellFormedReplyIsShown | app.py:181-198 | a reply in the requested shape is shown as the record it describes |
| Resolver.MarkerlessReplyIsShown | app.py:192-198 | a marker-free reply is still shown, made of the fallbacks |
| Favorites.AnyNamed | app.py:224 | the duplicate test is true exactly when some favorite has the name |
| Favorites.Added | app.py:224-225 | saving keeps every earlier favorite in place and grows the list by at most one; it grows exactly when the name is new, and then `r` is last |
| Favorites.Removed | app.py:117 | `pop(i)`: one entry fewer, the entries before `i` unchanged and those after it shifted down by one |
| Favorites.Synced | app.py:62-64 | a non-empty session list is kept; an empty one takes the stored list |
| Favorites.AddedHasName | app.py:222-231 | after saving, a favorite with the record's name is present |
| Favorites.AddedKeepsUnique | app.py:224-225 | saving never creates a duplicate name |
| Favorites.AddedIdempotent | app.py:224-231 | saving the same record twice equals saving it once |
| Favorites.AddedGrowsIffNew | app.py:224-231 | the list grows by one, with `r` last, exactly when the name is new; otherwise it is untouched |
| Favorites.RemoveUndoesAdd | app.py:116-117 | deleting the record just saved restores the list |
| Favorites.RemovedKeepsUnique | app.py:116-117 | deleting keeps names unique and the deleted name is gone |
| Favorites.RemovedIsPermutationMinusOne | app.py:117 | deleting removes exactly the favorite at `i` |
| Favorites.SyncedIff | app.py:62-64 | a restore adopts the stored list only into an empty session list and only when it is non-empty; repeating it changes nothing |
| Favorites.Toolbox.constructor | app.py:58-59 | a session starts with no favorites |
| Favorites.Toolbox.Sync | app.py:62-64 | the session list becomes `Synced(old, vals)`; storage is untouched, and an empty session restoring from storage matches it |
| Favorites.Toolbox.Add | app.py:222-231 | `added` is true exactly when the name is new; the list becomes `Added(old, r)`, is written out when added, and keeps names unique |
| Favorites.Toolbox.Remove | app.py:116-118 | the list loses position `i`, is written out, keeps names unique and no longer has the deleted name |

## Left out

- Page layout, CSS, captions, toasts, the spinner, `st.rerun()`, the one-second pause and the sidebar's sponsorship links are presentation only.
- Displaying a favorite's name with `capitalize()` is presentation only.
- The `st_javascript` bridge is replaced by plain values: what a run reads from storage is the parameter `vals`, and a write sets `Toolbox.saved`. The bridge returns `0` before the browser answers; `vals == []` stands for that and for every other falsy value. The JSON encoding is not modelled. That includes escaping only `'` before embedding the JSON in a JavaScript string literal, so a `"` or `\` in a saved record is not shown to break the stored JSON.
- The model client (`genai.configure`, `GenerativeModel('gemini-1.5-flash')`, `generate_content(...).text`) is a network call. It is the `generate` parameter, which returns the text or an error message. The `str(e)` formatting of the exception is not modelled.
- Text.Lower: lower-cases the ASCII letters only, because every phrase in the table is ASCII. Python's `str.lower` also folds non-ASCII capitals (for example `É`), so such a query may behave differently here.
- Favorites.Toolbox.Sync: `vals` is taken as given. Nothing checks that it is the list last written, or that its names are unique; storage edited outside the app may hold duplicates, and the uniqueness lemmas then require it.
- A marker with nothing after it yields an empty field, not its fallback (`AiParser.EmptyValueReply`). The app's documentation describes the fields as always filled in; the model follows the code.
