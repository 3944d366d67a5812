# parglare-ls server core in Dafny

This project models the language server of parglare-ls
(`parglare-ls/server/src/server.ts`). The server is a small, sequential
name-table machine keyed by document URI. It has four parts:

- **The declaration scanner** (`validateTextDocument`). It runs the global
  regular expression `\b([A-Z]|[a-z])+\b: ` over a document's text with
  repeated `exec` calls. It strips the trailing `": "` from each match and
  appends the names, at most `maxNumberOfProblems` of them, to the document's
  list in `commandsOfLanguage`.
- **The query handlers**: completion, completion resolve and go-to-definition.
  Each is a pure function of the name table.
- **The lifecycle notifications**: closing a document and a configuration
  change.
- **The settings lookup** (`getDocumentSettings`), memoised per URI.

The model follows the code as written, including two behaviours that matter
to users:

- The duplicate check loops with `for...in` over the stored array. That loop
  visits the index keys `"0"`, `"1"`, …, not the names. A key never equals a
  letters-only name, so every match is pushed.
- The stored array is extended in place and never reset. Every validation of
  a document therefore appends its declarations again.

## Layout

- `lsp_types.dfy` (`LspTypes`) defines the protocol records and settings,
  plus the `Option` and `Result` wrappers.
- `scanner.dfy` (`Scanner`) models the regular-expression engine.
  - `LetterRunEnd`, `Backtrack` and `MatchAt` are the greedy letter run with
    backtracking and the `\b` assertions, without the `u` flag.
  - `ExecFrom` is `exec` with `lastIndex`; `MatchAll` is the sequence of
    successive `exec` results.
  - It proves that the engine finds exactly the spans of the declarative
    predicate `IsDeclaration`, in text order.
- `array_keys.dfy` (`ArrayKeys`) models the keys a `for...in` loop visits
  over an array: the decimal numerals of the indices. It proves that they
  read back to their indices and never equal a name.
- `server.dfy` (`Server`) holds the state, the settings lookup, the
  validation pass, close and configuration change (including the
  notification whose `settings` cannot be read). The validation pass has
  two forms:
  - `ValidateTextDocument` / `ScanInto` is the loop as written;
  - `Validated` is its functional summary.
- `handlers.dfy` (`Handlers`) has completion, resolve and definition, with
  lemmas relating them to validation and close.
- `examples_scan.dfy` (`ScanExamples`) works through concrete texts: a
  repeated declaration, and an underscore or a hyphen in front of a name.

The client's `workspace/configuration` answer is a function parameter
`fetch: Uri -> Settings`, and the `Thenable` it returns is taken as already
resolved. `hasConfigurationCapability` is a field of the state, fixed when the
state is created. The text of each document and the list of open documents
are inputs.

## Model

| member | source | states |
|---|---|---|
| Scanner.LetterRunEnd | parglare-ls/server/src/server.ts:136 | The greedy letter run of the pattern stops at the first non-letter (or the end) and covers only letters. |
| Scanner.BacktrackGreedyOnly | parglare-ls/server/src/server.ts:136 | Giving letters back never helps. The pattern matches at an offset only with the whole letter run, followed by a word boundary and `": "`. |
| Scanner.MatchAtIsDeclaration | parglare-ls/server/src/server.ts:136 | An attempt at offset p succeeds exactly when a declaration starts at p: letters, then `": "`, with no word character before p. The match ends 2 past the name. |
| Scanner.DeclarationUnique | parglare-ls/server/src/server.ts:136 | At one offset there is at most one declaration. |
| Scanner.NoDeclarationInsideMatch | parglare-ls/server/src/server.ts:136-140 | A declaration that starts inside another match's span (its letters or its `": "`) is that same match. So skipping to `lastIndex` loses nothing. |
| Scanner.ExecFrom | parglare-ls/server/src/server.ts:136-140 | `exec` from `lastIndex` returns the first declaration at or after it, and its text is the slice it covers. When it returns null, no declaration starts at or after `lastIndex`. |
| Scanner.MatchAllSound | parglare-ls/server/src/server.ts:136-140 | Every match the `exec` loop returns spans a declaration. |
| Scanner.MatchAllOrdered | parglare-ls/server/src/server.ts:136-140 | The matches come in text order and do not overlap. |
| Scanner.MatchAllComplete | parglare-ls/server/src/server.ts:136-140 | Every declaration after the start offset is among the matches, with its exact span. |
| Scanner.MatchNameIsSpan | parglare-ls/server/src/server.ts:149 | `m[0].substring(0, m[0].length - 2)` is the matched name without its `": "`. |
| Scanner.DeclaredNamesAreNames | parglare-ls/server/src/server.ts:136-149 | Every scanned name is a non-empty run of ASCII letters. |
| Scanner.DeclaredNamesSound | parglare-ls/server/src/server.ts:136-149 | The i-th scanned name is the text at its offset. It is followed by `": "` and not preceded by a character of `[A-Za-z0-9_]`. |
| Scanner.DeclaredNamesOrdered | parglare-ls/server/src/server.ts:136-140 | The scanned names' offsets strictly increase, so the names are in text order. |
| Scanner.DeclaredNamesComplete | parglare-ls/server/src/server.ts:136-149 | Every declaration in the text is scanned at its own offset, repeated names included. |
| Scanner.Limit | parglare-ls/server/src/server.ts:139-141 | The loop processes min(max, available) matches, and none when `maxNumberOfProblems` ≤ 0. |
| Scanner.FirstDeclarations | parglare-ls/server/src/server.ts:139-149 | One pass records a prefix of the scanned names. It has `min(maxNumberOfProblems, available)` of them, none when the limit is ≤ 0, and all of them are names. |
| ArrayKeys.ForInKeys | parglare-ls/server/src/server.ts:143 | `for...in` over an array visits one key per index, in ascending order. Each key is a digit string that reads back to its index. |
| ArrayKeys.IndexKeyRoundTrip | parglare-ls/server/src/server.ts:143 | The key of index i is the decimal numeral of i. |
| ArrayKeys.KeyIsNeverName | parglare-ls/server/src/server.ts:143-145 | An index key never equals a letters-only name. |
| Server.ForInFind | parglare-ls/server/src/server.ts:142-147 | The duplicate check never reports a name as found. |
| Server.ScanInto | parglare-ls/server/src/server.ts:131-152 | The scanning loop leaves the table unchanged when it records no name. Otherwise it stores the old list extended by the pass's first declarations, in text order. |
| Server.ValidateTextDocument | parglare-ls/server/src/server.ts:129-153 | A validation pass appends the first declarations of the text to the document's list and leaves other URIs' lists unchanged. |
| Server.Validated | parglare-ls/server/src/server.ts:129-153 | A pass changes only the document's list and its settings cache entry. The old list is a prefix of the new one. The URI is present afterwards iff it was before or the pass recorded a name. The invariant (non-empty lists of names) is preserved. |
| Server.RevalidationAccumulates | parglare-ls/server/src/server.ts:131-151 | Validating the same text twice appends its declarations twice, and the state changes again. Validation is not idempotent. |
| Server.EmptyPassKeepsTable | parglare-ls/server/src/server.ts:131-151 | A pass that records nothing leaves the name table as it was, and creates no entry for an absent URI. |
| Server.InitialValid | parglare-ls/server/src/server.ts:123 | The state at start-up, with empty settings cache and name table, satisfies the invariant every handler keeps. |
| Server.GetDocumentSettings | parglare-ls/server/src/server.ts:101-116 | Without the capability, the lookup gives the global settings. With it, a cached entry is returned unchanged; on a miss, the client's answer is returned and cached. |
| Server.SettingsMemoised | parglare-ls/server/src/server.ts:106-115 | A second lookup of the same URI returns the first answer, whatever the client would say now, and changes nothing. |
| Server.DidClose | parglare-ls/server/src/server.ts:118-121 | Close deletes exactly the document's cached settings and its name list. Other entries are kept and the invariant is preserved. |
| Server.ReopenStartsFresh | parglare-ls/server/src/server.ts:118-121 | After a close, the next pass records only the new text's declarations, under settings looked up afresh. |
| Server.ApplyConfiguration | parglare-ls/server/src/server.ts:89-97 | With the capability, a configuration change clears the whole settings cache without reading the notification. Without it, the global settings become the `parglareLSP` section, or `{maxNumberOfProblems: 1000}` when that is absent. When the notification's `settings` is `null` or `undefined`, reading the section throws before anything changes. |
| Server.ConfigurationTakesEffect | parglare-ls/server/src/server.ts:89-104 | After a successful configuration change, every lookup sees the new settings: the client's fresh answer, or the new global settings. |
| Server.RevalidateAll | parglare-ls/server/src/server.ts:98 | Revalidating the open documents keeps the capability, the global settings, the invariant and the lists of documents that are not open. |
| Server.RevalidateAppends | parglare-ls/server/src/server.ts:98 | Revalidating distinct open documents appends to each one's list the first declarations of its text, under the settings it looks up; the earlier names stay in front. |
| Server.RevalidateFillsCache | parglare-ls/server/src/server.ts:98 | With the capability, revalidation adds a cache entry with the client's answer for exactly the open documents that had none. It changes nothing else in the cache. |
| Server.ConfigurationRefetchesOpenDocuments | parglare-ls/server/src/server.ts:89-99 | With the capability, after a configuration change the cache holds exactly the open documents, each with the client's new answer. |
| Server.ConfigurationChanged | parglare-ls/server/src/server.ts:89-99 | When the settings cannot be read, the handler changes nothing and revalidates nothing. The invariant is kept either way. |
| Server.ConfigurationRevalidatesOpenDocuments | parglare-ls/server/src/server.ts:89-99 | A successful configuration change appends every open document's first declarations again, under the new settings (the client's answer, the section or the defaults). Documents that are not open keep their lists. |
| Server.DidChangeConfiguration | parglare-ls/server/src/server.ts:89-99 | The handler applies the settings change and then validates every open document in turn; when the settings cannot be read it leaves the state unchanged. It keeps the invariant. |
| Handlers.ItemsFor | parglare-ls/server/src/server.ts:164-166 | One item per name in the same order, with label = name, kind = Text (1) and no detail. |
| Handlers.Completion | parglare-ls/server/src/server.ts:159-170 | Completion returns one Text item per stored name, in stored order, and an empty list for a URI without an entry. |
| Handlers.CompletionLabels | parglare-ls/server/src/server.ts:159-170 | The labels completion offers are exactly the stored names of the document, in stored order. |
| Handlers.CompletionAfterValidation | parglare-ls/server/src/server.ts:159-170 | After a pass, the completion labels are the old labels followed by the pass's first declarations. |
| Handlers.CompletionAfterClose | parglare-ls/server/src/server.ts:159-170 | A closed document offers no completion, and other documents' completions are unchanged. |
| Handlers.CompletionResolve | parglare-ls/server/src/server.ts:172-177 | Resolve sets `detail` to the label and leaves the other fields unchanged. |
| Handlers.ResolveIdempotent | parglare-ls/server/src/server.ts:172-177 | Resolving twice is resolving once. A resolved completion item's detail is its stored name. |
| Handlers.Definition | parglare-ls/server/src/server.ts:179-189 | Definition answers with the request URI and the range (0,0)-(0,len). len is the length of the first stored name, or 0 without an entry. An entry with an empty list would read `length` of `undefined`. |
| Handlers.DefinitionIgnoresCursor | parglare-ls/server/src/server.ts:179-189 | The answer does not depend on the cursor position. |
| Handlers.DefinitionAnswersWhenValid | parglare-ls/server/src/server.ts:180-184 | In every state that keeps the invariant, the definition request does not fail. |
| Handlers.DefinitionAfterValidation | parglare-ls/server/src/server.ts:179-189 | A pass never changes the answer for a document that already has names. The first pass that records a name fixes the width to that of the text's first declaration. |
| Handlers.DefinitionAfterClose | parglare-ls/server/src/server.ts:179-189 | A closed document's definition is the empty range at its start. |
| ScanExamples.RepeatedDeclaration | parglare-ls/server/src/server.ts:136-149 | `"A: A: "` scans to `["A", "A"]`: a repeated declaration is kept. |
| ScanExamples.UnderscoreBlocksDeclaration | parglare-ls/server/src/server.ts:136 | `"_A: "` has no declaration, because `_` is a word character. |
| ScanExamples.HyphenAllowsDeclaration | parglare-ls/server/src/server.ts:136 | `"-A: "` declares `A`, because `-` is not a word character. |

## Left out

- Start-up (`onInitialize` / `onInitialized`, server.ts:29-77). The model takes `hasConfigurationCapability` as a field of the initial state. The workspace-folder and related-information capabilities are never read by the modelled handlers.
- Transport and wiring: `createConnection`, `documents.listen`, `connection.listen` and the log-only watched-files handler (server.ts:22-23, 155-157, 191-192). These are I/O over a library that is not part of this model.
- Text storage and incremental edits (`TextDocuments`, from `vscode-languageserver-textdocument`). A document's text and the list of open documents (`documents.all()`) are inputs.
- The asynchronous interleaving of overlapping `validateTextDocument` calls around `await getDocumentSettings` (server.ts:130). Each validation is one atomic step, and a configuration change validates the open documents one after another.
- A `workspace/configuration` request that fails or answers `null`. The client's answer is a total function `fetch` whose result is already resolved.
- Scanner.FirstDeclarations: `maxNumberOfProblems` is an integer. A JavaScript number that is fractional (2.5 lets three matches through), `NaN` or `undefined` (no match is processed) is not modelled.
- Server.ApplyConfiguration: the notification's `settings` is either missing (`null` or `undefined`, which throws) or an object whose `parglareLSP` member is a settings record or absent. A falsy member (`null`, `0`, `""`) behaves as absent, which the `None` case covers. A truthy member of another shape, and a `settings` value that is a primitive, are not modelled.
- Server.ConfigurationRevalidatesOpenDocuments: states the appended names only for open documents with distinct URIs, as `documents.all()` provides them. A list naming one URI twice would append its declarations once per occurrence, which is not stated.
- Text is a sequence of Dafny characters, whereas JavaScript strings are UTF-16 code units. Without the `u` flag, a surrogate half is neither a letter nor a word character, so the same declarations are found. Offsets after a supplementary character would differ, but they never leave the scanner. Stored names are ASCII, so the definition width is the same in both counts.
- Completion items carry only the fields the server reads or writes: `label`, `kind` and `detail`. Resolve passes every other field through unchanged.
- `server.ts` has no deduplication, publishes no diagnostics and does not supersede results by document version; none of these is modelled.
