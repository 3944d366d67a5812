/** The server's process-wide state and the notifications that change it:
    the per-document settings cache (`documentSettings`), the per-document
    list of scanned names (`commandsOfLanguage`), the settings lookup, the
    validation pass run on every content change, closing a document, and a
    configuration change.

    Every handler is one atomic step from a state to a state. The client's
    `workspace/configuration` answer is the parameter `fetch`, a function
    from document URI to settings, taken as already resolved. */
module Server {
  import opened LspTypes
  import opened Scanner
  import opened ArrayKeys

  datatype State = State(
    /** Whether the client announced `workspace.configuration` at start-up. */
    hasConfigurationCapability: bool,
    globalSettings: Settings,
    documentSettings: map<Uri, Settings>,
    commandsOfLanguage: map<Uri, seq<string>>)

  /** The state when the process starts, given the capability the client
      announced. */
  function InitialState(hasConfigurationCapability: bool): State {
    State(hasConfigurationCapability, DefaultSettings, map[], map[])
  }

  /** The invariant every reachable state keeps: a URI has a name list only
      if that list is non-empty, and every stored name is a run of letters. */
  predicate Valid(st: State) {
    forall u :: u in st.commandsOfLanguage ==>
      && |st.commandsOfLanguage[u]| > 0
      && forall i :: 0 <= i < |st.commandsOfLanguage[u]| ==> IsName(st.commandsOfLanguage[u][i])
  }

  /** The invariant holds from the start: the name table is empty. */
  lemma InitialValid(hasConfigurationCapability: bool)
    ensures Valid(InitialState(hasConfigurationCapability))
  {
  }

  /** The names stored for `uri`, or none. */
  function StoredNames(st: State, uri: Uri): seq<string> {
    TableNames(st.commandsOfLanguage, uri)
  }

  // ---------------------------------------------------------------------
  // Settings lookup
  // ---------------------------------------------------------------------

  datatype SettingsLookup = SettingsLookup(settings: Settings, state: State)

  /** `getDocumentSettings`: without the configuration capability, the global
      settings; with it, the cached settings of the document, fetched from
      the client and cached on a miss. */
  function GetDocumentSettings(st: State, uri: Uri, fetch: Uri -> Settings): (r: SettingsLookup)
    ensures !st.hasConfigurationCapability ==> r == SettingsLookup(st.globalSettings, st)
    ensures st.hasConfigurationCapability && uri in st.documentSettings ==>
      r == SettingsLookup(st.documentSettings[uri], st)
    ensures st.hasConfigurationCapability && uri !in st.documentSettings ==>
      && r.settings == fetch(uri)
      && r.state == st.(documentSettings := st.documentSettings[uri := fetch(uri)])
  {
    if !st.hasConfigurationCapability then
      SettingsLookup(st.globalSettings, st)
    else if uri in st.documentSettings then
      SettingsLookup(st.documentSettings[uri], st)
    else
      var fetched := fetch(uri);
      SettingsLookup(fetched, st.(documentSettings := st.documentSettings[uri := fetched]))
  }

  /** The settings lookup is memoised: a second lookup of the same document,
      whatever the client would answer now, returns the first answer and
      changes nothing. */
  lemma SettingsMemoised(st: State, uri: Uri, fetch1: Uri -> Settings, fetch2: Uri -> Settings)
    ensures var first := GetDocumentSettings(st, uri, fetch1);
      GetDocumentSettings(first.state, uri, fetch2) == first
  {
  }

  // ---------------------------------------------------------------------
  // Validation
  // ---------------------------------------------------------------------

  /** The state a validation pass of `uri` with content `text` leaves: the
      settings lookup's state, with the first declarations of the text (at
      most `maxNumberOfProblems`) appended to the document's list. */
  function Validated(st: State, uri: Uri, text: string, fetch: Uri -> Settings): (st': State)
    ensures var lookup := GetDocumentSettings(st, uri, fetch);
      && st'.(commandsOfLanguage := st.commandsOfLanguage) == lookup.state
      && StoredNames(st', uri) == StoredNames(st, uri) + FirstDeclarations(text, lookup.settings.maxNumberOfProblems)
      && (uri in st'.commandsOfLanguage <==>
            uri in st.commandsOfLanguage || |FirstDeclarations(text, lookup.settings.maxNumberOfProblems)| > 0)
    ensures st'.commandsOfLanguage - {uri} == st.commandsOfLanguage - {uri}
    ensures Valid(st) ==> Valid(st')
  {
    var lookup := GetDocumentSettings(st, uri, fetch);
    var added := FirstDeclarations(text, lookup.settings.maxNumberOfProblems);
    lookup.state.(commandsOfLanguage := AppendNames(st.commandsOfLanguage, uri, added))
  }

  /** The duplicate check of `validateTextDocument`: a `for...in` loop over
      the list that compares each visited key with `name`. The keys are index
      numerals, so a name is never found and every match is pushed. */
  method ForInFind(commandsOfDocument: seq<string>, name: string) returns (found: bool)
    requires IsName(name)
    ensures !found
  {
    found := false;
    var keys := ForInKeys(commandsOfDocument);
    for j := 0 to |keys|
      invariant !found
    {
      KeyIsNeverName(keys[j], name);
      if keys[j] == name {
        found := true;
      }
    }
  }

  /** When the loop stops, either every match was processed or
      `maxNumberOfProblems` of them were: either way, the names of the
      processed matches are the pass's first declarations. */
  lemma FinishScan(text: string, lastIndex: nat, maxNumberOfProblems: int, done: seq<RegexMatch>)
    requires lastIndex <= |text|
    requires done + MatchAll(text, lastIndex) == MatchAll(text, 0)
    requires |done| <= Limit(maxNumberOfProblems, |MatchAll(text, 0)|)
    requires ExecFrom(text, lastIndex).None? || maxNumberOfProblems <= |done|
    ensures MatchNames(done) == FirstDeclarations(text, maxNumberOfProblems)
  {
  }

  /** The table the scanning loop has built once it has pushed `added`:
      untouched when nothing was pushed, else the extended list stored under
      `uri`. */
  lemma StoreNames(table0: map<Uri, seq<string>>, uri: Uri, table: map<Uri, seq<string>>, added: seq<string>)
    requires |added| == 0 ==> table == table0
    requires |added| > 0 ==> table == table0[uri := TableNames(table0, uri) + added]
    ensures table == AppendNames(table0, uri, added)
  {
  }

  lemma OverwriteEntry(table: map<Uri, seq<string>>, uri: Uri, a: seq<string>, b: seq<string>)
    ensures table[uri := a][uri := b] == table[uri := b]
  {
  }

  /** One iteration of the scanning loop that processes a match: the match
      moves from the remaining ones to the processed ones, its name is a run
      of letters, and pushing it extends the list by the processed names. */
  lemma ScanStep(text: string, lastIndex: nat, all: seq<RegexMatch>, done: seq<RegexMatch>, before: seq<string>)
    requires lastIndex <= |text|
    requires done + MatchAll(text, lastIndex) == all
    requires ExecFrom(text, lastIndex).Some?
    ensures var m := ExecFrom(text, lastIndex).value;
      && lastIndex < MatchEnd(m) <= |text|
      && (done + [m]) + MatchAll(text, MatchEnd(m)) == all
      && |done| < |all|
      && IsName(MatchName(m))
      && MatchName(m) == JsSubstring(m.text, 0, |m.text| - 2)
      && before + MatchNames(done) + [MatchName(m)] == before + MatchNames(done + [m])
  {
  }

  /** The names stored for `uri` in a name table, or none. */
  function TableNames(table: map<Uri, seq<string>>, uri: Uri): seq<string> {
    if uri in table then table[uri] else []
  }

  /** The table a validation pass leaves when `added` are the names it
      records: unchanged when there are none, else the list of `uri` extended. */
  function AppendNames(table: map<Uri, seq<string>>, uri: Uri, added: seq<string>): map<Uri, seq<string>> {
    if |added| == 0 then table else table[uri := TableNames(table, uri) + added]
  }

  /** The scanning loop of `validateTextDocument`: fetch the document's list
      (or start an empty one), then run `exec` until it fails or
      `maxNumberOfProblems` matches were processed; for each match, look for
      its name among the `for...in` keys of the list and, if not found, push
      it and store the list under the document's URI. */
  method ScanInto(table0: map<Uri, seq<string>>, uri: Uri, text: string, maxNumberOfProblems: int)
    returns (table: map<Uri, seq<string>>)
    ensures table == AppendNames(table0, uri, FirstDeclarations(text, maxNumberOfProblems))
  {
    table := table0;
    var commandsOfDocument: seq<string> := if uri in table then table[uri] else [];
    ghost var before := commandsOfDocument;
    ghost var all := MatchAll(text, 0);
    ghost var done: seq<RegexMatch> := [];
    var lastIndex: nat := 0;
    var problems: nat := 0;
    var m := ExecFrom(text, lastIndex);
    while m.Some? && problems < maxNumberOfProblems
      invariant lastIndex <= |text|
      invariant m == ExecFrom(text, lastIndex)
      invariant done + MatchAll(text, lastIndex) == all
      invariant problems == |done| <= Limit(maxNumberOfProblems, |all|)
      invariant commandsOfDocument == before + MatchNames(done)
      invariant problems == 0 ==> table == table0
      invariant problems > 0 ==> table == table0[uri := commandsOfDocument]
      decreases |text| - lastIndex
    {
      ScanStep(text, lastIndex, all, done, before);
      problems := problems + 1;
      var name := JsSubstring(m.value.text, 0, |m.value.text| - 2);
      var found := ForInFind(commandsOfDocument, name);
      if !found {
        OverwriteEntry(table0, uri, commandsOfDocument, commandsOfDocument + [name]);
        commandsOfDocument := commandsOfDocument + [name];
        table := table[uri := commandsOfDocument];
      }
      done := done + [m.value];
      lastIndex := MatchEnd(m.value);
      m := ExecFrom(text, lastIndex);
    }
    FinishScan(text, lastIndex, maxNumberOfProblems, done);
    StoreNames(table0, uri, table, MatchNames(done));
  }

  /** `validateTextDocument`: look the document's settings up, then scan
      the text into the name table. */
  method ValidateTextDocument(st: State, uri: Uri, text: string, fetch: Uri -> Settings) returns (st': State)
    ensures st' == Validated(st, uri, text, fetch)
    ensures StoredNames(st', uri) == StoredNames(st, uri) + FirstDeclarations(text, GetDocumentSettings(st, uri, fetch).settings.maxNumberOfProblems)
    ensures st'.commandsOfLanguage - {uri} == st.commandsOfLanguage - {uri}
  {
    var lookup := GetDocumentSettings(st, uri, fetch);
    var table := ScanInto(lookup.state.commandsOfLanguage, uri, text, lookup.settings.maxNumberOfProblems);
    st' := lookup.state.(commandsOfLanguage := table);
  }

  /** Validating the same text twice appends its declarations twice: the
      membership check never suppresses a push, and the second pass sees the
      settings the first one looked up, whatever the client answers now. */
  lemma RevalidationAccumulates(st: State, uri: Uri, text: string, fetch1: Uri -> Settings, fetch2: Uri -> Settings)
    ensures var added := FirstDeclarations(text, GetDocumentSettings(st, uri, fetch1).settings.maxNumberOfProblems);
      var st1 := Validated(st, uri, text, fetch1);
      var st2 := Validated(st1, uri, text, fetch2);
      && StoredNames(st2, uri) == StoredNames(st, uri) + added + added
      && (|added| > 0 ==> st2 != st1)
  {
  }

  /** A validation pass that finds no declaration (or may record none)
      leaves the name table as it was; in particular it does not create an
      entry for a document that had none. */
  lemma EmptyPassKeepsTable(st: State, uri: Uri, text: string, fetch: Uri -> Settings)
    requires FirstDeclarations(text, GetDocumentSettings(st, uri, fetch).settings.maxNumberOfProblems) == []
    ensures Validated(st, uri, text, fetch).commandsOfLanguage == st.commandsOfLanguage
  {
  }

  // ---------------------------------------------------------------------
  // Closing a document
  // ---------------------------------------------------------------------

  /** `onDidClose`: forget the document's cached settings and its names. */
  function DidClose(st: State, uri: Uri): (st': State)
    ensures uri !in st'.documentSettings && uri !in st'.commandsOfLanguage
    ensures forall u :: u != uri ==>
      && StoredNames(st', u) == StoredNames(st, u)
      && (u in st'.documentSettings <==> u in st.documentSettings)
      && (u in st.documentSettings ==> st'.documentSettings[u] == st.documentSettings[u])
    ensures st'.hasConfigurationCapability == st.hasConfigurationCapability
    ensures st'.globalSettings == st.globalSettings
    ensures Valid(st) ==> Valid(st')
  {
    st.(documentSettings := st.documentSettings - {uri},
        commandsOfLanguage := st.commandsOfLanguage - {uri})
  }

  /** After a close, the document starts over: its next validation records
      only the declarations of the new text, under settings looked up afresh
      (fetched again when the client supports configuration requests). */
  lemma ReopenStartsFresh(st: State, uri: Uri, text: string, fetch: Uri -> Settings)
    ensures var closed := DidClose(st, uri);
      var settings := GetDocumentSettings(closed, uri, fetch).settings;
      && settings == (if st.hasConfigurationCapability then fetch(uri) else st.globalSettings)
      && StoredNames(Validated(closed, uri, text, fetch), uri) == FirstDeclarations(text, settings.maxNumberOfProblems)
  {
  }

  // ---------------------------------------------------------------------
  // Configuration change
  // ---------------------------------------------------------------------

  /** The `settings` member of a configuration notification, as far as the
      server reads it. */
  datatype ChangedSettings =
    /** `null` or `undefined`: reading a member of it throws. */
    | Missing
    /** An object, with its `parglareLSP` member when that is present and
        truthy. */
    | Present(parglareLSP: Option<Settings>)

  /** The settings part of `onDidChangeConfiguration`: with the configuration
      capability, drop every cached document setting without looking at the
      notification; without it, replace the global settings by the
      notification's `parglareLSP` section, or by the defaults when the
      section is absent. Reading the section of missing settings throws,
      before anything is assigned. */
  function ApplyConfiguration(st: State, settings: ChangedSettings): (r: Result<State>)
    ensures r.Failure? <==> !st.hasConfigurationCapability && settings.Missing?
    ensures r.Success? ==>
      && r.value.hasConfigurationCapability == st.hasConfigurationCapability
      && r.value.commandsOfLanguage == st.commandsOfLanguage
    ensures r.Success? && st.hasConfigurationCapability ==>
      r.value.documentSettings == map[] && r.value.globalSettings == st.globalSettings
    ensures r.Success? && !st.hasConfigurationCapability ==>
      && r.value.documentSettings == st.documentSettings
      && r.value.globalSettings == (if settings.parglareLSP.Some? then settings.parglareLSP.value else DefaultSettings)
  {
    if st.hasConfigurationCapability then Success(st.(documentSettings := map[]))
    else match settings
      case Missing => Failure(ReadOfUndefined)
      case Present(section) => Success(st.(globalSettings := section.GetOr(DefaultSettings)))
  }

  /** The settings a document sees after a successful configuration change:
      the client's fresh answer with the capability, otherwise the
      notification's section or the defaults. */
  function SettingsAfterChange(st: State, settings: ChangedSettings, uri: Uri, fetch: Uri -> Settings): Settings
    requires st.hasConfigurationCapability || settings.Present?
  {
    if st.hasConfigurationCapability then fetch(uri) else settings.parglareLSP.GetOr(DefaultSettings)
  }

  /** After a configuration change every document sees the new settings:
      fetched anew from the client when it supports configuration requests,
      otherwise the notification's section or the defaults. */
  lemma ConfigurationTakesEffect(st: State, settings: ChangedSettings, uri: Uri, fetch: Uri -> Settings)
    requires ApplyConfiguration(st, settings).Success?
    ensures GetDocumentSettings(ApplyConfiguration(st, settings).value, uri, fetch).settings ==
      if st.hasConfigurationCapability then fetch(uri)
      else if settings.parglareLSP.Some? then settings.parglareLSP.value else DefaultSettings
  {
  }

  /** Validation of every open document, in the order given, each pass
      atomic. */
  function RevalidateAll(st: State, documents: seq<(Uri, string)>, fetch: Uri -> Settings): (st': State)
    ensures st'.hasConfigurationCapability == st.hasConfigurationCapability
    ensures st'.globalSettings == st.globalSettings
    ensures forall u :: (forall i :: 0 <= i < |documents| ==> documents[i].0 != u) ==>
      StoredNames(st', u) == StoredNames(st, u)
    ensures Valid(st) ==> Valid(st')
    decreases |documents|
  {
    if |documents| == 0 then st
    else RevalidateAll(Validated(st, documents[0].0, documents[0].1, fetch), documents[1..], fetch)
  }

  /** Whether `u` is among the documents. */
  predicate IsOpen(documents: seq<(Uri, string)>, u: Uri) {
    exists i :: 0 <= i < |documents| && documents[i].0 == u
  }

  /** The open documents have distinct URIs, as `documents.all()` does. */
  predicate DistinctUris(documents: seq<(Uri, string)>) {
    forall i, j :: 0 <= i < j < |documents| ==> documents[i].0 != documents[j].0
  }

  /** A document is among a non-empty list when it is the first one or among
      the rest. */
  lemma IsOpenUnfold(documents: seq<(Uri, string)>, u: Uri)
    requires |documents| > 0
    ensures IsOpen(documents, u) <==> documents[0].0 == u || IsOpen(documents[1..], u)
  {
  }

  /** A validation pass of one document leaves the settings every other
      document looks up as they were. */
  lemma SettingsOfOthersKept(st: State, v: Uri, text: string, fetch: Uri -> Settings, u: Uri)
    requires u != v
    ensures GetDocumentSettings(Validated(st, v, text, fetch), u, fetch).settings == GetDocumentSettings(st, u, fetch).settings
  {
  }

  /** Revalidating documents with distinct URIs appends to each open
      document's list the first declarations of its text, under the settings
      that document looks up in the starting state; the lists are never
      reset, so the names recorded before stay in front. */
  lemma {:induction false} RevalidateAppends(st: State, documents: seq<(Uri, string)>, fetch: Uri -> Settings)
    requires DistinctUris(documents)
    ensures forall i :: 0 <= i < |documents| ==>
      StoredNames(RevalidateAll(st, documents, fetch), documents[i].0) ==
        StoredNames(st, documents[i].0)
          + FirstDeclarations(documents[i].1, GetDocumentSettings(st, documents[i].0, fetch).settings.maxNumberOfProblems)
    decreases |documents|
  {
    if |documents| > 0 {
      var next := Validated(st, documents[0].0, documents[0].1, fetch);
      var rest := documents[1..];
      RevalidateAppends(next, rest, fetch);
      forall i | 0 <= i < |documents|
        ensures StoredNames(RevalidateAll(st, documents, fetch), documents[i].0) ==
          StoredNames(st, documents[i].0)
            + FirstDeclarations(documents[i].1, GetDocumentSettings(st, documents[i].0, fetch).settings.maxNumberOfProblems)
      {
        var u := documents[i].0;
        if i == 0 {
          assert forall k :: 0 <= k < |rest| ==> rest[k].0 != u by {
            forall k | 0 <= k < |rest|
              ensures rest[k].0 != u
            {
              assert rest[k] == documents[k + 1];
            }
          }
        } else {
          assert rest[i - 1] == documents[i];
          assert u != documents[0].0;
          SettingsOfOthersKept(st, documents[0].0, documents[0].1, fetch, u);
          assert StoredNames(next, u) == StoredNames(st, u) by {
            assert u in next.commandsOfLanguage <==> u in next.commandsOfLanguage - {documents[0].0};
            assert u in st.commandsOfLanguage <==> u in st.commandsOfLanguage - {documents[0].0};
          }
        }
      }
    }
  }

  /** With the configuration capability, revalidation fills the settings
      cache: each open document that had no entry gets the client's answer,
      entries already present stay, and nothing else is added. */
  lemma {:induction false} RevalidateFillsCache(st: State, documents: seq<(Uri, string)>, fetch: Uri -> Settings)
    requires st.hasConfigurationCapability
    ensures forall u :: u in RevalidateAll(st, documents, fetch).documentSettings <==>
      u in st.documentSettings || IsOpen(documents, u)
    ensures forall u :: u in RevalidateAll(st, documents, fetch).documentSettings ==>
      RevalidateAll(st, documents, fetch).documentSettings[u] ==
        if u in st.documentSettings then st.documentSettings[u] else fetch(u)
    decreases |documents|
  {
    if |documents| > 0 {
      var next := Validated(st, documents[0].0, documents[0].1, fetch);
      RevalidateFillsCache(next, documents[1..], fetch);
      forall u {
        IsOpenUnfold(documents, u);
      }
    }
  }

  /** The state `onDidChangeConfiguration` leaves: the settings change, then
      a validation pass of every open document. When the settings cannot be
      read the handler throws before changing anything; the library only
      logs the error. */
  function ConfigurationChanged(st: State, settings: ChangedSettings, documents: seq<(Uri, string)>, fetch: Uri -> Settings): (st': State)
    ensures ApplyConfiguration(st, settings).Failure? ==> st' == st
    ensures Valid(st) ==> Valid(st')
  {
    match ApplyConfiguration(st, settings)
    case Failure(_) => st
    case Success(applied) => RevalidateAll(applied, documents, fetch)
  }

  /** With the configuration capability, a configuration change leaves in
      the cache exactly the open documents, each with the client's new answer. */
  lemma ConfigurationRefetchesOpenDocuments(st: State, settings: ChangedSettings, documents: seq<(Uri, string)>, fetch: Uri -> Settings)
    requires st.hasConfigurationCapability
    ensures var st' := ConfigurationChanged(st, settings, documents, fetch);
      forall u :: (u in st'.documentSettings <==> IsOpen(documents, u))
        && (u in st'.documentSettings ==> st'.documentSettings[u] == fetch(u))
  {
    RevalidateFillsCache(ApplyConfiguration(st, settings).value, documents, fetch);
  }

  /** A configuration change that succeeds appends to every open document's
      list the first declarations of its text again, under the new settings;
      the documents that are not open keep their lists. */
  lemma ConfigurationRevalidatesOpenDocuments(st: State, settings: ChangedSettings, documents: seq<(Uri, string)>, fetch: Uri -> Settings)
    requires ApplyConfiguration(st, settings).Success?
    requires DistinctUris(documents)
    ensures var st' := ConfigurationChanged(st, settings, documents, fetch);
      && (forall i :: 0 <= i < |documents| ==>
            StoredNames(st', documents[i].0) ==
              StoredNames(st, documents[i].0)
                + FirstDeclarations(documents[i].1, SettingsAfterChange(st, settings, documents[i].0, fetch).maxNumberOfProblems))
      && (forall u :: !IsOpen(documents, u) ==> StoredNames(st', u) == StoredNames(st, u))
  {
    var applied := ApplyConfiguration(st, settings).value;
    RevalidateAppends(applied, documents, fetch);
    forall i | 0 <= i < |documents|
      ensures GetDocumentSettings(applied, documents[i].0, fetch).settings == SettingsAfterChange(st, settings, documents[i].0, fetch)
    {
      ConfigurationTakesEffect(st, settings, documents[i].0, fetch);
    }
  }

  /** `onDidChangeConfiguration`: update the settings, then validate every
      open document (`documents.all()`, given here with its texts). */
  method DidChangeConfiguration(st: State, settings: ChangedSettings, documents: seq<(Uri, string)>, fetch: Uri -> Settings)
    returns (st': State)
    ensures st' == ConfigurationChanged(st, settings, documents, fetch)
    ensures ApplyConfiguration(st, settings).Failure? ==> st' == st
    ensures Valid(st) ==> Valid(st')
  {
    var applied := ApplyConfiguration(st, settings);
    if applied.Failure? {
      return st;
    }
    st' := applied.value;
    ghost var goal := RevalidateAll(st', documents, fetch);
    for i := 0 to |documents|
      invariant RevalidateAll(st', documents[i..], fetch) == goal
      invariant Valid(st) ==> Valid(st')
    {
      assert documents[i..][1..] == documents[i + 1..];
      st' := ValidateTextDocument(st', documents[i].0, documents[i].1, fetch);
    }
  }
}
