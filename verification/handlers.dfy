/** The request handlers: completion, completion resolve and go-to-definition.
    Each reads the name table of the state and changes nothing. */
module Handlers {
  import opened LspTypes
  import opened Scanner
  import opened Server

  /** The completion item offered for a stored name. */
  function TextItem(name: string): CompletionItem {
    CompletionItem(name, Some(TextKind), None)
  }

  /** One item per name, in the same order (`forEach` + `push`). */
  function ItemsFor(names: seq<string>): (items: seq<CompletionItem>)
    ensures |items| == |names|
    ensures forall i :: 0 <= i < |names| ==>
      && items[i].itemLabel == names[i]
      && items[i].kind == Some(TextKind)
      && items[i].detail == None
    decreases |names|
  {
    if |names| == 0 then [] else [TextItem(names[0])] + ItemsFor(names[1..])
  }

  /** `onCompletion`: the document's stored names as text items, whatever
      the cursor position; none for a document without names. */
  function Completion(st: State, uri: Uri, position: Position): (items: seq<CompletionItem>)
    ensures |items| == |StoredNames(st, uri)|
    ensures forall i :: 0 <= i < |items| ==> items[i] == TextItem(StoredNames(st, uri)[i])
    ensures uri !in st.commandsOfLanguage ==> items == []
  {
    ItemsFor(StoredNames(st, uri))
  }

  /** The labels of a list of items. */
  function Labels(items: seq<CompletionItem>): (labels: seq<string>)
    ensures |labels| == |items|
    ensures forall i :: 0 <= i < |items| ==> labels[i] == items[i].itemLabel
  {
    seq(|items|, i requires 0 <= i < |items| => items[i].itemLabel)
  }

  /** The labels completion offers are exactly the stored names, in order. */
  lemma CompletionLabels(st: State, uri: Uri, position: Position)
    ensures Labels(Completion(st, uri, position)) == StoredNames(st, uri)
  {
    var labels := Labels(Completion(st, uri, position));
    assert |labels| == |StoredNames(st, uri)|;
    forall i | 0 <= i < |labels|
      ensures labels[i] == StoredNames(st, uri)[i]
    {
    }
  }

  /** After a validation pass, completion offers what it offered before
      followed by the names the pass recorded, in text order. */
  lemma CompletionAfterValidation(st: State, uri: Uri, text: string, fetch: Uri -> Settings, position: Position)
    ensures Labels(Completion(Validated(st, uri, text, fetch), uri, position)) ==
      Labels(Completion(st, uri, position))
        + FirstDeclarations(text, GetDocumentSettings(st, uri, fetch).settings.maxNumberOfProblems)
  {
    CompletionLabels(st, uri, position);
    CompletionLabels(Validated(st, uri, text, fetch), uri, position);
  }

  /** A closed document offers no completions, and the other documents'
      completions are unaffected. */
  lemma CompletionAfterClose(st: State, uri: Uri, other: Uri, position: Position)
    ensures Completion(DidClose(st, uri), uri, position) == []
    ensures other != uri ==> Completion(DidClose(st, uri), other, position) == Completion(st, other, position)
  {
  }

  /** `onCompletionResolve`: the item with its detail set to its label. */
  function CompletionResolve(item: CompletionItem): (r: CompletionItem)
    ensures r.detail == Some(item.itemLabel)
    ensures r.itemLabel == item.itemLabel && r.kind == item.kind
  {
    item.(detail := Some(item.itemLabel))
  }

  /** Resolving twice is resolving once, and a resolved completion item
      shows its stored name as detail. */
  lemma ResolveIdempotent(st: State, uri: Uri, position: Position, item: CompletionItem)
    ensures CompletionResolve(CompletionResolve(item)) == CompletionResolve(item)
    ensures forall i :: 0 <= i < |Completion(st, uri, position)| ==>
      CompletionResolve(Completion(st, uri, position)[i]).detail == Some(StoredNames(st, uri)[i])
  {
  }

  /** The range `(0,0)-(0,len)` on the first line. */
  function FirstLineRange(len: nat): Range {
    Range(Position(0, 0), Position(0, len))
  }

  /** `onDefinition`: a location in the requested document, on its first
      line, as wide as the document's first stored name (empty when the
      document has no names). The cursor position is not consulted. An empty
      stored list would make the server read `length` of `undefined`. */
  function Definition(st: State, uri: Uri, position: Position): (r: Result<Location>)
    ensures r.Success? <==> uri !in st.commandsOfLanguage || |st.commandsOfLanguage[uri]| > 0
    ensures r.Success? ==>
      r.value == Location(uri, FirstLineRange(if uri in st.commandsOfLanguage then |st.commandsOfLanguage[uri][0]| else 0))
  {
    if uri in st.commandsOfLanguage then
      var commandsOfDocument := st.commandsOfLanguage[uri];
      if |commandsOfDocument| == 0 then Failure(ReadOfUndefined)
      else Success(Location(uri, FirstLineRange(|commandsOfDocument[0]|)))
    else
      Success(Location(uri, FirstLineRange(0)))
  }

  /** The definition request ignores the cursor. */
  lemma DefinitionIgnoresCursor(st: State, uri: Uri, p1: Position, p2: Position)
    ensures Definition(st, uri, p1) == Definition(st, uri, p2)
  {
  }

  /** In every reachable state the definition request answers. */
  lemma DefinitionAnswersWhenValid(st: State, uri: Uri, position: Position)
    requires Valid(st)
    ensures Definition(st, uri, position).Success?
  {
  }

  /** Once a document has names, re-validation never changes its definition
      answer (names are only appended); before that, the first pass that
      records a name fixes the answer to the width of the text's first
      declaration. */
  lemma DefinitionAfterValidation(st: State, uri: Uri, text: string, fetch: Uri -> Settings, position: Position)
    requires Valid(st)
    ensures var st' := Validated(st, uri, text, fetch);
      var added := FirstDeclarations(text, GetDocumentSettings(st, uri, fetch).settings.maxNumberOfProblems);
      && (uri in st.commandsOfLanguage ==> Definition(st', uri, position) == Definition(st, uri, position))
      && (uri !in st.commandsOfLanguage && |added| > 0 ==>
            Definition(st', uri, position) == Success(Location(uri, FirstLineRange(|DeclaredNames(text)[0]|))))
  {
  }

  /** A closed document's definition is the empty range at its start. */
  lemma DefinitionAfterClose(st: State, uri: Uri, position: Position)
    ensures Definition(DidClose(st, uri), uri, position) == Success(Location(uri, FirstLineRange(0)))
  {
  }
}
