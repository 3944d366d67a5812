/** Protocol records the server exchanges with the editor, and the small
    wrapper types used for absent values and failed requests. */
module LspTypes {

  /** A value that may be absent (`undefined` in the server). */
  datatype Option<+T> = None | Some(value: T) {
    function GetOr(default: T): T {
      match this
      case Some(v) => v
      case None => default
    }
  }

  /** What a request handler that can throw produces: a response, or the
      error the language-server library reports back to the client. */
  datatype Result<+T> = Success(value: T) | Failure(error: ResponseError)

  datatype ResponseError =
    /** A property read on `undefined` or `null` (a `TypeError`). */
    | ReadOfUndefined

  /** Document identifiers are compared as plain strings. */
  type Uri = string

  /** The per-document configuration record (`ExampleSettings`). */
  datatype Settings = Settings(maxNumberOfProblems: int)

  /** `defaultSettings` in the server. */
  const DefaultSettings: Settings := Settings(1000)

  /** A zero-based line/character pair. */
  datatype Position = Position(line: nat, character: nat)

  datatype Range = Range(start: Position, end: Position)

  datatype Location = Location(uri: Uri, range: Range)

  /** `CompletionItemKind.Text` in the protocol. */
  const TextKind: int := 1

  /** The completion-item fields the server reads or writes (`itemLabel` is
      the protocol's `label`, a reserved word in Dafny); every other
      field of the protocol record is carried along unchanged by the only
      handler that receives items from the client, so it is not modelled. */
  datatype CompletionItem = CompletionItem(
    itemLabel: string,
    kind: Option<int>,
    detail: Option<string>)
}
