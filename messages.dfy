/**
 * The message vocabulary that crosses the worker boundary, and the opaque
 * payloads those messages carry.
 */
module Messages {

  datatype Option<T> = None | Some(value: T)

  /**
   * A JSON value as the bridge sees it: it is forwarded, never interpreted.
   * Numbers keep their decimal text.
   */
  datatype Json =
    | JNull
    | JBool(b: bool)
    | JNumber(text: string)
    | JString(s: string)
    | JArray(items: seq<Json>)
    | JObject(fields: map<string, Json>)

  /** A binary block that travels beside an outbound patch. */
  type Bytes = seq<bv8>

  /**
   * A message the worker posts to the page (`self.postMessage`).
   * `Status(None)` is a status whose `msg` is JavaScript's `undefined`.
   */
  datatype Outbound =
    | Status(msg: Option<string>)
    | Render(docsJson: Json, renderItems: Json, rootIds: Json)
    | PatchOut(patch: Json, buffers: seq<Bytes>)
    | Idle

  /** A `type` field the worker does not handle. */
  type UnhandledKind = kind: string | kind != "rendered" && kind != "patch" && kind != "location" witness ""

  /**
   * A message the page posts to the worker, by its `type` field; `Other`
   * stands for any `type` the worker does not handle.
   */
  datatype Inbound =
    | Rendered
    | PatchIn(patch: Json)
    | LocationIn(location: Json)
    | Other(kind: UnhandledKind)
}
