/** The records the transcoder's stages pass along (index.ts, config.ts,
    transcoder.ts) and the errors it reports. */
module Types {
  import opened Wrappers
  import opened JsonValue

  /** index.ts `HttpMethod`. */
  datatype HttpMethod = GET | PUT | POST | DELETE | PATCH

  /** config.ts `TranscodingConfig`: the binding chosen for an RPC. */
  datatype TranscodingConfig = TranscodingConfig(
    pathTemplate: string,
    httpMethod: HttpMethod,
    body: Option<string>)

  /** The `transcoded` part of a bundle: what the stages have produced. */
  datatype Transcoded = Transcoded(
    httpMethod: HttpMethod,
    urlEncodedPath: Option<string>,
    urlEncodedQueryString: Option<string>,
    body: Option<string>)

  /** transcoder.ts `TranscodingBundle`: the configuration, the fields of the
      request still waiting to be placed, and the results so far. */
  datatype TranscodingBundle = TranscodingBundle(
    config: TranscodingConfig,
    notTranscoded: Object,
    transcoded: Transcoded)

  /** index.ts `HttpRequest`. */
  datatype HttpRequest = HttpRequest(
    urlEncodedPath: string,
    urlEncodedQueryString: Option<string>,
    httpMethod: HttpMethod,
    body: Option<string>)

  /** The `Error`s the transcoder returns as `Left`, and `TypeError` for the
      exceptions JavaScript throws inside a stage. */
  datatype Error =
    | NoHttpOptions(methodName: string)
    | NoPathTemplateOption
    | PathTemplateUnparsed
    | MethodUnparsed
    | PathUndefined
    | TypeError(reason: string)

  /** The message each error carries. */
  function Message(e: Error): string
  {
    match e
    case NoHttpOptions(name) => "RPC " + name + " does not have any configured HTTP options."
    case NoPathTemplateOption => "RPC does not have an HTTP option with a path template."
    case PathTemplateUnparsed => "Could not parse path template"
    case MethodUnparsed => "Could not parse HTTP method"
    case PathUndefined => "Invalid transcoding bundle: URL encoded path is undefined."
    case TypeError(reason) => reason
  }
}
