/** transcoder.ts: transcoding one RPC call into an HTTP request, stage by
    stage: configuration, path, body, query string, request. */
module Transcoder {
  import opened Wrappers
  import opened JsonValue
  import opened Types
  import Util
  import Config
  import Path
  import Body
  import QueryString

  /** `createTranscodingBundle`: every field of the request is still to be
      placed, nothing is transcoded yet, and the method is the binding's. */
  function CreateTranscodingBundle(request: Object, config: TranscodingConfig): (b: TranscodingBundle)
    ensures b.config == config && b.notTranscoded == request
    ensures b.transcoded.httpMethod == config.httpMethod
    ensures b.transcoded.urlEncodedPath.None? && b.transcoded.body.None?
    ensures b.transcoded.urlEncodedQueryString.None?
  {
    TranscodingBundle(config, request, Transcoded(config.httpMethod, None, None, None))
  }

  /** `getHttpRequest`: the request the bundle describes, which needs a
      path. */
  function GetHttpRequest(bundle: TranscodingBundle): (r: Result<HttpRequest, Error>)
    ensures r.Failure? <==> bundle.transcoded.urlEncodedPath.None?
    ensures r.Failure? ==> r.error == PathUndefined
    ensures r.Success? ==>
      && r.value.urlEncodedPath == bundle.transcoded.urlEncodedPath.value
      && r.value.urlEncodedQueryString == bundle.transcoded.urlEncodedQueryString
      && r.value.httpMethod == bundle.transcoded.httpMethod
      && r.value.body == bundle.transcoded.body
  {
    match bundle.transcoded.urlEncodedPath
    case None => Failure(PathUndefined)
    case Some(path) =>
      Success(HttpRequest(path, bundle.transcoded.urlEncodedQueryString, bundle.transcoded.httpMethod, bundle.transcoded.body))
  }

  /** The bundle once the path is rendered. */
  function AfterPath(config: TranscodingConfig, request: Object): Result<TranscodingBundle, Error>
  {
    Path.TranscodePath(CreateTranscodingBundle(request, config))
  }

  /** `transcodeRpc`, given the RPC's options (`undefined` when it has none)
      and the request's JSON form. A configuration error is returned as it
      is; after that the only failures are the `TypeError`s a stage throws,
      and the path is always set, so the request is never refused for
      want of one. The method is the binding's. */
  function TranscodeRpc(methodName: string, rpcOptions: Option<Config.RpcOptions>, request: Object): (r: Result<HttpRequest, Error>)
    ensures Config.ReadConfiguration(methodName, rpcOptions).Failure? ==>
      r == Failure(Config.ReadConfiguration(methodName, rpcOptions).error)
    ensures Config.ReadConfiguration(methodName, rpcOptions).Success? && r.Failure? ==> r.error.TypeError?
    ensures r.Failure? ==> r.error != PathUndefined
    ensures r.Success? ==>
      && Config.ReadConfiguration(methodName, rpcOptions).Success?
      && r.value.httpMethod == Config.ReadConfiguration(methodName, rpcOptions).value.httpMethod
  {
    match Config.ReadConfiguration(methodName, rpcOptions)
    case Failure(e) => Failure(e)
    case Success(config) =>
      match AfterPath(config, request)
      case Failure(e) => Failure(e)
      case Success(withPath) =>
        match QueryString.TranscodeQueryString(Body.TranscodeBody(withPath))
        case Failure(e) => Failure(e)
        case Success(withQuery) => GetHttpRequest(withQuery)
  }

  /** Where the fields the path left go. With no body option there is no
      body and they all go to the query string; with `*` they all go into
      the body and there is no query string; with a field name that
      top-level field is the body and the others go to the query string.
      The path is the rendered template and the method the binding's. */
  lemma TranscodeRpcParts(methodName: string, rpcOptions: Option<Config.RpcOptions>, request: Object)
    requires Config.ReadConfiguration(methodName, rpcOptions).Success?
    requires AfterPath(Config.ReadConfiguration(methodName, rpcOptions).value, request).Success?
    ensures var config := Config.ReadConfiguration(methodName, rpcOptions).value;
      var withPath := AfterPath(config, request).value;
      var rest := withPath.notTranscoded;
      var r := TranscodeRpc(methodName, rpcOptions, request);
      match config.body
      case None =>
        (r.Success? <==> Util.NullFree(rest)) &&
        (r.Success? ==>
          && r.value == HttpRequest(withPath.transcoded.urlEncodedPath.value, QueryString.QueryFor(rest), config.httpMethod, None))
      case Some(field) =>
        if field == "*" then
          r == Success(HttpRequest(withPath.transcoded.urlEncodedPath.value, None, config.httpMethod,
                                   Some(Serialize(JObject(rest)))))
        else
          var key := Util.SnakeToCamel(field);
          var others := Dissoc(rest, key);
          (r.Success? <==> Util.NullFree(others)) &&
          (r.Success? ==>
            r.value == HttpRequest(withPath.transcoded.urlEncodedPath.value, QueryString.QueryFor(others), config.httpMethod,
                                   Some(Serialize(JObject(Body.SingleField(key, Get(rest, key)))))))
  {
    var config := Config.ReadConfiguration(methodName, rpcOptions).value;
    var withPath := AfterPath(config, request).value;
    match config.body {
      case None =>
      case Some(field) =>
        if field != "*" {
          Body.RemoveTopLevel(Util.SnakeToCamel(field), withPath.notTranscoded);
        }
    }
  }

  /** With a named body field, no field the query string carries lies
      under it: the field is sent once. */
  lemma NamedBodyNotInQuery(rest: Object, key: string)
    ensures forall k :: 0 <= k < |Util.LeafPaths(Dissoc(rest, key))| ==>
      |Util.LeafPaths(Dissoc(rest, key))[k]| >= 1 && Util.LeafPaths(Dissoc(rest, key))[k][0] != key
  {
    QueryString.LeafPathsHeads(Dissoc(rest, key));
    GetDissoc(rest, key, key);
  }

  /** Every field a token names is gone from what the body and the query
      string are made of: a field placed in the path is not sent again. */
  lemma PathFieldsNotResent(config: TranscodingConfig, request: Object)
    requires AfterPath(config, request).Success?
    ensures forall ps ::
      ps in Path.ParsePathSubstitutions(config.pathTemplate, request) && |ps.messageKeyPath| > 0 ==>
        Lookup(ps.messageKeyPath, JObject(AfterPath(config, request).value.notTranscoded)).None?
  {
    Path.TranscodePathRemovesFields(CreateTranscodingBundle(request, config));
  }

  /** A field of the request that neither leads to nor lies under a token's
      field is still there, with its value, for the body and the query
      string once the path is rendered. */
  lemma PathKeepsOtherFields(config: TranscodingConfig, request: Object, q: seq<string>)
    requires AfterPath(config, request).Success?
    requires Path.KeyPathsThroughObjects(request, Path.ParsePathSubstitutions(config.pathTemplate, request))
    requires Path.Untouched(q, Path.ParsePathSubstitutions(config.pathTemplate, request))
    ensures Lookup(q, JObject(AfterPath(config, request).value.notTranscoded)) == Lookup(q, JObject(request))
  {
    Path.TranscodePathKeepsOthers(CreateTranscodingBundle(request, config), q);
  }
}
