/** config.ts: reading the `google.api.http` binding of an RPC from its
    options record and turning it into a `TranscodingConfig`. */
module Config {
  import opened Wrappers
  import opened Types

  /** One entry of an RPC's options record. */
  datatype RpcOption = RpcOption(key: string, value: string)

  /** An RPC's options (`Record<string, string>`), in `Object.keys` order. */
  type RpcOptions = seq<RpcOption>

  const GetKey: string := "(google.api.http).get"
  const PutKey: string := "(google.api.http).put"
  const PostKey: string := "(google.api.http).post"
  const DeleteKey: string := "(google.api.http).delete"
  const PatchKey: string := "(google.api.http).patch"
  const BodyKey: string := "(google.api.http).body"

  /** The values of the `RpcHttpOptionKey` enum. */
  const HttpOptionKeys: seq<string> := [GetKey, PutKey, PostKey, DeleteKey, PatchKey, BodyKey]

  /** `isHttpOption`. */
  predicate IsHttpOptionKey(key: string)
  {
    key in HttpOptionKeys
  }

  /** An HTTP option key other than `body`: one naming a verb, whose value
      is a path template. */
  predicate IsPathKey(key: string)
  {
    IsHttpOptionKey(key) && key != BodyKey
  }

  /** `options[key]`: the value stored under the key, `undefined` if none. */
  function ValueOf(options: RpcOptions, key: string): (r: Option<string>)
    ensures r.Some? ==> RpcOption(key, r.value) in options
    ensures r.None? ==> forall i :: 0 <= i < |options| ==> options[i].key != key
  {
    if |options| == 0 then None
    else if options[0].key == key then Some(options[0].value)
    else ValueOf(options[1..], key)
  }

  /** `Object.keys(options)`. */
  function Keys(options: RpcOptions): (r: seq<string>)
    ensures |r| == |options|
    ensures forall i :: 0 <= i < |options| ==> r[i] == options[i].key
  {
    seq(|options|, i requires 0 <= i < |options| => options[i].key)
  }

  /** `delete options[key]` on a copy: the entries with another key, in
      their order. */
  function Delete(options: RpcOptions, key: string): (r: RpcOptions)
    ensures forall e :: e in r <==> e in options && e.key != key
  {
    if |options| == 0 then []
    else if options[0].key == key then Delete(options[1..], key)
    else [options[0]] + Delete(options[1..], key)
  }

  /** What `onlyHttpOptions` returns: the entries under an HTTP option key,
      in their order. */
  function HttpOptions(options: RpcOptions): (r: RpcOptions)
    ensures forall e :: e in r <==> e in options && IsHttpOptionKey(e.key)
  {
    if |options| == 0 then []
    else if IsHttpOptionKey(options[0].key) then [options[0]] + HttpOptions(options[1..])
    else HttpOptions(options[1..])
  }

  /** The entries the `forEach` of `onlyHttpOptions` has not deleted once
      it has visited the keys in `visited`. */
  function Pending(options: RpcOptions, visited: seq<string>): RpcOptions
  {
    if |options| == 0 then []
    else if IsHttpOptionKey(options[0].key) || options[0].key !in visited then
      [options[0]] + Pending(options[1..], visited)
    else Pending(options[1..], visited)
  }

  /** `onlyHttpOptions`: visit every key of a draft copy of the options and
      delete those that are not HTTP option keys. */
  method OnlyHttpOptions(rpcOptions: RpcOptions) returns (options: RpcOptions)
    ensures options == HttpOptions(rpcOptions)
  {
    options := rpcOptions;
    var keys := Keys(rpcOptions);
    PendingNothingVisited(rpcOptions);
    var i := 0;
    while i < |keys|
      invariant 0 <= i <= |keys|
      invariant options == Pending(rpcOptions, keys[..i])
    {
      PendingNext(rpcOptions, keys, i);
      if !IsHttpOptionKey(keys[i]) {
        options := Delete(options, keys[i]);
      }
      i := i + 1;
    }
    assert keys[..i] == keys;
    PendingAllVisited(rpcOptions, keys);
  }

  lemma {:induction false} PendingNothingVisited(options: RpcOptions)
    ensures Pending(options, []) == options
    decreases |options|
  {
    if |options| > 0 {
      PendingNothingVisited(options[1..]);
      assert [options[0]] + options[1..] == options;
    }
  }

  /** Visiting one more key deletes its entries unless it is an HTTP option
      key. */
  lemma {:induction false} PendingVisit(options: RpcOptions, visited: seq<string>, key: string)
    ensures Pending(options, visited + [key]) ==
      if IsHttpOptionKey(key) then Pending(options, visited) else Delete(Pending(options, visited), key)
    decreases |options|
  {
    if |options| > 0 {
      PendingVisit(options[1..], visited, key);
      var e := options[0];
      assert e.key in visited + [key] <==> e.key in visited || e.key == key;
      if IsHttpOptionKey(e.key) || e.key !in visited {
        assert Pending(options, visited) == [e] + Pending(options[1..], visited);
      }
    }
  }

  /** One step of the loop of `onlyHttpOptions`, over a prefix of the keys. */
  lemma PendingNext(options: RpcOptions, keys: seq<string>, i: nat)
    requires i < |keys|
    ensures Pending(options, keys[..i + 1]) ==
      if IsHttpOptionKey(keys[i]) then Pending(options, keys[..i]) else Delete(Pending(options, keys[..i]), keys[i])
  {
    assert keys[..i + 1] == keys[..i] + [keys[i]];
    PendingVisit(options, keys[..i], keys[i]);
  }

  /** Once every key has been visited only the HTTP option entries are left. */
  lemma {:induction false} PendingAllVisited(options: RpcOptions, visited: seq<string>)
    requires forall i :: 0 <= i < |options| ==> options[i].key in visited
    ensures Pending(options, visited) == HttpOptions(options)
    decreases |options|
  {
    if |options| > 0 {
      assert options[0].key in visited;
      PendingAllVisited(options[1..], visited);
    }
  }

  /** The index of the first entry under a verb key: the reference for which
      binding is chosen when an RPC has several. */
  function FirstPathEntry(options: RpcOptions): (r: Option<nat>)
    ensures r.Some? ==> r.value < |options| && IsPathKey(options[r.value].key)
    ensures r.Some? ==> forall j :: 0 <= j < r.value ==> !IsPathKey(options[j].key)
    ensures r.None? ==> forall j :: 0 <= j < |options| ==> !IsPathKey(options[j].key)
  {
    if |options| == 0 then None
    else if IsPathKey(options[0].key) then Some(0)
    else match FirstPathEntry(options[1..])
      case None => None
      case Some(i) => Some(i + 1)
  }

  /** The state `readConfiguration` threads through its steps. */
  datatype ParsingBundle = ParsingBundle(
    options: RpcOptions,
    httpOptionKeyWithPath: Option<string>,
    pathTemplate: Option<string>,
    httpMethod: Option<HttpMethod>,
    body: Option<string>)

  /** `readRpcOptions`, given the options the descriptor holds for the
      method (`undefined` when it has none). */
  function ReadRpcOptions(methodName: string, rpcOptions: Option<RpcOptions>): Result<ParsingBundle, Error>
  {
    match rpcOptions
    case None => Failure(NoHttpOptions(methodName))
    case Some(options) => Success(ParsingBundle(options, None, None, None, None))
  }

  /** The first key of the HTTP options once `body` is deleted. */
  function FirstKeyWithPath(options: RpcOptions): Option<string>
  {
    var withPath := Delete(HttpOptions(options), BodyKey);
    if |withPath| == 0 then None else Some(withPath[0].key)
  }

  /** `findHttpOptionKeyWithPath`. */
  function FindHttpOptionKeyWithPath(bundle: ParsingBundle): ParsingBundle
  {
    bundle.(httpOptionKeyWithPath := FirstKeyWithPath(bundle.options))
  }

  /** The key `findHttpOptionKeyWithPath` settles on is the key of the first
      entry under a verb key, whatever other options come before it. */
  lemma {:induction false} FirstKeyWithPathIsFirstVerb(options: RpcOptions)
    ensures FirstKeyWithPath(options) ==
      match FirstPathEntry(options)
      case None => None
      case Some(i) => Some(options[i].key)
    decreases |options|
  {
    if |options| > 0 {
      var e := options[0];
      FirstKeyWithPathIsFirstVerb(options[1..]);
      if IsPathKey(e.key) {
        assert Delete(HttpOptions(options), BodyKey) == [e] + Delete(HttpOptions(options[1..]), BodyKey);
      } else if IsHttpOptionKey(e.key) {
        assert e.key == BodyKey;
        assert Delete(HttpOptions(options), BodyKey) == Delete(HttpOptions(options[1..]), BodyKey);
      } else {
        assert HttpOptions(options) == HttpOptions(options[1..]);
      }
    }
  }

  /** `addPathTemplate`. */
  function AddPathTemplate(bundle: ParsingBundle): Result<ParsingBundle, Error>
  {
    match bundle.httpOptionKeyWithPath
    case None => Failure(NoPathTemplateOption)
    case Some(key) => Success(bundle.(pathTemplate := ValueOf(bundle.options, key)))
  }

  /** The option key of each verb. */
  function MethodKey(m: HttpMethod): (key: string)
    ensures IsPathKey(key)
    ensures ParseMethod(key) == Some(m)
  {
    match m
    case GET => GetKey
    case PUT => PutKey
    case POST => PostKey
    case DELETE => DeleteKey
    case PATCH => PatchKey
  }

  /** `parseMethod`: the verb of a verb key, `undefined` for any other key. */
  function ParseMethod(key: string): (r: Option<HttpMethod>)
    ensures r.Some? <==> IsPathKey(key)
  {
    if key == GetKey then Some(GET)
    else if key == PutKey then Some(PUT)
    else if key == PostKey then Some(POST)
    else if key == DeleteKey then Some(DELETE)
    else if key == PatchKey then Some(PATCH)
    else None
  }

  /** `addMethod`. */
  function AddMethod(bundle: ParsingBundle): Result<ParsingBundle, Error>
  {
    match bundle.httpOptionKeyWithPath
    case None => Failure(NoPathTemplateOption)
    case Some(key) => Success(bundle.(httpMethod := ParseMethod(key)))
  }

  /** `addBody`. */
  function AddBody(bundle: ParsingBundle): ParsingBundle
  {
    bundle.(body := ValueOf(bundle.options, BodyKey))
  }

  /** `getConfig`. */
  function GetConfig(bundle: ParsingBundle): Result<TranscodingConfig, Error>
  {
    if bundle.pathTemplate.None? then Failure(PathTemplateUnparsed)
    else if bundle.httpMethod.None? then Failure(MethodUnparsed)
    else Success(TranscodingConfig(bundle.pathTemplate.value, bundle.httpMethod.value, bundle.body))
  }

  /** `readConfiguration`: the steps above, stopping at the first `Left`.
      An RPC without options fails with its name; one without a verb key
      fails for want of a path template; the two parse errors of
      `getConfig` never happen. */
  function ReadConfiguration(methodName: string, rpcOptions: Option<RpcOptions>): (r: Result<TranscodingConfig, Error>)
    ensures rpcOptions.None? ==> r == Failure(NoHttpOptions(methodName))
    ensures rpcOptions.Some? ==> (r.Failure? <==> FirstPathEntry(rpcOptions.value).None?)
    ensures r.Failure? ==> r.error == NoHttpOptions(methodName) || r.error == NoPathTemplateOption
    ensures rpcOptions.Some? && r.Failure? ==> r.error == NoPathTemplateOption
  {
    match ReadRpcOptions(methodName, rpcOptions)
    case Failure(e) => Failure(e)
    case Success(parsing) =>
      FirstKeyWithPathIsFirstVerb(parsing.options);
      var withKey := FindHttpOptionKeyWithPath(parsing);
      match AddPathTemplate(withKey)
      case Failure(e) => Failure(e)
      case Success(withTemplate) =>
        match AddMethod(withTemplate)
        case Failure(e) => Failure(e)
        case Success(withMethod) =>
          var i := FirstPathEntry(parsing.options).value;
          ValueOfFirst(parsing.options, i);
          GetConfig(AddBody(withMethod))
  }

  /** The value stored under the key of the entry at `i`, when no earlier
      entry has that key, is that entry's value. */
  lemma {:induction false} ValueOfFirst(options: RpcOptions, i: nat)
    requires i < |options|
    requires forall j :: 0 <= j < i ==> options[j].key != options[i].key
    ensures ValueOf(options, options[i].key) == Some(options[i].value)
    decreases i
  {
    if i > 0 {
      ValueOfFirst(options[1..], i - 1);
    }
  }

  /** The configuration read from options with a verb key: the path template
      and the verb of the first verb entry, and the body option if any. */
  lemma ReadConfigurationFirstBinding(methodName: string, options: RpcOptions, i: nat)
    requires FirstPathEntry(options) == Some(i)
    ensures var r := ReadConfiguration(methodName, Some(options));
      && r.Success?
      && r.value.pathTemplate == options[i].value
      && MethodKey(r.value.httpMethod) == options[i].key
      && r.value.body == ValueOf(options, BodyKey)
  {
    FirstKeyWithPathIsFirstVerb(options);
    ValueOfFirst(options, i);
    var key := options[i].key;
    ParseMethodKey(key);
    var parsing := ParsingBundle(options, Some(key), None, None, None);
    var withTemplate := parsing.(pathTemplate := Some(options[i].value));
    assert AddPathTemplate(parsing) == Success(withTemplate);
    var withMethod := withTemplate.(httpMethod := ParseMethod(key));
    assert AddMethod(withTemplate) == Success(withMethod);
  }

  /** Every verb key parses to the verb whose key it is. */
  lemma ParseMethodKey(key: string)
    requires IsPathKey(key)
    ensures ParseMethod(key).Some? && MethodKey(ParseMethod(key).value) == key
  {
  }

  /** Looking an HTTP option key up among the HTTP options alone gives what
      it gives in the whole record. */
  lemma {:induction false} ValueOfHttpOptions(options: RpcOptions, key: string)
    requires IsHttpOptionKey(key)
    ensures ValueOf(HttpOptions(options), key) == ValueOf(options, key)
    decreases |options|
  {
    if |options| > 0 {
      ValueOfHttpOptions(options[1..], key);
    }
  }

  /** Options other than the six HTTP option keys make no difference. */
  lemma OnlyHttpOptionsMatter(methodName: string, a: RpcOptions, b: RpcOptions)
    requires HttpOptions(a) == HttpOptions(b)
    ensures ReadConfiguration(methodName, Some(a)) == ReadConfiguration(methodName, Some(b))
  {
    match FirstKeyWithPath(a) {
      case None =>
      case Some(key) =>
        FirstKeyWithPathIsFirstVerb(a);
        ValueOfHttpOptions(a, key);
        ValueOfHttpOptions(b, key);
        ValueOfHttpOptions(a, BodyKey);
        ValueOfHttpOptions(b, BodyKey);
    }
  }
}
