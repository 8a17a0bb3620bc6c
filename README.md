# HTTP transcoder of pbts-grpc-transcoder, in Dafny

This project models the HTTP transcoder of `pbts-grpc-transcoder`
(`src/http-transcoder/`). The transcoder turns one unary gRPC call into an
HTTP/1 request, following the `google.api.http` binding rules. Its inputs
are the RPC's options record and the request message in its JSON form. Its
output is an HTTP method, a URL-encoded path, an optional query string and
an optional JSON body. It works in stages, in a fixed order:

- **Configuration** (`config.ts`, module `Config`). It keeps only the six
  `(google.api.http).*` option keys. The first verb key gives the path
  template and the method. The `body` key, when present, names the body.
  `onlyHttpOptions` deletes keys from a draft copy in a loop. Here that is
  the method `Config.OnlyHttpOptions`, proved equal to the filter function
  `Config.HttpOptions` that the rest of the model uses.
- **Path** (`path.ts`, module `Path`). It finds the `{...}` tokens of the
  template, looks each token's field up in the request and renders it into
  the template. It then removes each token's field from the fields still to
  be placed, pruning parents left empty.
- **Body** (`body.ts`, module `Body`). There are three cases: no body, every
  remaining field (`*`), or one named top-level field.
- **Query string** (`queryString.ts`, module `QueryString`). Every remaining
  leaf becomes a `key=value` pair. The key is the camel-cased dotted path,
  and an array gives one pair per element. Empty values are dropped. The
  pairs are joined by `&` behind a `?`, and there is no query string when
  no pair is left.
- **Pipeline** (`transcoder.ts`, module `Transcoder`). It runs the stages
  above and assembles the request.
- **Field-path utilities** (`util.ts`, module `Util`). These are case
  conversion, `messageKeyPath`, `fieldPaths`, `removeProperty` and the two
  path-expansion matchers.

Supporting modules hold the JavaScript and library behaviour these stages
rely on:
- `Wrappers` holds `Option` and `Result`.
- `Text` holds `split`, `join`, `indexOf` and `replace` with a string
  pattern.
- `JsonValue` holds the JSON tree, and Ramda's `path`, `dissocPath` and
  `isEmpty`.
- `UriEncoding` holds `encodeURIComponent` over UTF-8 and a percent-decoder
  used to state what the encoding keeps.
- `Types` holds the records passed between stages and the errors.

A JSON object is an association list in `Object.keys` order, because key
order decides which binding wins and the order of the query pairs.
`fp-ts`'s `Either` is `Result`: its `Left` errors are the `Error` variants
the source constructs. A JavaScript exception thrown inside a stage is a
`Failure(TypeError(..))`. Within the model's domain, where an expansion
holds no regular-expression syntax besides its first `*` or `**` (see
"## Left out"), two such exceptions can occur:
- `value.match` on a value that is not a string, in a multi-segment path
  variable;
- `Object.entries(null)` inside `fieldPaths`, when a remaining field is
  `null`.

Points where the code does something its own comments or names do not
say, and which the model follows:
- `renderVariable` is documented as best effort that returns the template
  unchanged when a variable cannot be rendered (`path.ts:60-63`). A
  multi-segment variable whose value is not a string does not get there:
  `value.match` throws (`path.ts:87,90`), and the call fails with a
  `TypeError`.
- The comment at `path.ts:74-76` says every character outside
  `[-_.~0-9a-zA-Z]` is percent-encoded. The code calls
  `encodeURIComponent`, which also leaves `! * ' ( )` unescaped, and the
  model states that.
- Every token's field is removed from the remaining fields, whether or not
  its token was rendered (`path.ts:110-117`).
- Query keys are the camelCase JSON names joined by `.`
  (`queryString.ts:16,19`), not the snake_case names the `google.api.http`
  templates use.
- Two errors of `readConfiguration` never happen:
  `PathTemplateUnparsed` ("Could not parse path template",
  `config.ts:107`) and `MethodUnparsed` ("Could not parse HTTP method",
  `config.ts:110`). The key they guard is always a verb key present in the
  options. `Config.ReadConfiguration` states that the only errors are
  `NoHttpOptions` and `NoPathTemplateOption`.

## Model

| member | source | states |
|---|---|---|
| Util.SnakeToCamel | src/http-transcoder/util.ts:6-11 | the result never has `_`/`-` before a lowercase letter, is no longer than the input, keeps the first letter when lowercase, and adds no `.` |
| Util.SnakeToCamelFixes | src/http-transcoder/util.ts:6-11 | a string with no separator before a lowercase letter is left unchanged |
| Util.SnakeToCamelIdempotent | src/http-transcoder/util.ts:6-11 | converting twice is the same as converting once |
| Util.SnakeToCamelAroundDot | src/http-transcoder/util.ts:6-11 | conversion acts on each side of a `.` separately |
| Util.SnakeToCamelJoin | src/http-transcoder/util.ts:6-11 | converting a dotted path converts each segment |
| Util.CamelToSnake | src/http-transcoder/util.ts:13-16 | the result has no uppercase ASCII letter, is no shorter, and adds no `.` |
| Util.CamelToSnakeFixes | src/http-transcoder/util.ts:13-16 | a string without uppercase ASCII letters is left unchanged |
| Util.CamelToSnakeIdempotent | src/http-transcoder/util.ts:13-16 | converting twice is the same as converting once |
| Util.CamelSnakeRoundTrip | src/http-transcoder/util.ts:13-16 | `snakeToCamelcase(camelToSnakecase(s)) == s` for every `s` without `_` or `-` |
| Util.SnakeCamelRoundTrip | src/http-transcoder/util.ts:6-16 | `camelToSnakecase(snakeToCamelcase(s)) == s` for every `s` without uppercase letters or `-` |
| Util.MessageKeyPath | src/http-transcoder/util.ts:20-25 | the key path is empty exactly for `undefined` and `""` |
| Util.MessageKeyPathSegments | src/http-transcoder/util.ts:24 | a non-empty field path gives the camel-cased `.`-segments, one key per segment |
| Util.PathsLeaves | src/http-transcoder/util.ts:29-47 | on a tree without `null`, `fieldPaths` is every leaf path, depth first in key order, dotted and snake-cased |
| Util.PathsNull | src/http-transcoder/util.ts:29-47 | a `null` member anywhere makes `fieldPaths` throw |
| Util.SnakeAllIdempotent | src/http-transcoder/util.ts:44 | snake-casing again at each level changes nothing once a path is snake-cased |
| Util.DissocPathRemoves | src/http-transcoder/util.ts:50 | after `dissocPath` nothing is left at the path |
| Util.DissocPathOther | src/http-transcoder/util.ts:50 | `dissocPath` keeps the value at every path that is neither a prefix nor an extension of its own |
| Util.RemovePropertyRemoves | src/http-transcoder/util.ts:49-57 | after `removeProperty` nothing is left at the key path |
| Util.RemovePropertyNeverAdds | src/http-transcoder/util.ts:49-57 | a path that held nothing still holds nothing |
| Util.RemovePropertyPrunes | src/http-transcoder/util.ts:51-56 | no ancestor of a removed property is left `""`, `[]` or `{}` |
| Util.RemovePropertyOther | src/http-transcoder/util.ts:49-57 | every path that is neither a prefix nor an extension of the key path keeps its value |
| Util.RemovePropertyUnchanged | src/http-transcoder/util.ts:49-57 | an empty key path, or one whose parent is missing, leaves the tree as it is |
| Util.RemovePropertyExample1 | src/http-transcoder/util.test.ts:29-42 | removing `foo.bar` keeps the sibling `foo.baz` |
| Util.RemovePropertyExample2 | src/http-transcoder/util.test.ts:44-55 | removing `bar.baz` also removes the emptied `bar` |
| Util.RemovePropertyExample3 | src/http-transcoder/util.test.ts:57-67 | removing `foo.bar.baz` prunes up to the root and leaves `{}` |
| Util.StarPathExpansionToPattern | src/http-transcoder/util.ts:59-62 | a literal pattern exactly when there is no `*`; otherwise the first `*` becomes a capture of non-`/` characters between the text before and after it |
| Util.DoubleStarPathExpansionToPattern | src/http-transcoder/util.ts:64-67 | a literal pattern exactly when there is no `**`; otherwise the first `**` becomes a capture of any characters but line terminators |
| Util.MatchAt | src/http-transcoder/path.ts:87-90 | a match at a position has the longest capture the pattern accepts there, and there is none when no capture is accepted |
| Util.SearchFrom | src/http-transcoder/path.ts:87-90 | the match found starts at the leftmost position where the pattern matches |
| Util.StarPatternExample | src/http-transcoder/util.test.ts:69-73 | `/foo/*/bar` becomes `/foo/`, a non-`/` capture, `/bar` |
| Util.StarMatchExample | src/http-transcoder/util.test.ts:69-73 | `/foo/123/bar` matches at 0, capturing `123` |
| Util.StarNoMatchExample | src/http-transcoder/util.test.ts:75-79 | `/foo/123/abc/bar` does not match |
| Util.DoubleStarPatternExample | src/http-transcoder/util.test.ts:81-85 | `/foo/**` becomes `/foo/` and a capture of the rest |
| Util.DoubleStarMatchExample | src/http-transcoder/util.test.ts:81-85 | `/foo/bar/baz/123` matches at 0, capturing `bar/baz/123` |
| Util.DoubleStarNoMatchExample | src/http-transcoder/util.test.ts:87-91 | `/bar/123` does not match |
| UriEncoding.EncodeURIComponent | src/http-transcoder/path.ts:77 | the output holds only unescaped characters and `%` |
| UriEncoding.EncodedHasNoDelimiter | src/http-transcoder/path.ts:77 | the output never holds `/ & = ? # $ { } ,` or a space |
| UriEncoding.EncodeUnescapedIdentity | src/http-transcoder/path.ts:77 | a string of unescaped characters is left as it is |
| UriEncoding.DecodeEncode | src/http-transcoder/path.ts:77 | percent-decoding the output gives the UTF-8 octets of the input |
| Config.HttpOptions | src/http-transcoder/config.ts:46-57 | an entry is kept exactly when its key is one of the six HTTP option keys |
| Config.OnlyHttpOptions | src/http-transcoder/config.ts:46-57 | the loop deleting every non-HTTP key from a draft leaves exactly `HttpOptions` of the input |
| Config.Delete | src/http-transcoder/config.ts:53 | an entry is kept exactly when its key differs from the deleted one |
| Config.ValueOf | src/http-transcoder/config.ts:71 | `options[key]` is an entry's value under that key, and `undefined` only when no entry has the key |
| Config.FirstPathEntry | src/http-transcoder/config.ts:59-65 | the first entry under a verb key, none exactly when no verb key is present |
| Config.FirstKeyWithPathIsFirstVerb | src/http-transcoder/config.ts:59-65 | the key `findHttpOptionKeyWithPath` picks is the first verb key in option order, other options and `body` notwithstanding |
| Config.ParseMethod | src/http-transcoder/config.ts:75-90 | a method is found exactly for the five verb keys |
| Config.MethodKey | src/http-transcoder/config.ts:75-90 | each verb's key is a verb key that parses back to that verb |
| Config.ParseMethodKey | src/http-transcoder/config.ts:75-90 | a verb key parses to the verb whose key it is |
| Config.ReadConfiguration | src/http-transcoder/config.ts:127-139 | missing options give the "no HTTP options" error; present options fail exactly when no verb key is present, and then with the "no path template" error; no other error occurs |
| Config.ReadConfigurationFirstBinding | src/http-transcoder/config.ts:59-117 | with a verb key present, the path template is the first verb entry's value, the method is that key's verb, and the body is the `body` option or absent |
| Config.ValueOfHttpOptions | src/http-transcoder/config.ts:46-57 | looking an HTTP key up among the HTTP options alone gives the same value |
| Config.OnlyHttpOptionsMatter | src/http-transcoder/config.ts:46-65 | two option records with the same HTTP options give the same configuration |
| Path.TokenAt | src/http-transcoder/path.ts:47 | a token at a position is a whole match of `{(.[^{}]*)}`, and none means no end position gives one |
| Path.NextToken | src/http-transcoder/path.ts:49-53 | the next token is the leftmost one from the position |
| Path.Tokens | src/http-transcoder/path.ts:49-53 | every token listed is a whole match of the token expression |
| Path.TokensAreTheScan | src/http-transcoder/path.ts:47-53 | the tokens are what a left-to-right scan finds: each is the whole token at its position, no token starts between one search's start and the token it finds, none starts after the last, and every such scan lists exactly these tokens |
| Path.ScanIsTokens | src/http-transcoder/path.ts:47-53 | any left-to-right scan of the template lists the same tokens |
| Path.FirstTokenFound | src/http-transcoder/path.ts:47-53 | the first token at or after the search position is the one the search finds |
| Path.TokensFromFirst | src/http-transcoder/path.ts:47-53 | with no token before the one at a position, the tokens are that token followed by the tokens after it |
| Path.NoBraceNoTokens | src/http-transcoder/path.ts:49-53 | a template without `{` has no tokens |
| Path.FieldPathBeforeEquals | src/http-transcoder/path.ts:35 | the field path is the text inside the braces up to the first `=` |
| Path.MessageKeyPathIsFieldKeyPath | src/http-transcoder/util.ts:20-25 | `messageKeyPath` of a field path is none for the empty one and otherwise its `.`-separated names in camel case |
| Path.Substitution | src/http-transcoder/path.ts:29-44 | the key path is the one named by the token's text between the braces up to the first `=` (none when that text is empty, otherwise its `.`-separated names in camel case), and the value is what lies at that key path in the request |
| Path.ParsePathSubstitutions | src/http-transcoder/path.ts:29-58 | one substitution per token, in template order, each holding its token, the key path named by the token's field path and the value found there; each is the substitution built for its token |
| Path.ExpansionPattern | src/http-transcoder/path.ts:84-91 | an expansion with `**` is matched by the capturing pattern whose class is "not a line terminator"; one with `*` but no `**` by the one whose class is "not `/`"; one with no `*` is the literal pattern of the expansion itself |
| Path.RenderVariable | src/http-transcoder/path.ts:65-99 | a message, map or `null` value leaves the template as it is; it throws exactly when a non-string reaches `match`; otherwise the template is unchanged or held the token |
| Path.RenderSingleSegment | src/http-transcoder/path.ts:71-78 | `{var}` and `{var=*}` replace the token's first occurrence with the encoded value (`undefined` as `""`), which holds no `/` and decodes to the value's UTF-8 octets |
| Path.RenderMultiSegment | src/http-transcoder/path.ts:84-95 | a matching multi-segment value replaces the token with the matched text, each `/`-piece encoded and the `/`s kept, so that cutting at `/` and decoding gives the pieces back |
| Path.EncodeSegmentsPieces | src/http-transcoder/path.ts:93 | the encoded segments cut at `/` are the encoded pieces of the matched text, each decoding to that piece |
| Path.RenderNoMatch | src/http-transcoder/path.ts:92-98 | a value the pattern does not match leaves the token literal |
| Path.SubstituteFieldValues | src/http-transcoder/path.ts:101-108 | the left fold from the template fails exactly when some substitution throws, and then with a `TypeError` |
| Path.SubstituteNoTokens | src/http-transcoder/path.ts:101-108 | a template without tokens is rendered as it is |
| Path.UpdateNotTranscodedNeverAdds | src/http-transcoder/path.ts:110-117 | removing the tokens' key paths never makes a missing field appear |
| Path.UpdateNotTranscodedRemoves | src/http-transcoder/path.ts:110-117 | every token's non-empty key path is gone afterwards, rendered or not |
| Path.TranscodePath | src/http-transcoder/path.ts:124-131 | on success the path is exactly the template rendered by `substituteFieldValues` from the parsed tokens, and the configuration and other results are unchanged; it fails exactly when some token's substitution throws, with a `TypeError` |
| Path.TranscodePathRemovesFields | src/http-transcoder/path.ts:110-131 | no field a token names is left to transcode |
| Path.UpdateNotTranscodedOther | src/http-transcoder/path.ts:110-117 | removing the tokens' fields one after another leaves every field that neither leads to nor lies under a token's field with the value it had |
| Path.TranscodePathKeepsOthers | src/http-transcoder/path.ts:124-131 | after `transcodePath` every field not on a token's key path keeps its value |
| Body.SingleField | src/http-transcoder/body.ts:33 | `{[key]: value}` holds the value under the key and nothing under any other key |
| Body.TranscodeBody | src/http-transcoder/body.ts:12-36 | none: no body, fields unchanged; `*`: the body is every remaining field and none remain; a name: the body is that top-level field alone, which is removed while every other key keeps its value; configuration, method, path and query untouched |
| Body.RemoveTopLevel | src/http-transcoder/body.ts:34 | removing a one-key path deletes that top-level member and leaves every other key |
| QueryString.ElementPairs | src/http-transcoder/queryString.ts:14-18 | one pair per array element, in order, each the key and the encoded element |
| QueryString.PairDecodes | src/http-transcoder/queryString.ts:16-19 | a pair cuts at `=` into the key and the encoded value, which decodes to the value's UTF-8 octets |
| QueryString.RenderFieldPairs | src/http-transcoder/queryString.ts:13-20 | a rendered field cut at `&` gives back one pair per element, never comma-joined |
| QueryString.QueryFields | src/http-transcoder/queryString.ts:26-30 | one field per field path, in order, with the value found along `messageKeyPath` of that path |
| QueryString.NonEmptyFields | src/http-transcoder/queryString.ts:31 | a field is kept exactly when its value is not `""`, `[]` or `{}` |
| QueryString.NonEmptyFieldsAppend | src/http-transcoder/queryString.ts:31 | the filter keeps the fields in their order: filtering a concatenation is the concatenation of the filtered parts |
| QueryString.NonEmptyFieldsOne | src/http-transcoder/queryString.ts:31 | a single field is kept unchanged when its value is not empty and dropped otherwise |
| QueryString.QueryOf | src/http-transcoder/queryString.ts:32-37 | there is no query string exactly when no field is left, and never a bare `?` |
| QueryString.QueryPairs | src/http-transcoder/queryString.ts:14-34 | the query string after its `?`, cut at `&`, is every field's pairs in field order |
| QueryString.QueryFor | src/http-transcoder/queryString.ts:26-37 | on a tree without `null` the field paths exist, and there is no query string exactly when every field is empty |
| QueryString.QueryForPairs | src/http-transcoder/queryString.ts:26-37 | the query string of a tree, after its `?` and cut at `&`, is the pairs of its non-empty fields in field-path order |
| QueryString.TranscodeQueryString | src/http-transcoder/queryString.ts:22-40 | with the `*` body the bundle is returned as it is; otherwise it succeeds exactly without `null`, sets the query string from the remaining fields and leaves none; all else untouched |
| QueryString.QueryFieldsFollowLeaves | src/http-transcoder/queryString.ts:26-30 | for protobuf-style keys, the k-th query key is the k-th leaf path dotted, and its value is the leaf's value |
| QueryString.LeafPathsHeads | src/http-transcoder/util.ts:35-43 | every leaf path starts with a top-level key of the tree |
| Transcoder.CreateTranscodingBundle | src/http-transcoder/transcoder.ts:27-33 | every request field is still to be placed, nothing is rendered yet, and the method is the configuration's |
| Transcoder.GetHttpRequest | src/http-transcoder/transcoder.ts:35-47 | it fails exactly when the path is undefined; otherwise path, query, method and body are copied from the bundle |
| Transcoder.TranscodeRpc | src/http-transcoder/transcoder.ts:60-73 | a configuration error is returned as it is; later errors are thrown `TypeError`s, never an undefined path; the method is the configuration's |
| Transcoder.TranscodeRpcParts | src/http-transcoder/transcoder.ts:66-73 | after the path: no body puts every remaining field in the query; `*` puts them all in the body and gives no query; a name puts that field in the body and the others in the query |
| Transcoder.NamedBodyNotInQuery | src/http-transcoder/body.ts:27-34 | with a named body field, no query field lies under that field |
| Transcoder.PathFieldsNotResent | src/http-transcoder/transcoder.ts:69-71 | no field placed in the path reaches the body or the query |
| Transcoder.PathKeepsOtherFields | src/http-transcoder/transcoder.ts:69-71 | once the path is rendered, every request field not on a token's key path is still there, with its value, for the body and the query |

## Left out

- The protobufjs descriptor lookup (`config.ts:37`) and `toJSON()` (`transcoder.ts:29`) are not modelled. The options record and the request's JSON tree are inputs.
- The executor (`src/executor/`) is not part of this model. It covers the fetch call, retries and response decoding.
- `Object.keys` puts integer-like keys first in numeric order. The model keeps insertion order. The HTTP option keys are never integer-like; request keys are protobuf JSON names.
- Objects are association lists, and the model does not require their keys to be distinct. `Get` reads the first member with a key, as a JavaScript object holds one member per key.
- Inherited properties (the prototype chain) are not modelled. Property access covers an object's own members, and an array's or a string's indices and `length` (`JsonValue.PropertyOf`).
- Strings are sequences of Unicode scalar values. Lone UTF-16 surrogates, the `URIError` they raise in `encodeURIComponent`, and UTF-16 lengths are not modelled.
- Numbers are integers. Floating point and `String(number)` for non-integers are not modelled.
- `JSON.stringify` is a concrete serialiser over the JSON tree (`JsonValue.Serialize`). No property is claimed about its text, only about which fields are serialised.
- Regular-expression syntax in an expansion other than its first `*` or `**`: the model matches it as literal text, and the source does not.
  - `new RegExp` (`util.ts:61`, `util.ts:66`) throws a `SyntaxError` for an expansion that is not a valid pattern once its star is replaced, such as `+*`, `a(*` or `**/**`. The `*` pattern is built whenever the expansion holds a `*`, even when it also holds `**` (`path.ts:86-88`), so `**/**` throws there. The model has no such failure.
  - A second `*` quantifies the character before it. For `{name=shelves/*/books/*}` the source's pattern is `shelves/([^/]*)/books/*`, so the value `shelves/1/books/2` renders as `shelves/1/books/`. The model looks for a literal `*`, finds no match and leaves the token in the path.
- The text of a thrown `TypeError` is fixed by the model and is not part of any property.
- Util.RemovePropertyOther: stated for key paths whose ancestors are objects (`Util.ObjectsAlong`). Through an array or a string, Ramda's `assoc` copies the container into an object, and that case is not covered.
- Util.RemovePropertyUnchanged: the missing-parent case has the same `Util.ObjectsAlong` hypothesis.
- Util.DissocPathOther: the same `Util.ObjectsAlong` hypothesis.
- Path.UpdateNotTranscodedOther: stated when every token's key path runs through objects in the request (`Path.KeyPathsThroughObjects`, built on `Util.ObjectsAlong`). A token path through an array or a string, which Ramda turns into an object copy, is not covered.
- Path.TranscodePathKeepsOthers: the same `Path.KeyPathsThroughObjects` hypothesis.
- Transcoder.PathKeepsOtherFields: the same `Path.KeyPathsThroughObjects` hypothesis.
- QueryString.QueryFieldsFollowLeaves: stated for trees whose keys are non-empty and hold no `.`, `-` or `_`, as protobuf JSON names are. Other keys can be changed by the snake-to-camel round trip.
- QueryString.QueryPairs: stated for keys without `&`. Such a key would split across pairs.
- QueryString.QueryForPairs: stated for keys without `&`, for the same reason.
- Transcoder.TranscodeRpcParts: the exclusivity of path, body and query is stated stage by stage: the path stage removes the tokens' fields (`Transcoder.PathFieldsNotResent`) and keeps the others (`Transcoder.PathKeepsOtherFields`, under `Util.ObjectsAlong`), and the body stage splits what is left (`Transcoder.NamedBodyNotInQuery`, `Body.TranscodeBody`). No single lemma states that every non-empty leaf appears exactly once.
- Concrete string examples of whole requests are not stated as lemmas; the properties above cover their cases.
