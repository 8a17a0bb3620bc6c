/** queryString.ts: the query string made of the fields that neither the
    path nor the body took. */
module QueryString {
  import opened Wrappers
  import opened JsonValue
  import opened Types
  import Text
  import Util
  import UriEncoding

  /** `Field`: a snake-cased field path and the value found along it. */
  datatype Field = Field(fieldPath: string, value: Option<Json>)

  /** `key=value`, the value percent-encoded. */
  function Pair(key: string, text: string): string
  {
    key + "=" + UriEncoding.EncodeURIComponent(text)
  }

  /** One pair per element of an array value. */
  function ElementPairs(key: string, items: seq<Json>): (r: seq<string>)
    ensures |r| == |items|
    ensures forall i :: 0 <= i < |items| ==> r[i] == Pair(key, JsonToString(items[i]))
  {
    seq(|items|, i requires 0 <= i < |items| => Pair(key, JsonToString(items[i])))
  }

  /** `renderField`: the camel-cased field path as the key; an array gives
      one pair per element joined by `&`, any other value one pair of its
      string form. */
  function RenderField(field: Field): string
  {
    var key := Util.SnakeToCamel(field.fieldPath);
    match field.value
    case Some(JArray(items)) => Text.Join(ElementPairs(key, items), "&")
    case _ => Pair(key, ToJsString(field.value))
  }

  /** The pairs a field contributes. */
  function FieldPairs(field: Field): seq<string>
  {
    var key := Util.SnakeToCamel(field.fieldPath);
    match field.value
    case Some(JArray(items)) => ElementPairs(key, items)
    case _ => [Pair(key, ToJsString(field.value))]
  }

  /** A pair splits at its `=` into the key and a value that decodes to the
      UTF-8 octets of the value's string form. */
  lemma PairDecodes(key: string, text: string)
    requires '=' !in key
    ensures var enc := UriEncoding.EncodeURIComponent(text);
      && Text.Split(Pair(key, text), '=') == [key, enc]
      && UriEncoding.PercentDecode(enc) == Some(UriEncoding.Utf8Bytes(text))
  {
    var enc := UriEncoding.EncodeURIComponent(text);
    UriEncoding.EncodedHasNoDelimiter(text);
    UriEncoding.DecodeEncode(text);
    Text.SplitAtSeparator(key, '=', enc);
    Text.SplitNoSeparator(enc, '=');
  }

  /** A rendered field cut at `&` gives back its pairs: an array is never
      joined with commas. */
  lemma RenderFieldPairs(field: Field)
    requires !IsEmpty(field.value)
    requires '&' !in Util.SnakeToCamel(field.fieldPath)
    ensures Text.Split(RenderField(field), '&') == FieldPairs(field)
  {
    var pairs := FieldPairs(field);
    FieldPairsNoSeparator(field);
    Text.SplitJoin(pairs, '&');
    RenderFieldJoin(field);
  }

  /** No pair holds a `&` of its own when the key has none. */
  lemma FieldPairsNoSeparator(field: Field)
    requires !IsEmpty(field.value)
    requires '&' !in Util.SnakeToCamel(field.fieldPath)
    ensures |FieldPairs(field)| >= 1
    ensures forall i :: 0 <= i < |FieldPairs(field)| ==> '&' !in FieldPairs(field)[i]
  {
    var key := Util.SnakeToCamel(field.fieldPath);
    var pairs := FieldPairs(field);
    forall i | 0 <= i < |pairs|
      ensures '&' !in pairs[i]
    {
      var text := if field.value.Some? && field.value.value.JArray? then JsonToString(field.value.value.items[i])
                  else ToJsString(field.value);
      assert pairs[i] == Pair(key, text);
      UriEncoding.EncodedHasNoDelimiter(text);
    }
  }

  /** A rendered field is its pairs joined by `&`. */
  lemma RenderFieldJoin(field: Field)
    ensures RenderField(field) == Text.Join(FieldPairs(field), "&")
  {
    if !(field.value.Some? && field.value.value.JArray?) {
      assert Text.Join(FieldPairs(field), "&") == FieldPairs(field)[0];
    }
  }

  /** The fields `transcodeQueryString` builds from the field paths. */
  function QueryFields(paths: seq<string>, o: Object): (r: seq<Field>)
    ensures |r| == |paths|
    ensures forall k :: 0 <= k < |paths| ==>
      r[k] == Field(paths[k], Lookup(Util.MessageKeyPath(Some(paths[k])), JObject(o)))
  {
    seq(|paths|, k requires 0 <= k < |paths| =>
      Field(paths[k], Lookup(Util.MessageKeyPath(Some(paths[k])), JObject(o))))
  }

  /** `.filter(field => !R.isEmpty(field.value))`: `""`, `[]` and `{}` are
      dropped; numbers, booleans, `null` and `undefined` are kept. */
  function NonEmptyFields(fields: seq<Field>): (r: seq<Field>)
    ensures |r| <= |fields|
    ensures forall f :: f in r <==> f in fields && !IsEmpty(f.value)
  {
    if |fields| == 0 then []
    else if IsEmpty(fields[0].value) then NonEmptyFields(fields[1..])
    else [fields[0]] + NonEmptyFields(fields[1..])
  }

  /** The filter keeps the order of the fields: filtering a concatenation
      filters each part. */
  lemma {:induction false} NonEmptyFieldsAppend(a: seq<Field>, b: seq<Field>)
    ensures NonEmptyFields(a + b) == NonEmptyFields(a) + NonEmptyFields(b)
    decreases |a|
  {
    if |a| > 0 {
      var ab := a + b;
      assert ab[0] == a[0] && ab[1..] == a[1..] + b;
      NonEmptyFieldsAppend(a[1..], b);
      var head := if IsEmpty(a[0].value) then [] else [a[0]];
      assert NonEmptyFields(a) == head + NonEmptyFields(a[1..]);
      assert NonEmptyFields(ab) == head + NonEmptyFields(ab[1..]);
    } else {
      assert a + b == b;
    }
  }

  /** A single field is kept alone or dropped. */
  lemma NonEmptyFieldsOne(f: Field)
    ensures NonEmptyFields([f]) == if IsEmpty(f.value) then [] else [f]
  {
    assert [f][1..] == [];
  }

  function RenderAll(fields: seq<Field>): (r: seq<string>)
    ensures |r| == |fields|
    ensures forall k :: 0 <= k < |fields| ==> r[k] == RenderField(fields[k])
  {
    seq(|fields|, k requires 0 <= k < |fields| => RenderField(fields[k]))
  }

  /** `"?" + rendered.join("&")`, `undefined` when that is a bare `?`: there
      is a query string exactly when some field is left to render. */
  function QueryOf(fields: seq<Field>): (q: Option<string>)
    requires forall f :: f in fields ==> !IsEmpty(f.value)
    ensures q.None? <==> |fields| == 0
    ensures q.Some? ==> |q.value| > 1 && q.value[0] == '?'
  {
    var query := "?" + Text.Join(RenderAll(fields), "&");
    RenderAllNotEmpty(fields);
    if query == "?" then None else Some(query)
  }

  lemma RenderAllNotEmpty(fields: seq<Field>)
    requires forall f :: f in fields ==> !IsEmpty(f.value)
    ensures |fields| > 0 ==> |Text.Join(RenderAll(fields), "&")| > 0
  {
    if |fields| > 0 {
      assert fields[0] in fields;
      RenderFieldNotEmpty(fields[0]);
      JoinNotEmpty(RenderAll(fields), "&");
    }
  }

  lemma RenderFieldNotEmpty(field: Field)
    requires !IsEmpty(field.value)
    ensures |RenderField(field)| > 0
  {
    if field.value.Some? && field.value.value.JArray? {
      JoinNotEmpty(FieldPairs(field), "&");
    }
  }

  lemma JoinNotEmpty(parts: seq<string>, sep: string)
    requires |parts| > 0 && |parts[0]| > 0
    ensures |Text.Join(parts, sep)| > 0
  {
  }

  /** The pairs of all the fields, in their order. */
  function AllPairs(fields: seq<Field>): seq<string>
    decreases |fields|
  {
    if |fields| == 0 then [] else FieldPairs(fields[0]) + AllPairs(fields[1..])
  }

  /** Cut at `&` after its `?`, a query string gives back the pairs of its
      fields in order: one `key=value` per scalar field and per array
      element, each splitting at its `=` as `PairDecodes` says. */
  lemma QueryPairs(fields: seq<Field>)
    requires |fields| > 0
    requires forall f :: f in fields ==> !IsEmpty(f.value) && '&' !in Util.SnakeToCamel(f.fieldPath)
    ensures QueryOf(fields).Some?
    ensures Text.Split(QueryOf(fields).value[1..], '&') == AllPairs(fields)
  {
    RenderedPairs(fields);
    Text.SplitJoin(AllPairs(fields), '&');
    var joined := Text.Join(RenderAll(fields), "&");
    QueryOfText(fields);
    assert ("?" + joined)[1..] == joined;
  }

  /** A non-empty query string is `?` and the rendered fields joined. */
  lemma QueryOfText(fields: seq<Field>)
    requires |fields| > 0
    requires forall f :: f in fields ==> !IsEmpty(f.value)
    ensures QueryOf(fields) == Some("?" + Text.Join(RenderAll(fields), "&"))
  {
    RenderAllNotEmpty(fields);
  }

  /** Joining the rendered fields joins all their pairs. */
  lemma {:induction false} RenderedPairs(fields: seq<Field>)
    requires |fields| > 0
    requires forall f :: f in fields ==> !IsEmpty(f.value) && '&' !in Util.SnakeToCamel(f.fieldPath)
    ensures Text.Join(RenderAll(fields), "&") == Text.Join(AllPairs(fields), "&")
    ensures |AllPairs(fields)| >= 1
    ensures forall i :: 0 <= i < |AllPairs(fields)| ==> '&' !in AllPairs(fields)[i]
    decreases |fields|
  {
    var f := fields[0];
    assert f in fields;
    FieldPairsNoSeparator(f);
    RenderFieldJoin(f);
    var rest := fields[1..];
    if |rest| == 0 {
      assert AllPairs(fields) == FieldPairs(f);
    } else {
      forall g | g in rest ensures !IsEmpty(g.value) && '&' !in Util.SnakeToCamel(g.fieldPath) {
        assert g in fields;
      }
      RenderedPairs(rest);
      assert RenderAll(fields)[1..] == RenderAll(rest);
      JoinConcat(FieldPairs(f), AllPairs(rest), "&");
    }
  }

  lemma {:induction false} JoinConcat(a: seq<string>, b: seq<string>, sep: string)
    requires |a| > 0 && |b| > 0
    ensures Text.Join(a + b, sep) == Text.Join(a, sep) + sep + Text.Join(b, sep)
    decreases |a|
  {
    if |a| > 1 {
      JoinConcat(a[1..], b, sep);
      assert (a + b)[1..] == a[1..] + b;
    } else {
      assert (a + b)[1..] == b;
    }
  }

  /** The query string `transcodeQueryString` renders for the remaining
      fields of a tree without `null`: there is one exactly when some field
      is not empty. */
  function QueryFor(o: Object): (q: Option<string>)
    requires Util.NullFree(o)
    ensures Util.FieldPaths(o).Some?
    ensures q.None? <==> forall f :: f in QueryFields(Util.FieldPaths(o).value, o) ==> IsEmpty(f.value)
  {
    Util.PathsLeaves(o, "");
    var fields := QueryFields(Util.FieldPaths(o).value, o);
    var kept := NonEmptyFields(fields);
    assert |kept| == 0 <==> forall f :: f in fields ==> IsEmpty(f.value) by {
      if |kept| > 0 {
        assert kept[0] in kept;
      }
    }
    QueryOf(kept)
  }

  /** Cut at `&` after its `?`, the query string of a tree gives back the
      pairs of its non-empty fields in `fieldPaths` order. */
  lemma QueryForPairs(o: Object)
    requires Util.NullFree(o)
    requires QueryFor(o).Some?
    requires forall f :: f in QueryFields(Util.FieldPaths(o).value, o) ==> '&' !in Util.SnakeToCamel(f.fieldPath)
    ensures Text.Split(QueryFor(o).value[1..], '&') ==
      AllPairs(NonEmptyFields(QueryFields(Util.FieldPaths(o).value, o)))
  {
    var kept := NonEmptyFields(QueryFields(Util.FieldPaths(o).value, o));
    assert QueryFor(o) == QueryOf(kept);
    QueryPairs(kept);
  }

  /** `transcodeQueryString`. With the `*` body the bundle is returned as it
      is. Otherwise the remaining fields become the query string and none
      remain; a `null` anywhere in them makes `fieldPaths` throw. The
      configuration, the method, the path and the body are left as they
      are. */
  function TranscodeQueryString(bundle: TranscodingBundle): (r: Result<TranscodingBundle, Error>)
    ensures bundle.config.body == Some("*") ==> r == Success(bundle)
    ensures bundle.config.body != Some("*") ==> (r.Success? <==> Util.NullFree(bundle.notTranscoded))
    ensures r.Failure? ==> r.error.TypeError?
    ensures r.Success? ==> r.value.config == bundle.config
    ensures r.Success? ==>
      r.value.transcoded.(urlEncodedQueryString := bundle.transcoded.urlEncodedQueryString) == bundle.transcoded
    ensures bundle.config.body != Some("*") && r.Success? ==>
      r.value.notTranscoded == [] && r.value.transcoded.urlEncodedQueryString == QueryFor(bundle.notTranscoded)
  {
    if bundle.config.body == Some("*") then Success(bundle)
    else if Util.FieldPaths(bundle.notTranscoded).None? then
      assert !Util.NullFree(bundle.notTranscoded) by {
        if Util.NullFree(bundle.notTranscoded) {
          Util.PathsLeaves(bundle.notTranscoded, "");
        }
      }
      Failure(TypeError("Cannot convert undefined or null to object"))
    else
      assert Util.NullFree(bundle.notTranscoded) by {
        if !Util.NullFree(bundle.notTranscoded) {
          Util.PathsNull(bundle.notTranscoded, "");
        }
      }
      Success(bundle.(
        transcoded := bundle.transcoded.(urlEncodedQueryString := QueryFor(bundle.notTranscoded)),
        notTranscoded := []))
  }

  // ---------------------------------------------------------------------
  // Which fields the query string carries

  /** A key as a protobuf message's JSON form has it: not empty, and without
      `.`, `-` or `_`. */
  predicate PlainKey(k: string)
  {
    k != "" && '.' !in k && Util.HasNoSeparator(k)
  }

  /** Every key of the tree, at every depth, is plain. */
  predicate PlainKeys(ms: Object)
    decreases ms, 1
  {
    |ms| == 0 || (MemberPlainKeys(ms[0]) && PlainKeys(ms[1..]))
  }

  predicate MemberPlainKeys(m: Member)
    decreases m
  {
    PlainKey(m.key) && match m.value
      case JObject(cms) => PlainKeys(cms)
      case _ => true
  }

  /** A path all of whose keys are plain. */
  predicate PlainPath(p: seq<string>)
  {
    |p| >= 1 && forall j :: 0 <= j < |p| ==> PlainKey(p[j])
  }

  lemma {:induction false} LeafPathsPlain(ms: Object)
    requires PlainKeys(ms)
    ensures forall k :: 0 <= k < |Util.LeafPaths(ms)| ==> PlainPath(Util.LeafPaths(ms)[k])
    decreases ms, 1
  {
    if |ms| > 0 {
      MemberLeavesPlain(ms[0]);
      LeafPathsPlain(ms[1..]);
    }
  }

  lemma {:induction false} MemberLeavesPlain(m: Member)
    requires MemberPlainKeys(m)
    ensures forall k :: 0 <= k < |Util.MemberLeaves(m)| ==> PlainPath(Util.MemberLeaves(m)[k])
    decreases m
  {
    match m.value {
      case JObject(cms) =>
        LeafPathsPlain(cms);
        var leaves := Util.MemberLeaves(m);
        forall k | 0 <= k < |leaves|
          ensures PlainPath(leaves[k])
        {
          var p := Util.LeafPaths(cms)[k];
          assert leaves[k] == [m.key] + p;
          assert forall j :: 1 <= j < |leaves[k]| ==> leaves[k][j] == p[j - 1];
        }
      case _ =>
    }
  }

  /** Below a non-empty head, `paths` writes a key path as the head and the
      keys joined by `.`. */
  lemma {:induction false} DottedBelowHead(head: string, p: seq<string>)
    requires head != ""
    ensures Util.Dotted(head, p) == Text.Join([head] + p, ".")
    decreases |p|
  {
    if |p| > 0 {
      var h := head + "." + p[0];
      DottedBelowHead(h, p[1..]);
      if |p| == 1 {
        assert [h] + p[1..] == [h];
        assert ([head] + p)[1..] == p;
      } else {
        assert ([h] + p[1..])[1..] == p[1..];
        assert ([head] + p)[1..] == p;
        assert Text.Join(p, ".") == p[0] + "." + Text.Join(p[1..], ".");
      }
    }
  }

  /** From the root, a path of plain keys is written as its keys joined by
      `.`, which holds no `-` or `_`. */
  lemma DottedFromRoot(p: seq<string>)
    requires PlainPath(p)
    ensures Util.Dotted("", p) == Text.Join(p, ".")
    ensures Util.HasNoSeparator(Text.Join(p, ".")) && Text.Join(p, ".") != ""
  {
    DottedBelowHead(p[0], p[1..]);
    assert [p[0]] + p[1..] == p;
    JoinPlain(p);
  }

  lemma {:induction false} JoinPlain(p: seq<string>)
    requires PlainPath(p)
    ensures Util.HasNoSeparator(Text.Join(p, ".")) && Text.Join(p, ".") != ""
    decreases |p|
  {
    if |p| > 1 {
      JoinPlain(p[1..]);
      var a := p[0] + ".";
      var b := Text.Join(p[1..], ".");
      assert PlainKey(p[0]);
      assert Text.Join(p, ".") == a + b;
      assert forall i :: 0 <= i < |a + b| ==> (a + b)[i] == if i < |a| then a[i] else b[i - |a|];
    } else {
      assert PlainKey(p[0]);
    }
  }

  /** The key and the value of one field of a plain path: the key is the
      path joined by `.`, the value the one at the path. */
  lemma LeafField(p: seq<string>, o: Object)
    requires PlainPath(p)
    ensures var fieldPath := Util.CamelToSnake(Util.Dotted("", p));
      && Util.SnakeToCamel(fieldPath) == Text.Join(p, ".")
      && Util.MessageKeyPath(Some(fieldPath)) == p
  {
    DottedFromRoot(p);
    var joined := Text.Join(p, ".");
    Util.CamelSnakeRoundTrip(joined);
    Text.SplitJoin(p, '.');
  }

  /** For a request whose keys are plain and which holds no `null`, the
      query fields are its leaves in order: each field's key, camel-cased
      again, is the leaf's key path joined by `.`, and its value is the one
      at that path. */
  lemma QueryFieldsFollowLeaves(o: Object)
    requires Util.NullFree(o) && PlainKeys(o)
    ensures Util.FieldPaths(o).Some?
    ensures var fields := QueryFields(Util.FieldPaths(o).value, o);
      var leaves := Util.LeafPaths(o);
      && |fields| == |leaves|
      && forall k :: 0 <= k < |leaves| ==>
        && Util.SnakeToCamel(fields[k].fieldPath) == Text.Join(leaves[k], ".")
        && fields[k].value == Lookup(leaves[k], JObject(o))
  {
    Util.PathsLeaves(o, "");
    LeafPathsPlain(o);
    var leaves := Util.LeafPaths(o);
    var paths := Util.FieldPaths(o).value;
    forall k | 0 <= k < |leaves|
      ensures Util.SnakeToCamel(paths[k]) == Text.Join(leaves[k], ".")
      ensures Util.MessageKeyPath(Some(paths[k])) == leaves[k]
    {
      LeafField(leaves[k], o);
    }
  }

  /** Every leaf path starts with the key of a member of the tree. */
  lemma {:induction false} LeafPathsHeads(ms: Object)
    ensures forall k :: 0 <= k < |Util.LeafPaths(ms)| ==>
      |Util.LeafPaths(ms)[k]| >= 1 && Get(ms, Util.LeafPaths(ms)[k][0]).Some?
    decreases |ms|
  {
    if |ms| > 0 {
      LeafPathsHeads(ms[1..]);
      var first := Util.MemberLeaves(ms[0]);
      var rest := Util.LeafPaths(ms[1..]);
      assert Util.LeafPaths(ms) == first + rest;
      forall k | 0 <= k < |first|
        ensures |first[k]| >= 1 && first[k][0] == ms[0].key
      {
      }
    }
  }
}
