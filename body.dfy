/** body.ts: choosing the HTTP body from the remaining fields. */
module Body {
  import opened Wrappers
  import opened JsonValue
  import opened Types
  import Util

  /** `{ [key]: value }`: an object with the one member, or with none when
      the value is `undefined` (which `JSON.stringify` leaves out). */
  function SingleField(key: string, value: Option<Json>): (r: Object)
    ensures Get(r, key) == value
    ensures forall k :: k != key ==> Get(r, k).None?
  {
    match value
    case None => []
    case Some(v) => [Member(key, v)]
  }

  /** `transcodeBody`: with no `body` option there is no body and the
      remaining fields stay; with `*` every remaining field goes into the
      body and none remain; with a field name the body is the object holding
      just that top-level field, which is taken out of the remaining fields.
      The configuration, the method, the path and the query string are
      left as they are. */
  function TranscodeBody(bundle: TranscodingBundle): (r: TranscodingBundle)
    ensures r.config == bundle.config
    ensures r.transcoded.(body := bundle.transcoded.body) == bundle.transcoded
    ensures bundle.config.body.None? ==>
      r.transcoded.body.None? && r.notTranscoded == bundle.notTranscoded
    ensures bundle.config.body == Some("*") ==>
      r.transcoded.body == Some(Serialize(JObject(bundle.notTranscoded))) && r.notTranscoded == []
    ensures bundle.config.body.Some? && bundle.config.body != Some("*") ==>
      var key := Util.SnakeToCamel(bundle.config.body.value);
      && r.transcoded.body == Some(Serialize(JObject(SingleField(key, Get(bundle.notTranscoded, key)))))
      && Get(r.notTranscoded, key).None?
      && forall k :: k != key ==> Get(r.notTranscoded, k) == Get(bundle.notTranscoded, k)
  {
    match bundle.config.body
    case None =>
      bundle.(transcoded := bundle.transcoded.(body := None))
    case Some(field) =>
      if field == "*" then
        bundle.(
          transcoded := bundle.transcoded.(body := Some(Serialize(JObject(bundle.notTranscoded)))),
          notTranscoded := [])
      else
        var key := Util.SnakeToCamel(field);
        var value := Get(bundle.notTranscoded, key);
        RemoveTopLevel(key, bundle.notTranscoded);
        bundle.(
          transcoded := bundle.transcoded.(body := Some(Serialize(JObject(SingleField(key, value))))),
          notTranscoded := Util.RemoveProperty([key], bundle.notTranscoded))
  }

  /** `removeProperty([key], o)` deletes that top-level member and touches
      no other. */
  lemma RemoveTopLevel(key: string, o: Object)
    ensures Util.RemoveProperty([key], o) == Dissoc(o, key)
    ensures Get(Dissoc(o, key), key).None?
    ensures forall k :: k != key ==> Get(Dissoc(o, key), k) == Get(o, k)
  {
    assert Util.DropLast([key]) == [];
    forall k {
      GetDissoc(o, key, k);
    }
  }
}
