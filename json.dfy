/** The request as a JSON value (index.ts: `Json`), the Ramda and JavaScript
    operations the transcoder applies to it, and `String(value)` and
    `JSON.stringify`. */
module JsonValue {
  import opened Wrappers
  import Text

  /** A JSON value. An object is an association list in key order, which is
      the order `Object.keys` and `Object.entries` report. */
  datatype Json =
    | JObject(members: seq<Member>)
    | JArray(items: seq<Json>)
    | JString(str: string)
    | JNum(num: int)
    | JBool(b: bool)
    | JNull

  datatype Member = Member(key: string, value: Json)

  /** A plain object, as index.ts types `Json`. */
  type Object = seq<Member>

  /** `obj[key]`: the value of the member with that key, `undefined` if none. */
  function Get(ms: Object, key: string): (r: Option<Json>)
    ensures r.Some? ==> Member(key, r.value) in ms
  {
    if |ms| == 0 then None
    else if ms[0].key == key then Some(ms[0].value)
    else Get(ms[1..], key)
  }

  /** Ramda `assoc` on a key the object has: the value is replaced where it
      stands, so key order is kept. */
  function SetMember(ms: Object, key: string, v: Json): (r: Object)
    ensures |r| == |ms|
  {
    if |ms| == 0 then []
    else if ms[0].key == key then [Member(key, v)] + ms[1..]
    else [ms[0]] + SetMember(ms[1..], key, v)
  }

  /** Setting a member to the value it has changes nothing. */
  lemma {:induction false} SetMemberSame(ms: Object, key: string)
    requires Get(ms, key).Some?
    ensures SetMember(ms, key, Get(ms, key).value) == ms
    decreases |ms|
  {
    if ms[0].key != key {
      SetMemberSame(ms[1..], key);
      assert [ms[0]] + ms[1..] == ms;
    } else {
      assert [Member(key, ms[0].value)] + ms[1..] == ms;
    }
  }

  /** Ramda `dissoc`: a copy of the object without the key. */
  function Dissoc(ms: Object, key: string): (r: Object)
    ensures forall i :: 0 <= i < |r| ==> r[i].key != key
    ensures |r| <= |ms|
  {
    if |ms| == 0 then []
    else if ms[0].key == key then Dissoc(ms[1..], key)
    else [ms[0]] + Dissoc(ms[1..], key)
  }

  lemma {:induction false} GetSetMember(ms: Object, key: string, v: Json, k: string)
    requires Get(ms, key).Some?
    ensures Get(SetMember(ms, key, v), k) == if k == key then Some(v) else Get(ms, k)
    decreases |ms|
  {
    if k != key {
      GetSetMemberMissing(ms, key, v, k);
    } else if ms[0].key != key {
      SetMemberCons(ms, key, v);
      GetSetMember(ms[1..], key, v, k);
    }
  }

  lemma {:induction false} GetSetMemberMissing(ms: Object, key: string, v: Json, k: string)
    requires k != key
    ensures Get(SetMember(ms, key, v), k) == Get(ms, k)
    decreases |ms|
  {
    if |ms| > 0 && ms[0].key != key {
      GetSetMemberMissing(ms[1..], key, v, k);
      SetMemberCons(ms, key, v);
    } else if |ms| > 0 {
      assert ([Member(key, v)] + ms[1..])[1..] == ms[1..];
    }
  }

  lemma SetMemberCons(ms: Object, key: string, v: Json)
    requires |ms| > 0 && ms[0].key != key
    ensures SetMember(ms, key, v)[1..] == SetMember(ms[1..], key, v)
    ensures SetMember(ms, key, v)[0] == ms[0]
  {
    assert ([ms[0]] + SetMember(ms[1..], key, v))[1..] == SetMember(ms[1..], key, v);
  }

  lemma GetDissoc(ms: Object, key: string, k: string)
    ensures Get(Dissoc(ms, key), k) == if k == key then None else Get(ms, k)
  {
    if |ms| > 0 {
      GetDissoc(ms[1..], key, k);
    }
  }

  /** The members `for (p in value)` visits, which Ramda's `assoc` and
      `dissoc` copy into a fresh object: an object's own members, an array's
      elements or a string's characters under their index, and nothing for
      numbers, booleans and `null`. */
  function ForIn(j: Json): (r: Object)
    ensures j.JObject? ==> r == j.members
  {
    match j
    case JObject(ms) => ms
    case JArray(items) => IndexMembers(items, 0)
    case JString(s) => IndexMembers(Characters(s), 0)
    case _ => []
  }

  /** The members `for (p in value)` gives an array or string: each element
      under its index, counting from `start`. */
  function IndexMembers(items: seq<Json>, start: nat): (r: Object)
    ensures |r| == |items|
    ensures forall i :: 0 <= i < |r| ==> |r[i].key| > 0 && '0' <= r[i].key[0] <= '9'
    decreases |items|
  {
    if |items| == 0 then []
    else [Member(Text.NatToString(start), items[0])] + IndexMembers(items[1..], start + 1)
  }

  /** The one-character strings of a string. */
  function Characters(s: string): (r: seq<Json>)
    ensures |r| == |s|
  {
    if |s| == 0 then [] else [JString([s[0]])] + Characters(s[1..])
  }

  /** `value[key]` for a JSON value: an object's member, an array's element
      or a string's character at a canonical index, and the `length` of an
      array or string; `undefined` otherwise. */
  function PropertyOf(j: Json, key: string): (r: Option<Json>)
    ensures j.JObject? ==> r == Get(j.members, key)
    ensures r.Some? && key != "length" ==> Get(ForIn(j), key) == r
  {
    match j
    case JObject(ms) => Get(ms, key)
    case JArray(items) => if key == "length" then Some(JNum(|items|)) else Get(ForIn(j), key)
    case JString(s) => if key == "length" then Some(JNum(|s|)) else Get(ForIn(j), key)
    case _ => None
  }

  /** What `for (p in value)` copies is reachable by `value[p]`. */
  lemma PropertyOfForIn(j: Json, key: string)
    requires Get(ForIn(j), key).Some?
    ensures PropertyOf(j, key) == Get(ForIn(j), key)
  {
    if (j.JArray? || j.JString?) && key == "length" {
      assert false;
    }
  }

  /** Ramda `path`: follow the keys one property access at a time;
      `undefined` as soon as a property is missing or the value reached is
      `null`. */
  function Lookup(path: seq<string>, j: Json): Option<Json>
    decreases |path|
  {
    if |path| == 0 then Some(j)
    else match PropertyOf(j, path[0])
      case None => None
      case Some(child) => Lookup(path[1..], child)
  }

  /** Looking up `p + q` is looking up `q` below what `p` reaches. */
  lemma {:induction false} LookupAppend(p: seq<string>, q: seq<string>, j: Json)
    ensures Lookup(p + q, j) == match Lookup(p, j) case None => None case Some(x) => Lookup(q, x)
    decreases |p|
  {
    if |p| > 0 {
      assert (p + q)[0] == p[0] && (p + q)[1..] == p[1..] + q;
      match PropertyOf(j, p[0]) {
        case None =>
        case Some(child) => LookupAppend(p[1..], q, child);
      }
    } else {
      assert p + q == q;
    }
  }

  /** Ramda `assoc`: a copy of the members with the key set; a key already
      present keeps its place, a new key goes last. */
  function Assoc(ms: Object, key: string, v: Json): (r: Object)
    ensures Get(r, key) == Some(v)
    ensures forall k :: k != key ==> Get(r, k) == Get(ms, k)
  {
    if Get(ms, key).Some? then
      GetSetMemberAll(ms, key, v);
      SetMember(ms, key, v)
    else
      GetAppendAll(ms, Member(key, v));
      ms + [Member(key, v)]
  }

  lemma GetSetMemberAll(ms: Object, key: string, v: Json)
    requires Get(ms, key).Some?
    ensures forall k :: Get(SetMember(ms, key, v), k) == if k == key then Some(v) else Get(ms, k)
  {
    forall k {
      GetSetMember(ms, key, v, k);
    }
  }

  lemma GetAppendAll(ms: Object, m: Member)
    requires Get(ms, m.key).None?
    ensures forall k :: Get(ms + [m], k) == if k == m.key then Some(m.value) else Get(ms, k)
  {
    forall k {
      GetAppend(ms, m, k);
    }
  }

  lemma {:induction false} GetAppend(ms: Object, m: Member, k: string)
    requires Get(ms, m.key).None?
    ensures Get(ms + [m], k) == if k == m.key then Some(m.value) else Get(ms, k)
    decreases |ms|
  {
    if |ms| == 0 {
      assert ms + [m] == [m];
    } else {
      assert (ms + [m])[0] == ms[0] && (ms + [m])[1..] == ms[1..] + [m];
      if ms[0].key != k {
        GetAppend(ms[1..], m, k);
      }
    }
  }

  /** Ramda `dissocPath` (on string keys): a copy of the value with the
      property at the end of the path deleted. Each step copies the value it
      passes through into a fresh object (`assoc`); a missing or `null`
      property on the way leaves the value as it is. */
  function DissocPath(path: seq<string>, j: Json): (r: Json)
    ensures |path| > 0 ==> r.JObject? || r == j
    ensures j.JObject? ==> r.JObject?
    decreases |path|
  {
    if |path| == 0 then j
    else if |path| == 1 then JObject(Dissoc(ForIn(j), path[0]))
    else match PropertyOf(j, path[0])
      case None => j
      case Some(child) =>
        if child.JNull? then j
        else JObject(Assoc(ForIn(j), path[0], DissocPath(path[1..], child)))
  }

  predicate IsPrefix(p: seq<string>, q: seq<string>)
  {
    |p| <= |q| && q[..|p|] == p
  }

  /** Ramda `isEmpty`: true of `""`, `[]` and `{}`, false of `undefined`,
      `null`, numbers and booleans. */
  predicate IsEmpty(v: Option<Json>)
  {
    match v
    case Some(JString(s)) => s == ""
    case Some(JArray(items)) => items == []
    case Some(JObject(ms)) => ms == []
    case _ => false
  }

  /** `String(value)` (also what `encodeURIComponent` and template literals
      apply): arrays are joined with `,`, where `null` elements count as `""`. */
  function ToJsString(v: Option<Json>): string
  {
    match v
    case None => "undefined"
    case Some(j) => JsonToString(j)
  }

  function JsonToString(j: Json): string
    decreases j
  {
    match j
    case JObject(_) => "[object Object]"
    case JArray(items) => Text.Join(ElementStrings(items), ",")
    case JString(s) => s
    case JNum(n) => Text.IntToString(n)
    case JBool(b) => if b then "true" else "false"
    case JNull => "null"
  }

  function ElementStrings(items: seq<Json>): seq<string>
    decreases items
  {
    if |items| == 0 then []
    else [if items[0].JNull? then "" else JsonToString(items[0])] + ElementStrings(items[1..])
  }

  /** `JSON.stringify(j)` without indentation. */
  function Serialize(j: Json): string
    decreases j
  {
    match j
    case JObject(ms) => "{" + Text.Join(SerializeMembers(ms), ",") + "}"
    case JArray(items) => "[" + Text.Join(SerializeItems(items), ",") + "]"
    case JString(s) => Quote(s)
    case JNum(n) => Text.IntToString(n)
    case JBool(b) => if b then "true" else "false"
    case JNull => "null"
  }

  function SerializeMembers(ms: Object): seq<string>
    decreases ms
  {
    if |ms| == 0 then []
    else [Quote(ms[0].key) + ":" + Serialize(ms[0].value)] + SerializeMembers(ms[1..])
  }

  function SerializeItems(items: seq<Json>): seq<string>
    decreases items
  {
    if |items| == 0 then [] else [Serialize(items[0])] + SerializeItems(items[1..])
  }

  /** The string literal `JSON.stringify` writes (QuoteJSONString). */
  function Quote(s: string): string
  {
    "\"" + QuoteBody(s) + "\""
  }

  function QuoteBody(s: string): string
  {
    if |s| == 0 then "" else QuoteChar(s[0]) + QuoteBody(s[1..])
  }

  function QuoteChar(c: char): string
  {
    if c == '\U{8}' then "\\b"
    else if c == '\t' then "\\t"
    else if c == '\n' then "\\n"
    else if c == '\U{C}' then "\\f"
    else if c == '\r' then "\\r"
    else if c == '"' then "\\\""
    else if c == '\\' then "\\\\"
    else if (c as int) < 0x20 then "\\u00" + [LowerHex((c as int) / 16), LowerHex((c as int) % 16)]
    else [c]
  }

  function LowerHex(n: int): char
    requires 0 <= n < 16
  {
    if n < 10 then ('0' as int + n) as char else ('a' as int + n - 10) as char
  }
}
