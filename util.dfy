/** util.ts: case conversion between protobuf field names and JSON keys,
    field paths of a request, removal of a key path with pruning, and the
    two path-expansion matchers. */
module Util {
  import opened Wrappers
  import opened JsonValue
  import Text

  // ---------------------------------------------------------------------
  // Case conversion

  predicate IsUpper(c: char) { 'A' <= c <= 'Z' }
  predicate IsLower(c: char) { 'a' <= c <= 'z' }
  predicate IsSeparator(c: char) { c == '-' || c == '_' }

  function ToUpper(c: char): (u: char)
    requires IsLower(c)
    ensures IsUpper(u)
  {
    (c as int - 'a' as int + 'A' as int) as char
  }

  function ToLower(c: char): (l: char)
    requires IsUpper(c)
    ensures IsLower(l)
  {
    (c as int - 'A' as int + 'a' as int) as char
  }

  /** No `-` or `_` directly before a lower-case letter: nothing left for
      the `/([-_][a-z])/g` replacement to do. */
  predicate NoSeparatorBeforeLower(s: string)
  {
    forall i :: 0 <= i < |s| - 1 ==> !(IsSeparator(s[i]) && IsLower(s[i + 1]))
  }

  predicate HasNoSeparator(s: string)
  {
    forall i :: 0 <= i < |s| ==> !IsSeparator(s[i])
  }

  predicate HasNoUpper(s: string)
  {
    forall i :: 0 <= i < |s| ==> !IsUpper(s[i])
  }

  /** `snakeToCamelcase`: each `-` or `_` followed by a lower-case letter is
      dropped and the letter upper-cased, scanning left to right without
      overlap; every other character stays. */
  function SnakeToCamel(s: string): (r: string)
    ensures |r| <= |s|
    ensures |s| > 0 ==> |r| > 0
    ensures |r| > 0 && IsLower(r[0]) ==> r[0] == s[0]
    ensures NoSeparatorBeforeLower(r)
    ensures '.' !in s ==> '.' !in r
    decreases |s|
  {
    if |s| == 0 then ""
    else if |s| >= 2 && IsSeparator(s[0]) && IsLower(s[1]) then [ToUpper(s[1])] + SnakeToCamel(s[2..])
    else [s[0]] + SnakeToCamel(s[1..])
  }

  /** `camelToSnakecase`: each upper-case letter becomes `_` and its
      lower-case form. */
  function CamelToSnake(s: string): (r: string)
    ensures |r| >= |s|
    ensures HasNoUpper(r)
    ensures '.' !in s ==> '.' !in r
    ensures HasNoSeparator(s) ==> (|r| > 0 && IsSeparator(r[0]) ==> |r| >= 2 && IsLower(r[1]))
    decreases |s|
  {
    if |s| == 0 then ""
    else if IsUpper(s[0]) then ['_', ToLower(s[0])] + CamelToSnake(s[1..])
    else [s[0]] + CamelToSnake(s[1..])
  }

  /** A string already in camel case is left as it is. */
  lemma {:induction false} SnakeToCamelFixes(s: string)
    requires NoSeparatorBeforeLower(s)
    ensures SnakeToCamel(s) == s
    decreases |s|
  {
    if |s| > 0 {
      SnakeToCamelFixes(s[1..]);
      assert [s[0]] + s[1..] == s;
    }
  }

  lemma SnakeToCamelIdempotent(s: string)
    ensures SnakeToCamel(SnakeToCamel(s)) == SnakeToCamel(s)
  {
    SnakeToCamelFixes(SnakeToCamel(s));
  }

  /** A string without upper-case letters is left as it is. */
  lemma {:induction false} CamelToSnakeFixes(s: string)
    requires HasNoUpper(s)
    ensures CamelToSnake(s) == s
    decreases |s|
  {
    if |s| > 0 {
      CamelToSnakeFixes(s[1..]);
      assert [s[0]] + s[1..] == s;
    }
  }

  lemma CamelToSnakeIdempotent(s: string)
    ensures CamelToSnake(CamelToSnake(s)) == CamelToSnake(s)
  {
    CamelToSnakeFixes(CamelToSnake(s));
  }

  /** Snake-casing then camel-casing a key without `-` or `_` gives it back:
      the query string relies on this to find a value from its field path. */
  lemma {:induction false} CamelSnakeRoundTrip(s: string)
    requires HasNoSeparator(s)
    ensures SnakeToCamel(CamelToSnake(s)) == s
    decreases |s|
  {
    if |s| > 0 {
      CamelSnakeRoundTrip(s[1..]);
      if IsUpper(s[0]) {
        CamelSnakeUpper(s);
      } else {
        assert !IsSeparator(s[0]);
        CamelSnakeCopy(s);
      }
    }
  }

  lemma CamelSnakeUpper(s: string)
    requires |s| > 0 && IsUpper(s[0])
    requires SnakeToCamel(CamelToSnake(s[1..])) == s[1..]
    ensures SnakeToCamel(CamelToSnake(s)) == s
  {
    SplitOne(s, "");
    assert s + "" == s;
    CamelStepUpper(s[0], s[1..]);
    StepMatch('_', ToLower(s[0]), CamelToSnake(s[1..]));
    assert ToUpper(ToLower(s[0])) == s[0];
  }

  lemma CamelSnakeCopy(s: string)
    requires |s| > 0 && !IsUpper(s[0]) && !IsSeparator(s[0])
    requires SnakeToCamel(CamelToSnake(s[1..])) == s[1..]
    ensures SnakeToCamel(CamelToSnake(s)) == s
  {
    SplitOne(s, "");
    assert s + "" == s;
    CamelStepCopy(s[0], s[1..]);
    StepCopy(s[0], CamelToSnake(s[1..]));
  }

  /** Camel-casing then snake-casing a name without upper-case letters and
      without `-` gives it back. */
  lemma {:induction false} SnakeCamelRoundTrip(s: string)
    requires HasNoUpper(s) && '-' !in s
    ensures CamelToSnake(SnakeToCamel(s)) == s
    decreases |s|
  {
    if |s| >= 2 && IsSeparator(s[0]) && IsLower(s[1]) {
      assert s[0] in s;
      SnakeCamelRoundTrip(s[2..]);
      SnakeCamelMatch(s);
    } else if |s| > 0 {
      SnakeCamelRoundTrip(s[1..]);
      SnakeCamelCopy(s);
    }
  }

  lemma SnakeCamelMatch(s: string)
    requires |s| >= 2 && s[0] == '_' && IsLower(s[1])
    requires CamelToSnake(SnakeToCamel(s[2..])) == s[2..]
    ensures CamelToSnake(SnakeToCamel(s)) == s
  {
    SplitTwo(s, "");
    assert s + "" == s;
    StepMatch(s[0], s[1], s[2..]);
    CamelStepUpper(ToUpper(s[1]), SnakeToCamel(s[2..]));
    assert ToLower(ToUpper(s[1])) == s[1];
  }

  lemma SnakeCamelCopy(s: string)
    requires |s| > 0 && !IsUpper(s[0])
    requires !(|s| >= 2 && IsSeparator(s[0]) && IsLower(s[1]))
    requires CamelToSnake(SnakeToCamel(s[1..])) == s[1..]
    ensures CamelToSnake(SnakeToCamel(s)) == s
  {
    SplitOne(s, "");
    assert s + "" == s;
    StepCopy(s[0], s[1..]);
    CamelStepCopy(s[0], SnakeToCamel(s[1..]));
  }

  lemma CamelStepUpper(c: char, t: string)
    requires IsUpper(c)
    ensures CamelToSnake([c] + t) == ['_', ToLower(c)] + CamelToSnake(t)
  {
    assert ([c] + t)[1..] == t;
  }

  lemma CamelStepCopy(c: char, t: string)
    requires !IsUpper(c)
    ensures CamelToSnake([c] + t) == [c] + CamelToSnake(t)
  {
    assert ([c] + t)[1..] == t;
  }

  /** Camel-casing works piece by piece when the second piece does not
      start with a lower-case letter (so no match straddles the cut). */
  lemma {:induction false} SnakeToCamelConcat(a: string, t: string)
    requires |t| > 0 && !IsLower(t[0])
    ensures SnakeToCamel(a + t) == SnakeToCamel(a) + SnakeToCamel(t)
    decreases |a|
  {
    if |a| == 0 {
      assert a + t == t;
    } else if |a| >= 2 && IsSeparator(a[0]) && IsLower(a[1]) {
      SnakeToCamelConcat(a[2..], t);
      SplitTwo(a, t);
      StepMatch(a[0], a[1], a[2..] + t);
      StepMatch(a[0], a[1], a[2..]);
      ConcatAssoc([ToUpper(a[1])], SnakeToCamel(a[2..]), SnakeToCamel(t));
    } else {
      SnakeToCamelConcat(a[1..], t);
      SplitOne(a, t);
      StepCopy(a[0], a[1..] + t);
      StepCopy(a[0], a[1..]);
      ConcatAssoc([a[0]], SnakeToCamel(a[1..]), SnakeToCamel(t));
    }
  }

  /** Camel-casing works piece by piece around a `.`. */
  lemma SnakeToCamelAroundDot(a: string, b: string)
    ensures SnakeToCamel(a + "." + b) == SnakeToCamel(a) + "." + SnakeToCamel(b)
  {
    SnakeToCamelConcat(a, "." + b);
    StepCopy('.', b);
    ConcatAssoc(a, ".", b);
    ConcatAssoc(SnakeToCamel(a), ".", SnakeToCamel(b));
  }

  lemma ConcatAssoc(x: string, y: string, z: string)
    ensures (x + y) + z == x + (y + z)
  {
  }

  lemma SplitOne(a: string, t: string)
    requires |a| >= 1
    ensures a + t == [a[0]] + (a[1..] + t)
    ensures a == [a[0]] + a[1..]
  {
  }

  lemma SplitTwo(a: string, t: string)
    requires |a| >= 2
    ensures a + t == [a[0], a[1]] + (a[2..] + t)
    ensures a == [a[0], a[1]] + a[2..]
  {
  }

  lemma StepMatch(c: char, d: char, t: string)
    requires IsSeparator(c) && IsLower(d)
    ensures SnakeToCamel([c, d] + t) == [ToUpper(d)] + SnakeToCamel(t)
  {
    assert ([c, d] + t)[2..] == t;
  }

  lemma StepCopy(c: char, t: string)
    requires !(|t| > 0 && IsSeparator(c) && IsLower(t[0]))
    ensures SnakeToCamel([c] + t) == [c] + SnakeToCamel(t)
  {
    assert ([c] + t)[1..] == t;
  }

  function CamelAll(parts: seq<string>): (r: seq<string>)
    ensures |r| == |parts|
    ensures forall i :: 0 <= i < |parts| ==> r[i] == SnakeToCamel(parts[i])
  {
    if |parts| == 0 then [] else [SnakeToCamel(parts[0])] + CamelAll(parts[1..])
  }

  lemma {:induction false} SnakeToCamelJoin(parts: seq<string>)
    requires |parts| >= 1
    ensures SnakeToCamel(Text.Join(parts, ".")) == Text.Join(CamelAll(parts), ".")
    decreases |parts|
  {
    if |parts| > 1 {
      SnakeToCamelJoin(parts[1..]);
      SnakeToCamelAroundDot(parts[0], Text.Join(parts[1..], "."));
      assert CamelAll(parts)[1..] == CamelAll(parts[1..]);
    }
  }

  // ---------------------------------------------------------------------
  // Message key paths

  /** `messageKeyPath`: a protobuf field path such as `foo_field.bar_field`
      becomes the JSON key path `["fooField", "barField"]`; `undefined` and
      `""` give the empty path. */
  function MessageKeyPath(fieldPath: Option<string>): (r: seq<string>)
    ensures r == [] <==> fieldPath == None || fieldPath == Some("")
  {
    match fieldPath
    case None => []
    case Some(fp) => if fp == "" then [] else Text.Split(SnakeToCamel(fp), '.')
  }

  /** The key path is the field path cut at each `.`, each piece camel-cased. */
  lemma MessageKeyPathSegments(fp: string)
    requires fp != ""
    ensures MessageKeyPath(Some(fp)) == CamelAll(Text.Split(fp, '.'))
  {
    var parts := Text.Split(fp, '.');
    Text.JoinSplit(fp, '.');
    SnakeToCamelJoin(parts);
    Text.SplitJoin(CamelAll(parts), '.');
  }

  // ---------------------------------------------------------------------
  // Field paths

  /** `addDelimiter`: join with `.` unless the head is empty. */
  function AddDelimiter(a: string, b: string): string
  {
    if a != "" then a + "." + b else b
  }

  function SnakeAll(ps: seq<string>): (r: seq<string>)
    ensures |r| == |ps|
    ensures forall i :: 0 <= i < |ps| ==> r[i] == CamelToSnake(ps[i])
  {
    if |ps| == 0 then [] else [CamelToSnake(ps[0])] + SnakeAll(ps[1..])
  }

  /** `paths(object, head)`: the leaf paths below `head`, snake-cased. `None`
      stands for the `TypeError` that `Object.entries(null)` throws when a
      member is `null` (`typeof null` is `"object"`). */
  function Paths(ms: Object, head: string): Option<seq<string>>
    decreases ms, 1
  {
    match Collect(ms, head)
    case None => None
    case Some(acc) => Some(SnakeAll(acc))
  }

  /** The `reduce` inside `paths`, member by member in entry order. */
  function Collect(ms: Object, head: string): Option<seq<string>>
    decreases ms, 0
  {
    if |ms| == 0 then Some([])
    else
      match MemberPaths(ms[0], head)
      case None => None
      case Some(p) =>
        match Collect(ms[1..], head)
        case None => None
        case Some(q) => Some(p + q)
  }

  /** One step of the `reduce`: an object is descended into, `null` throws,
      every other value is a leaf. */
  function MemberPaths(m: Member, head: string): Option<seq<string>>
    decreases m
  {
    var path := AddDelimiter(head, m.key);
    match m.value
    case JObject(cms) => Paths(cms, path)
    case JNull => None
    case _ => Some([path])
  }

  /** `fieldPaths`: the dotted, snake-cased path of every leaf of the tree. */
  function FieldPaths(root: Object): Option<seq<string>>
  {
    Paths(root, "")
  }

  /** No member anywhere in the tree is `null`. */
  predicate NullFree(ms: Object)
    decreases ms, 1
  {
    |ms| == 0 || (MemberNullFree(ms[0]) && NullFree(ms[1..]))
  }

  predicate MemberNullFree(m: Member)
    decreases m
  {
    match m.value
    case JNull => false
    case JObject(cms) => NullFree(cms)
    case _ => true
  }

  /** Every key path from the root to a value that is not an object, depth
      first in key order: the reference for what `fieldPaths` lists. */
  function LeafPaths(ms: Object): (r: seq<seq<string>>)
    decreases ms, 1
  {
    if |ms| == 0 then [] else MemberLeaves(ms[0]) + LeafPaths(ms[1..])
  }

  function MemberLeaves(m: Member): (r: seq<seq<string>>)
    decreases m
  {
    match m.value
    case JObject(cms) => Prepend(m.key, LeafPaths(cms))
    case _ => [[m.key]]
  }

  function Prepend(k: string, ps: seq<seq<string>>): (r: seq<seq<string>>)
    ensures |r| == |ps|
    ensures forall i :: 0 <= i < |ps| ==> r[i] == [k] + ps[i]
  {
    seq(|ps|, i requires 0 <= i < |ps| => [k] + ps[i])
  }

  /** The string `paths` builds for a key path below `head`. */
  function Dotted(head: string, p: seq<string>): string
    decreases |p|
  {
    if |p| == 0 then head else Dotted(AddDelimiter(head, p[0]), p[1..])
  }

  function DottedAll(head: string, ps: seq<seq<string>>): (r: seq<string>)
    ensures |r| == |ps|
    ensures forall i :: 0 <= i < |ps| ==> r[i] == Dotted(head, ps[i])
  {
    seq(|ps|, i requires 0 <= i < |ps| => Dotted(head, ps[i]))
  }

  lemma DottedAllAppend(head: string, a: seq<seq<string>>, b: seq<seq<string>>)
    ensures DottedAll(head, a + b) == DottedAll(head, a) + DottedAll(head, b)
  {
  }

  lemma {:induction false} SnakeAllAppend(a: seq<string>, b: seq<string>)
    ensures SnakeAll(a + b) == SnakeAll(a) + SnakeAll(b)
  {
  }

  lemma SnakeAllIdempotent(ps: seq<string>)
    ensures SnakeAll(SnakeAll(ps)) == SnakeAll(ps)
  {
    forall i | 0 <= i < |ps| {
      CamelToSnakeIdempotent(ps[i]);
    }
  }

  /** `fieldPaths` lists exactly the leaf paths, in order, dotted and
      snake-cased, when no member is `null`. */
  lemma {:induction false} PathsLeaves(ms: Object, head: string)
    requires NullFree(ms)
    ensures Paths(ms, head) == Some(SnakeAll(DottedAll(head, LeafPaths(ms))))
    decreases ms, 1
  {
    if |ms| > 0 {
      MemberPathsLeaves(ms[0], head);
      PathsLeaves(ms[1..], head);
      var p := MemberPaths(ms[0], head).value;
      var q := Collect(ms[1..], head).value;
      SnakeAllAppend(p, q);
      DottedAllAppend(head, MemberLeaves(ms[0]), LeafPaths(ms[1..]));
      SnakeAllAppend(DottedAll(head, MemberLeaves(ms[0])), DottedAll(head, LeafPaths(ms[1..])));
    }
  }

  lemma {:induction false} MemberPathsLeaves(m: Member, head: string)
    requires MemberNullFree(m)
    ensures MemberPaths(m, head).Some?
    ensures SnakeAll(MemberPaths(m, head).value) == SnakeAll(DottedAll(head, MemberLeaves(m)))
    decreases m
  {
    var path := AddDelimiter(head, m.key);
    match m.value {
      case JObject(cms) =>
        PathsLeaves(cms, path);
        assert DottedAll(head, MemberLeaves(m)) == DottedAll(path, LeafPaths(cms));
        SnakeAllIdempotent(DottedAll(path, LeafPaths(cms)));
      case _ =>
        assert [m.key][1..] == [];
        assert Dotted(head, [m.key]) == path;
        assert DottedAll(head, MemberLeaves(m)) == [path];
    }
  }

  /** A `null` anywhere in the tree makes `fieldPaths` throw. */
  lemma {:induction false} PathsNull(ms: Object, head: string)
    requires !NullFree(ms)
    ensures Paths(ms, head).None?
    decreases ms, 1
  {
    if !MemberNullFree(ms[0]) {
      MemberPathsNull(ms[0], head);
    } else {
      PathsNull(ms[1..], head);
    }
  }

  lemma {:induction false} MemberPathsNull(m: Member, head: string)
    requires !MemberNullFree(m)
    ensures MemberPaths(m, head).None?
    decreases m
  {
    match m.value {
      case JObject(cms) => PathsNull(cms, AddDelimiter(head, m.key));
      case _ =>
    }
  }


  // ---------------------------------------------------------------------
  // Removing a key path

  /** Ramda `dropLast(1)`. */
  function DropLast(p: seq<string>): (r: seq<string>)
    ensures |p| > 0 ==> |r| == |p| - 1
    ensures |p| == 0 ==> r == []
  {
    if |p| == 0 then [] else p[..|p| - 1]
  }

  /** `removeProperty`: delete the property at the key path, then, while the
      parent it was taken from is `""`, `[]` or `{}`, delete the parent too. */
  function RemoveProperty(keyPath: seq<string>, o: Object): Object
    decreases |keyPath|
  {
    var without := DissocPath(keyPath, JObject(o)).members;
    var parentKeyPath := DropLast(keyPath);
    if |parentKeyPath| > 0 && IsEmpty(Lookup(parentKeyPath, JObject(without))) then
      RemoveProperty(parentKeyPath, without)
    else
      without
  }

  /** After `dissocPath`, nothing is left at the path. */
  lemma {:induction false} DissocPathRemoves(p: seq<string>, j: Json)
    requires |p| > 0
    ensures Lookup(p, DissocPath(p, j)).None?
    decreases |p|
  {
    if |p| == 1 {
      GetDissoc(ForIn(j), p[0], p[0]);
    } else {
      match PropertyOf(j, p[0]) {
        case None =>
        case Some(child) =>
          if child.JNull? {
            assert Lookup(p[1..], child).None?;
          } else {
            DissocPathRemoves(p[1..], child);
          }
      }
    }
  }

  /** `dissocPath` never makes a path reach something it did not reach. */
  lemma {:induction false} DissocPathNeverAdds(p: seq<string>, j: Json, q: seq<string>)
    requires Lookup(q, j).None?
    ensures Lookup(q, DissocPath(p, j)).None?
    decreases |p|
  {
    if |p| > 0 && |q| > 0 {
      var d := DissocPath(p, j);
      if |p| == 1 {
        GetDissoc(ForIn(j), p[0], q[0]);
        if Get(ForIn(j), q[0]).Some? {
          PropertyOfForIn(j, q[0]);
        }
      } else if PropertyOf(j, p[0]).Some? && !PropertyOf(j, p[0]).value.JNull? {
        var child := PropertyOf(j, p[0]).value;
        if q[0] == p[0] {
          DissocPathNeverAdds(p[1..], child, q[1..]);
        } else if Get(ForIn(j), q[0]).Some? {
          PropertyOfForIn(j, q[0]);
        }
      }
    }
  }

  /** Removing a key path leaves nothing at it. */
  lemma {:induction false} RemovePropertyRemoves(keyPath: seq<string>, o: Object)
    requires |keyPath| > 0
    ensures Lookup(keyPath, JObject(RemoveProperty(keyPath, o))).None?
    decreases |keyPath|
  {
    DissocPathRemoves(keyPath, JObject(o));
    var without := DissocPath(keyPath, JObject(o)).members;
    var parentKeyPath := DropLast(keyPath);
    if |parentKeyPath| > 0 && IsEmpty(Lookup(parentKeyPath, JObject(without))) {
      RemovePropertyRemoves(parentKeyPath, without);
      var r := RemoveProperty(parentKeyPath, without);
      assert keyPath == parentKeyPath + [keyPath[|keyPath| - 1]];
      LookupAppend(parentKeyPath, [keyPath[|keyPath| - 1]], JObject(r));
    }
  }

  /** Removing a key path never makes any path reach something new. */
  lemma {:induction false} RemovePropertyNeverAdds(keyPath: seq<string>, o: Object, q: seq<string>)
    requires Lookup(q, JObject(o)).None?
    ensures Lookup(q, JObject(RemoveProperty(keyPath, o))).None?
    decreases |keyPath|
  {
    DissocPathNeverAdds(keyPath, JObject(o), q);
    var without := DissocPath(keyPath, JObject(o)).members;
    var parentKeyPath := DropLast(keyPath);
    if |parentKeyPath| > 0 && IsEmpty(Lookup(parentKeyPath, JObject(without))) {
      RemovePropertyNeverAdds(parentKeyPath, without, q);
    }
  }

  lemma LookupCons(k: string, rest: seq<string>, d: Json)
    ensures Lookup([k] + rest, d) ==
      match PropertyOf(d, k) case None => None case Some(c) => Lookup(rest, c)
  {
    assert ([k] + rest)[0] == k && ([k] + rest)[1..] == rest;
  }

  lemma DropLastCons(p: seq<string>)
    requires |p| > 1
    ensures DropLast(p) == [p[0]] + DropLast(p[1..])
  {
    assert p[..|p| - 1] == [p[0]] + p[1..][..|p| - 2];
  }

  lemma PrefixCons(p: seq<string>, i: nat)
    requires 0 < i <= |p|
    ensures p[..i] == [p[0]] + p[1..][..i - 1]
  {
  }

  /** The first step of `dissocPath` on a path of two keys or more, when the
      property exists and is not `null`. */
  lemma DissocPathStep(p: seq<string>, j: Json)
    requires |p| > 1 && PropertyOf(j, p[0]).Some? && !PropertyOf(j, p[0]).value.JNull?
    ensures PropertyOf(DissocPath(p, j), p[0]) == Some(DissocPath(p[1..], PropertyOf(j, p[0]).value))
    ensures DissocPath(p, j).JObject?
  {
  }

  /** Along a path that exists, `dissocPath` leaves the parent reachable. */
  lemma {:induction false} DissocPathParent(p: seq<string>, j: Json)
    requires |p| > 0 && Lookup(p, j).Some?
    ensures Lookup(DropLast(p), DissocPath(p, j)).Some?
    decreases |p|
  {
    if |p| > 1 {
      var child := PropertyOf(j, p[0]).value;
      DissocPathParent(p[1..], child);
      DissocPathStep(p, j);
      DropLastCons(p);
      LookupCons(p[0], DropLast(p[1..]), DissocPath(p, j));
    }
  }

  /** A value that is there and is not `""`, `[]` or `{}`. */
  predicate Occupied(v: Option<Json>)
  {
    v.Some? && !IsEmpty(v)
  }

  /** Along a path that exists, `dissocPath` leaves every ancestor above the
      parent an object that still holds the next key. */
  lemma {:induction false} DissocPathSpine(p: seq<string>, j: Json, i: nat)
    requires |p| > 0 && Lookup(p, j).Some?
    requires 0 < i < |p| - 1
    ensures Occupied(Lookup(p[..i], DissocPath(p, j)))
    decreases |p|
  {
    if i == 1 {
      DissocPathSpineFirst(p, j);
    } else {
      LookupStep(p, j);
      DissocPathSpine(p[1..], PropertyOf(j, p[0]).value, i - 1);
      DissocPathPrefixLift(p, j, i);
    }
  }

  lemma DissocPathPrefixLift(p: seq<string>, j: Json, i: nat)
    requires |p| > 1 && PropertyOf(j, p[0]).Some? && !PropertyOf(j, p[0]).value.JNull?
    requires 0 < i <= |p|
    ensures Lookup(p[..i], DissocPath(p, j)) ==
      Lookup(p[1..][..i - 1], DissocPath(p[1..], PropertyOf(j, p[0]).value))
  {
    PrefixCons(p, i);
    DissocPathLift(p, j, p[1..][..i - 1]);
  }

  /** Below the first key, `dissocPath` looks like `dissocPath` of the rest
      of the path on the child. */
  lemma DissocPathLift(p: seq<string>, j: Json, q: seq<string>)
    requires |p| > 1 && PropertyOf(j, p[0]).Some? && !PropertyOf(j, p[0]).value.JNull?
    ensures Lookup([p[0]] + q, DissocPath(p, j)) == Lookup(q, DissocPath(p[1..], PropertyOf(j, p[0]).value))
  {
    DissocPathStep(p, j);
    LookupCons(p[0], q, DissocPath(p, j));
  }

  lemma DissocPathSpineFirst(p: seq<string>, j: Json)
    requires |p| > 2 && Lookup(p, j).Some?
    ensures Occupied(Lookup(p[..1], DissocPath(p, j)))
  {
    LookupStep(p, j);
    DissocPathChildNotEmpty(p[1..], PropertyOf(j, p[0]).value);
    DissocPathPrefixLift(p, j, 1);
  }

  lemma DissocPathChildNotEmpty(p: seq<string>, j: Json)
    requires |p| > 1 && Lookup(p, j).Some?
    ensures !IsEmpty(Some(DissocPath(p, j)))
  {
    LookupStep(p, j);
    DissocPathStep(p, j);
    HasPropertyNotEmpty(DissocPath(p, j), p[0]);
  }

  /** A path that reaches something passes through a property that exists
      and, unless it is the last, is not `null`. */
  lemma LookupStep(p: seq<string>, j: Json)
    requires |p| > 0 && Lookup(p, j).Some?
    ensures PropertyOf(j, p[0]).Some?
    ensures Lookup(p[1..], PropertyOf(j, p[0]).value).Some?
    ensures |p| > 1 ==> !PropertyOf(j, p[0]).value.JNull?
  {
  }

  lemma HasPropertyNotEmpty(v: Json, k: string)
    requires v.JObject? && PropertyOf(v, k).Some?
    ensures !IsEmpty(Some(v))
  {
  }

  /** `removeProperty` leaves no empty ancestor on the removed path: every
      proper ancestor is either gone or not `""`, `[]` or `{}`. */
  lemma {:induction false} RemovePropertyPrunes(keyPath: seq<string>, o: Object)
    requires |keyPath| > 0 && Lookup(keyPath, JObject(o)).Some?
    ensures forall i :: 0 < i < |keyPath| ==>
      !IsEmpty(Lookup(keyPath[..i], JObject(RemoveProperty(keyPath, o))))
    decreases |keyPath|
  {
    DissocPathParent(keyPath, JObject(o));
    var without := DissocPath(keyPath, JObject(o)).members;
    var parentKeyPath := DropLast(keyPath);
    if |parentKeyPath| > 0 && IsEmpty(Lookup(parentKeyPath, JObject(without))) {
      RemovePropertyPrunes(parentKeyPath, without);
      RemovePropertyRemoves(parentKeyPath, without);
      PrunedAncestors(keyPath, RemoveProperty(parentKeyPath, without));
    } else {
      DissocPathAncestors(keyPath, JObject(o));
      KeptAncestors(keyPath, without);
    }
  }

  /** When the parent is gone, the proper ancestors of the key path are those
      of the parent path and the parent path itself. */
  lemma PrunedAncestors(keyPath: seq<string>, r: Object)
    requires |keyPath| > 1
    requires forall i :: 0 < i < |keyPath| - 1 ==> !IsEmpty(Lookup(DropLast(keyPath)[..i], JObject(r)))
    requires Lookup(DropLast(keyPath), JObject(r)).None?
    ensures forall i :: 0 < i < |keyPath| ==> !IsEmpty(Lookup(keyPath[..i], JObject(r)))
  {
    forall i | 0 < i < |keyPath|
      ensures !IsEmpty(Lookup(keyPath[..i], JObject(r)))
    {
      if i < |keyPath| - 1 {
        assert keyPath[..i] == DropLast(keyPath)[..i];
      } else {
        assert keyPath[..i] == DropLast(keyPath);
      }
    }
  }

  /** Every ancestor above the parent survives `dissocPath`, not empty. */
  lemma DissocPathAncestors(p: seq<string>, j: Json)
    requires |p| > 0 && Lookup(p, j).Some?
    ensures forall i :: 0 < i < |p| - 1 ==> Occupied(Lookup(p[..i], DissocPath(p, j)))
  {
    forall i | 0 < i < |p| - 1
      ensures Occupied(Lookup(p[..i], DissocPath(p, j)))
    {
      DissocPathSpine(p, j, i);
    }
  }

  /** When the parent is kept, it is not empty, and neither is any ancestor
      above it. */
  lemma KeptAncestors(keyPath: seq<string>, without: Object)
    requires |keyPath| > 0
    requires forall i :: 0 < i < |keyPath| - 1 ==> Occupied(Lookup(keyPath[..i], JObject(without)))
    requires |DropLast(keyPath)| > 0 ==> !IsEmpty(Lookup(DropLast(keyPath), JObject(without)))
    ensures forall i :: 0 < i < |keyPath| ==> !IsEmpty(Lookup(keyPath[..i], JObject(without)))
  {
    forall i | 0 < i < |keyPath|
      ensures !IsEmpty(Lookup(keyPath[..i], JObject(without)))
    {
      if i == |keyPath| - 1 {
        assert keyPath[..i] == DropLast(keyPath);
      }
    }
  }

  /** Every value the path passes through, its parent included, is an
      object, up to the first property that is missing or `null`. Arrays
      and strings on the way are copied into objects by Ramda's `assoc`, so
      the frame lemmas below are stated for paths through objects. */
  predicate ObjectsAlong(p: seq<string>, j: Json)
    decreases |p|
  {
    |p| == 0 ||
    (j.JObject? &&
      (|p| == 1 ||
        match Get(j.members, p[0])
        case None => true
        case Some(c) => c.JNull? || ObjectsAlong(p[1..], c)))
  }

  lemma IsPrefixCons(p: seq<string>, q: seq<string>)
    requires |p| > 0 && |q| > 0 && p[0] == q[0]
    ensures IsPrefix(p, q) <==> IsPrefix(p[1..], q[1..])
  {
    if IsPrefix(p[1..], q[1..]) {
      assert q[..|p|] == [q[0]] + q[1..][..|p| - 1];
      assert p == [p[0]] + p[1..];
    }
  }

  /** `dissocPath` leaves alone every path that neither leads to nor goes
      through the removed property. */
  lemma {:induction false} DissocPathOther(p: seq<string>, j: Json, q: seq<string>)
    requires |p| > 0 && ObjectsAlong(p, j)
    requires !IsPrefix(p, q) && !IsPrefix(q, p)
    ensures Lookup(q, DissocPath(p, j)) == Lookup(q, j)
    decreases |p|
  {
    var ms := j.members;
    if |p| == 1 {
      assert q[..1] == [q[0]];
      GetDissoc(ms, p[0], q[0]);
    } else if Get(ms, p[0]).Some? && !Get(ms, p[0]).value.JNull? {
      var c := Get(ms, p[0]).value;
      if q[0] == p[0] {
        IsPrefixCons(p, q);
        IsPrefixCons(q, p);
        DissocPathOther(p[1..], c, q[1..]);
      }
    }
  }

  lemma {:induction false} ObjectsAlongDropLast(p: seq<string>, j: Json)
    requires ObjectsAlong(p, j)
    ensures ObjectsAlong(DropLast(p), j)
    decreases |p|
  {
    if |p| > 2 {
      DropLastCons(p);
      var ms := j.members;
      if Get(ms, p[0]).Some? && !Get(ms, p[0]).value.JNull? {
        ObjectsAlongDropLast(p[1..], Get(ms, p[0]).value);
      }
    }
  }

  lemma {:induction false} ObjectsAlongDissoc(p: seq<string>, j: Json)
    requires ObjectsAlong(p, j)
    ensures ObjectsAlong(p, DissocPath(p, j))
    decreases |p|
  {
    if |p| > 1 {
      var ms := j.members;
      if Get(ms, p[0]).Some? && !Get(ms, p[0]).value.JNull? {
        ObjectsAlongDissoc(p[1..], Get(ms, p[0]).value);
      }
    }
  }

  /** Along a path through objects, the parent is an object or `null`. */
  lemma {:induction false} ObjectsAlongParent(p: seq<string>, j: Json)
    requires |p| > 0 && ObjectsAlong(p, j) && Lookup(DropLast(p), j).Some?
    ensures Lookup(DropLast(p), j).value.JObject? || Lookup(DropLast(p), j).value.JNull?
    decreases |p|
  {
    if |p| > 1 {
      DropLastCons(p);
      LookupCons(p[0], DropLast(p[1..]), j);
      var c := Get(j.members, p[0]).value;
      if !c.JNull? {
        ObjectsAlongParent(p[1..], c);
      }
    }
  }

  /** Nothing lies below an empty object. */
  lemma BelowEmptyObject(a: seq<string>, q: seq<string>, d: Json)
    requires IsPrefix(a, q) && |a| < |q| && Lookup(a, d) == Some(JObject([]))
    ensures Lookup(q, d).None?
  {
    assert q == a + q[|a|..];
    LookupAppend(a, q[|a|..], d);
  }

  lemma PrefixOfDropLast(q: seq<string>, p: seq<string>)
    requires |p| > 0 && IsPrefix(q, DropLast(p))
    ensures IsPrefix(q, p)
  {
  }

  /** `removeProperty` leaves alone every path that neither leads to nor
      goes through the removed property, pruning included. */
  lemma {:induction false} RemovePropertyOther(keyPath: seq<string>, o: Object, q: seq<string>)
    requires |keyPath| > 0 && ObjectsAlong(keyPath, JObject(o))
    requires !IsPrefix(keyPath, q) && !IsPrefix(q, keyPath)
    ensures Lookup(q, JObject(RemoveProperty(keyPath, o))) == Lookup(q, JObject(o))
    decreases |keyPath|
  {
    var d := DissocPath(keyPath, JObject(o));
    DissocPathOther(keyPath, JObject(o), q);
    var without := d.members;
    var parentKeyPath := DropLast(keyPath);
    if |parentKeyPath| > 0 && IsEmpty(Lookup(parentKeyPath, JObject(without))) {
      ObjectsAlongDissoc(keyPath, JObject(o));
      ObjectsAlongDropLast(keyPath, d);
      if IsPrefix(q, parentKeyPath) {
        PrefixOfDropLast(q, keyPath);
      }
      if IsPrefix(parentKeyPath, q) {
        ObjectsAlongParent(keyPath, d);
        BelowEmptyObject(parentKeyPath, q, d);
        RemovePropertyNeverAdds(parentKeyPath, without, q);
      } else {
        RemovePropertyOther(parentKeyPath, without, q);
      }
    }
  }

  /** Along a path through objects, a missing parent makes `dissocPath` a
      no-op. */
  lemma {:induction false} DissocPathMissingParent(p: seq<string>, j: Json)
    requires |p| > 1 && ObjectsAlong(p, j) && Lookup(DropLast(p), j).None?
    ensures DissocPath(p, j) == j
    decreases |p|
  {
    var ms := j.members;
    if Get(ms, p[0]).Some? && !Get(ms, p[0]).value.JNull? {
      var c := Get(ms, p[0]).value;
      DropLastCons(p);
      LookupCons(p[0], DropLast(p[1..]), j);
      if |p| == 2 {
        assert false;
      }
      DissocPathMissingParent(p[1..], c);
      SetMemberSame(ms, p[0]);
    }
  }

  /** An empty key path, or a missing parent along a path through objects,
      leaves the object as it is. */
  lemma RemovePropertyUnchanged(keyPath: seq<string>, o: Object)
    requires |keyPath| == 0 || (|keyPath| > 1 && ObjectsAlong(keyPath, JObject(o)) &&
      Lookup(DropLast(keyPath), JObject(o)).None?)
    ensures RemoveProperty(keyPath, o) == o
  {
    if |keyPath| > 0 {
      DissocPathMissingParent(keyPath, JObject(o));
    }
  }

  /** Removing one path through objects leaves every other path through
      objects a path through objects: the copies `dissocPath` makes along
      its path are objects again. */
  lemma {:induction false} ObjectsAlongDissocOther(p: seq<string>, q: seq<string>, j: Json)
    requires ObjectsAlong(p, j) && ObjectsAlong(q, j)
    ensures ObjectsAlong(q, DissocPath(p, j))
    decreases |p|
  {
    if |p| == 1 && |q| > 1 {
      GetDissoc(j.members, p[0], q[0]);
    } else if |p| > 1 && |q| > 1 {
      var ms := j.members;
      match Get(ms, p[0]) {
        case None =>
        case Some(child) =>
          if !child.JNull? {
            var below := DissocPath(p[1..], child);
            if q[0] == p[0] {
              ObjectsAlongDissocOther(p[1..], q[1..], child);
              assert Get(DissocPath(p, j).members, q[0]) == Some(below);
            } else {
              assert Get(DissocPath(p, j).members, q[0]) == Get(ms, q[0]);
            }
          }
      }
    }
  }

  /** The same for `removeProperty`, pruning included. */
  lemma {:induction false} ObjectsAlongRemoveOther(p: seq<string>, q: seq<string>, o: Object)
    requires ObjectsAlong(p, JObject(o)) && ObjectsAlong(q, JObject(o))
    ensures ObjectsAlong(q, JObject(RemoveProperty(p, o)))
    decreases |p|
  {
    var d := DissocPath(p, JObject(o));
    ObjectsAlongDissocOther(p, q, JObject(o));
    assert JObject(d.members) == d;
    var parentKeyPath := DropLast(p);
    if |parentKeyPath| > 0 && IsEmpty(Lookup(parentKeyPath, JObject(d.members))) {
      ObjectsAlongDissoc(p, JObject(o));
      ObjectsAlongDropLast(p, d);
      ObjectsAlongRemoveOther(parentKeyPath, q, d.members);
    }
  }

  // ---------------------------------------------------------------------
  // Path-expansion matchers

  /** The characters a capture group takes: `[^/]` for `*`, and `.` (any
      character but a line terminator) for `**`. */
  datatype CharClass = NotSlash | NotLineTerminator

  predicate IsLineTerminator(c: char)
  {
    c == '\n' || c == '\r' || c == '\U{2028}' || c == '\U{2029}'
  }

  predicate InClass(c: char, cls: CharClass)
  {
    match cls
    case NotSlash => c != '/'
    case NotLineTerminator => !IsLineTerminator(c)
  }

  /** The regular expression built from a path expansion: the text before
      the first `*` (or `**`), one greedy capture group, and the text after
      it. An expansion without a star becomes a pattern of literal text. */
  datatype Pattern =
    | Literal(text: string)
    | Capture(before: string, cls: CharClass, after: string)

  /** `starPathExpansionToRegex`: the first `*` becomes `([^/]*)`. */
  function StarPathExpansionToPattern(path: string): (r: Pattern)
    ensures r.Literal? <==> Text.IndexOf(path, "*", 0).None?
    ensures r.Literal? ==> r.text == path
    ensures r.Capture? ==>
      r.cls == NotSlash && path == r.before + "*" + r.after && Text.IndexOf(path, "*", 0) == Some(|r.before|)
  {
    match Text.IndexOf(path, "*", 0)
    case None => Literal(path)
    case Some(i) =>
      assert path == path[..i] + "*" + path[i + 1..];
      Capture(path[..i], NotSlash, path[i + 1..])
  }

  /** `doubleStarPathExpansionToRegex`: the first `**` becomes `(.*)`. */
  function DoubleStarPathExpansionToPattern(path: string): (r: Pattern)
    ensures r.Literal? <==> Text.IndexOf(path, "**", 0).None?
    ensures r.Literal? ==> r.text == path
    ensures r.Capture? ==>
      r.cls == NotLineTerminator && path == r.before + "**" + r.after && Text.IndexOf(path, "**", 0) == Some(|r.before|)
  {
    match Text.IndexOf(path, "**", 0)
    case None => Literal(path)
    case Some(i) =>
      assert path == path[..i] + "**" + path[i + 2..];
      Capture(path[..i], NotLineTerminator, path[i + 2..])
  }

  /** The pattern matches `s` from index `i` with a group of `g` characters. */
  predicate Accepts(s: string, pat: Pattern, i: nat, g: nat)
  {
    match pat
    case Literal(t) => g == 0 && Text.OccursAt(s, t, i)
    case Capture(before, cls, after) =>
      Text.OccursAt(s, before, i) && i + |before| + g <= |s| &&
      (forall k :: i + |before| <= k < i + |before| + g ==> InClass(s[k], cls)) &&
      Text.OccursAt(s, after, i + |before| + g)
  }

  /** The longest run of characters of the class from `from`. */
  function RunLength(s: string, from: nat, cls: CharClass): (n: nat)
    requires from <= |s|
    ensures from + n <= |s|
    ensures forall k :: from <= k < from + n ==> InClass(s[k], cls)
    ensures from + n == |s| || !InClass(s[from + n], cls)
    decreases |s| - from
  {
    if from == |s| || !InClass(s[from], cls) then 0 else 1 + RunLength(s, from + 1, cls)
  }

  /** Backtracking from `n` characters down: the longest group of at most
      `n` characters after which `after` follows. */
  function Backtrack(s: string, from: nat, n: nat, after: string): (r: Option<nat>)
    ensures r.Some? ==> r.value <= n && Text.OccursAt(s, after, from + r.value)
    ensures r.Some? ==> forall k :: from + r.value < k <= from + n ==> !Text.OccursAt(s, after, k)
    ensures r.None? ==> forall k :: from <= k <= from + n ==> !Text.OccursAt(s, after, k)
    decreases n
  {
    if Text.OccursAt(s, after, from + n) then Some(n)
    else if n == 0 then None
    else Backtrack(s, from, n - 1, after)
  }

  /** A regular-expression match at index `i`: the length of the group the
      greedy capture settles on, if the pattern matches there at all. */
  function MatchAt(s: string, pat: Pattern, i: nat): (r: Option<nat>)
    ensures r.Some? ==> Accepts(s, pat, i, r.value)
    ensures r.Some? ==> forall g :: r.value < g ==> !Accepts(s, pat, i, g)
    ensures r.None? ==> forall g :: !Accepts(s, pat, i, g)
  {
    match pat
    case Literal(t) => if Text.OccursAt(s, t, i) then Some(0) else None
    case Capture(before, cls, after) =>
      if !Text.OccursAt(s, before, i) then None
      else
        var n := RunLength(s, i + |before|, cls);
        var r := Backtrack(s, i + |before|, n, after);
        BacktrackAccepts(s, pat, i, n, r);
        r
  }

  /** The group backtracking settles on is the longest the pattern accepts. */
  lemma BacktrackAccepts(s: string, pat: Pattern, i: nat, n: nat, r: Option<nat>)
    requires pat.Capture? && Text.OccursAt(s, pat.before, i)
    requires n == RunLength(s, i + |pat.before|, pat.cls)
    requires r == Backtrack(s, i + |pat.before|, n, pat.after)
    ensures r.Some? ==> Accepts(s, pat, i, r.value)
    ensures r.Some? ==> forall g :: r.value < g ==> !Accepts(s, pat, i, g)
    ensures r.None? ==> forall g :: !Accepts(s, pat, i, g)
  {
    if r.Some? {
      AcceptsWithinRun(s, pat, i, n, r.value);
      forall g: nat | r.value < g
        ensures !Accepts(s, pat, i, g)
      {
        RejectsOutsideRun(s, pat, i, n, g);
      }
    } else {
      forall g: nat
        ensures !Accepts(s, pat, i, g)
      {
        RejectsOutsideRun(s, pat, i, n, g);
      }
    }
  }

  lemma AcceptsWithinRun(s: string, pat: Pattern, i: nat, n: nat, g: nat)
    requires pat.Capture? && Text.OccursAt(s, pat.before, i)
    requires n == RunLength(s, i + |pat.before|, pat.cls)
    requires g <= n && Text.OccursAt(s, pat.after, i + |pat.before| + g)
    ensures Accepts(s, pat, i, g)
  {
  }

  lemma RejectsOutsideRun(s: string, pat: Pattern, i: nat, n: nat, g: nat)
    requires pat.Capture? && Text.OccursAt(s, pat.before, i)
    requires n == RunLength(s, i + |pat.before|, pat.cls)
    requires g > n || !Text.OccursAt(s, pat.after, i + |pat.before| + g)
    ensures !Accepts(s, pat, i, g)
  {
    if g > n && i + |pat.before| + g <= |s| {
      var k := i + |pat.before| + n;
      assert !InClass(s[k], pat.cls);
    }
  }

  /** A match: where it starts and how long its group is. */
  datatype RegexMatch = RegexMatch(start: nat, group: nat)

  /** `s.match(regex)` for a regular expression without the `g` flag: the
      leftmost index where the pattern matches. */
  function SearchFrom(s: string, pat: Pattern, from: nat): (r: Option<RegexMatch>)
    ensures r.Some? ==> from <= r.value.start && MatchAt(s, pat, r.value.start) == Some(r.value.group)
    ensures r.Some? ==> forall i, g :: from <= i < r.value.start ==> !Accepts(s, pat, i, g)
    ensures r.None? ==> forall i, g :: from <= i ==> !Accepts(s, pat, i, g)
    decreases |s| + 1 - from
  {
    if from > |s| then None
    else match MatchAt(s, pat, from)
      case Some(g) => Some(RegexMatch(from, g))
      case None => SearchFrom(s, pat, from + 1)
  }

  function Match(s: string, pat: Pattern): Option<RegexMatch>
  {
    SearchFrom(s, pat, 0)
  }

  /** Where a match ends. */
  function MatchEnd(pat: Pattern, m: RegexMatch): nat
  {
    match pat
    case Literal(t) => m.start + |t|
    case Capture(before, _, after) => m.start + |before| + m.group + |after|
  }

  /** `matched[0]`: the text of the whole match. */
  function MatchedText(s: string, pat: Pattern, m: RegexMatch): (r: string)
    requires Accepts(s, pat, m.start, m.group)
    ensures |r| == MatchEnd(pat, m) - m.start
  {
    s[m.start..MatchEnd(pat, m)]
  }

  // ---------------------------------------------------------------------
  // Examples from util.test.ts

  lemma RemovePropertyExample1()
    ensures RemoveProperty(["foo", "bar"],
      [Member("foo", JObject([Member("bar", JString("bar")), Member("baz", JString("baz"))]))])
      == [Member("foo", JObject([Member("baz", JString("baz"))]))]
  {
    var inner := [Member("bar", JString("bar")), Member("baz", JString("baz"))];
    assert DissocPath(["bar"], JObject(inner)) == JObject([Member("baz", JString("baz"))]);
  }

  lemma RemovePropertyExample2()
    ensures RemoveProperty(["bar", "baz"],
      [Member("foo", JString("foo")), Member("bar", JObject([Member("baz", JString("baz"))]))])
      == [Member("foo", JString("foo"))]
  {
  }

  lemma RemovePropertyExample3()
    ensures RemoveProperty(["foo", "bar", "baz"],
      [Member("foo", JObject([Member("bar", JObject([Member("baz", JString("baz"))]))]))])
      == []
  {
  }

  /** The pattern of an expansion whose first `*` is at index `i`. */
  lemma StarPatternAt(path: string, i: nat)
    requires i < |path| && path[i] == '*'
    requires forall k :: 0 <= k < i ==> path[k] != '*'
    ensures StarPathExpansionToPattern(path) == Capture(path[..i], NotSlash, path[i + 1..])
  {
    assert Text.OccursAt(path, "*", i) by {
      assert path[i..i + 1] == "*";
    }
    var v := Text.IndexOf(path, "*", 0).value;
    assert path[v..v + 1][0] == path[v];
  }

  /** The pattern of an expansion whose first `**` is at index `i`. */
  lemma DoubleStarPatternAt(path: string, i: nat)
    requires i + 1 < |path| && path[i] == '*' && path[i + 1] == '*'
    requires forall k :: 0 <= k < i ==> !(path[k] == '*' && path[k + 1] == '*')
    ensures DoubleStarPathExpansionToPattern(path) == Capture(path[..i], NotLineTerminator, path[i + 2..])
  {
    assert Text.OccursAt(path, "**", i) by {
      assert path[i..i + 2] == "**";
    }
    var v := Text.IndexOf(path, "**", 0).value;
    assert path[v..v + 2][0] == path[v] && path[v..v + 2][1] == path[v + 1];
  }

  lemma StarPatternExample()
    ensures StarPathExpansionToPattern("/foo/*/bar") == Capture("/foo/", NotSlash, "/bar")
  {
    var path := "/foo/*/bar";
    StarPatternAt(path, 5);
    assert path[..5] == "/foo/";
    assert path[6..] == "/bar";
  }

  lemma DoubleStarPatternExample()
    ensures DoubleStarPathExpansionToPattern("/foo/**") == Capture("/foo/", NotLineTerminator, "")
  {
    var path := "/foo/**";
    DoubleStarPatternAt(path, 5);
    assert path[..5] == "/foo/";
  }

  /** `"/foo/123/bar".match(/\/foo\/([^/]*)\/bar/)` is `["/foo/123/bar", "123"]`. */
  lemma StarMatchExample()
    ensures Match("/foo/123/bar", Capture("/foo/", NotSlash, "/bar")) == Some(RegexMatch(0, 3))
  {
    var s, pat := "/foo/123/bar", Capture("/foo/", NotSlash, "/bar");
    assert s[0..5] == "/foo/";
    assert s[8..12] == "/bar";
    assert Accepts(s, pat, 0, 3);
  }

  /** `"/foo/123/abc/bar"` does not match `/\/foo\/([^/]*)\/bar/`. */
  lemma StarNoMatchExample()
    ensures Match("/foo/123/abc/bar", Capture("/foo/", NotSlash, "/bar")).None?
  {
    var s, pat := "/foo/123/abc/bar", Capture("/foo/", NotSlash, "/bar");
    forall i: nat, g: nat | Accepts(s, pat, i, g)
      ensures false
    {
      StarNoMatchStart(s, i);
      StarNoMatchGroup(s, g);
    }
  }

  lemma StarNoMatchStart(s: string, i: nat)
    requires s == "/foo/123/abc/bar" && Text.OccursAt(s, "/foo/", i)
    ensures i == 0
  {
    assert s[i..i + 5][1] == s[i + 1];
  }

  lemma SlashNotInGroup(s: string, k: nat)
    requires k < |s| && s[k] == '/'
    ensures !InClass(s[k], NotSlash)
  {
  }

  lemma StarNoMatchGroup(s: string, g: nat)
    requires s == "/foo/123/abc/bar"
    requires 5 + g <= |s| && forall k :: 5 <= k < 5 + g ==> InClass(s[k], NotSlash)
    ensures !Text.OccursAt(s, "/bar", 5 + g)
  {
    if g > 3 {
      SlashNotInGroup(s, 8);
      assert false;
    } else if 9 + g <= |s| {
      assert s[5 + g..9 + g][0] == s[5 + g] && s[5 + g..9 + g][1] == s[6 + g];
    }
  }

  /** `"/foo/bar/baz/123".match(/\/foo\/(.*)/)` is
      `["/foo/bar/baz/123", "bar/baz/123"]`. */
  lemma DoubleStarMatchExample()
    ensures Match("/foo/bar/baz/123", Capture("/foo/", NotLineTerminator, "")) == Some(RegexMatch(0, 11))
  {
    var s, pat := "/foo/bar/baz/123", Capture("/foo/", NotLineTerminator, "");
    assert s[0..5] == "/foo/";
    assert s[16..16] == "";
    assert Accepts(s, pat, 0, 11);
  }

  /** `"/bar/123"` does not match `/\/foo\/(.*)/`. */
  lemma DoubleStarNoMatchExample()
    ensures Match("/bar/123", Capture("/foo/", NotLineTerminator, "")).None?
  {
    var s, pat := "/bar/123", Capture("/foo/", NotLineTerminator, "");
    forall i: nat, g: nat
      ensures !Accepts(s, pat, i, g)
    {
      DoubleStarNoMatchStart(s, i);
    }
  }

  lemma DoubleStarNoMatchStart(s: string, i: nat)
    requires s == "/bar/123"
    ensures !Text.OccursAt(s, "/foo/", i)
  {
    if i + 5 <= |s| {
      assert s[i..i + 5][1] == s[i + 1];
    }
  }
}
