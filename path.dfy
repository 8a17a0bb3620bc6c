/** path.ts: filling the path template's `{field}` tokens with values from
    the request, and taking the fields it used out of what is left to
    transcode. */
module Path {
  import opened Wrappers
  import opened JsonValue
  import opened Types
  import Text
  import Util
  import UriEncoding

  // ---------------------------------------------------------------------
  // Tokens: the regular expression `/{(.[^{}]*)}/g`

  predicate IsBrace(c: char)
  {
    c == '{' || c == '}'
  }

  /** A whole match of `{(.[^{}]*)}`: `{`, one character that is not a line
      terminator (a brace included), characters other than braces, `}`. */
  predicate IsToken(s: string)
  {
    && |s| >= 3
    && s[0] == '{'
    && !Util.IsLineTerminator(s[1])
    && s[|s| - 1] == '}'
    && forall k :: 2 <= k < |s| - 1 ==> !IsBrace(s[k])
  }

  /** The longest run of characters other than braces from `from`. */
  function NonBraceRun(t: string, from: nat): (n: nat)
    requires from <= |t|
    ensures from + n <= |t|
    ensures forall k :: from <= k < from + n ==> !IsBrace(t[k])
    ensures from + n == |t| || IsBrace(t[from + n])
    decreases |t| - from
  {
    if from == |t| || IsBrace(t[from]) then 0 else 1 + NonBraceRun(t, from + 1)
  }

  /** The length of the token that starts at index `i`, if one does. The
      run of non-braces cannot stop short of the closing `}`, so there is at
      most one. */
  function TokenAt(t: string, i: nat): (r: Option<nat>)
    ensures r.Some? ==> i + r.value <= |t| && IsToken(t[i..i + r.value])
    ensures r.None? ==> forall e :: i <= e <= |t| ==> !IsToken(t[i..e])
  {
    if i + 2 > |t| || t[i] != '{' || Util.IsLineTerminator(t[i + 1]) then
      None
    else
      var n := NonBraceRun(t, i + 2);
      if i + 2 + n < |t| && t[i + 2 + n] == '}' then
        assert IsToken(t[i..i + n + 3]);
        Some(n + 3)
      else
        TokenAtNone(t, i, n);
        None
  }

  lemma TokenAtNone(t: string, i: nat, n: nat)
    requires i + 2 <= |t| && n == NonBraceRun(t, i + 2)
    requires !(i + 2 + n < |t| && t[i + 2 + n] == '}')
    ensures forall e :: i <= e <= |t| ==> !IsToken(t[i..e])
  {
    forall e | i <= e <= |t|
      ensures !IsToken(t[i..e])
    {
      var s := t[i..e];
      if e - i >= 3 {
        assert s[e - i - 1] == t[e - 1];
        if n < e - i - 3 {
          assert s[2 + n] == t[i + 2 + n];
        }
      }
    }
  }

  /** The leftmost token at or after `from`: where it starts and its length. */
  function NextToken(t: string, from: nat): (r: Option<(nat, nat)>)
    ensures r.Some? ==> from <= r.value.0 && TokenAt(t, r.value.0) == Some(r.value.1)
    ensures r.Some? ==> forall i :: from <= i < r.value.0 ==> TokenAt(t, i).None?
    ensures r.None? ==> forall i :: from <= i ==> TokenAt(t, i).None?
    decreases |t| - from
  {
    if from >= |t| then None
    else match TokenAt(t, from)
      case Some(n) => Some((from, n))
      case None => NextToken(t, from + 1)
  }

  /** `pathTemplate.match(/{(.[^{}]*)}/g) ?? []`: the tokens from left to
      right, each search resuming where the previous token ended. */
  function Tokens(t: string, from: nat): (r: seq<string>)
    ensures forall k :: 0 <= k < |r| ==> IsToken(r[k])
    decreases |t| - from
  {
    if NextToken(t, from).None? then []
    else
      var (i, n) := NextToken(t, from).value;
      [t[i..i + n]] + Tokens(t, i + n)
  }

  /** A template without `{` has no tokens. */
  lemma NoBraceNoTokens(t: string, from: nat)
    requires forall k :: from <= k < |t| ==> t[k] != '{'
    ensures Tokens(t, from) == []
  {
    match NextToken(t, from) {
      case None =>
      case Some((i, n)) =>
    }
  }

  /** No token starts at a position in `[lo, hi)`. */
  ghost predicate NoTokenIn(t: string, lo: nat, hi: nat)
  {
    forall i: nat :: lo <= i < hi ==> TokenAt(t, i).None?
  }

  /** No token starts at or after `lo`. */
  ghost predicate NoTokenFrom(t: string, lo: nat)
  {
    forall i: nat :: lo <= i ==> TokenAt(t, i).None?
  }

  /** `tok` is the whole token that starts at `pos`. */
  predicate TokenStartsAt(t: string, pos: nat, tok: string)
  {
    TokenAt(t, pos) == Some(|tok|) && pos + |tok| <= |t| && tok == t[pos..pos + |tok|]
  }

  /** Where the `k`-th search of a scan from `from` resumes: `from` for the
      first, just past the previous token for the others. */
  function ScanResume(from: nat, r: seq<string>, p: seq<nat>, k: nat): nat
    requires |p| == |r| && k <= |r|
  {
    if k == 0 then from else p[k - 1] + |r[k - 1]|
  }

  /** `r` is what a left-to-right scan of `t` from `from` finds, with `p`
      the positions where its tokens start: each token is the whole token
      at its position, it starts at or after the point where its search
      resumed, no token starts between that point and it, and no token
      starts after the last one ends. */
  ghost predicate IsScan(t: string, from: nat, r: seq<string>, p: seq<nat>)
  {
    && |p| == |r|
    && (forall k {:trigger ScanResume(from, r, p, k)} :: 0 <= k < |r| ==>
          && ScanResume(from, r, p, k) <= p[k]
          && TokenStartsAt(t, p[k], r[k])
          && NoTokenIn(t, ScanResume(from, r, p, k), p[k]))
    && NoTokenFrom(t, ScanResume(from, r, p, |r|))
  }

  /** The tokens are exactly what the left-to-right scan finds: `Tokens`
      is a scan, and any scan of the same text is `Tokens`. */
  lemma {:induction false} TokensAreTheScan(t: string, from: nat)
    ensures exists p :: IsScan(t, from, Tokens(t, from), p)
    ensures forall r, p :: IsScan(t, from, r, p) ==> r == Tokens(t, from)
  {
    var p := TokensScan(t, from);
    forall r, p' | IsScan(t, from, r, p')
      ensures r == Tokens(t, from)
    {
      ScanIsTokens(t, from, r, p');
    }
  }

  /** The positions at which `Tokens` finds its tokens. */
  lemma {:induction false} TokensScan(t: string, from: nat) returns (p: seq<nat>)
    ensures IsScan(t, from, Tokens(t, from), p)
    decreases |t| - from
  {
    match NextToken(t, from) {
      case None =>
        p := [];
        assert Tokens(t, from) == [];
        assert ScanResume(from, [], p, 0) == from;
        ScanIntro(t, from, [], p);
      case Some((i, n)) =>
        var rest := TokensScan(t, i + n);
        p := [i] + rest;
        ScanPrepend(t, from, i, n, Tokens(t, i + n), rest);
        TokensStep(t, from, i, n);
    }
  }

  /** A scan from just past the first token, preceded by that token, is a
      scan from where the first search began. */
  lemma {:induction false} ScanPrepend(t: string, from: nat, i: nat, n: nat, r: seq<string>, p: seq<nat>)
    requires from <= i && TokenAt(t, i) == Some(n)
    requires NoTokenIn(t, from, i)
    requires IsScan(t, i + n, r, p)
    ensures IsScan(t, from, [t[i..i + n]] + r, [i] + p)
  {
    var r', p' := [t[i..i + n]] + r, [i] + p;
    ScanResumeShift(from, i, t[i..i + n], r, p);
    ScanPrependEntries(t, from, i, n, r, p, r', p');
    assert ScanResume(from, r', p', |r'|) == ScanResume(i + n, r, p, |r|);
    ScanIntro(t, from, r', p');
  }

  /** The token and resume conditions of `ScanPrepend`, entry by entry. */
  lemma ScanPrependEntries(t: string, from: nat, i: nat, n: nat, r: seq<string>, p: seq<nat>,
                           r': seq<string>, p': seq<nat>)
    requires from <= i && TokenAt(t, i) == Some(n)
    requires NoTokenIn(t, from, i)
    requires IsScan(t, i + n, r, p)
    requires r' == [t[i..i + n]] + r && p' == [i] + p
    ensures forall k {:trigger ScanResume(from, r', p', k)} :: 0 <= k < |r'| ==>
      && ScanResume(from, r', p', k) <= p'[k]
      && TokenStartsAt(t, p'[k], r'[k])
      && NoTokenIn(t, ScanResume(from, r', p', k), p'[k])
  {
    ScanResumeShift(from, i, t[i..i + n], r, p);
    forall k | 0 <= k < |r'|
      ensures ScanResume(from, r', p', k) <= p'[k]
      ensures TokenStartsAt(t, p'[k], r'[k])
      ensures NoTokenIn(t, ScanResume(from, r', p', k), p'[k])
    {
      if k == 0 {
        assert ScanResume(from, r', p', 0) == from;
      } else {
        assert r'[k] == r[k - 1] && p'[k] == p[k - 1];
        assert ScanResume(from, r', p', k) == ScanResume(i + n, r, p, k - 1);
      }
    }
  }

  /** Putting a token in front shifts the resume points by one. */
  lemma ScanResumeShift(from: nat, i: nat, head: string, r: seq<string>, p: seq<nat>)
    requires |r| == |p|
    ensures forall k :: 1 <= k <= |r| + 1 ==>
      ScanResume(from, [head] + r, [i] + p, k) == ScanResume(i + |head|, r, p, k - 1)
  {
    forall k | 1 <= k <= |r| + 1
      ensures ScanResume(from, [head] + r, [i] + p, k) == ScanResume(i + |head|, r, p, k - 1)
    {
      if k > 1 {
        assert ([head] + r)[k - 1] == r[k - 2] && ([i] + p)[k - 1] == p[k - 2];
      }
    }
  }

  /** Any scan of `t` from `from` lists the same tokens as `Tokens`. */
  lemma {:induction false} ScanIsTokens(t: string, from: nat, r: seq<string>, p: seq<nat>)
    requires IsScan(t, from, r, p)
    ensures r == Tokens(t, from)
    decreases |t| - from, 1
  {
    assert ScanResume(from, r, p, 0) == from;
    if |r| == 0 {
      NoTokenNoScan(t, from);
    } else {
      var i, n := p[0], |r[0]|;
      assert TokenStartsAt(t, i, r[0]);
      ScanTailIsTokens(t, from, r, p);
      HeadTail(r, t[i..i + n], Tokens(t, i + n));
      TokensFromFirst(t, from, i, n);
    }
  }

  /** The rest of a scan is the tokens after its first one. */
  lemma {:induction false} ScanTailIsTokens(t: string, from: nat, r: seq<string>, p: seq<nat>)
    requires IsScan(t, from, r, p) && |r| > 0
    ensures r[1..] == Tokens(t, p[0] + |r[0]|)
    decreases |t| - from, 0
  {
    assert ScanResume(from, r, p, 0) == from;
    assert TokenStartsAt(t, p[0], r[0]);
    ScanDrop(t, from, r, p);
    ScanIsTokens(t, p[0] + |r[0]|, r[1..], p[1..]);
  }

  lemma HeadTail(r: seq<string>, head: string, tail: seq<string>)
    requires |r| > 0 && r[0] == head && r[1..] == tail
    ensures r == [head] + tail
  {
    assert r == [r[0]] + r[1..];
  }

  lemma {:induction false} NoTokenNoScan(t: string, from: nat)
    requires NoTokenFrom(t, from)
    ensures Tokens(t, from) == []
  {
  }

  /** The first token at or after `from` is the first one `Tokens` lists. */
  lemma {:induction false} FirstTokenFound(t: string, from: nat, i: nat)
    requires from <= i && TokenAt(t, i).Some?
    requires NoTokenIn(t, from, i)
    ensures NextToken(t, from) == Some((i, TokenAt(t, i).value))
    decreases i - from
  {
    if from < i {
      assert TokenAt(t, from).None?;
      FirstTokenFound(t, from + 1, i);
      assert NextToken(t, from) == NextToken(t, from + 1);
    }
  }

  /** With no token before the one at `i`, `Tokens` lists it first. */
  lemma TokensFromFirst(t: string, from: nat, i: nat, n: nat)
    requires from <= i && TokenAt(t, i) == Some(n)
    requires NoTokenIn(t, from, i)
    ensures Tokens(t, from) == [t[i..i + n]] + Tokens(t, i + n)
  {
    FirstTokenFound(t, from, i);
    TokensStep(t, from, i, n);
  }

  /** One step of `Tokens`: the token found, then the tokens after it. */
  lemma TokensStep(t: string, from: nat, i: nat, n: nat)
    requires NextToken(t, from) == Some((i, n))
    ensures Tokens(t, from) == [t[i..i + n]] + Tokens(t, i + n)
  {
    var r := Tokens(t, from);
    var s := [t[i..i + n]] + Tokens(t, i + n);
    assert r == s;
  }

  /** A scan without its first token is a scan from just past it. */
  lemma {:induction false} ScanDrop(t: string, from: nat, r: seq<string>, p: seq<nat>)
    requires IsScan(t, from, r, p) && |r| > 0
    ensures IsScan(t, p[0] + |r[0]|, r[1..], p[1..])
  {
    var from', r', p' := p[0] + |r[0]|, r[1..], p[1..];
    forall k | 0 <= k <= |r'|
      ensures ScanResume(from', r', p', k) == ScanResume(from, r, p, k + 1)
    {
      if k > 0 {
        assert r'[k - 1] == r[k] && p'[k - 1] == p[k];
      }
    }
    forall k | 0 <= k < |r'|
      ensures ScanResume(from', r', p', k) <= p'[k]
      ensures TokenStartsAt(t, p'[k], r'[k])
      ensures NoTokenIn(t, ScanResume(from', r', p', k), p'[k])
    {
      assert r'[k] == r[k + 1] && p'[k] == p[k + 1];
    }
    ScanIntro(t, from', r', p');
  }

  /** The four conditions of a scan, put together. */
  lemma ScanIntro(t: string, from: nat, r: seq<string>, p: seq<nat>)
    requires |r| == |p|
    requires forall k {:trigger ScanResume(from, r, p, k)} :: 0 <= k < |r| ==>
      && ScanResume(from, r, p, k) <= p[k]
      && TokenStartsAt(t, p[k], r[k])
      && NoTokenIn(t, ScanResume(from, r, p, k), p[k])
    requires NoTokenFrom(t, ScanResume(from, r, p, |r|))
    ensures IsScan(t, from, r, p)
  {
  }

  // ---------------------------------------------------------------------
  // Substitutions

  /** `PathSubstitution`: a token, the key path of its field, and the value
      found there in the request. */
  datatype PathSubstitution = PathSubstitution(
    variable: string,
    messageKeyPath: seq<string>,
    value: Option<Json>)

  /** `variable.slice(1, -1)`: the text between the braces. */
  function Inner(variable: string): string
  {
    if |variable| < 2 then "" else variable[1..|variable| - 1]
  }

  /** `variable.slice(1, -1).split("=")`. */
  function VariableParts(variable: string): (parts: seq<string>)
    ensures |parts| >= 1
  {
    Text.Split(Inner(variable), '=')
  }

  /** The field path of a token: `variableParts[0]`. */
  function FieldPathOf(variable: string): string
  {
    VariableParts(variable)[0]
  }

  /** The field path is the text between the braces up to the first `=`. */
  lemma FieldPathBeforeEquals(variable: string)
    ensures match Text.IndexOf(Inner(variable), "=", 0)
      case None => FieldPathOf(variable) == Inner(variable)
      case Some(i) => FieldPathOf(variable) == Inner(variable)[..i]
  {
    var s := Inner(variable);
    match Text.IndexOf(s, "=", 0) {
      case None =>
        forall j | 0 <= j < |s|
          ensures s[j] != '='
        {
          assert !Text.OccursAt(s, "=", j);
          assert s[j..j + 1] == [s[j]];
        }
        Text.SplitNoSeparator(s, '=');
      case Some(i) =>
        assert s[i..i + 1] == "=";
        forall j | 0 <= j < i
          ensures s[..i][j] != '='
        {
          assert !Text.OccursAt(s, "=", j);
          assert s[j..j + 1] == [s[j]];
        }
        Text.SplitHead(s, '=', i);
    }
  }

  /** The text of `s` before its first `=`, all of it when it has none. */
  function BeforeEquals(s: string): string
  {
    match Text.IndexOf(s, "=", 0)
    case None => s
    case Some(i) => s[..i]
  }

  /** The key path a field path names: none for the empty field path,
      otherwise its `.`-separated names, each in camel case. */
  function FieldKeyPath(fieldPath: string): seq<string>
  {
    if fieldPath == "" then [] else Util.CamelAll(Text.Split(fieldPath, '.'))
  }

  /** `messageKeyPath` of a field path is the key path it names. */
  lemma MessageKeyPathIsFieldKeyPath(fieldPath: string)
    ensures Util.MessageKeyPath(Some(fieldPath)) == FieldKeyPath(fieldPath)
  {
    if fieldPath != "" {
      Util.MessageKeyPathSegments(fieldPath);
    }
  }

  /** The substitution `parsePathSubstitutions` builds for a token: its key
      path is the one named by the text between the braces up to the first
      `=`, and its value is what lies there in the request. */
  function Substitution(variable: string, message: Object): (ps: PathSubstitution)
    ensures ps.variable == variable
    ensures ps.messageKeyPath == Util.MessageKeyPath(Some(FieldPathOf(variable)))
    ensures ps.messageKeyPath == FieldKeyPath(BeforeEquals(Inner(variable)))
    ensures ps.value == Lookup(ps.messageKeyPath, JObject(message))
  {
    FieldPathBeforeEquals(variable);
    MessageKeyPathIsFieldKeyPath(FieldPathOf(variable));
    var keyPath := Util.MessageKeyPath(Some(FieldPathOf(variable)));
    PathSubstitution(variable, keyPath, Lookup(keyPath, JObject(message)))
  }

  /** `parsePathSubstitutions`: one substitution per token, in template
      order, its value looked up along its key path. */
  function ParsePathSubstitutions(pathTemplate: string, message: Object): (r: seq<PathSubstitution>)
    ensures |r| == |Tokens(pathTemplate, 0)|
    ensures forall k :: 0 <= k < |r| ==>
      && r[k].variable == Tokens(pathTemplate, 0)[k]
      && IsToken(r[k].variable)
      && r[k].messageKeyPath == FieldKeyPath(BeforeEquals(Inner(r[k].variable)))
      && r[k].value == Lookup(r[k].messageKeyPath, JObject(message))
    ensures forall k :: 0 <= k < |r| ==> r[k] == Substitution(r[k].variable, message)
  {
    var tokens := Tokens(pathTemplate, 0);
    seq(|tokens|, k requires 0 <= k < |tokens| => Substitution(tokens[k], message))
  }

  // ---------------------------------------------------------------------
  // Rendering

  /** `typeof value === "object" && !Array.isArray(value)`: a message or map
      field, or `null`. */
  predicate IsMapped(value: Option<Json>)
  {
    value.Some? && (value.value.JObject? || value.value.JNull?)
  }

  /** `{var}` or `{var=*}`: a variable of one path segment. */
  predicate IsSingleSegment(variable: string)
  {
    var parts := VariableParts(variable);
    |parts| == 1 || parts[1] == "*"
  }

  /** `value ?? ""` as `encodeURIComponent` turns it into a string. */
  function ValueText(value: Option<Json>): string
  {
    match value
    case None => ""
    case Some(j) => JsonToString(j)
  }

  /** The pattern a multi-segment expansion is matched with: the `**` one
      when the expansion has `**`, which overrides the `*` one. */
  function ExpansionPattern(expansion: string): (pat: Util.Pattern)
    ensures Text.Contains(expansion, "*") ==> pat.Capture?
    ensures Text.Contains(expansion, "**") ==> pat.Capture? && pat.cls == Util.NotLineTerminator
    ensures Text.Contains(expansion, "*") && !Text.Contains(expansion, "**") ==>
      pat.Capture? && pat.cls == Util.NotSlash
    ensures !Text.Contains(expansion, "*") ==> pat == Util.Literal(expansion)
  {
    if Text.Contains(expansion, "**") then
      assert Text.IndexOf(expansion, "**", 0).Some?;
      DoubleStarHasStar(expansion);
      Util.DoubleStarPathExpansionToPattern(expansion)
    else Util.StarPathExpansionToPattern(expansion)
  }

  /** A `**` is in particular a `*`. */
  lemma DoubleStarHasStar(s: string)
    requires Text.Contains(s, "**")
    ensures Text.Contains(s, "*")
  {
    var i := Text.IndexOf(s, "**", 0).value;
    assert s[i..i + 1] == s[i..i + 2][..1] == "*";
    assert Text.OccursAt(s, "*", i);
  }

  /** The replacement for a multi-segment match: each `/`-separated piece
      percent-encoded, the `/`s kept. */
  function EncodeSegments(text: string): string
  {
    Text.Join(EncodeAll(Text.Split(text, '/')), "/")
  }

  function EncodeAll(pieces: seq<string>): (r: seq<string>)
    ensures |r| == |pieces|
    ensures forall k :: 0 <= k < |pieces| ==> r[k] == UriEncoding.EncodeURIComponent(pieces[k])
  {
    seq(|pieces|, k requires 0 <= k < |pieces| => UriEncoding.EncodeURIComponent(pieces[k]))
  }

  /** `value.match(...)` is reached with a value that is not a string:
      `renderVariable` throws a `TypeError`. */
  predicate Throws(variable: string, value: Option<Json>)
  {
    var parts := VariableParts(variable);
    && !IsMapped(value)
    && !IsSingleSegment(variable)
    && Text.Contains(parts[1], "*")
    && !(value.Some? && value.value.JString?)
  }

  /** `renderVariable`: the template with the token's first occurrence
      replaced by the rendered value, or unchanged when the value is a
      message, map or `null`, when a multi-segment expansion has no `*`, or
      when the value does not match the expansion. */
  function RenderVariable(pathTemplate: string, variable: string, value: Option<Json>): (r: Result<string, Error>)
    ensures IsMapped(value) ==> r == Success(pathTemplate)
    ensures r.Failure? <==> Throws(variable, value)
    ensures r.Failure? ==> r.error.TypeError?
    ensures r.Success? ==> r.value == pathTemplate || Text.IndexOf(pathTemplate, variable, 0).Some?
  {
    if IsMapped(value) then Success(pathTemplate)
    else
      var parts := VariableParts(variable);
      if IsSingleSegment(variable) then
        Success(Text.ReplaceFirst(pathTemplate, variable, UriEncoding.EncodeURIComponent(ValueText(value))))
      else
        var expansion := parts[1];
        if !Text.Contains(expansion, "*") then Success(pathTemplate)
        else if !(value.Some? && value.value.JString?) then Failure(TypeError("value.match is not a function"))
        else
          var s := value.value.str;
          var pat := ExpansionPattern(expansion);
          match Util.Match(s, pat)
          case None => Success(pathTemplate)
          case Some(m) =>
            Success(Text.ReplaceFirst(pathTemplate, variable, EncodeSegments(Util.MatchedText(s, pat, m))))
  }

  /** A one-segment variable is replaced by the percent-encoding of its
      value (`""` when absent), which holds no `/` and decodes back to the
      value's UTF-8 octets. */
  lemma RenderSingleSegment(pathTemplate: string, variable: string, value: Option<Json>)
    requires !IsMapped(value) && IsSingleSegment(variable)
    ensures var rep := UriEncoding.EncodeURIComponent(ValueText(value));
      && RenderVariable(pathTemplate, variable, value) == Success(Text.ReplaceFirst(pathTemplate, variable, rep))
      && '/' !in rep
      && UriEncoding.PercentDecode(rep) == Some(UriEncoding.Utf8Bytes(ValueText(value)))
  {
    UriEncoding.EncodedHasNoDelimiter(ValueText(value));
    UriEncoding.DecodeEncode(ValueText(value));
  }

  /** A multi-segment variable whose value matches is replaced by the matched
      text with each piece encoded: cut at `/`, the replacement has one piece
      per piece of the match, each decoding to that piece's octets. */
  lemma RenderMultiSegment(pathTemplate: string, variable: string, s: string)
    requires !IsSingleSegment(variable)
    requires Text.Contains(VariableParts(variable)[1], "*")
    requires Util.Match(s, ExpansionPattern(VariableParts(variable)[1])).Some?
    ensures var pat := ExpansionPattern(VariableParts(variable)[1]);
      var m := Util.Match(s, pat).value;
      var matched := Util.MatchedText(s, pat, m);
      && RenderVariable(pathTemplate, variable, Some(JString(s))) ==
           Success(Text.ReplaceFirst(pathTemplate, variable, EncodeSegments(matched)))
      && SegmentsDecode(EncodeSegments(matched), Text.Split(matched, '/'))
  {
    var pat := ExpansionPattern(VariableParts(variable)[1]);
    var m := Util.Match(s, pat).value;
    assert !IsMapped(Some(JString(s)));
    assert Util.Match(s, pat) == Some(m);
    EncodeSegmentsPieces(Util.MatchedText(s, pat, m));
  }

  /** Cut at `/`, `encoded` has the pieces of `pieces`, each percent-encoded. */
  predicate SegmentsDecode(encoded: string, pieces: seq<string>)
  {
    var cut := Text.Split(encoded, '/');
    |cut| == |pieces| &&
    forall k :: 0 <= k < |cut| ==>
      UriEncoding.PercentDecode(cut[k]) == Some(UriEncoding.Utf8Bytes(pieces[k]))
  }

  lemma EncodeSegmentsPieces(text: string)
    ensures SegmentsDecode(EncodeSegments(text), Text.Split(text, '/'))
  {
    var pieces := Text.Split(text, '/');
    var encoded := EncodeAll(pieces);
    forall k | 0 <= k < |encoded|
      ensures '/' !in encoded[k]
      ensures UriEncoding.PercentDecode(encoded[k]) == Some(UriEncoding.Utf8Bytes(pieces[k]))
    {
      UriEncoding.EncodedHasNoDelimiter(pieces[k]);
      UriEncoding.DecodeEncode(pieces[k]);
    }
    Text.SplitJoin(encoded, '/');
  }

  /** A multi-segment value that does not match leaves the token in the
      path as it was written. */
  lemma RenderNoMatch(pathTemplate: string, variable: string, s: string)
    requires !IsSingleSegment(variable)
    requires Util.Match(s, ExpansionPattern(VariableParts(variable)[1])).None?
    ensures RenderVariable(pathTemplate, variable, Some(JString(s))) == Success(pathTemplate)
  {
  }

  /** `substituteFieldValues`: the tokens rendered one after the other by a
      left fold that starts from the template. */
  function SubstituteFieldValues(pathTemplate: string, subs: seq<PathSubstitution>): (r: Result<string, Error>)
    ensures r.Failure? <==> exists k :: 0 <= k < |subs| && Throws(subs[k].variable, subs[k].value)
    ensures r.Failure? ==> r.error.TypeError?
    decreases |subs|
  {
    if |subs| == 0 then Success(pathTemplate)
    else
      match RenderVariable(pathTemplate, subs[0].variable, subs[0].value)
      case Failure(e) => Failure(e)
      case Success(rendered) =>
        ThrowsTail(subs);
        SubstituteFieldValues(rendered, subs[1..])
  }

  lemma ThrowsTail(subs: seq<PathSubstitution>)
    requires |subs| > 0 && !Throws(subs[0].variable, subs[0].value)
    ensures (exists k :: 0 <= k < |subs| && Throws(subs[k].variable, subs[k].value)) <==>
            (exists k :: 0 <= k < |subs| - 1 && Throws(subs[1..][k].variable, subs[1..][k].value))
  {
    if exists k :: 0 <= k < |subs| && Throws(subs[k].variable, subs[k].value) {
      var k :| 0 <= k < |subs| && Throws(subs[k].variable, subs[k].value);
      assert subs[1..][k - 1] == subs[k];
    }
  }

  /** A template without tokens is the path as it stands. */
  lemma SubstituteNoTokens(pathTemplate: string, message: Object)
    requires forall k :: 0 <= k < |pathTemplate| ==> pathTemplate[k] != '{'
    ensures SubstituteFieldValues(pathTemplate, ParsePathSubstitutions(pathTemplate, message)) == Success(pathTemplate)
  {
    NoBraceNoTokens(pathTemplate, 0);
  }

  /** `updateNotTranscoded`: every substitution's key path removed, with
      pruning, by a left fold that starts from the remaining fields. */
  function UpdateNotTranscoded(notTranscoded: Object, subs: seq<PathSubstitution>): Object
    decreases |subs|
  {
    if |subs| == 0 then notTranscoded
    else UpdateNotTranscoded(Util.RemoveProperty(subs[0].messageKeyPath, notTranscoded), subs[1..])
  }

  /** The fold puts back nothing that was gone. */
  lemma {:induction false} UpdateNotTranscodedNeverAdds(o: Object, subs: seq<PathSubstitution>, q: seq<string>)
    requires Lookup(q, JObject(o)).None?
    ensures Lookup(q, JObject(UpdateNotTranscoded(o, subs))).None?
    decreases |subs|
  {
    if |subs| > 0 {
      Util.RemovePropertyNeverAdds(subs[0].messageKeyPath, o, q);
      UpdateNotTranscodedNeverAdds(Util.RemoveProperty(subs[0].messageKeyPath, o), subs[1..], q);
    }
  }

  /** After the fold nothing is left at any substitution's key path, whether
      or not the token was rendered. */
  lemma {:induction false} UpdateNotTranscodedRemoves(o: Object, subs: seq<PathSubstitution>)
    ensures forall k :: 0 <= k < |subs| && |subs[k].messageKeyPath| > 0 ==>
      Lookup(subs[k].messageKeyPath, JObject(UpdateNotTranscoded(o, subs))).None?
    decreases |subs|
  {
    if |subs| > 0 {
      var next := Util.RemoveProperty(subs[0].messageKeyPath, o);
      UpdateNotTranscodedRemoves(next, subs[1..]);
      if |subs[0].messageKeyPath| > 0 {
        Util.RemovePropertyRemoves(subs[0].messageKeyPath, o);
        UpdateNotTranscodedNeverAdds(next, subs[1..], subs[0].messageKeyPath);
      }
      forall k | 1 <= k < |subs| && |subs[k].messageKeyPath| > 0
        ensures Lookup(subs[k].messageKeyPath, JObject(UpdateNotTranscoded(o, subs))).None?
      {
        assert subs[1..][k - 1] == subs[k];
      }
    }
  }

  /** Every substitution's key path is one through objects in the tree:
      the hypothesis under which removing them is known to leave the other
      fields alone. */
  predicate KeyPathsThroughObjects(o: Object, subs: seq<PathSubstitution>)
  {
    forall k :: 0 <= k < |subs| ==> Util.ObjectsAlong(subs[k].messageKeyPath, JObject(o))
  }

  /** A key path that neither leads to nor goes through any substitution's
      key path. */
  predicate Untouched(q: seq<string>, subs: seq<PathSubstitution>)
  {
    forall k :: 0 <= k < |subs| && |subs[k].messageKeyPath| > 0 ==>
      !IsPrefix(subs[k].messageKeyPath, q) && !IsPrefix(q, subs[k].messageKeyPath)
  }

  /** The fold leaves every untouched field with the value it had. */
  lemma {:induction false} UpdateNotTranscodedOther(o: Object, subs: seq<PathSubstitution>, q: seq<string>)
    requires KeyPathsThroughObjects(o, subs)
    requires Untouched(q, subs)
    ensures Lookup(q, JObject(UpdateNotTranscoded(o, subs))) == Lookup(q, JObject(o))
    decreases |subs|
  {
    if |subs| > 0 {
      var p := subs[0].messageKeyPath;
      var next := Util.RemoveProperty(p, o);
      if |p| > 0 {
        Util.RemovePropertyOther(p, o, q);
      } else {
        Util.RemovePropertyUnchanged(p, o);
      }
      forall k | 0 <= k < |subs| - 1
        ensures Util.ObjectsAlong(subs[1..][k].messageKeyPath, JObject(next))
      {
        Util.ObjectsAlongRemoveOther(p, subs[k + 1].messageKeyPath, o);
      }
      forall k | 0 <= k < |subs| - 1 && |subs[1..][k].messageKeyPath| > 0
        ensures !IsPrefix(subs[1..][k].messageKeyPath, q) && !IsPrefix(q, subs[1..][k].messageKeyPath)
      {
        assert subs[1..][k] == subs[k + 1];
      }
      UpdateNotTranscodedOther(next, subs[1..], q);
    }
  }

  /** `transcodePath`: the path is the template with the tokens rendered by
      `substituteFieldValues`, and the fields the tokens name are taken out
      of the remaining ones (`TranscodePathRemovesFields`) while every other
      field keeps its value (`TranscodePathKeepsOthers`). The configuration
      and the other results are unchanged. The only failure is the
      `TypeError` of a non-string value reaching a multi-segment
      expansion. */
  function TranscodePath(bundle: TranscodingBundle): (r: Result<TranscodingBundle, Error>)
    ensures var rendered := SubstituteFieldValues(bundle.config.pathTemplate,
                              ParsePathSubstitutions(bundle.config.pathTemplate, bundle.notTranscoded));
      r.Success? ==> rendered.Success? && r.value.transcoded.urlEncodedPath == Some(rendered.value)
    ensures r.Success? ==> r.value.config == bundle.config
    ensures r.Success? ==> r.value.transcoded.(urlEncodedPath := bundle.transcoded.urlEncodedPath) == bundle.transcoded
    ensures r.Failure? <==>
      exists ps :: ps in ParsePathSubstitutions(bundle.config.pathTemplate, bundle.notTranscoded) && Throws(ps.variable, ps.value)
    ensures r.Failure? ==> r.error.TypeError?
  {
    var subs := ParsePathSubstitutions(bundle.config.pathTemplate, bundle.notTranscoded);
    match SubstituteFieldValues(bundle.config.pathTemplate, subs)
    case Failure(e) => Failure(e)
    case Success(path) =>
      Success(bundle.(
        transcoded := bundle.transcoded.(urlEncodedPath := Some(path)),
        notTranscoded := UpdateNotTranscoded(bundle.notTranscoded, subs)))
  }

  /** After `transcodePath` the field of every token is gone from the
      remaining fields. */
  lemma TranscodePathRemovesFields(bundle: TranscodingBundle)
    requires TranscodePath(bundle).Success?
    ensures forall ps ::
      ps in ParsePathSubstitutions(bundle.config.pathTemplate, bundle.notTranscoded) && |ps.messageKeyPath| > 0 ==>
        Lookup(ps.messageKeyPath, JObject(TranscodePath(bundle).value.notTranscoded)).None?
  {
    var subs := ParsePathSubstitutions(bundle.config.pathTemplate, bundle.notTranscoded);
    UpdateNotTranscodedRemoves(bundle.notTranscoded, subs);
  }

  /** After `transcodePath` every field that neither leads to nor lies
      under a token's field keeps its value, so it is left for the body or
      the query string. */
  lemma TranscodePathKeepsOthers(bundle: TranscodingBundle, q: seq<string>)
    requires TranscodePath(bundle).Success?
    requires KeyPathsThroughObjects(bundle.notTranscoded,
               ParsePathSubstitutions(bundle.config.pathTemplate, bundle.notTranscoded))
    requires Untouched(q, ParsePathSubstitutions(bundle.config.pathTemplate, bundle.notTranscoded))
    ensures Lookup(q, JObject(TranscodePath(bundle).value.notTranscoded)) == Lookup(q, JObject(bundle.notTranscoded))
  {
    var subs := ParsePathSubstitutions(bundle.config.pathTemplate, bundle.notTranscoded);
    UpdateNotTranscodedOther(bundle.notTranscoded, subs, q);
  }
}
