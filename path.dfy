/**
 * defaultPathSerializer: `{name}`, `{name*}`, `{.name}` and `{;name}`
 * placeholders of a path template replaced by their path parameters.
 *
 * The loop is modelled as written: it collects the matches of the pattern
 * /\{[^{}]+\}/g, then for each match text replaces the FIRST occurrence of
 * that text in the running URL, through String.prototype.replace with a
 * string pattern, whose replacement text expands `$$`, `$&`, `` $` `` and `$'`.
 * The lemmas at the end show when that equals a single left-to-right pass.
 */
module PathSerialization {
  import opened Wrappers
  import opened Strings
  import opened UriComponent
  import opened JsValues
  import opened Records
  import opened Encoders
  import opened EncoderLaws

  // ----- The pattern /\{[^{}]+\}/g -----

  predicate IsBrace(c: char)
  {
    c == '{' || c == '}'
  }

  /** A text the pattern matches: `{`, one or more characters other than braces, `}`. */
  predicate IsPlaceholder(m: string)
  {
    |m| >= 3 && m[0] == '{' && m[|m| - 1] == '}' && forall k :: 0 < k < |m| - 1 ==> !IsBrace(m[k])
  }

  type PlaceholderText = m: string | IsPlaceholder(m) witness "{a}"

  /** The position of the first brace at or after `j`, or |s| if there is none. */
  function NextBrace(s: string, j: nat): (r: nat)
    requires j <= |s|
    ensures j <= r <= |s|
    ensures r < |s| ==> IsBrace(s[r])
    ensures forall k :: j <= k < r ==> !IsBrace(s[k])
    decreases |s| - j
  {
    if j == |s| || IsBrace(s[j]) then j else NextBrace(s, j + 1)
  }

  /** Where the match starting at `i` ends (exclusive), if the pattern matches at `i`. */
  function MatchAt(s: string, i: nat): (r: Option<nat>)
    requires i < |s|
    ensures r.Some? ==> i < r.value <= |s| && IsPlaceholder(s[i..r.value])
  {
    if s[i] != '{' then None
    else
      var j := NextBrace(s, i + 1);
      if j < |s| && s[j] == '}' && j > i + 1 then
        BraceFreeSpan(s, i, j);
        Some(j + 1)
      else None
  }

  lemma BraceFreeSpan(s: string, i: nat, j: nat)
    requires i + 1 < j < |s| && s[i] == '{' && s[j] == '}'
    requires forall k :: i + 1 <= k < j ==> !IsBrace(s[k])
    ensures IsPlaceholder(s[i..j + 1])
  {
    var m := s[i..j + 1];
    forall k | 0 < k < |m| - 1 ensures !IsBrace(m[k]) {
      assert m[k] == s[i + k];
    }
  }

  /** A template read as the pattern scans it: literal characters and matched placeholders. */
  datatype Token = Lit(c: char) | Hole(text: PlaceholderText)

  function TokenizeFrom(s: string, i: nat): seq<Token>
    requires i <= |s|
    decreases |s| - i
  {
    if i == |s| then []
    else
      match MatchAt(s, i)
      case Some(e) => [Hole(s[i..e])] + TokenizeFrom(s, e)
      case None => [Lit(s[i])] + TokenizeFrom(s, i + 1)
  }

  function Tokenize(s: string): seq<Token>
  {
    TokenizeFrom(s, 0)
  }

  /** The text a token sequence spells. */
  function Spell(ts: seq<Token>): string
  {
    if ts == [] then ""
    else
      match ts[0]
      case Lit(c) => [c] + Spell(ts[1..])
      case Hole(m) => m + Spell(ts[1..])
  }

  function Holes(ts: seq<Token>): seq<PlaceholderText>
  {
    if ts == [] then []
    else
      match ts[0]
      case Lit(_) => Holes(ts[1..])
      case Hole(m) => [m] + Holes(ts[1..])
  }

  /** `pathname.match(PATH_PARAM_RE) ?? []`: the match texts, left to right. */
  function Matches(s: string): seq<PlaceholderText>
  {
    Holes(Tokenize(s))
  }

  // ----- One placeholder -----

  /** The name, explode flag and style a match text selects. */
  datatype Placeholder = Placeholder(name: string, explode: bool, style: Style)

  function ParsePlaceholder(m: PlaceholderText): (p: Placeholder)
    ensures p.style == Simple || p.style == Label || p.style == Matrix
  {
    var inner := m[1..|m| - 1];
    var explode := EndsWith(inner, "*");
    var n := if explode then inner[..|inner| - 1] else inner;
    if StartsWith(n, ".") then Placeholder(n[1..], explode, Label)
    else if StartsWith(n, ";") then Placeholder(n[1..], explode, Matrix)
    else Placeholder(n, explode, Simple)
  }

  /** The replacement text of a present (not undefined, not null) path parameter, or the error its encoder raised. */
  function PathValue(name: string, value: Value, style: Style, explode: bool): Result<string>
  {
    if value.Arr? then ArrayParam(name, value, style, explode, false)
    else if value.Obj? then ObjectParam(name, value, style, explode, false)
    else if style == Matrix then Success(";" + SerializePrimitiveParam(name, value, false).value)
    else if style == Label then Success("." + ToText(value))
    else Success(ToText(value))
  }

  /**
   * The replacement text for one match: None when the placeholder is left as
   * it is (no path parameters, or the parameter is undefined or null).
   */
  function Substitution(m: PlaceholderText, pathParams: Option<Fields>): Result<Option<string>>
  {
    var p := ParsePlaceholder(m);
    if pathParams.None? || Get(pathParams.value, p.name).IsNullish() then Success(None)
    else
      var t :- PathValue(p.name, Get(pathParams.value, p.name), p.style, p.explode);
      Success(Some(t))
  }

  // ----- String.prototype.replace with a string pattern -----

  /** GetSubstitution with no capture groups: `$$`, `$&`, `` $` `` and `$'` expand; any other `$` is literal. */
  function GetSubstitution(matched: string, before: string, after: string, replacement: string): string
    decreases |replacement|
  {
    if replacement == [] then ""
    else if replacement[0] == '$' && |replacement| >= 2 then
      var rest := GetSubstitution(matched, before, after, replacement[2..]);
      match replacement[1]
      case '$' => "$" + rest
      case '&' => matched + rest
      case '`' => before + rest
      case '\'' => after + rest
      case _ => "$" + GetSubstitution(matched, before, after, replacement[1..])
    else [replacement[0]] + GetSubstitution(matched, before, after, replacement[1..])
  }

  /** `s.replace(pattern, replacement)`: only the first occurrence is replaced. */
  function Replace(s: string, pattern: string, replacement: string): string
  {
    match IndexOf(s, pattern)
    case None => s
    case Some(q) => s[..q] + GetSubstitution(pattern, s[..q], s[q + |pattern|..], replacement) + s[q + |pattern|..]
  }

  // ----- The loop -----

  /** For each match text, its replacement, None to leave it, or the error computing it raised. */
  type SubstitutionTable = PlaceholderText -> Result<Option<string>>

  function SubstitutionsOf(pathParams: Option<Fields>): SubstitutionTable
  {
    (m: PlaceholderText) => Substitution(m, pathParams)
  }

  /** The loop over the remaining match texts, from the running URL `url`. */
  function SubstituteMatches(url: string, matches: seq<PlaceholderText>, subs: SubstitutionTable): Result<string>
    decreases |matches|
  {
    if matches == [] then Success(url)
    else
      var sub :- subs(matches[0]);
      var next := if sub.Some? then Replace(url, matches[0], sub.value) else url;
      SubstituteMatches(next, matches[1..], subs)
  }

  /** What defaultPathSerializer returns, or the error an encoder raised. */
  function PathSerialize(pathname: string, pathParams: Option<Fields>): Result<string>
  {
    SubstituteMatches(pathname, Matches(pathname), SubstitutionsOf(pathParams))
  }

  /** The name, explode flag and style the loop body reads off one match text. */
  method ReadPlaceholder(m: PlaceholderText) returns (name: string, explode: bool, style: Style)
    ensures Placeholder(name, explode, style) == ParsePlaceholder(m)
  {
    name := m[1..|m| - 1];
    explode := false;
    style := Simple;
    if EndsWith(name, "*") {
      explode := true;
      name := name[..|name| - 1];
    }
    if StartsWith(name, ".") {
      style := Label;
      name := name[1..];
    } else if StartsWith(name, ";") {
      style := Matrix;
      name := name[1..];
    }
  }

  /** The replacement text for a present path parameter, or the error its encoder raised. */
  method EncodePathValue(name: string, value: Value, style: Style, explode: bool) returns (r: Result<string>)
    ensures r == PathValue(name, value, style, explode)
  {
    if value.Arr? {
      r := SerializeArrayParam(name, value, style, explode, false);
    } else if value.Obj? {
      r := SerializeObjectParam(name, value, style, explode, false);
    } else if style == Matrix {
      var primitive := SerializePrimitiveParam(name, value, false);
      r := Success(";" + primitive.value);
    } else if style == Label {
      r := Success("." + ToText(value));
    } else {
      r := Success(ToText(value));
    }
  }

  method DefaultPathSerializer(pathname: string, pathParams: Option<Fields>) returns (r: Result<string>)
    ensures r == PathSerialize(pathname, pathParams)
  {
    var nextURL := pathname;
    var matches := Matches(pathname);
    var k := 0;
    while k < |matches|
      invariant 0 <= k <= |matches|
      invariant SubstituteMatches(nextURL, matches[k..], SubstitutionsOf(pathParams)) == PathSerialize(pathname, pathParams)
    {
      var m := matches[k];
      assert matches[k..][1..] == matches[k + 1..];
      var name, explode, style := ReadPlaceholder(m);
      if pathParams.Some? && !Get(pathParams.value, name).IsNullish() {
        var value := Get(pathParams.value, name);
        var replacement := EncodePathValue(name, value, style, explode);
        if replacement.Failure? {
          return Failure(replacement.error);
        }
        nextURL := Replace(nextURL, m, replacement.value);
      }
      k := k + 1;
    }
    r := Success(nextURL);
  }

  // ----- The single left-to-right pass -----

  /** Each placeholder replaced in place by its substitution, or kept; everything else copied. */
  function Expand(ts: seq<Token>, subs: SubstitutionTable): Result<string>
  {
    if ts == [] then Success("")
    else
      match ts[0]
      case Lit(c) =>
        var rest :- Expand(ts[1..], subs);
        Success([c] + rest)
      case Hole(m) =>
        var sub :- subs(m);
        var rest :- Expand(ts[1..], subs);
        Success((if sub.Some? then sub.value else m) + rest)
  }

  /** Every `{` of the template opens a match of the pattern. */
  predicate EveryBraceOpensPlaceholder(s: string)
  {
    forall i :: 0 <= i < |s| && s[i] == '{' ==> MatchAt(s, i).Some?
  }

  /** A replacement text without `{` (so it cannot form a new match) and without `$` (so replace copies it as it is). */
  predicate SafeReplacement(sub: Result<Option<string>>)
  {
    sub.Success? && sub.value.Some? ==> '{' !in sub.value.value && '$' !in sub.value.value
  }

  /** Every `{` of `d` opens a placeholder of `d` that the loop leaves in place. */
  predicate Skipped(d: string, subs: SubstitutionTable)
  {
    forall q :: 0 <= q < |d| && d[q] == '{' ==>
      MatchAt(d, q).Some? && subs(d[q..MatchAt(d, q).value]) == Success(None)
  }

  // ----- Facts about the scan -----

  /** A placeholder text at `i` is exactly the match the pattern finds there. */
  lemma PlaceholderIsMatch(s: string, i: nat, e: nat)
    requires i < e <= |s|
    requires IsPlaceholder(s[i..e])
    ensures MatchAt(s, i) == Some(e)
  {
    var m := s[i..e];
    assert s[i] == m[0];
    assert s[e - 1] == m[|m| - 1];
    forall k | i < k < e - 1 ensures !IsBrace(s[k]) {
      assert s[k] == m[k - i];
    }
    var j := NextBrace(s, i + 1);
    assert j == e - 1;
  }

  /** Appending text after a match of `d` does not change that match. */
  lemma MatchAtAppend(d: string, x: string, q: nat)
    requires q < |d|
    requires MatchAt(d, q).Some?
    ensures MatchAt(d + x, q) == MatchAt(d, q)
    ensures (d + x)[q..MatchAt(d, q).value] == d[q..MatchAt(d, q).value]
  {
    var e := MatchAt(d, q).value;
    assert (d + x)[q..e] == d[q..e];
    PlaceholderIsMatch(d + x, q, e);
  }

  lemma SkippedAppendPlain(d: string, x: string, subs: SubstitutionTable)
    requires Skipped(d, subs)
    requires '{' !in x
    ensures Skipped(d + x, subs)
  {
    forall q | 0 <= q < |d + x| && (d + x)[q] == '{'
      ensures MatchAt(d + x, q).Some? && subs((d + x)[q..MatchAt(d + x, q).value]) == Success(None)
    {
      if q < |d| {
        MatchAtAppend(d, x, q);
      }
    }
  }

  lemma SkippedAppendKept(d: string, m: PlaceholderText, subs: SubstitutionTable)
    requires Skipped(d, subs)
    requires subs(m) == Success(None)
    ensures Skipped(d + m, subs)
  {
    var s := d + m;
    assert s[|d|..|s|] == m;
    PlaceholderIsMatch(s, |d|, |s|);
    forall q | 0 <= q < |s| && s[q] == '{'
      ensures MatchAt(s, q).Some? && subs(s[q..MatchAt(s, q).value]) == Success(None)
    {
      if q < |d| {
        MatchAtAppend(d, m, q);
      }
    }
  }

  /** Before the end of `d`, a placeholder the loop replaces does not occur. */
  lemma NoEarlierOccurrence(d: string, y: string, m: PlaceholderText, subs: SubstitutionTable, q: nat)
    requires Skipped(d, subs)
    requires subs(m).Success? && subs(m).value.Some?
    requires q < |d|
    ensures !OccursAt(d + y, m, q)
  {
    if OccursAt(d + y, m, q) {
      var s := d + y;
      assert s[q] == m[0];
      MatchAtAppend(d, y, q);
      PlaceholderIsMatch(s, q, q + |m|);
    }
  }

  lemma GetSubstitutionPlain(matched: string, before: string, after: string, replacement: string)
    requires '$' !in replacement
    ensures GetSubstitution(matched, before, after, replacement) == replacement
    decreases |replacement|
  {
    if replacement != [] {
      GetSubstitutionPlain(matched, before, after, replacement[1..]);
      assert [replacement[0]] + replacement[1..] == replacement;
    }
  }

  /** Replacing `m` in `d + m + y` replaces the copy right after `d`. */
  lemma ReplaceAfterSkipped(d: string, m: PlaceholderText, y: string, t: string, subs: SubstitutionTable)
    requires Skipped(d, subs)
    requires subs(m) == Success(Some(t))
    requires '$' !in t
    ensures Replace(d + m + y, m, t) == d + t + y
  {
    var s := d + m + y;
    assert s == d + (m + y);
    assert s[|d|..|d| + |m|] == m;
    assert OccursAt(s, m, |d|);
    forall q | 0 <= q < |d| ensures !OccursAt(s, m, q) {
      NoEarlierOccurrence(d, m + y, m, subs, q);
    }
    var found := IndexOf(s, m);
    assert found == Some(|d|);
    GetSubstitutionPlain(m, s[..|d|], s[|d| + |m|..], t);
    assert s[..|d|] == d;
    assert s[|d| + |m|..] == y;
  }

  // ----- The loop is the left-to-right pass -----

  function MapSuccess(prefix: string, r: Result<string>): Result<string>
  {
    match r
    case Success(e) => Success(prefix + e)
    case Failure(err) => Failure(err)
  }

  /** No literal is `{` and every placeholder's replacement is safe. */
  predicate SafeTokens(ts: seq<Token>, subs: SubstitutionTable)
  {
    ts == [] ||
    ((match ts[0]
      case Lit(c) => c != '{'
      case Hole(m) => SafeReplacement(subs(m)))
     && SafeTokens(ts[1..], subs))
  }

  /** The loop over `Holes(ts)`, run on `d + Spell(ts)`, leaves `d` alone and expands `ts`. */
  lemma {:induction false} LoopFromSkipped(d: string, ts: seq<Token>, subs: SubstitutionTable)
    requires Skipped(d, subs)
    requires SafeTokens(ts, subs)
    ensures SubstituteMatches(d + Spell(ts), Holes(ts), subs) == MapSuccess(d, Expand(ts, subs))
    decreases |ts|, 2
  {
    if ts == [] {
      assert d + "" == d;
    } else if ts[0].Lit? {
      LoopOverLit(d, ts, subs);
    } else {
      LoopOverHole(d, ts, subs);
    }
  }

  lemma {:induction false} LoopOverLit(d: string, ts: seq<Token>, subs: SubstitutionTable)
    requires Skipped(d, subs)
    requires SafeTokens(ts, subs)
    requires ts != [] && ts[0].Lit?
    ensures SubstituteMatches(d + Spell(ts), Holes(ts), subs) == MapSuccess(d, Expand(ts, subs))
    decreases |ts|, 1
  {
    var c := ts[0].c;
    var rest := ts[1..];
    var d' := d + [c];
    assert c != '{' && SafeTokens(rest, subs);
    SkippedAppendPlain(d, [c], subs);
    LoopFromSkipped(d', rest, subs);
    assert Spell(ts) == [c] + Spell(rest);
    assert d + Spell(ts) == d' + Spell(rest);
    assert Holes(ts) == Holes(rest);
    var e := Expand(rest, subs);
    if e.Success? {
      assert Expand(ts, subs) == Success([c] + e.value);
      assert d + ([c] + e.value) == d' + e.value;
    } else {
      assert Expand(ts, subs) == e;
    }
  }

  lemma {:induction false} LoopOverHole(d: string, ts: seq<Token>, subs: SubstitutionTable)
    requires Skipped(d, subs)
    requires SafeTokens(ts, subs)
    requires ts != [] && ts[0].Hole?
    ensures SubstituteMatches(d + Spell(ts), Holes(ts), subs) == MapSuccess(d, Expand(ts, subs))
    decreases |ts|, 1
  {
    var m := ts[0].text;
    var rest := ts[1..];
    assert SafeReplacement(subs(m)) && SafeTokens(rest, subs);
    assert Spell(ts) == m + Spell(rest);
    assert d + Spell(ts) == d + m + Spell(rest);
    assert Holes(ts) == [m] + Holes(rest);
    assert ([m] + Holes(rest))[1..] == Holes(rest);
    var sub := subs(m);
    if sub.Failure? {
      assert Expand(ts, subs) == Failure(sub.error);
    } else if sub.value.Some? {
      assert [Hole(m)] + rest == ts;
      LoopOverReplacedHole(d, m, rest, subs);
    } else {
      assert [Hole(m)] + rest == ts;
      LoopOverKeptHole(d, m, rest, subs);
    }
  }

  lemma {:induction false} LoopOverReplacedHole(d: string, m: PlaceholderText, rest: seq<Token>, subs: SubstitutionTable)
    requires Skipped(d, subs)
    requires SafeTokens(rest, subs)
    requires SafeReplacement(subs(m))
    requires subs(m).Success? && subs(m).value.Some?
    ensures SubstituteMatches(d + m + Spell(rest), [m] + Holes(rest), subs)
            == MapSuccess(d, Expand([Hole(m)] + rest, subs))
    decreases |rest| + 1, 0
  {
    var t := subs(m).value.value;
    ReplaceAfterSkipped(d, m, Spell(rest), t, subs);
    SkippedAppendPlain(d, t, subs);
    LoopFromSkipped(d + t, rest, subs);
    ReplacedStep(d + m + Spell(rest), m, Holes(rest), t, subs);
    ExpandReplacedStep(d, m, rest, t, subs);
  }

  lemma ReplacedStep(url: string, m: PlaceholderText, more: seq<PlaceholderText>, t: string, subs: SubstitutionTable)
    requires subs(m) == Success(Some(t))
    ensures SubstituteMatches(url, [m] + more, subs) == SubstituteMatches(Replace(url, m, t), more, subs)
  {
    assert ([m] + more)[0] == m && ([m] + more)[1..] == more;
  }

  lemma ExpandReplacedStep(d: string, m: PlaceholderText, rest: seq<Token>, t: string, subs: SubstitutionTable)
    requires subs(m) == Success(Some(t))
    ensures MapSuccess(d + t, Expand(rest, subs)) == MapSuccess(d, Expand([Hole(m)] + rest, subs))
  {
    var ts := [Hole(m)] + rest;
    assert ts[0] == Hole(m) && ts[1..] == rest;
    var e := Expand(rest, subs);
    if e.Success? {
      assert Expand(ts, subs) == Success(t + e.value);
      assert d + (t + e.value) == d + t + e.value;
    } else {
      assert Expand(ts, subs) == e;
    }
  }

  lemma {:induction false} LoopOverKeptHole(d: string, m: PlaceholderText, rest: seq<Token>, subs: SubstitutionTable)
    requires Skipped(d, subs)
    requires SafeTokens(rest, subs)
    requires subs(m) == Success(None)
    ensures SubstituteMatches(d + m + Spell(rest), [m] + Holes(rest), subs)
            == MapSuccess(d, Expand([Hole(m)] + rest, subs))
    decreases |rest| + 1, 0
  {
    var ts := [Hole(m)] + rest;
    assert ts[0] == Hole(m) && ts[1..] == rest;
    assert ([m] + Holes(rest))[0] == m && ([m] + Holes(rest))[1..] == Holes(rest);
    SkippedAppendKept(d, m, subs);
    LoopFromSkipped(d + m, rest, subs);
    assert SubstituteMatches(d + m + Spell(rest), [m] + Holes(rest), subs)
        == SubstituteMatches(d + m + Spell(rest), Holes(rest), subs);
    var e := Expand(rest, subs);
    if e.Success? {
      assert Expand(ts, subs) == Success(m + e.value);
      assert d + (m + e.value) == d + m + e.value;
    } else {
      assert Expand(ts, subs) == e;
    }
  }

  /** Holes(ts) lists every placeholder of `ts`, so the two conditions make `ts` safe. */
  lemma {:induction false} SafeTokensOf(ts: seq<Token>, subs: SubstitutionTable)
    requires forall k :: 0 <= k < |ts| && ts[k].Lit? ==> ts[k].c != '{'
    requires forall m :: m in Holes(ts) ==> SafeReplacement(subs(m))
    ensures SafeTokens(ts, subs)
  {
    if ts != [] {
      var rest := ts[1..];
      forall k | 0 <= k < |rest| && rest[k].Lit? ensures rest[k].c != '{' {
        assert rest[k] == ts[k + 1];
      }
      if ts[0].Hole? {
        assert Holes(ts) == [ts[0].text] + Holes(rest);
        assert ts[0].text in Holes(ts);
      }
      SafeTokensOf(rest, subs);
    }
  }

  lemma {:induction false} TokenizeLits(s: string, i: nat)
    requires i <= |s|
    requires EveryBraceOpensPlaceholder(s)
    ensures forall k :: 0 <= k < |TokenizeFrom(s, i)| && TokenizeFrom(s, i)[k].Lit? ==> TokenizeFrom(s, i)[k].c != '{'
    decreases |s| - i
  {
    if i < |s| {
      match MatchAt(s, i)
      case Some(e) => TokenizeLits(s, e);
      case None => TokenizeLits(s, i + 1);
    }
  }

  lemma {:induction false} SpellTokenize(s: string, i: nat)
    requires i <= |s|
    ensures Spell(TokenizeFrom(s, i)) == s[i..]
    decreases |s| - i
  {
    if i < |s| {
      match MatchAt(s, i)
      case Some(e) =>
        SpellTokenize(s, e);
        assert TokenizeFrom(s, i) == [Hole(s[i..e])] + TokenizeFrom(s, e);
        SpellCons(Hole(s[i..e]), TokenizeFrom(s, e));
        assert s[i..e] + s[e..] == s[i..];
      case None =>
        SpellTokenize(s, i + 1);
        assert TokenizeFrom(s, i) == [Lit(s[i])] + TokenizeFrom(s, i + 1);
        SpellCons(Lit(s[i]), TokenizeFrom(s, i + 1));
        assert [s[i]] + s[i + 1..] == s[i..];
    }
  }

  lemma SpellCons(t: Token, ts: seq<Token>)
    ensures Spell([t] + ts) == (match t case Lit(c) => [c] case Hole(m) => m) + Spell(ts)
  {
    assert ([t] + ts)[0] == t && ([t] + ts)[1..] == ts;
  }

  /** The single pass over the template. */
  function ExpandPath(s: string, pathParams: Option<Fields>): Result<string>
  {
    Expand(Tokenize(s), SubstitutionsOf(pathParams))
  }

  /**
   * When every `{` of the template opens a placeholder and no replacement text
   * holds `{` or `$`, the replace-first loop is the left-to-right pass: the
   * text outside placeholders is copied, each placeholder is replaced in
   * place or kept, and the first encoder error is the result.
   */
  lemma LoopIsLeftToRightPass(s: string, pathParams: Option<Fields>)
    requires EveryBraceOpensPlaceholder(s)
    requires forall m :: m in Matches(s) ==> SafeReplacement(Substitution(m, pathParams))
    ensures PathSerialize(s, pathParams) == ExpandPath(s, pathParams)
  {
    var ts := Tokenize(s);
    var subs := SubstitutionsOf(pathParams);
    TokenizeLits(s, 0);
    SpellTokenize(s, 0);
    assert Spell(ts) == s;
    forall m | m in Holes(ts) ensures SafeReplacement(subs(m)) {
      assert subs(m) == Substitution(m, pathParams);
    }
    SafeTokensOf(ts, subs);
    assert Skipped("", subs);
    LoopFromSkipped("", ts, subs);
    assert "" + s == s;
    match Expand(ts, subs)
    case Success(e) => assert "" + e == e;
    case Failure(_) =>

  }

  // ----- A replacement that creates a match -----

  /** The scan of `{{a}}/{x}`: the lone `{` and the `}` after `{a}` are literals. */
  lemma LoneBraceTokens(s: string)
    requires s == "{{a}}/{x}"
    ensures Tokenize(s) == [Lit('{'), Hole("{a}"), Lit('}'), Lit('/'), Hole("{x}")]
  {
    assert s[1..4] == "{a}";
    PlaceholderIsMatch(s, 1, 4);
    assert s[6..9] == "{x}";
    PlaceholderIsMatch(s, 6, 9);
    assert NextBrace(s, 1) == 1;
    assert MatchAt(s, 0) == None;
    assert TokenizeFrom(s, 9) == [];
    assert TokenizeFrom(s, 6) == [Hole("{x}")];
    assert TokenizeFrom(s, 5) == [Lit('/'), Hole("{x}")];
    assert TokenizeFrom(s, 4) == [Lit('}'), Lit('/'), Hole("{x}")];
    assert TokenizeFrom(s, 1) == [Hole("{a}"), Lit('}'), Lit('/'), Hole("{x}")];
  }

  /** The first occurrence of `{a}` in `{{a}}/{x}` is the matched one, right after the lone `{`. */
  lemma ReplaceAfterLoneBrace(s: string)
    requires s == "{{a}}/{x}"
    ensures Replace(s, "{a}", "x") == "{x}/{x}"
  {
    assert OccursAt(s, "{a}", 1) by { assert s[1..4] == "{a}"; }
    assert !OccursAt(s, "{a}", 0) by { assert s[0..3][1] == '{'; }
    var found := IndexOf(s, "{a}");
    assert found == Some(1);
    GetSubstitutionPlain("{a}", s[..1], s[4..], "x");
    assert s[..1] == "{" && s[4..] == "}/{x}";
    assert "{" + "x" + "}/{x}" == "{x}/{x}";
  }

  /** After that replacement the first occurrence of `{x}` is the one just made, not the template's. */
  lemma ReplaceCreatedMatch(u: string)
    requires u == "{x}/{x}"
    ensures Replace(u, "{x}", "X") == "X/{x}"
  {
    assert OccursAt(u, "{x}", 0) by { assert u[0..3] == "{x}"; }
    var found := IndexOf(u, "{x}");
    assert found == Some(0);
    GetSubstitutionPlain("{x}", u[..0], u[3..], "X");
    assert u[..0] == "" && u[3..] == "/{x}";
    assert "" + "X" + "/{x}" == "X/{x}";
  }

  lemma LoneBraceMatches(s: string)
    requires s == "{{a}}/{x}"
    ensures Matches(s) == ["{a}", "{x}"]
  {
    LoneBraceTokens(s);
    var ts := Tokenize(s);
    assert Holes(ts[4..]) == ["{x}"];
    assert Holes(ts[3..]) == ["{x}"];
    assert Holes(ts[2..]) == ["{x}"];
    assert Holes(ts[1..]) == ["{a}", "{x}"];
  }

  /** The two values of the example's path record. */
  lemma LoneBraceValues(fields: Fields)
    requires fields == [("a", Text("x")), ("x", Text("X"))]
    ensures Get(fields, "a") == Text("x") && Get(fields, "x") == Text("X")
  {
    assert fields[..1] == [("a", Text("x"))];
    assert fields[..1][..0] == [];
  }

  /** `{a}` in the example is replaced by `x`. */
  lemma LoneBraceFirstValue(ma: PlaceholderText, pathParams: Option<Fields>)
    requires ma == "{a}" && pathParams == Some([("a", Text("x")), ("x", Text("X"))])
    ensures Substitution(ma, pathParams) == Success(Some("x"))
  {
    LoneBraceValues(pathParams.value);
    ParsePlaceholderForms(ma, "", "a", "");
    PlainSubstitution(ma, pathParams, "x");
  }

  /** `{x}` in the example is replaced by `X`. */
  lemma LoneBraceSecondValue(mx: PlaceholderText, pathParams: Option<Fields>)
    requires mx == "{x}" && pathParams == Some([("a", Text("x")), ("x", Text("X"))])
    ensures Substitution(mx, pathParams) == Success(Some("X"))
  {
    LoneBraceValues(pathParams.value);
    ParsePlaceholderForms(mx, "", "x", "");
    PlainSubstitution(mx, pathParams, "X");
  }

  /** The loop on the example: `{x}/{x}` after the first match, `X/{x}` after the second. */
  lemma LoneBraceLoop(s: string, ma: PlaceholderText, mx: PlaceholderText, subs: SubstitutionTable)
    requires s == "{{a}}/{x}" && ma == "{a}" && mx == "{x}"
    requires subs(ma) == Success(Some("x")) && subs(mx) == Success(Some("X"))
    ensures SubstituteMatches(s, [ma, mx], subs) == Success("X/{x}")
  {
    ReplaceAfterLoneBrace(s);
    ReplaceCreatedMatch("{x}/{x}");
    assert [ma, mx][0] == ma && [ma, mx][1..] == [mx];
    assert [mx][0] == mx && [mx][1..] == [];
    assert SubstituteMatches("X/{x}", [], subs) == Success("X/{x}");
    assert SubstituteMatches("{x}/{x}", [mx], subs) == Success("X/{x}");
  }

  /** One literal in front of a token sequence the pass expands. */
  lemma ExpandLitCons(c: char, rest: seq<Token>, subs: SubstitutionTable, e: string)
    requires Expand(rest, subs) == Success(e)
    ensures Expand([Lit(c)] + rest, subs) == Success([c] + e)
  {
    var ts := [Lit(c)] + rest;
    assert ts[0] == Lit(c) && ts[1..] == rest;
  }

  /** One replaced placeholder in front of a token sequence the pass expands. */
  lemma ExpandHoleCons(m: PlaceholderText, rest: seq<Token>, subs: SubstitutionTable, t: string, e: string)
    requires subs(m) == Success(Some(t))
    requires Expand(rest, subs) == Success(e)
    ensures Expand([Hole(m)] + rest, subs) == Success(t + e)
  {
    var ts := [Hole(m)] + rest;
    assert ts[0] == Hole(m) && ts[1..] == rest;
    var sub := subs(ts[0].text);
    assert sub.value.value == t;
  }

  /** The pass on the example replaces each placeholder where it stands: `{x}/X`. */
  lemma LoneBracePass(ts: seq<Token>, ma: PlaceholderText, mx: PlaceholderText, subs: SubstitutionTable)
    requires ts == [Lit('{'), Hole(ma), Lit('}'), Lit('/'), Hole(mx)]
    requires subs(ma) == Success(Some("x")) && subs(mx) == Success(Some("X"))
    ensures Expand(ts, subs) == Success("{x}/X")
  {
    var t0: seq<Token> := [];
    assert Expand(t0, subs) == Success("");
    ExpandHoleCons(mx, t0, subs, "X", "");
    var t1 := [Hole(mx)] + t0;
    ExpandLitCons('/', t1, subs, "X" + "");
    var t2 := [Lit('/')] + t1;
    ExpandLitCons('}', t2, subs, ['/'] + ("X" + ""));
    var t3 := [Lit('}')] + t2;
    ExpandHoleCons(ma, t3, subs, "x", ['}'] + (['/'] + ("X" + "")));
    var t4 := [Hole(ma)] + t3;
    ExpandLitCons('{', t4, subs, "x" + (['}'] + (['/'] + ("X" + ""))));
    assert [Lit('{')] + t4 == ts;
    assert ['{'] + ("x" + (['}'] + (['/'] + ("X" + "")))) == "{x}/X";
  }

  /**
   * Values without `{`, `}` or `$` are not enough for the loop to be the
   * left-to-right pass: in `{{a}}/{x}` with a = `x` and x = `X`, replacing
   * `{a}` turns the lone `{` into a new `{x}`, and replace then substitutes
   * that one, not the template's placeholder.
   */
  lemma ReplacementCreatesMatch(s: string, pathParams: Option<Fields>)
    requires s == "{{a}}/{x}" && pathParams == Some([("a", Text("x")), ("x", Text("X"))])
    ensures PathSerialize(s, pathParams) == Success("X/{x}")
    ensures ExpandPath(s, pathParams) == Success("{x}/X")
    ensures PathSerialize(s, pathParams) != ExpandPath(s, pathParams)
  {
    LoneBraceMatches(s);
    var ms := Matches(s);
    var ma, mx := ms[0], ms[1];
    assert ms == [ma, mx];
    LoneBraceTokens(s);
    LoneBraceFirstValue(ma, pathParams);
    LoneBraceSecondValue(mx, pathParams);
    var subs := SubstitutionsOf(pathParams);
    assert subs(ma) == Substitution(ma, pathParams);
    assert subs(mx) == Substitution(mx, pathParams);
    LoneBraceLoop(s, ma, mx, subs);
    LoneBracePass(Tokenize(s), ma, mx, subs);
    assert "X/{x}"[0] != "{x}/X"[0];
  }

  /** Placeholders the table leaves alone are kept verbatim, whatever the template. */
  lemma {:induction false} KeptWhenAllSkipped(url: string, matches: seq<PlaceholderText>, subs: SubstitutionTable)
    requires forall k :: 0 <= k < |matches| ==> subs(matches[k]) == Success(None)
    ensures SubstituteMatches(url, matches, subs) == Success(url)
    decreases |matches|
  {
    if matches != [] {
      assert subs(matches[0]) == Success(None);
      forall k | 0 <= k < |matches| - 1 ensures subs(matches[1..][k]) == Success(None) {
        assert matches[1..][k] == matches[k + 1];
      }
      KeptWhenAllSkipped(url, matches[1..], subs);
    }
  }

  /** Without path parameters the template comes back unchanged. */
  lemma NoPathParamsIdentity(s: string)
    ensures PathSerialize(s, None) == Success(s)
  {
    var matches := Matches(s);
    forall k | 0 <= k < |matches| ensures SubstitutionsOf(None)(matches[k]) == Success(None) {
      assert Substitution(matches[k], None) == Success(None);
    }
    KeptWhenAllSkipped(s, matches, SubstitutionsOf(None));
  }

  // ----- Templates with one placeholder -----

  /** Characters other than `{` start no match: the scan copies them as literals. */
  lemma {:induction false} HolesSkipPlain(s: string, i: nat, j: nat)
    requires i <= j <= |s|
    requires forall k :: i <= k < j ==> s[k] != '{'
    ensures Holes(TokenizeFrom(s, i)) == Holes(TokenizeFrom(s, j))
    decreases j - i
  {
    if i < j {
      HolesSkipPlain(s, i + 1, j);
      var ts := TokenizeFrom(s, i);
      assert ts == [Lit(s[i])] + TokenizeFrom(s, i + 1);
      assert ts[1..] == TokenizeFrom(s, i + 1);
    }
  }

  /** The first occurrence of a placeholder after brace-free text is the one right after it. */
  lemma FirstOccurrenceAfterPlain(p: string, m: PlaceholderText, q: string)
    requires '{' !in p
    ensures IndexOf(p + m + q, m) == Some(|p|)
  {
    var s := p + m + q;
    assert s[|p|..|p| + |m|] == m;
    assert OccursAt(s, m, |p|);
    forall k | 0 <= k < |p| ensures !OccursAt(s, m, k) {
      assert s[k] == p[k];
      assert k + |m| <= |s| ==> s[k..k + |m|][0] == s[k];
    }
  }

  /** A template with one placeholder between brace-free texts has that one match. */
  lemma SinglePlaceholderMatches(p: string, m: PlaceholderText, q: string)
    requires '{' !in p && '{' !in q
    ensures Matches(p + m + q) == [m]
  {
    var s := p + m + q;
    var e := |p| + |m|;
    forall k | 0 <= k < |p| ensures s[k] != '{' {
      assert s[k] == p[k];
    }
    forall k | e <= k < |s| ensures s[k] != '{' {
      assert s[k] == q[k - e];
    }
    HolesSkipPlain(s, 0, |p|);
    HolesSkipPlain(s, e, |s|);
    assert s[|p|..e] == m;
    PlaceholderIsMatch(s, |p|, e);
    var ts := TokenizeFrom(s, |p|);
    assert ts == [Hole(m)] + TokenizeFrom(s, e);
    assert ts[1..] == TokenizeFrom(s, e);
    assert Holes(TokenizeFrom(s, |s|)) == [];
  }

  /**
   * A template with one placeholder between brace-free texts: the loop makes
   * one replacement, whose text goes through the `$` patterns of replace (with
   * `p` before the match and `q` after it), or keeps the template, or fails.
   */
  lemma SinglePlaceholder(p: string, m: PlaceholderText, q: string, pathParams: Option<Fields>)
    requires '{' !in p && '{' !in q
    ensures Substitution(m, pathParams).Failure? ==>
              PathSerialize(p + m + q, pathParams) == Failure(Substitution(m, pathParams).error)
    ensures Substitution(m, pathParams) == Success(None) ==> PathSerialize(p + m + q, pathParams) == Success(p + m + q)
    ensures Substitution(m, pathParams).Success? && Substitution(m, pathParams).value.Some? ==>
              PathSerialize(p + m + q, pathParams)
              == Success(p + GetSubstitution(m, p, q, Substitution(m, pathParams).value.value) + q)
  {
    var s := p + m + q;
    var subs := SubstitutionsOf(pathParams);
    SinglePlaceholderMatches(p, m, q);
    FirstOccurrenceAfterPlain(p, m, q);
    assert s[..|p|] == p && s[|p| + |m|..] == q;
    assert [m][0] == m && [m][1..] == [];
    assert PathSerialize(s, pathParams) == SubstituteMatches(s, [m], subs);
    var sub := subs(m);
    if sub.Success? && sub.value.Some? {
      assert SubstituteMatches(s, [m], subs) == SubstituteMatches(Replace(s, m, sub.value.value), [], subs);
    }
  }

  /** With a replacement free of `$`, the one placeholder is replaced by that text. */
  lemma SinglePlaceholderReplaced(p: string, m: PlaceholderText, q: string, pathParams: Option<Fields>, t: string)
    requires '{' !in p && '{' !in q && '$' !in t
    requires Substitution(m, pathParams) == Success(Some(t))
    ensures PathSerialize(p + m + q, pathParams) == Success(p + t + q)
  {
    SinglePlaceholder(p, m, q, pathParams);
    GetSubstitutionPlain(m, p, q, t);
  }

  /** The text between the braces of a match text made of its parts. */
  lemma InnerText(m: string, sigil: string, name: string, star: string)
    requires m == "{" + sigil + name + star + "}"
    ensures m[1..|m| - 1] == (sigil + name) + star
  {
    assert m == "{" + ((sigil + name) + star) + "}";
  }

  /** An optional `*` after a name that does not end in `*`: read off and stripped. */
  lemma StarSuffix(inner: string, n: string, star: string)
    requires star == "" || star == "*"
    requires |n| >= 1 && (star == "" ==> n[|n| - 1] != '*')
    requires inner == n + star
    ensures EndsWith(inner, "*") == (star == "*")
    ensures (if EndsWith(inner, "*") then inner[..|inner| - 1] else inner) == n
  {
    if star == "*" {
      assert inner[|inner| - 1..] == "*";
      assert inner[..|inner| - 1] == n;
    } else {
      assert inner == n;
      assert inner[|inner| - 1..][0] == n[|n| - 1];
    }
  }

  /** An optional `.` or `;` before a name that does not start with one: read off and stripped. */
  lemma SigilPrefix(n: string, sigil: string, name: string)
    requires sigil == "" || sigil == "." || sigil == ";"
    requires |name| >= 1 && (sigil == "" ==> name[0] != '.' && name[0] != ';')
    requires n == sigil + name
    ensures StartsWith(n, ".") == (sigil == ".") && StartsWith(n, ";") == (sigil == ";")
    ensures sigil != "" ==> n[1..] == name
  {
    if sigil == "" {
      assert n == name;
      assert n[..1][0] == name[0];
    } else {
      assert n[..1] == sigil;
      assert n[1..] == name;
    }
  }

  /**
   * How a match text reads: an optional `.` (label) or `;` (matrix) after the
   * `{`, an optional `*` (explode) before the `}`, and the name between.
   */
  lemma ParsePlaceholderForms(m: PlaceholderText, sigil: string, name: string, star: string)
    requires sigil == "" || sigil == "." || sigil == ";"
    requires star == "" || star == "*"
    requires |name| >= 1
    requires sigil == "" ==> name[0] != '.' && name[0] != ';'
    requires star == "" ==> name[|name| - 1] != '*'
    requires m == "{" + sigil + name + star + "}"
    ensures ParsePlaceholder(m) == Placeholder(name, star == "*", if sigil == "." then Label else if sigil == ";" then Matrix else Simple)
  {
    var n := sigil + name;
    InnerText(m, sigil, name, star);
    var inner := m[1..|m| - 1];
    assert |n| >= 1 && n[|n| - 1] == name[|name| - 1];
    StarSuffix(inner, n, star);
    var explode := EndsWith(inner, "*");
    var stripped := if explode then inner[..|inner| - 1] else inner;
    assert stripped == n;
    SigilPrefix(n, sigil, name);
    if sigil == "." {
      assert ParsePlaceholder(m) == Placeholder(n[1..], explode, Label);
    } else if sigil == ";" {
      assert ParsePlaceholder(m) == Placeholder(n[1..], explode, Matrix);
    } else {
      assert ParsePlaceholder(m) == Placeholder(n, explode, Simple);
    }
  }

  /** `/blogposts/{post_id}` with post_id `123`: `/blogposts/123`. */
  lemma SimplePathExample(p: string, m: PlaceholderText, pathParams: Option<Fields>)
    requires p == "/blogposts/" && m == "{post_id}" && pathParams == Some([("post_id", Text("123"))])
    ensures PathSerialize(p + m, pathParams) == Success(p + "123")
  {
    ParsePlaceholderForms(m, "", "post_id", "");
    assert Get(pathParams.value, "post_id") == Text("123");
    PlainSubstitution(m, pathParams, "123");
    SinglePlaceholderReplaced(p, m, "", pathParams, "123");
    assert p + m + "" == p + m && p + "123" + "" == p + "123";
  }

  /** A path parameter that is absent leaves its placeholder in place. */
  lemma MissingPathParamExample(p: string, m: PlaceholderText, pathParams: Option<Fields>)
    requires p == "/blogposts/" && m == "{post_id}" && pathParams == Some([])
    ensures PathSerialize(p + m, pathParams) == Success(p + m)
  {
    ParsePlaceholderForms(m, "", "post_id", "");
    assert Get([], "post_id") == Undefined;
    assert Substitution(m, pathParams) == Success(None);
    SinglePlaceholder(p, m, "", pathParams);
    assert p + m + "" == p + m;
  }

  /** `/items/{;id}` with id `42`: the matrix form `/items/;id=42`. */
  lemma MatrixPathExample(p: string, m: PlaceholderText, pathParams: Option<Fields>)
    requires p == "/items/" && m == "{;id}" && pathParams == Some([("id", Text("42"))])
    ensures PathSerialize(p + m, pathParams) == Success(p + ";id=42")
  {
    MatrixSubstitution(m, pathParams);
    SinglePlaceholderReplaced(p, m, "", pathParams, ";id=42");
    assert p + m + "" == p + m && p + ";id=42" + "" == p + ";id=42";
  }

  lemma MatrixSubstitution(m: PlaceholderText, pathParams: Option<Fields>)
    requires m == "{;id}" && pathParams == Some([("id", Text("42"))])
    ensures Substitution(m, pathParams) == Success(Some(";id=42"))
  {
    ParsePlaceholderForms(m, ";", "id", "");
    assert Get(pathParams.value, "id") == Text("42");
    assert EncodeURIComponent("42") == "42" by {
      EncodeUnreservedChar('4');
      EncodeUnreservedChar('2');
      assert "42" == ['4'] + "2";
      assert "42"[1..] == "2";
      assert "2"[1..] == [];
    }
    assert Piece(Text("42"), false) == "42";
    assert "id" + "=" + "42" == "id=42";
    assert SerializePrimitiveParam("id", Text("42"), false) == Success("id=42");
    assert ";" + "id=42" == ";id=42";
    assert PathValue("id", Text("42"), Matrix, false) == Success(";id=42");
  }

  /**
   * A value is not inserted literally: replace reads `$&` in it as the
   * matched text, so the value `$&` puts the placeholder back.
   */
  lemma DollarPatternExample(p: string, m: PlaceholderText, v: Value, pathParams: Option<Fields>)
    requires p == "/" && m == "{a}" && v == Text("$&") && pathParams == Some([("a", v)])
    ensures PathSerialize(p + m, pathParams) == Success(p + m)
  {
    DollarSubstitution(m, v, pathParams);
    MatchedPlaceholderKept(p, m, pathParams);
  }

  lemma DollarSubstitution(m: PlaceholderText, v: Value, pathParams: Option<Fields>)
    requires m == "{a}" && v == Text("$&") && pathParams == Some([("a", v)])
    ensures Substitution(m, pathParams) == Success(Some("$&"))
  {
    ParsePlaceholderForms(m, "", "a", "");
    assert Get(pathParams.value, "a") == v;
    PlainSubstitution(m, pathParams, "$&");
  }

  /** A simple placeholder whose parameter is a string is replaced by that string as it is. */
  lemma PlainSubstitution(m: PlaceholderText, pathParams: Option<Fields>, t: string)
    requires ParsePlaceholder(m).style == Simple
    requires pathParams.Some? && Get(pathParams.value, ParsePlaceholder(m).name) == Text(t)
    ensures Substitution(m, pathParams) == Success(Some(t))
  {
  }

  /** A placeholder whose replacement text is `$&` is put back unchanged. */
  lemma MatchedPlaceholderKept(p: string, m: PlaceholderText, pathParams: Option<Fields>)
    requires '{' !in p
    requires Substitution(m, pathParams) == Success(Some("$&"))
    ensures PathSerialize(p + m, pathParams) == Success(p + m)
  {
    SinglePlaceholder(p, m, "", pathParams);
    MatchedPattern(m, p, "");
    assert p + m + "" == p + m;
  }

  /** `$&` alone stands for the matched text. */
  lemma MatchedPattern(matched: string, before: string, after: string)
    ensures GetSubstitution(matched, before, after, "$&") == matched
  {
    var r := "$&";
    assert r[0] == '$' && r[1] == '&' && r[2..] == [];
    assert GetSubstitution(matched, before, after, r[2..]) == "";
  }
}
