/** src/config.cpp: the minimal configuration reader. Keys are found by
    first-match substring search; there is no escape handling and no brace
    counting. */
module Config {
  import opened Wrappers
  import opened Text

  /** `AppConfig::settings`. The declaration of `AppConfig` (config.h) is not
      part of this model; its settings are taken to be four optional strings
      and two booleans that default to false. */
  datatype Settings = Settings(
    defaultName: Option<string>,
    defaultPrefix: Option<string>,
    defaultDescription: Option<string>,
    defaultOutputDir: Option<string>,
    defaultAppend: bool,
    verbose: bool)

  const DefaultSettings := Settings(None, None, None, None, false, false)

  /** The configuration object that `parse` and `loadConfig` update through
      a reference. */
  class AppConfig {
    var settings: Settings

    constructor ()
      ensures settings == DefaultSettings
    {
      settings := DefaultSettings;
    }
  }

  // ---------------------------------------------------------------------
  // trim

  /** The characters `trim` strips: space, tab, newline, carriage return. */
  const TrimChars: set<char> := {' ', '\t', '\n', '\r'}

  /** `trim`: the text from the first to the last character that is not in
      `TrimChars`. */
  function Trim(str: string): (r: string)
    ensures r == [] <==> forall k :: 0 <= k < |str| ==> str[k] in TrimChars
    ensures r != [] ==> r[0] !in TrimChars && r[|r| - 1] !in TrimChars
    ensures exists i, j :: 0 <= i <= j <= |str| && r == str[i..j]
              && (forall k :: 0 <= k < i ==> str[k] in TrimChars)
              && (forall k :: j <= k < |str| ==> str[k] in TrimChars)
  {
    match FirstNotIn(str, TrimChars, 0)
    case None =>
      assert str[0..0] == [];
      ""
    case Some(first) =>
      var last := LastNotIn(str, TrimChars, |str|).GetOr(first);
      str[first..last + 1]
  }

  /** Trimming twice is trimming once. */
  lemma TrimIdempotent(str: string)
    ensures Trim(Trim(str)) == Trim(str)
  {
    var r := Trim(str);
    if r != [] {
      assert FirstNotIn(r, TrimChars, 0) == Some(0);
      assert LastNotIn(r, TrimChars, |r|) == Some(|r| - 1);
      assert r[0..|r|] == r;
    }
  }

  // ---------------------------------------------------------------------
  // hasKey, extractString, extractBool

  /** The search key for `key`: the key in double quotes. */
  function QuotedKey(key: string): string {
    "\"" + key + "\""
  }

  /** `hasKey`. */
  function HasKey(json: string, key: string): bool {
    FindSub(json, QuotedKey(key), 0).Some?
  }

  /** The key is present exactly when the quoted key occurs anywhere in the
      text, also inside a string value. */
  lemma HasKeyIsSubstring(json: string, key: string)
    ensures HasKey(json, key) <==> Contains(json, QuotedKey(key))
  {
    FindSubContains(json, QuotedKey(key));
  }

  /** `extractString`: the characters strictly between the first two double
      quotes after the first colon that follows the first occurrence of the
      quoted key; empty when any of these is missing. */
  function ExtractString(json: string, key: string): (r: string)
    ensures forall k :: 0 <= k < |r| ==> r[k] != '"'
    ensures !HasKey(json, key) ==> r == []
  {
    match FindSub(json, QuotedKey(key), 0)
    case None => ""
    case Some(keyPos) =>
      match FindChar(json, ':', keyPos)
      case None => ""
      case Some(colonPos) => QuotedAfter(json, colonPos + 1)
  }

  /** The text strictly between the first `"` at or after `from` and the
      next `"`; empty when either is missing. */
  function QuotedAfter(json: string, from: nat): (r: string)
    ensures forall k :: 0 <= k < |r| ==> r[k] != '"'
  {
    match FindChar(json, '"', from)
    case None => ""
    case Some(openQuote) =>
      var valueStart := openQuote + 1;
      match FindChar(json, '"', valueStart)
      case None => ""
      case Some(valueEnd) =>
        FindCharFirst(json, '"', valueStart);
        json[valueStart..valueEnd]
  }

  /** `r` stands in `s` from index `a`. */
  predicate PieceAt(s: string, r: string, a: nat) {
    a + |r| <= |s| && s[a..a + |r|] == r
  }

  /** `r` stands in `s` from index `a`, between two double quotes. */
  predicate Quoted(s: string, r: string, a: nat) {
    0 < a && a + |r| < |s| && s[a - 1] == '"' && PieceAt(s, r, a) && s[a + |r|] == '"'
  }

  /** A non-empty extracted value stands between two double quotes of the
      text. */
  lemma ExtractStringQuoted(json: string, key: string)
    ensures ExtractString(json, key) != [] ==> exists a :: Quoted(json, ExtractString(json, key), a)
  {
    if ExtractString(json, key) != [] {
      var colonPos := ExtractStringFound(json, key);
      var a := QuotedAt(json, colonPos + 1);
      assert Quoted(json, ExtractString(json, key), a);
    }
  }

  /** A non-empty value was read after a colon that follows the key. */
  lemma ExtractStringFound(json: string, key: string) returns (colonPos: nat)
    requires ExtractString(json, key) != []
    ensures ExtractString(json, key) == QuotedAfter(json, colonPos + 1) != []
  {
    var keyPos := FindSub(json, QuotedKey(key), 0).value;
    colonPos := FindChar(json, ':', keyPos).value;
    ExtractStringUnfold(json, key, keyPos, colonPos);
  }

  /** Where a non-empty quoted value starts. */
  lemma QuotedAt(json: string, from: nat) returns (a: nat)
    requires QuotedAfter(json, from) != []
    ensures Quoted(json, QuotedAfter(json, from), a)
  {
    a := FindChar(json, '"', from).value + 1;
  }

  /** Without a colon at or after the first occurrence of the quoted key,
      the value is empty; a colon before the key does not matter. */
  lemma ExtractStringNoColon(json: string, key: string, p: nat)
    requires FindSub(json, QuotedKey(key), 0) == Some(p)
    requires forall k :: p <= k < |json| ==> json[k] != ':'
    ensures ExtractString(json, key) == []
  {
    FindCharFirst(json, ':', p);
  }

  /** Without a double quote after the first colon that follows the key,
      the value is empty. */
  lemma ExtractStringNoOpenQuote(json: string, key: string, p: nat, colon: nat)
    requires FindSub(json, QuotedKey(key), 0) == Some(p)
    requires p <= colon < |json|
    requires json[colon] == ':' && forall k :: p <= k < colon ==> json[k] != ':'
    requires forall k :: colon < k < |json| ==> json[k] != '"'
    ensures ExtractString(json, key) == []
  {
    FindCharAt(json, ':', p, colon);
    ExtractStringUnfold(json, key, p, colon);
    QuotedAfterNone(json, colon);
  }

  /** Without a double quote after index `i`, nothing is quoted after it. */
  lemma QuotedAfterNone(json: string, i: nat)
    requires forall k :: i < k < |json| ==> json[k] != '"'
    ensures QuotedAfter(json, i + 1) == []
  {
  }

  /** With an opening double quote after that colon but no closing one, the
      value is empty. */
  lemma ExtractStringNoCloseQuote(json: string, key: string, p: nat, colon: nat, open: nat)
    requires FindSub(json, QuotedKey(key), 0) == Some(p)
    requires p <= colon < open < |json|
    requires json[colon] == ':' && forall k :: p <= k < colon ==> json[k] != ':'
    requires json[open] == '"' && forall k :: colon < k < open ==> json[k] != '"'
    requires forall k :: open < k < |json| ==> json[k] != '"'
    ensures ExtractString(json, key) == []
  {
    FindCharAt(json, ':', p, colon);
    ExtractStringUnfold(json, key, p, colon);
    QuotedAfterUnclosed(json, colon, open);
  }

  /** With one double quote after index `i` and none after that, nothing
      is quoted after `i`. */
  lemma QuotedAfterUnclosed(json: string, i: nat, open: nat)
    requires i < open < |json|
    requires json[open] == '"' && forall k :: i < k < open ==> json[k] != '"'
    requires forall k :: open < k < |json| ==> json[k] != '"'
    ensures QuotedAfter(json, i + 1) == []
  {
    FindCharAt(json, '"', i + 1, open);
  }

  /** Characters that end the bare token `extractBool` reads. */
  predicate EndsToken(c: char) {
    IsSpace(c) || c == ',' || c == '}' || c == '\n'
  }

  /** The first index at or after `i` that does not hold white space. */
  function SkipSpace(s: string, i: nat): (j: nat)
    requires i <= |s|
    decreases |s| - i
    ensures i <= j <= |s|
    ensures j < |s| ==> !IsSpace(s[j])
  {
    if i < |s| && IsSpace(s[i]) then SkipSpace(s, i + 1) else i
  }

  /** Everything skipped is white space. */
  lemma {:induction false} SkipSpaceSkips(s: string, i: nat)
    requires i <= |s|
    ensures forall k :: i <= k < SkipSpace(s, i) ==> IsSpace(s[k])
    decreases |s| - i
  {
    if i < |s| && IsSpace(s[i]) {
      SkipSpaceSkips(s, i + 1);
    }
  }

  /** The first index at or after `i` that ends the token. */
  function TokenEnd(s: string, i: nat): (j: nat)
    requires i <= |s|
    decreases |s| - i
    ensures i <= j <= |s|
    ensures j < |s| ==> EndsToken(s[j])
  {
    if i < |s| && !EndsToken(s[i]) then TokenEnd(s, i + 1) else i
  }

  /** No character of the token ends it. */
  lemma {:induction false} TokenEndTokens(s: string, i: nat)
    requires i <= |s|
    ensures forall k :: i <= k < TokenEnd(s, i) ==> !EndsToken(s[k])
    decreases |s| - i
  {
    if i < |s| && !EndsToken(s[i]) {
      TokenEndTokens(s, i + 1);
    }
  }

  /** The bare token after the colon that follows the first occurrence of
      the quoted key, past any white space; None when the key or the colon
      is missing. */
  function BoolToken(json: string, key: string): (r: Option<string>)
    ensures r.Some? ==> forall k :: 0 <= k < |r.value| ==> !EndsToken(r.value[k])
    ensures !HasKey(json, key) ==> r == None
  {
    match FindSub(json, QuotedKey(key), 0)
    case None => None
    case Some(keyPos) =>
      match FindChar(json, ':', keyPos)
      case None => None
      case Some(colonPos) =>
        var start := SkipSpace(json, colonPos + 1);
        TokenEndTokens(json, start);
        Some(json[start..TokenEnd(json, start)])
  }

  /** The value `extractBool` returns: true only for the token `true`, false
      only for the token `false`, the default for any other token and for a
      missing key. */
  function BoolValue(json: string, key: string, defaultValue: bool): (b: bool)
    ensures b != defaultValue ==> BoolToken(json, key) == Some(if b then "true" else "false")
    ensures BoolToken(json, key) == Some("true") ==> b
    ensures BoolToken(json, key) == Some("false") ==> !b
    ensures !HasKey(json, key) ==> b == defaultValue
  {
    match BoolToken(json, key)
    case None => defaultValue
    case Some(token) =>
      if token == "true" then true else if token == "false" then false else defaultValue
  }

  /** `extractBool`. */
  method ExtractBool(json: string, key: string, defaultValue: bool) returns (b: bool)
    ensures b == BoolValue(json, key, defaultValue)
  {
    var searchKey := QuotedKey(key);
    var keyPos := FindSub(json, searchKey, 0);
    if keyPos.None? {
      return defaultValue;
    }

    var colonPos := FindChar(json, ':', keyPos.value);
    if colonPos.None? {
      return defaultValue;
    }

    var valueStart := SkipSpaces(json, colonPos.value + 1);
    var value := ReadToken(json, valueStart);

    if value == "true" {
      return true;
    }
    if value == "false" {
      return false;
    }
    return defaultValue;
  }

  /** The first loop of `extractBool`: skip white space from `from`. */
  method SkipSpaces(json: string, from: nat) returns (valueStart: nat)
    requires from <= |json|
    ensures valueStart == SkipSpace(json, from)
  {
    valueStart := from;
    while valueStart < |json| && IsSpace(json[valueStart])
      invariant from <= valueStart <= |json|
      invariant SkipSpace(json, from) == SkipSpace(json, valueStart)
    {
      valueStart := valueStart + 1;
    }
  }

  /** The second loop of `extractBool`: collect the token from `start`. */
  method ReadToken(json: string, start: nat) returns (value: string)
    requires start <= |json|
    ensures value == json[start..TokenEnd(json, start)]
  {
    var valueStart := start;
    value := "";
    while valueStart < |json| && !IsSpace(json[valueStart]) &&
          json[valueStart] != ',' && json[valueStart] != '}' && json[valueStart] != '\n'
      invariant start <= valueStart <= |json|
      invariant value == json[start..valueStart]
      invariant TokenEnd(json, start) == TokenEnd(json, valueStart)
    {
      value := value + [json[valueStart]];
      valueStart := valueStart + 1;
    }
  }

  /** A token in double quotes, such as `"true"`, never counts as a boolean. */
  lemma QuotedTokenIsDefault(json: string, key: string, defaultValue: bool)
    requires BoolToken(json, key).Some? && BoolToken(json, key).value != []
    requires BoolToken(json, key).value[0] == '"'
    ensures BoolValue(json, key, defaultValue) == defaultValue
  {
  }

  /** The value is exactly the text strictly between the first `"` after
      the first colon that follows the first occurrence of the quoted key,
      and the next `"`. */
  lemma ExtractStringAt(json: string, key: string, p: nat, colon: nat, open: nat, close: nat)
    requires FindSub(json, QuotedKey(key), 0) == Some(p)
    requires p <= colon < open < close < |json|
    requires json[colon] == ':' && forall k :: p <= k < colon ==> json[k] != ':'
    requires json[open] == '"' && forall k :: colon < k < open ==> json[k] != '"'
    requires json[close] == '"' && forall k :: open < k < close ==> json[k] != '"'
    ensures ExtractString(json, key) == json[open + 1..close]
  {
    FindCharAt(json, ':', p, colon);
    ExtractStringUnfold(json, key, p, colon);
    QuotedAfterAt(json, colon + 1, open, close);
  }

  lemma ExtractStringUnfold(json: string, key: string, p: nat, colon: nat)
    requires FindSub(json, QuotedKey(key), 0) == Some(p)
    requires FindChar(json, ':', p) == Some(colon)
    ensures ExtractString(json, key) == QuotedAfter(json, colon + 1)
  {
  }

  lemma QuotedAfterAt(json: string, from: nat, open: nat, close: nat)
    requires from <= open < close < |json|
    requires json[open] == '"' && forall k :: from <= k < open ==> json[k] != '"'
    requires json[close] == '"' && forall k :: open < k < close ==> json[k] != '"'
    ensures QuotedAfter(json, from) == json[open + 1..close]
  {
    FindCharAt(json, '"', from, open);
    FindCharAt(json, '"', open + 1, close);
  }

  /** The token runs from the first non-space character after the first
      colon that follows the first occurrence of the quoted key, up to the
      next character that ends a token or the end of the text. */
  lemma BoolTokenAt(json: string, key: string, p: nat, colon: nat, start: nat, end: nat)
    requires FindSub(json, QuotedKey(key), 0) == Some(p)
    requires p <= colon < start <= end <= |json|
    requires json[colon] == ':' && forall k :: p <= k < colon ==> json[k] != ':'
    requires forall k :: colon < k < start ==> IsSpace(json[k])
    requires start < |json| ==> !IsSpace(json[start])
    requires forall k :: start <= k < end ==> !EndsToken(json[k])
    requires end < |json| ==> EndsToken(json[end])
    ensures BoolToken(json, key) == Some(json[start..end])
  {
    BoolTokenAfterColon(json, key, p, colon);
    TokenSpan(json, colon, start, end);
  }

  lemma BoolTokenAfterColon(json: string, key: string, p: nat, colon: nat)
    requires FindSub(json, QuotedKey(key), 0) == Some(p)
    requires p <= colon < |json|
    requires json[colon] == ':' && forall k :: p <= k < colon ==> json[k] != ':'
    ensures var start := SkipSpace(json, colon + 1);
      BoolToken(json, key) == Some(json[start..TokenEnd(json, start)])
  {
    FindCharAt(json, ':', p, colon);
    BoolTokenUnfold(json, key, p, colon);
  }

  /** The token read after white space past `colon` is `json[start..end]`. */
  lemma TokenSpan(json: string, colon: nat, start: nat, end: nat)
    requires colon < start <= end <= |json|
    requires forall k :: colon < k < start ==> IsSpace(json[k])
    requires start < |json| ==> !IsSpace(json[start])
    requires forall k :: start <= k < end ==> !EndsToken(json[k])
    requires end < |json| ==> EndsToken(json[end])
    ensures SkipSpace(json, colon + 1) == start && TokenEnd(json, start) == end
  {
    SkipSpaceOver(json, colon + 1, start);
    TokenEndOver(json, start, end);
  }

  lemma BoolTokenUnfold(json: string, key: string, p: nat, colon: nat)
    requires FindSub(json, QuotedKey(key), 0) == Some(p)
    requires FindChar(json, ':', p) == Some(colon)
    ensures var start := SkipSpace(json, colon + 1);
      BoolToken(json, key) == Some(json[start..TokenEnd(json, start)])
  {
  }

  lemma {:induction false} SkipSpaceOver(s: string, i: nat, j: nat)
    requires i <= j <= |s|
    requires forall k :: i <= k < j ==> IsSpace(s[k])
    requires j < |s| ==> !IsSpace(s[j])
    ensures SkipSpace(s, i) == j
    decreases j - i
  {
    if i < j {
      SkipSpaceOver(s, i + 1, j);
    }
  }

  lemma {:induction false} TokenEndOver(s: string, i: nat, j: nat)
    requires i <= j <= |s|
    requires forall k :: i <= k < j ==> !EndsToken(s[k])
    requires j < |s| ==> EndsToken(s[j])
    ensures TokenEnd(s, i) == j
    decreases j - i
  {
    if i < j {
      TokenEndOver(s, i + 1, j);
    }
  }

  // ---------------------------------------------------------------------
  // parse

  /** The part of the content `parse` reads fields from: with a `"settings"`
      key, from the first `{` after it to the first `}` after that, both
      included, and None when either brace is missing; without one, the
      whole content. */
  function ScanRegion(content: string): Option<string> {
    match FindSub(content, "\"settings\"", 0)
    case None => Some(content)
    case Some(settingsPos) => RegionFrom(content, settingsPos)
  }

  /** From the first `{` at or after `settingsPos` to the first `}` after it. */
  function RegionFrom(content: string, settingsPos: nat): Option<string> {
    match FindChar(content, '{', settingsPos)
    case None => None
    case Some(objStart) =>
      match FindChar(content, '}', objStart)
      case None => None
      case Some(objEnd) => Some(content[objStart..objEnd + 1])
  }

  /** The six settings `parse` reads, in its order. */
  datatype Field = Name | Prefix | Description | OutputDir | Append | Verbose

  function KeyOf(f: Field): string {
    match f
    case Name => "defaultName"
    case Prefix => "defaultPrefix"
    case Description => "defaultDescription"
    case OutputDir => "defaultOutputDir"
    case Append => "defaultAppend"
    case Verbose => "verbose"
  }

  /** One guarded read: when the field's key occurs in the region, the
      field takes the value read from the region (booleans default to
      false); otherwise `s` is unchanged. */
  function ReadField(region: string, f: Field, s: Settings): (r: Settings)
    ensures f != Name ==> r.defaultName == s.defaultName
    ensures f != Prefix ==> r.defaultPrefix == s.defaultPrefix
    ensures f != Description ==> r.defaultDescription == s.defaultDescription
    ensures f != OutputDir ==> r.defaultOutputDir == s.defaultOutputDir
    ensures f != Append ==> r.defaultAppend == s.defaultAppend
    ensures f != Verbose ==> r.verbose == s.verbose
  {
    if !HasKey(region, KeyOf(f)) then s
    else match f
      case Name => s.(defaultName := Some(ExtractString(region, KeyOf(f))))
      case Prefix => s.(defaultPrefix := Some(ExtractString(region, KeyOf(f))))
      case Description => s.(defaultDescription := Some(ExtractString(region, KeyOf(f))))
      case OutputDir => s.(defaultOutputDir := Some(ExtractString(region, KeyOf(f))))
      case Append => s.(defaultAppend := BoolValue(region, KeyOf(f), false))
      case Verbose => s.(verbose := BoolValue(region, KeyOf(f), false))
  }

  /** The settings after the fields found in `region` have been read over
      `s`, in the order `parse` reads them. */
  function ReadFields(region: string, s: Settings): Settings {
    ReadField(region, Verbose, ReadField(region, Append, ReadField(region, OutputDir,
      ReadField(region, Description, ReadField(region, Prefix, ReadField(region, Name, s))))))
  }

  /** The settings `parse` leaves when it has read `content`. */
  function ParseContent(content: string, s: Settings): Settings {
    match ScanRegion(content)
    case None => s
    case Some(region) => ReadFields(region, s)
  }

  /** `i` is the first index at or after `from` that holds `c`. */
  predicate FirstFrom(s: string, c: char, from: nat, i: nat) {
    from <= i < |s| && s[i] == c && forall k :: from <= k < i ==> s[k] != c
  }

  /** The region is the whole content when there is no `"settings"` key.
      Otherwise, with `p` the first occurrence of that key, the region runs
      from the first `{` at or after `p` to the first `}` at or after that
      `{`, both included (nested braces are not counted); it is missing
      exactly when no `{` follows `p` or no `}` follows that first `{`. */
  lemma ScanRegionShape(content: string)
    ensures !Contains(content, "\"settings\"") ==> ScanRegion(content) == Some(content)
    ensures Contains(content, "\"settings\"") && ScanRegion(content).Some? ==>
      var p := FindSub(content, "\"settings\"", 0).value;
      && OccursAt(content, "\"settings\"", p)
      && exists a: nat, b: nat :: FirstFrom(content, '{', p, a) && FirstFrom(content, '}', a, b)
                        && ScanRegion(content).value == content[a..b + 1]
    ensures Contains(content, "\"settings\"") ==>
      var p := FindSub(content, "\"settings\"", 0).value;
      (ScanRegion(content).None? <==>
        (forall k :: p <= k < |content| ==> content[k] != '{') ||
        (exists a: nat :: FirstFrom(content, '{', p, a) && forall k :: a <= k < |content| ==> content[k] != '}'))
  {
    FindSubContains(content, "\"settings\"");
    match FindSub(content, "\"settings\"", 0)
    case None =>
    case Some(p) =>
      if RegionFrom(content, p).Some? {
        var a, b := RegionFromFound(content, p);
      }
      RegionFromMissing(content, p);
  }

  /** A region found from `p` is the piece between the first `{` and the
      first `}` after it; the two indices are returned. */
  lemma RegionFromFound(content: string, p: nat) returns (a: nat, b: nat)
    requires RegionFrom(content, p).Some?
    ensures FirstFrom(content, '{', p, a) && FirstFrom(content, '}', a, b)
    ensures RegionFrom(content, p).value == content[a..b + 1]
  {
    a := FindChar(content, '{', p).value;
    b := FindChar(content, '}', a).value;
    FindCharFirst(content, '{', p);
    FindCharFirst(content, '}', a);
  }

  /** No region is found from `p` exactly when no `{` follows `p`, or no `}`
      follows the first such `{`. */
  lemma RegionFromMissing(content: string, p: nat)
    ensures RegionFrom(content, p).None? <==>
      (forall k :: p <= k < |content| ==> content[k] != '{') ||
      (exists a: nat :: FirstFrom(content, '{', p, a) && forall k :: a <= k < |content| ==> content[k] != '}')
  {
    FindCharFirst(content, '{', p);
    if FindChar(content, '{', p).Some? {
      var a := FindChar(content, '{', p).value;
      FindCharFirst(content, '}', a);
      assert FirstFrom(content, '{', p, a);
      if exists a': nat :: FirstFrom(content, '{', p, a') && forall k :: a' <= k < |content| ==> content[k] != '}' {
        var a': nat :| FirstFrom(content, '{', p, a') && forall k :: a' <= k < |content| ==> content[k] != '}';
        FindCharAt(content, '{', p, a');
      }
    }
  }

  /** The converse: given the first `{` after the first `"settings"` and the
      first `}` after it, the region is the piece between them. */
  lemma ScanRegionAt(content: string, p: nat, a: nat, b: nat)
    requires FindSub(content, "\"settings\"", 0) == Some(p)
    requires FirstFrom(content, '{', p, a) && FirstFrom(content, '}', a, b)
    ensures ScanRegion(content) == Some(content[a..b + 1])
  {
    FindCharAt(content, '{', p, a);
    FindCharAt(content, '}', a, b);
  }

  /** Each field is overwritten exactly when its quoted key occurs in the
      region, with the value read from the region; the others keep their
      value. */
  lemma ReadFieldsByKey(region: string, s: Settings)
    ensures var r := ReadFields(region, s);
      && r.defaultName == (if HasKey(region, "defaultName") then Some(ExtractString(region, "defaultName")) else s.defaultName)
      && r.defaultPrefix == (if HasKey(region, "defaultPrefix") then Some(ExtractString(region, "defaultPrefix")) else s.defaultPrefix)
      && r.defaultDescription == (if HasKey(region, "defaultDescription") then Some(ExtractString(region, "defaultDescription")) else s.defaultDescription)
      && r.defaultOutputDir == (if HasKey(region, "defaultOutputDir") then Some(ExtractString(region, "defaultOutputDir")) else s.defaultOutputDir)
      && r.defaultAppend == (if HasKey(region, "defaultAppend") then BoolValue(region, "defaultAppend", false) else s.defaultAppend)
      && r.verbose == (if HasKey(region, "verbose") then BoolValue(region, "verbose", false) else s.verbose)
  {
  }

  /** A region without any of the six keys changes nothing; nor does a
      `"settings"` key without a following brace pair. */
  lemma ParseContentUnchanged(content: string, s: Settings)
    requires ScanRegion(content).None? ||
      (var r := ScanRegion(content).value;
       !HasKey(r, "defaultName") && !HasKey(r, "defaultPrefix") && !HasKey(r, "defaultDescription") &&
       !HasKey(r, "defaultOutputDir") && !HasKey(r, "defaultAppend") && !HasKey(r, "verbose"))
    ensures ParseContent(content, s) == s
  {
  }

  /** `parse`, from the point where the file has been opened (`fileOpened`) and
      read (`content`). */
  method Parse(fileOpened: bool, content: string, config: AppConfig) returns (ok: bool)
    modifies config
    ensures ok == fileOpened
    ensures config.settings == if fileOpened then ParseContent(content, old(config.settings)) else old(config.settings)
  {
    if !fileOpened {
      return false;
    }

    ghost var before := config.settings;
    var settingsPos := FindSub(content, "\"settings\"", 0);
    if settingsPos.Some? {
      var objStart := FindChar(content, '{', settingsPos.value);
      var objEnd := if objStart.Some? then FindChar(content, '}', objStart.value) else None;
      if objStart.Some? && objEnd.Some? {
        var settingsObj := content[objStart.value..objEnd.value + 1];
        assert ScanRegion(content) == Some(settingsObj);
        ReadInto(settingsObj, config);
        assert config.settings == ReadFields(settingsObj, before);
      } else {
        assert ScanRegion(content) == None;
      }
    } else {
      assert ScanRegion(content) == Some(content);
      ReadInto(content, config);
      assert config.settings == ReadFields(content, before);
    }
    return true;
  }

  /** The six guarded field updates `parse` applies to one region. */
  method ReadInto(region: string, config: AppConfig)
    modifies config
    ensures config.settings == ReadFields(region, old(config.settings))
  {
    ReadOne(region, Name, config);
    ReadOne(region, Prefix, config);
    ReadOne(region, Description, config);
    ReadOne(region, OutputDir, config);
    ReadOne(region, Append, config);
    ReadOne(region, Verbose, config);
  }

  /** One guarded update of `parse`. */
  method ReadOne(region: string, f: Field, config: AppConfig)
    modifies config
    ensures config.settings == ReadField(region, f, old(config.settings))
  {
    var key := KeyOf(f);
    if HasKey(region, key) {
      match f
      case Name => config.settings := config.settings.(defaultName := Some(ExtractString(region, key)));
      case Prefix => config.settings := config.settings.(defaultPrefix := Some(ExtractString(region, key)));
      case Description => config.settings := config.settings.(defaultDescription := Some(ExtractString(region, key)));
      case OutputDir => config.settings := config.settings.(defaultOutputDir := Some(ExtractString(region, key)));
      case Append =>
        var b := ExtractBool(region, key, false);
        config.settings := config.settings.(defaultAppend := b);
      case Verbose =>
        var b := ExtractBool(region, key, false);
        config.settings := config.settings.(verbose := b);
    }
  }

  // ---------------------------------------------------------------------
  // findConfigFile and loadConfig

  const LocalConfig: string := ".code2snippet.json"
  const LocalDirConfig: string := ".code2snippet/config.json"
  const SystemConfig: string := "/etc/code2snippet/config.json"

  function UserConfig(home: string): string {
    home + "/.config/code2snippet/config.json"
  }

  /** The paths `findConfigFile` tries, in order. */
  function Candidates(customPath: string, home: Option<string>): (r: seq<string>)
    ensures forall i :: 0 <= i < |r| ==> r[i] != []
  {
    (if customPath != [] then [customPath] else []) + StandardCandidates(home)
  }

  /** The paths tried after the one given on the command line. */
  function StandardCandidates(home: Option<string>): seq<string> {
    [LocalConfig, LocalDirConfig]
    + (if home.Some? then [UserConfig(home.value)] else [])
    + [SystemConfig]
  }

  /** The first path that exists, or "" when none does. */
  function FirstExisting(paths: seq<string>, fileExists: string -> bool): string {
    if paths == [] then ""
    else if fileExists(paths[0]) then paths[0]
    else FirstExisting(paths[1..], fileExists)
  }

  /** With non-empty paths, the result is "" exactly when no path exists,
      and otherwise the first path that exists. */
  lemma {:induction false} FirstExistingFirst(paths: seq<string>, fileExists: string -> bool)
    requires forall i :: 0 <= i < |paths| ==> paths[i] != []
    ensures var r := FirstExisting(paths, fileExists);
      && (r == [] <==> forall i :: 0 <= i < |paths| ==> !fileExists(paths[i]))
      && (r != [] ==> exists i :: 0 <= i < |paths| && paths[i] == r && fileExists(r)
                                  && forall j :: 0 <= j < i ==> !fileExists(paths[j]))
  {
    if paths != [] && !fileExists(paths[0]) {
      var rest := paths[1..];
      FirstExistingFirst(rest, fileExists);
      var r := FirstExisting(rest, fileExists);
      if r != [] {
        var i :| 0 <= i < |rest| && rest[i] == r && fileExists(r)
                 && forall j :: 0 <= j < i ==> !fileExists(rest[j]);
        assert paths[i + 1] == r;
        assert forall j :: 0 <= j < i + 1 ==> !fileExists(paths[j]) by {
          forall j | 0 <= j < i + 1 ensures !fileExists(paths[j]) {
            if j > 0 {
              assert paths[j] == rest[j - 1];
            }
          }
        }
      } else {
        assert forall i :: 0 <= i < |paths| ==> !fileExists(paths[i]) by {
          forall i | 0 <= i < |paths| ensures !fileExists(paths[i]) {
            if i > 0 {
              assert paths[i] == rest[i - 1];
            }
          }
        }
      }
    }
  }

  /** `findConfigFile`: `fileExists` stands for `fs::exists`, `home` for the
      value of `HOME` (None when unset); the path separator is `/`. */
  function FindConfigFile(customPath: string, fileExists: string -> bool, home: Option<string>): string {
    if customPath != [] && fileExists(customPath) then customPath
    else if fileExists(LocalConfig) then LocalConfig
    else if fileExists(LocalDirConfig) then LocalDirConfig
    else if home.Some? && fileExists(UserConfig(home.value)) then UserConfig(home.value)
    else if fileExists(SystemConfig) then SystemConfig
    else ""
  }

  lemma FirstExistingCons(p: string, rest: seq<string>, fileExists: string -> bool)
    ensures FirstExisting([p] + rest, fileExists) == if fileExists(p) then p else FirstExisting(rest, fileExists)
  {
    assert ([p] + rest)[1..] == rest;
  }

  /** The search tries the candidates in order. */
  lemma FindConfigFileIsFirst(customPath: string, fileExists: string -> bool, home: Option<string>)
    ensures FindConfigFile(customPath, fileExists, home) == FirstExisting(Candidates(customPath, home), fileExists)
  {
    StandardSearch(fileExists, home);
    if customPath != [] {
      FirstExistingCons(customPath, StandardCandidates(home), fileExists);
    } else {
      assert Candidates(customPath, home) == StandardCandidates(home);
    }
  }

  /** The search after the path given on the command line. */
  lemma StandardSearch(fileExists: string -> bool, home: Option<string>)
    ensures FirstExisting(StandardCandidates(home), fileExists) ==
      if fileExists(LocalConfig) then LocalConfig
      else if fileExists(LocalDirConfig) then LocalDirConfig
      else if home.Some? && fileExists(UserConfig(home.value)) then UserConfig(home.value)
      else if fileExists(SystemConfig) then SystemConfig
      else ""
  {
    var user := if home.Some? then [UserConfig(home.value)] else [];
    var tail := user + [SystemConfig];
    HomeSearch(fileExists, home);
    FirstExistingCons(LocalDirConfig, tail, fileExists);
    FirstExistingCons(LocalConfig, [LocalDirConfig] + tail, fileExists);
    assert StandardCandidates(home) == [LocalConfig] + ([LocalDirConfig] + tail);
  }

  lemma HomeSearch(fileExists: string -> bool, home: Option<string>)
    ensures FirstExisting((if home.Some? then [UserConfig(home.value)] else []) + [SystemConfig], fileExists) ==
      if home.Some? && fileExists(UserConfig(home.value)) then UserConfig(home.value)
      else if fileExists(SystemConfig) then SystemConfig
      else ""
  {
    FirstExistingCons(SystemConfig, [], fileExists);
    if home.Some? {
      FirstExistingCons(UserConfig(home.value), [SystemConfig], fileExists);
    } else {
      assert [] + [SystemConfig] == [SystemConfig];
    }
  }

  /** So the search finds nothing exactly when no candidate exists, and
      otherwise returns the first candidate that does. */
  lemma FindConfigFileFirst(customPath: string, fileExists: string -> bool, home: Option<string>)
    ensures var r, c := FindConfigFile(customPath, fileExists, home), Candidates(customPath, home);
      && (r == [] <==> forall i :: 0 <= i < |c| ==> !fileExists(c[i]))
      && (r != [] ==> exists i :: 0 <= i < |c| && c[i] == r && fileExists(r)
                                  && forall j :: 0 <= j < i ==> !fileExists(c[j]))
  {
    FindConfigFileIsFirst(customPath, fileExists, home);
    FirstExistingFirst(Candidates(customPath, home), fileExists);
  }

  /** `loadConfig`. `canOpen` says whether a path can be opened and
      `readText` gives its content. */
  method LoadConfig(config: AppConfig, customPath: string, fileExists: string -> bool, home: Option<string>,
                    canOpen: string -> bool, readText: string -> string) returns (ok: bool)
    modifies config
    ensures var path := FindConfigFile(customPath, fileExists, home);
      && (path == [] ==> !ok && config.settings == old(config.settings))
      && (path != [] ==>
            && ok == canOpen(path)
            && config.settings == if ok then ParseContent(readText(path), old(config.settings)) else old(config.settings))
  {
    var configPath := FindConfigFile(customPath, fileExists, home);
    if configPath == [] {
      return false;
    }
    ok := Parse(canOpen(configPath), readText(configPath), config);
  }
}
