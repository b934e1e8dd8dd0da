/** The snippet side of src/main.cpp: the record derived from the input's
    base name, its rendering as an object fragment, and the textual merge of
    a fragment into an existing snippets document. */
module Snippet {
  import opened Text
  import opened JsonEscape

  /** `SnippetConfig`: the snippet's key, trigger prefix and description. */
  datatype SnippetConfig = SnippetConfig(name: string, prefix: string, description: string)

  // ---------------------------------------------------------------------
  // Name, prefix and description derived from the base name.

  /** `getBaseName`, given the stem `fs::path::stem` produced: an empty stem
      is replaced by "snippet". */
  function GetBaseName(stem: string): (name: string)
    ensures name != []
    ensures name == (if stem == [] then "snippet" else stem)
  {
    if stem == [] then "snippet" else stem
  }

  /** First pass over the prefix: `_` and `-` become a space, every other
      character is lower-cased. */
  function PrefixChar(c: char): char {
    if c == '_' || c == '-' then ' ' else ToLower(c)
  }

  function Lowered(s: string): (r: string)
    ensures |r| == |s| && forall i :: 0 <= i < |s| ==> r[i] == PrefixChar(s[i])
  {
    seq(|s|, i requires 0 <= i < |s| => PrefixChar(s[i]))
  }

  /** Second pass: a space directly after a space is dropped, every other
      character is kept. Defined from the end of the text, as the loop that
      builds `cleanedPrefix` sees it. */
  function Collapse(s: string): string {
    if s == [] then []
    else if |s| >= 2 && s[|s| - 1] == ' ' && s[|s| - 2] == ' ' then Collapse(s[..|s| - 1])
    else Collapse(s[..|s| - 1]) + [s[|s| - 1]]
  }

  predicate NoDoubleSpace(s: string) {
    forall i :: 0 <= i < |s| - 1 ==> !(s[i] == ' ' && s[i + 1] == ' ')
  }

  /** What a derived prefix looks like. */
  predicate WellFormedPrefix(p: string) {
    && NoDoubleSpace(p)
    && (forall i :: 0 <= i < |p| ==> p[i] != '_' && p[i] != '-' && !IsUpper(p[i]))
  }

  /** Collapsing keeps the first and the last character, and only ever drops
      characters: it is no longer than its input and every character of the
      result comes from the input. */
  lemma {:induction false} CollapseBounds(s: string)
    ensures |Collapse(s)| <= |s|
    ensures s != [] ==> Collapse(s) != [] && Collapse(s)[0] == s[0]
    ensures s != [] ==> Collapse(s)[|Collapse(s)| - 1] == s[|s| - 1]
    ensures forall k :: 0 <= k < |Collapse(s)| ==> Collapse(s)[k] in s
  {
    if s != [] {
      var init := s[..|s| - 1];
      CollapseBounds(init);
      assert forall c :: c in init ==> c in s;
      if |s| >= 2 && s[|s| - 1] == ' ' && s[|s| - 2] == ' ' {
        assert init[|init| - 1] == ' ';
      }
    }
  }

  /** The collapsed text never holds two consecutive spaces. */
  lemma {:induction false} CollapseNoDoubleSpace(s: string)
    ensures NoDoubleSpace(Collapse(s))
  {
    if s != [] {
      var init := s[..|s| - 1];
      CollapseNoDoubleSpace(init);
      CollapseBounds(init);
    }
  }

  /** A text without two consecutive spaces is left as it is. */
  lemma {:induction false} CollapseFixed(s: string)
    requires NoDoubleSpace(s)
    ensures Collapse(s) == s
  {
    if s != [] {
      var init := s[..|s| - 1];
      assert NoDoubleSpace(init);
      CollapseFixed(init);
      assert init + [s[|s| - 1]] == s;
    }
  }

  /** Running the space-collapse pass a second time changes nothing. */
  lemma CollapseIdempotent(s: string)
    ensures Collapse(Collapse(s)) == Collapse(s)
  {
    CollapseNoDoubleSpace(s);
    CollapseFixed(Collapse(s));
  }

  /** The derived prefix has no `_`, no `-`, no upper-case letter and no two
      consecutive spaces, and is never longer than the base name. */
  lemma DerivedPrefixWellFormed(name: string)
    ensures WellFormedPrefix(Collapse(Lowered(name)))
    ensures |Collapse(Lowered(name))| <= |name|
  {
    var low := Lowered(name);
    CollapseNoDoubleSpace(low);
    CollapseBounds(low);
    var p := Collapse(low);
    forall i | 0 <= i < |p|
      ensures p[i] != '_' && p[i] != '-' && !IsUpper(p[i])
    {
      assert p[i] in low;
      var j :| 0 <= j < |low| && low[j] == p[i];
      assert low[j] == PrefixChar(name[j]);
    }
  }

  /** `generateConfigFromFilename`, given the stem of the input path. */
  method GenerateConfigFromFilename(stem: string) returns (config: SnippetConfig)
    ensures config.name == GetBaseName(stem)
    ensures config.prefix == Collapse(Lowered(config.name))
    ensures config.description == "Code snippet from " + config.name
    ensures WellFormedPrefix(config.prefix) && |config.prefix| <= |config.name|
  {
    var baseName := GetBaseName(stem);

    // Lower-case, and turn underscores and hyphens into spaces, in place.
    var prefix := baseName;
    for i := 0 to |prefix|
      invariant |prefix| == |baseName|
      invariant forall k :: 0 <= k < i ==> prefix[k] == PrefixChar(baseName[k])
      invariant forall k :: i <= k < |prefix| ==> prefix[k] == baseName[k]
    {
      var c := prefix[i];
      if c == '_' || c == '-' {
        prefix := prefix[i := ' '];
      } else {
        prefix := prefix[i := ToLower(c)];
      }
    }
    assert prefix == Lowered(baseName);

    // Drop every space that follows a space.
    var cleanedPrefix := [];
    var prevSpace := false;
    for i := 0 to |prefix|
      invariant prevSpace == (i > 0 && prefix[i - 1] == ' ')
      invariant cleanedPrefix == Collapse(prefix[..i])
    {
      var c := prefix[i];
      assert prefix[..i + 1][..i] == prefix[..i];
      if c == ' ' {
        if !prevSpace {
          cleanedPrefix := cleanedPrefix + [c];
        }
        prevSpace := true;
      } else {
        cleanedPrefix := cleanedPrefix + [c];
        prevSpace := false;
      }
    }
    assert prefix[..|prefix|] == prefix;
    DerivedPrefixWellFormed(baseName);

    config := SnippetConfig(baseName, cleanedPrefix, "Code snippet from " + baseName);
  }

  // ---------------------------------------------------------------------
  // The snippet object fragment.

  /** A body line in JSON quotes, escaped and indented. */
  function QuotedLine(line: string): string {
    "      \"" + Escape(line) + "\""
  }

  function QuotedLines(lines: seq<string>): (r: seq<string>)
    ensures |r| == |lines| && forall i :: 0 <= i < |lines| ==> r[i] == QuotedLine(lines[i])
  {
    seq(|lines|, i requires 0 <= i < |lines| => QuotedLine(lines[i]))
  }

  /** The first `k` elements of the `body` array, as the counted loop of
      `generateSnippetJson` writes them: each item, a comma unless it is the
      last one, and a newline. */
  function BodyText(items: seq<string>, k: nat): string
    requires k <= |items|
  {
    if k == 0 then "" else BodyText(items, k - 1) + items[k - 1] + (if k == |items| then "" else ",") + "\n"
  }

  function Header(name: string): string {
    "  \"" + Escape(name) + "\": {\n"
  }

  function Opening(config: SnippetConfig): string {
    Header(config.name) + "    \"prefix\": \"" + Escape(config.prefix) + "\",\n" + "    \"body\": [\n"
  }

  function Closing(config: SnippetConfig): string {
    "    ],\n" + "    \"description\": \"" + Escape(config.description) + "\"\n" + "  }"
  }

  /** The fragment `generateSnippetJson` produces. */
  function SnippetJson(config: SnippetConfig, lines: seq<string>): string {
    Opening(config) + BodyText(QuotedLines(lines), |lines|) + Closing(config)
  }

  /** The elements `xs` separated by `sep`. */
  function Join(xs: seq<string>, sep: string): string {
    if xs == [] then ""
    else if |xs| == 1 then xs[0]
    else xs[0] + sep + Join(xs[1..], sep)
  }

  lemma {:induction false} JoinSnoc(xs: seq<string>, x: string, sep: string)
    requires xs != []
    ensures Join(xs + [x], sep) == Join(xs, sep) + sep + x
  {
    if |xs| == 1 {
      assert (xs + [x])[1..] == [x];
    } else {
      assert (xs + [x])[1..] == xs[1..] + [x];
      JoinSnoc(xs[1..], x, sep);
    }
  }

  /** The first `k` body elements, when the last of them is not the last
      item, are the first `k` items joined by ",\n", then ",\n". */
  lemma {:induction false} BodyTextPrefix(items: seq<string>, k: nat)
    requires 0 < k < |items|
    ensures BodyText(items, k) == Join(items[..k], ",\n") + ",\n"
  {
    if k == 1 {
      assert items[..1] == [items[0]];
    } else {
      BodyTextPrefix(items, k - 1);
      assert items[..k] == items[..k - 1] + [items[k - 1]];
      JoinSnoc(items[..k - 1], items[k - 1], ",\n");
    }
  }

  /** The body holds exactly the items, in order, separated by ",\n", the
      last one followed by a bare newline; no items give no text. */
  lemma {:induction false} BodyTextJoin(items: seq<string>)
    ensures BodyText(items, |items|) == if items == [] then "" else Join(items, ",\n") + "\n"
  {
    var n := |items|;
    if n == 1 {
      assert BodyText(items, 1) == BodyText(items, 0) + items[0] + "" + "\n";
    } else if n > 1 {
      var init, last := items[..n - 1], items[n - 1];
      BodyTextPrefix(items, n - 1);
      assert items == init + [last];
      JoinSnoc(init, last, ",\n");
      assert BodyText(items, n) == BodyText(items, n - 1) + last + "" + "\n";
      assert BodyText(items, n) == (Join(init, ",\n") + ",\n") + last + "\n";
    }
  }

  function CountNewlines(s: string): nat {
    if s == [] then 0 else (if s[0] == '\n' then 1 else 0) + CountNewlines(s[1..])
  }

  lemma {:induction false} CountNewlinesAppend(a: string, b: string)
    ensures CountNewlines(a + b) == CountNewlines(a) + CountNewlines(b)
  {
    if a == [] {
      assert a + b == b;
    } else {
      assert (a + b)[0] == a[0];
      assert (a + b)[1..] == a[1..] + b;
      CountNewlinesAppend(a[1..], b);
    }
  }

  /** A quoted line holds no newline: its escaped text has no control
      character. */
  lemma QuotedLineNoNewline(line: string)
    ensures CountNewlines(QuotedLine(line)) == 0
  {
    EscapeNoControl(line);
    NoControlNoNewline(Escape(line));
    CountNewlinesAppend("      \"", Escape(line));
    CountNewlinesAppend("      \"" + Escape(line), "\"");
  }

  lemma {:induction false} NoControlNoNewline(s: string)
    requires forall k :: 0 <= k < |s| ==> s[k] >= ' '
    ensures CountNewlines(s) == 0
  {
    if s != [] {
      NoControlNoNewline(s[1..]);
    }
  }

  /** Items without newlines give one text line per item. */
  lemma {:induction false} BodyTextLineCount(items: seq<string>, k: nat)
    requires k <= |items|
    requires forall i :: 0 <= i < |items| ==> CountNewlines(items[i]) == 0
    ensures CountNewlines(BodyText(items, k)) == k
  {
    if k > 0 {
      BodyTextLineCount(items, k - 1);
      var tail: string := if k == |items| then "" else ",";
      assert CountNewlines(tail) == 0;
      CountNewlinesAppend(BodyText(items, k - 1), items[k - 1]);
      CountNewlinesAppend(BodyText(items, k - 1) + items[k - 1], tail);
      CountNewlinesAppend(BodyText(items, k - 1) + items[k - 1] + tail, "\n");
    }
  }

  /** The body array of a fragment spans exactly one text line per input
      line, and lists the quoted, escaped lines in order. */
  lemma SnippetBody(lines: seq<string>)
    ensures CountNewlines(BodyText(QuotedLines(lines), |lines|)) == |lines|
    ensures BodyText(QuotedLines(lines), |lines|) ==
              if lines == [] then "" else Join(QuotedLines(lines), ",\n") + "\n"
  {
    var q := QuotedLines(lines);
    forall i | 0 <= i < |q| ensures CountNewlines(q[i]) == 0 {
      QuotedLineNoNewline(lines[i]);
    }
    BodyTextLineCount(q, |q|);
    BodyTextJoin(q);
  }

  lemma AppendAssoc(a: string, b: string, c: string)
    ensures (a + b) + c == a + (b + c)
  {
  }

  lemma PrefixOfAppend(a: string, b: string)
    ensures |a + b| >= |a| && (a + b)[..|a|] == a
  {
  }

  lemma SuffixOfAppend(a: string, b: string)
    ensures |a + b| >= |b| && (a + b)[|a + b| - |b|..] == b
  {
  }

  /** The fragment opens with the quoted, escaped name and ends with the
      closing brace of the object, with no trailing newline. */
  lemma SnippetJsonShape(config: SnippetConfig, lines: seq<string>)
    ensures var j := SnippetJson(config, lines);
      && |j| >= |Header(config.name)| + 4
      && j[..|Header(config.name)|] == "  \"" + Escape(config.name) + "\": {\n"
      && j[|j| - 4..] == "\n  }"
  {
    SnippetJsonStart(config, lines);
    SnippetJsonEnd(config, lines);
  }

  lemma SnippetJsonStart(config: SnippetConfig, lines: seq<string>)
    ensures var j, h := SnippetJson(config, lines), Header(config.name);
      |j| >= |h| && j[..|h|] == h
  {
    var h, c := Header(config.name), Closing(config);
    var rest := "    \"prefix\": \"" + Escape(config.prefix) + "\",\n" + "    \"body\": [\n"
      + BodyText(QuotedLines(lines), |lines|);
    AppendAssoc(h, rest, c);
    PrefixOfAppend(h, rest + c);
  }

  lemma SnippetJsonEnd(config: SnippetConfig, lines: seq<string>)
    ensures var j := SnippetJson(config, lines);
      |j| >= |Header(config.name)| + 4 && j[|j| - 4..] == "\n  }"
  {
    var c := Closing(config);
    var front := "    ],\n" + "    \"description\": \"" + Escape(config.description) + "\"";
    assert c == front + "\n  }";
    AppendAssoc(Opening(config) + BodyText(QuotedLines(lines), |lines|), front, "\n  }");
    SuffixOfAppend(Opening(config) + BodyText(QuotedLines(lines), |lines|) + front, "\n  }");
  }

  /** An empty body is written as an empty array. */
  lemma SnippetJsonEmptyBody(config: SnippetConfig)
    ensures SnippetJson(config, []) ==
              Opening(config) + "    ],\n" + "    \"description\": \"" + Escape(config.description) + "\"\n" + "  }"
  {
    assert BodyText(QuotedLines([]), 0) == "";
    assert Opening(config) + "" == Opening(config);
  }

  /** One pass of the body loop extends the body by one element. */
  lemma BodyStep(opening: string, items: seq<string>, i: nat, written: string, sep: string)
    requires i < |items|
    requires sep == if i + 1 == |items| then "" else ","
    requires written == opening + BodyText(items, i)
    ensures written + items[i] + sep + "\n" == opening + BodyText(items, i + 1)
  {
    AppendAssoc(opening, BodyText(items, i), items[i]);
    AppendAssoc(opening, BodyText(items, i) + items[i], sep);
    AppendAssoc(opening, BodyText(items, i) + items[i] + sep, "\n");
  }

  lemma ClosingStep(written: string, config: SnippetConfig)
    ensures written + "    ],\n" + ("    \"description\": \"" + Escape(config.description) + "\"\n") + "  }"
            == written + Closing(config)
  {
    var a, b, c := "    ],\n", "    \"description\": \"" + Escape(config.description) + "\"\n", "  }";
    AppendAssoc(written, a, b);
    AppendAssoc(written, a + b, c);
  }

  /** `generateSnippetJson`: the record's three fields escaped once, then
      the body written line by line. */
  method GenerateSnippetJson(config: SnippetConfig, contentLines: seq<string>) returns (json: string)
    ensures json == SnippetJson(config, contentLines)
  {
    var escapedName := EscapeForJson(config.name);
    var escapedPrefix := EscapeForJson(config.prefix);
    var escapedDesc := EscapeForJson(config.description);

    json := "  \"" + escapedName + "\": {\n";
    json := json + "    \"prefix\": \"" + escapedPrefix + "\",\n";
    json := json + "    \"body\": [\n";
    ghost var items := QuotedLines(contentLines);

    for i := 0 to |contentLines|
      invariant json == Opening(config) + BodyText(items, i)
    {
      ghost var before := json;
      var line := EscapeForJson(contentLines[i]);
      json := json + ("      \"" + line + "\"");
      var sep: string := "";
      if i < |contentLines| - 1 {
        json := json + ",";
        sep := ",";
      }
      json := json + "\n";
      BodyStep(Opening(config), items, i, before, sep);
    }

    ClosingStep(json, config);
    json := json + "    ],\n";
    json := json + ("    \"description\": \"" + escapedDesc + "\"\n");
    json := json + "  }";
    AppendAssoc(Opening(config), BodyText(items, |items|), Closing(config));
  }

  // ---------------------------------------------------------------------
  // Merging a fragment into an existing document.

  /** The text with its trailing white space removed. */
  function TrimEnd(s: string): (r: string)
    ensures |r| <= |s| && r == s[..|r|]
    ensures r == [] || !IsSpace(r[|r| - 1])
    ensures forall k :: |r| <= k < |s| ==> IsSpace(s[k])
  {
    if s != [] && IsSpace(s[|s| - 1]) then TrimEnd(s[..|s| - 1]) else s
  }

  /** The existing document "opened": trailing white space removed, then one
      closing brace if that is the last character, then the white space
      before it. */
  function Opened(existing: string): (r: string)
    ensures |r| <= |existing| && r == existing[..|r|]
    ensures r == [] || !IsSpace(r[|r| - 1])
  {
    var t := TrimEnd(existing);
    if t != [] && t[|t| - 1] == '}' then TrimEnd(t[..|t| - 1]) else t
  }

  /** What opening removes is white space and at most one `}`, and that
      brace is the last character that is not white space. */
  lemma OpenedRemoves(existing: string)
    ensures var o, t := Opened(existing), TrimEnd(existing);
      && |o| <= |t|
      && (forall k :: |o| <= k < |existing| && k != |t| - 1 ==> IsSpace(existing[k]))
      && (|o| < |t| ==> existing[|t| - 1] == '}')
  {
    var t := TrimEnd(existing);
    if t != [] && t[|t| - 1] == '}' {
      var u := t[..|t| - 1];
      var o := TrimEnd(u);
      assert Opened(existing) == o;
      forall k | |o| <= k < |u|
        ensures IsSpace(existing[k])
      {
        assert existing[k] == u[k];
      }
    }
  }

  /** The document that holds `snippet` alone. */
  function Wrap(snippet: string): string {
    "{\n" + snippet + "\n}\n"
  }

  /** The text `mergeSnippets` returns: the fragment alone in braces when
      the opened document is empty or just `{`, otherwise the opened
      document, a comma, the fragment and a new closing brace. */
  function Merge(existing: string, snippet: string): string {
    var o := Opened(existing);
    if o == [] || o == "{" then Wrap(snippet) else o + ",\n" + snippet + "\n}\n"
  }

  /** Every merge ends with a closing brace on a line of its own; unless it
      starts afresh, it keeps the opened document verbatim in front. */
  lemma MergeShape(existing: string, snippet: string)
    ensures var r := Merge(existing, snippet);
      |r| >= 3 && r[|r| - 3..] == "\n}\n"
    ensures var r, o := Merge(existing, snippet), Opened(existing);
      o != [] && o != "{" ==> |o| <= |r| && r[..|o|] == o && r[|o|..] == ",\n" + snippet + "\n}\n"
  {
    var r, o := Merge(existing, snippet), Opened(existing);
    if o != [] && o != "{" {
      AppendAssoc(o, ",\n" + snippet, "\n}\n");
      AppendAssoc(o, ",\n", snippet);
      assert r == o + (",\n" + snippet + "\n}\n");
    }
  }

  /** `mergeSnippets`. */
  method MergeSnippets(existing: string, newSnippet: string) returns (merged: string)
    ensures merged == Merge(existing, newSnippet)
  {
    var trimmedExisting := existing;
    while trimmedExisting != [] && IsSpace(trimmedExisting[|trimmedExisting| - 1])
      invariant TrimEnd(trimmedExisting) == TrimEnd(existing)
    {
      trimmedExisting := trimmedExisting[..|trimmedExisting| - 1];
    }

    if trimmedExisting == [] {
      return "{\n" + newSnippet + "\n}\n";
    }

    if trimmedExisting[|trimmedExisting| - 1] == '}' {
      trimmedExisting := trimmedExisting[..|trimmedExisting| - 1];
      ghost var unclosed := trimmedExisting;
      while trimmedExisting != [] && IsSpace(trimmedExisting[|trimmedExisting| - 1])
        invariant TrimEnd(trimmedExisting) == TrimEnd(unclosed)
      {
        trimmedExisting := trimmedExisting[..|trimmedExisting| - 1];
      }
    }

    if trimmedExisting == [] || trimmedExisting == "{" {
      return "{\n" + newSnippet + "\n}\n";
    }

    merged := trimmedExisting + ",\n" + newSnippet + "\n}\n";
  }

  /** Empty or white-space-only existing text gives the fragment alone. */
  lemma MergeIntoBlank(existing: string, snippet: string)
    requires forall k :: 0 <= k < |existing| ==> IsSpace(existing[k])
    ensures Merge(existing, snippet) == Wrap(snippet)
  {
    assert TrimEnd(existing) == [];
  }

  /** The same holds when only `{` or `{}` stands before the white space: an
      empty object is started afresh. */
  lemma MergeIntoEmptyObject(ws1: string, ws2: string, snippet: string)
    requires forall k :: 0 <= k < |ws1| ==> IsSpace(ws1[k])
    requires forall k :: 0 <= k < |ws2| ==> IsSpace(ws2[k])
    ensures Merge("{" + ws1 + "}" + ws2, snippet) == Wrap(snippet)
    ensures Merge("{" + ws1, snippet) == Wrap(snippet)
  {
    TrimSpaces("{" + ws1 + "}", ws2);
    assert ("{" + ws1 + "}")[..|"{" + ws1 + "}"| - 1] == "{" + ws1;
    TrimSpaces("{", ws1);
  }

  /** Trailing white space goes, and nothing before it. */
  lemma {:induction false} TrimSpaces(t: string, ws: string)
    requires t != [] && !IsSpace(t[|t| - 1])
    requires forall k :: 0 <= k < |ws| ==> IsSpace(ws[k])
    ensures TrimEnd(t + ws) == t
  {
    if ws == [] {
      assert t + ws == t;
    } else {
      var u := t + ws;
      assert u[|u| - 1] == ws[|ws| - 1];
      assert u[..|u| - 1] == t + ws[..|ws| - 1];
      TrimSpaces(t, ws[..|ws| - 1]);
    }
  }

  /** The text that overwrite mode writes is the merge into an empty file. */
  lemma OverwriteIsMergeIntoEmpty(snippet: string)
    ensures Merge("", snippet) == Wrap(snippet)
  {
  }

  /** Merging into a one-object document `{\n<entries>\n}\n` keeps the
      entries verbatim and joins the fragment after a comma. */
  lemma MergeIntoObject(entries: string, snippet: string)
    requires Fragment(entries)
    ensures Merge(Wrap(entries), snippet) == Wrap(entries + ",\n" + snippet)
  {
    var body := "{\n" + entries;
    assert body[|body| - 1] == entries[|entries| - 1];
    var closed := body + "\n}";
    assert closed[|closed| - 1] == '}';
    TrimSpaces(closed, "\n");
    assert Wrap(entries) == closed + "\n";
    assert closed[..|closed| - 1] == body + "\n";
    TrimSpaces(body, "\n");
    assert Opened(Wrap(entries)) == body;
    assert |body| >= 2;
    assert body + ",\n" + snippet + "\n}\n" == Wrap(entries + ",\n" + snippet);
  }

  /** A fragment in the sense of the merge: non-empty and not ending in
      white space, as every generated snippet is. */
  predicate Fragment(s: string) {
    s != [] && !IsSpace(s[|s| - 1])
  }

  predicate Fragments(ss: seq<string>) {
    forall i :: 0 <= i < |ss| ==> Fragment(ss[i])
  }

  lemma FragmentsTail(ss: seq<string>)
    requires ss != [] && Fragments(ss)
    ensures Fragment(ss[0]) && Fragments(ss[1..])
  {
    forall i | 0 <= i < |ss| - 1 ensures Fragment(ss[1..][i]) {
      assert ss[1..][i] == ss[i + 1];
    }
  }

  /** Appending fragments one by one, as repeated runs in append mode do. */
  function AppendAll(existing: string, snippets: seq<string>): string
    decreases |snippets|
  {
    if snippets == [] then existing
    else AppendAll(Merge(existing, snippets[0]), snippets[1..])
  }

  lemma JoinFront(x: string, xs: seq<string>, sep: string)
    ensures Join([x] + xs, sep) == if xs == [] then x else x + sep + Join(xs, sep)
  {
    if xs != [] {
      assert ([x] + xs)[1..] == xs;
    }
  }

  lemma JoinFirstTwo(x: string, y: string, rest: seq<string>, sep: string)
    ensures Join([x + sep + y] + rest, sep) == Join([x, y] + rest, sep)
  {
    JoinFront(x + sep + y, rest, sep);
    assert ([x, y] + rest)[1..] == [y] + rest;
    JoinFront(y, rest, sep);
    if rest != [] {
      AppendAssoc(x + sep, y, sep + Join(rest, sep));
      AppendAssoc(x + sep + y, sep, Join(rest, sep));
    }
  }

  /** Appending to a one-object document keeps every fragment, in order,
      comma-separated inside the one pair of braces. */
  lemma {:induction false} AppendAllFrom(entries: string, snippets: seq<string>)
    requires Fragment(entries)
    requires Fragments(snippets)
    ensures AppendAll(Wrap(entries), snippets) == Wrap(Join([entries] + snippets, ",\n"))
    decreases |snippets|
  {
    if snippets == [] {
      assert [entries] + snippets == [entries];
    } else {
      var s0, more := snippets[0], snippets[1..];
      FragmentsTail(snippets);
      AppendStep(entries, s0, more);
      AppendAllFrom(entries + ",\n" + s0, more);
      JoinFirstTwo(entries, s0, more, ",\n");
      assert [entries, s0] + more == [entries] + snippets;
    }
  }

  /** One append to a one-object document gives a one-object document. */
  lemma AppendStep(entries: string, s0: string, more: seq<string>)
    requires Fragment(entries) && Fragment(s0)
    ensures Fragment(entries + ",\n" + s0)
    ensures AppendAll(Wrap(entries), [s0] + more) == AppendAll(Wrap(entries + ",\n" + s0), more)
  {
    MergeIntoObject(entries, s0);
    var next := entries + ",\n" + s0;
    assert next[|next| - 1] == s0[|s0| - 1];
    assert ([s0] + more)[1..] == more;
  }

  /** Starting from no file at all, n appends give the n fragments in one
      object. */
  lemma AppendAllToEmpty(snippets: seq<string>)
    requires Fragments(snippets)
    ensures AppendAll("", snippets) == if snippets == [] then "" else Wrap(Join(snippets, ",\n"))
  {
    if snippets != [] {
      AppendFirst(snippets);
      FragmentsTail(snippets);
      AppendAllFrom(snippets[0], snippets[1..]);
      assert [snippets[0]] + snippets[1..] == snippets;
    }
  }

  /** The first append to no file writes the first fragment on its own. */
  lemma AppendFirst(snippets: seq<string>)
    requires snippets != []
    ensures AppendAll("", snippets) == AppendAll(Wrap(snippets[0]), snippets[1..])
  {
    OverwriteIsMergeIntoEmpty(snippets[0]);
  }

  /** Every generated fragment ends in `}`, so it can be appended like this. */
  lemma SnippetJsonIsFragment(config: SnippetConfig, lines: seq<string>)
    ensures Fragment(SnippetJson(config, lines))
  {
    SnippetJsonShape(config, lines);
    var j := SnippetJson(config, lines);
    assert j[|j| - 1] == j[|j| - 4..][3];
  }
}
